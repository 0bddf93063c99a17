/** What each party of the worker pool does when it runs by itself (wpool/stack.go), from any state that
    the others may have left: when a task is accepted, where a worker goes after its task, and whom Stop
    and the cleaner send away. */
module WorkerCalls {
  import opened Lists
  import opened Steps
  import opened WorkerStack

  // ---------------------------------------------------------------- submitters

  /** The next step of submission p; w is the channel it gets if it starts a worker, and an impatient one
      has no time to wait. */
  function NextSub(s: State, p: int, w: nat, impatient: bool): State
  {
    if p !in s.subs then s else
    var l := match s.subs[p].pc
      case Check => ReadStopped(p)
      case Pop => TryPop(p, impatient)
      case Grow => LoadRunning(p, impatient)
      case Swap(_) => CasRunning(p)
      case Begin => StartWorker(p, w)
      case Wait => Retry(p, false)
      case Send(_) => SendTask(p);
    if Enabled(s, l) then Apply(s, l) else s
  }

  function Submission(p: int, w: nat, impatient: bool): State -> State {
    s => NextSub(s, p, w, impatient)
  }

  /** A channel that a new worker may get: a pooled one or a new one. */
  predicate Spare(s: State, w: nat) {
    w == |s.chans| || (w < |s.chans| && w in s.pool)
  }

  /** The pool runs, and there is an idle worker or room for a new one. */
  predicate Acceptable(s: State) {
    !s.stopped && (s.ready != [] || s.max <= 0 || s.running < s.max)
  }

  /** The task of p sits in channel w, and the call is over. */
  predicate Sent(s: State, p: int, w: nat) {
    p !in s.subs && p in s.placed && s.placed[p] == Some(w) && w < |s.chans| && s.chans[w].msg == Some(Task(p))
  }

  lemma SendAlone(s: State, p: int, w: nat, imp: bool) returns (e: State)
    requires p in s.subs && s.subs[p].pc.Send? && !s.subs[p].isNil && |s.owner| == |s.chans|
    requires var v := s.subs[p].pc.w; v < |s.chans| && s.chans[v].msg == None
    ensures Leads(Submission(p, w, imp), s, e) && Sent(e, p, s.subs[p].pc.w)
    ensures e == s.(chans := e.chans, owner := e.owner, subs := s.subs - {p}, placed := e.placed)
    ensures e.placed == s.placed[p := Some(s.subs[p].pc.w)]
  {
    e := NextSub(s, p, w, imp);
    LeadsOne(Submission(p, w, imp), s);
  }

  /** With an idle worker on the stack, the task goes to the one that came back last. */
  lemma PopAlone(s: State, p: int, w: nat, imp: bool) returns (e: State)
    requires p in s.subs && s.subs[p].pc in {Pop, Wait} && !s.subs[p].isNil && s.lock == Free && !s.stopped
    requires s.ready != [] && |s.owner| == |s.chans|
    requires var v := s.ready[|s.ready| - 1]; v < |s.chans| && s.chans[v].msg == None
    ensures Leads(Submission(p, w, imp), s, e) && Sent(e, p, s.ready[|s.ready| - 1])
    ensures e.ready == s.ready[..|s.ready| - 1] && e.running == s.running && e.stopped == s.stopped
  {
    var a := NextSub(s, p, w, imp);
    LeadsOne(Submission(p, w, imp), s);
    assert a == PopReady(s, p);
    e := SendAlone(a, p, w, imp);
    LeadsOn(Submission(p, w, imp), s, a, e);
  }

  /** Once counted, the submission starts a worker and sends it the task. */
  lemma BeginAlone(s: State, p: int, w: nat, imp: bool) returns (e: State)
    requires p in s.subs && s.subs[p].pc == Begin && !s.subs[p].isNil && |s.owner| == |s.chans| && Spare(s, w)
    requires w < |s.chans| ==> s.chans[w].msg == None
    ensures Leads(Submission(p, w, imp), s, e) && Sent(e, p, w)
    ensures e.ready == s.ready && e.running == s.running && e.stopped == s.stopped
  {
    var a := NextSub(s, p, w, imp);
    LeadsOne(Submission(p, w, imp), s);
    assert a == Apply(s, StartWorker(p, w));
    e := SendAlone(a, p, w, imp);
    LeadsOn(Submission(p, w, imp), s, a, e);
  }

  /** Below the limit, or without one, running goes up by one. */
  lemma GrowAlone(s: State, p: int, w: nat, imp: bool) returns (e: State)
    requires p in s.subs && s.subs[p].pc == Grow && (s.max <= 0 || s.running < s.max) && |s.owner| == |s.chans|
    ensures Leads(Submission(p, w, imp), s, e)
    ensures e == SetSub(s, p, Begin).(running := s.running + 1, begun := s.begun + {p})
  {
    var step := Submission(p, w, imp);
    var a := NextSub(s, p, w, imp);
    LeadsOne(step, s);
    e := a;
    if s.max > 0 {
      assert a == SetSub(s, p, Swap(s.running));
      e := NextSub(a, p, w, imp);
      LeadsOne(step, a);
      LeadsOn(step, s, a, e);
      assert a.subs[p := a.subs[p].(pc := Begin)] == s.subs[p := s.subs[p].(pc := Begin)];
    }
  }

  /** A count that has changed since it was loaded is loaded again: while there is room, the submission is
      counted all the same. */
  lemma StaleCount(s: State, p: int, w: nat, imp: bool) returns (e: State)
    requires p in s.subs && s.subs[p].pc.Swap? && s.subs[p].pc.seen != s.running && |s.owner| == |s.chans|
    requires s.max <= 0 || s.running < s.max
    ensures Leads(Submission(p, w, imp), s, e)
    ensures e == SetSub(s, p, Begin).(running := s.running + 1, begun := s.begun + {p})
  {
    var a := NextSub(s, p, w, imp);
    LeadsOne(Submission(p, w, imp), s);
    assert a == SetSub(s, p, Grow);
    e := GrowAlone(a, p, w, imp);
    LeadsOn(Submission(p, w, imp), s, a, e);
    assert a.subs[p := a.subs[p].(pc := Begin)] == s.subs[p := s.subs[p].(pc := Begin)];
  }

  /** What an unlocked pool looks like to a new submission. */
  ghost predicate Settled(s: State, p: int, w: nat)
  {
    && s.lock == Free && p !in s.used && Spare(s, w) && |s.owner| == |s.chans| && p !in s.subs
    && (forall i :: 0 <= i < |s.ready| ==> s.ready[i] < |s.chans| && s.chans[s.ready[i]].msg == None)
    && (w < |s.chans| ==> s.chans[w].msg == None)
  }

  lemma Unlocked(s: State, p: int, w: nat)
    requires Reachable(s) && s.lock == Free && p !in s.used && Spare(s, w)
    ensures Settled(s, p, w)
  {
    ReachableInv(s);
    assert Owned(s) == s.ready;
    assert p in s.subs ==> SubOk(s, p);
    forall i | 0 <= i < |s.ready| ensures s.ready[i] < |s.chans| && s.chans[s.ready[i]].msg == None {
      assert ChanOk(s, Owned(s)[i]) && s.ready[i] in Owned(s);
    }
    if w < |s.chans| { assert ChanOk(s, w); }
  }

  /** The state right after the call. */
  function Called(s: State, p: int, kind: Kind): State {
    s.(subs := s.subs[p := Sub(kind, false, Check)], used := s.used + {p})
  }

  /** Past the check of stopped. */
  lemma CheckAlone(s: State, p: int, kind: Kind, w: nat, imp: bool) returns (e: State)
    requires p !in s.used && p !in s.subs && |s.owner| == |s.chans|
    ensures Enabled(s, Submit(p, kind, false)) && Apply(s, Submit(p, kind, false)) == Called(s, p, kind)
    ensures Leads(Submission(p, w, imp), Called(s, p, kind), e)
    ensures e == s.(used := s.used + {p}, subs := if s.stopped then s.subs else s.subs[p := Sub(kind, false, Pop)])
  {
    var a := Called(s, p, kind);
    e := NextSub(a, p, w, imp);
    LeadsOne(Submission(p, w, imp), a);
    assert a.subs - {p} == s.subs && a.subs[p := Sub(kind, false, Pop)] == s.subs[p := Sub(kind, false, Pop)];
  }

  lemma AcceptedFrom(s: State, p: int, kind: Kind, w: nat, imp: bool) returns (e: State)
    requires Settled(s, p, w) && Acceptable(s)
    ensures Leads(Submission(p, w, imp), Called(s, p, kind), e)
    ensures Sent(e, p, if s.ready != [] then s.ready[|s.ready| - 1] else w)
    ensures e.ready == (if s.ready != [] then s.ready[..|s.ready| - 1] else [])
    ensures e.running == (if s.ready != [] then s.running else s.running + 1)
  {
    var step := Submission(p, w, imp);
    var b := CheckAlone(s, p, kind, w, imp);
    if s.ready != [] {
      e := PopAlone(b, p, w, imp);
    } else {
      var c := NextSub(b, p, w, imp);
      LeadsOne(step, b);
      assert c == SetSub(b, p, Grow);
      var d := GrowAlone(c, p, w, imp);
      LeadsOn(step, b, c, d);
      e := BeginAlone(d, p, w, imp);
      LeadsOn(step, b, d, e);
    }
    LeadsOn(step, Called(s, p, kind), b, e);
  }

  lemma SentEnds(e: State, p: int, v: nat, w: nat, imp: bool)
    requires Sent(e, p, v)
    ensures NextSub(e, p, w, imp) == e
  {}

  /** Main theorem: a submission that runs by itself on a running pool is accepted exactly when there is an
      idle worker or room for a new one, and then its task goes to the worker that came back last, or to a
      new one. */
  lemma AcceptedAlone(s: State, p: int, kind: Kind, w: nat, imp: bool) returns (e: State)
    requires Reachable(s) && s.lock == Free && p !in s.used && Spare(s, w) && Acceptable(s)
    ensures Leads(Submission(p, w, imp), Called(s, p, kind), e) && NextSub(e, p, w, imp) == e
    ensures Sent(e, p, if s.ready != [] then s.ready[|s.ready| - 1] else w)
    ensures e.ready == (if s.ready != [] then s.ready[..|s.ready| - 1] else [])
    ensures e.running == (if s.ready != [] then s.running else s.running + 1)
  {
    Unlocked(s, p, w);
    e := AcceptedFrom(s, p, kind, w, imp);
    SentEnds(e, p, if s.ready != [] then s.ready[|s.ready| - 1] else w, w, imp);
  }

  lemma RefusedFrom(s: State, p: int, kind: Kind, w: nat, imp: bool) returns (e: State)
    requires Settled(s, p, w) && !Acceptable(s)
    ensures Leads(Submission(p, w, imp), Called(s, p, kind), e) && NextSub(e, p, w, imp) == e
    ensures var waits := !s.stopped && (kind == Blocking || (kind == Timed && !imp));
            e == s.(used := s.used + {p}, subs := if waits then s.subs[p := Sub(kind, false, Wait)] else s.subs)
  {
    var step := Submission(p, w, imp);
    var b := CheckAlone(s, p, kind, w, imp);
    e := b;
    if !s.stopped {
      e := LimitAlone(b, p, w, imp);
      assert b.subs - {p} == s.subs && b.subs[p := Sub(kind, false, Wait)] == s.subs[p := Sub(kind, false, Wait)];
      LeadsOn(step, Called(s, p, kind), b, e);
    }
  }

  /** At the limit, with nobody idle. */
  lemma LimitAlone(s: State, p: int, w: nat, imp: bool) returns (e: State)
    requires p in s.subs && s.subs[p].pc == Pop && |s.owner| == |s.chans| && s.lock == Free && s.ready == []
    requires s.max > 0 && s.running >= s.max && !s.stopped
    ensures Leads(Submission(p, w, imp), s, e) && NextSub(e, p, w, imp) == e
    ensures var waits := s.subs[p].kind == Blocking || (s.subs[p].kind == Timed && !imp);
            e == if waits then SetSub(s, p, Wait) else Reject(s, p)
  {
    var step := Submission(p, w, imp);
    var c := NextSub(s, p, w, imp);
    LeadsOne(step, s);
    e := c;
    if s.subs[p].kind == Blocking {
      assert c == SetSub(s, p, Grow);
      e := NextSub(c, p, w, imp);
      LeadsOne(step, c);
      LeadsOn(step, s, c, e);
      assert c.subs[p := c.subs[p].(pc := Wait)] == s.subs[p := s.subs[p].(pc := Wait)];
    }
  }

  /** Main theorem: otherwise it is refused and leaves no trace, if the pool has stopped or the call may not
      wait, and else it waits. */
  lemma RefusedAlone(s: State, p: int, kind: Kind, w: nat, imp: bool) returns (e: State)
    requires Reachable(s) && s.lock == Free && p !in s.used && Spare(s, w) && !Acceptable(s)
    ensures Leads(Submission(p, w, imp), Called(s, p, kind), e) && NextSub(e, p, w, imp) == e
    ensures var waits := !s.stopped && (kind == Blocking || (kind == Timed && !imp));
            e == s.(used := s.used + {p}, subs := if waits then s.subs[p := Sub(kind, false, Wait)] else s.subs)
  {
    Unlocked(s, p, w);
    e := RefusedFrom(s, p, kind, w, imp);
  }

  /** A waiting submission takes the worker that comes back. */
  lemma WaiterAlone(s: State, p: int, w: nat) returns (e: State)
    requires Reachable(s) && s.lock == Free && AtSub(s, p, Wait) && !s.subs[p].isNil && s.ready != [] && !s.stopped
    ensures Leads(Submission(p, w, false), s, e) && Sent(e, p, s.ready[|s.ready| - 1])
    ensures e.ready == s.ready[..|s.ready| - 1] && e.running == s.running
  {
    ReachableInv(s);
    assert Owned(s) == s.ready && s.ready[|s.ready| - 1] in Owned(s);
    assert ChanOk(s, Owned(s)[|s.ready| - 1]);
    e := PopAlone(s, p, w, false);
  }

  /** Once the pool has stopped, a waiting Submit gives up; a waiting SubmitTimeout does if nobody is idle. */
  lemma WaiterRefused(s: State, p: int, w: nat)
    requires Reachable(s) && s.lock == Free && AtSub(s, p, Wait) && s.stopped
    requires s.subs[p].kind == Blocking || s.ready == []
    ensures NextSub(s, p, w, false) == s.(subs := s.subs - {p})
  {
    ReachableInv(s);
  }

  // ---------------------------------------------------------------- workers

  /** The next step of the worker on channel w. */
  function NextWorker(s: State, w: nat): State
  {
    if w >= |s.chans| then s else
    var l := match s.chans[w].worker
      case NoWorker => Receive(w)
      case Recv => Receive(w)
      case Running(_) => Finish(w)
      case AfterTask => CheckStopped(w)
      case Locking => LockReady(w)
      case Pushing => Push(w)
      case Exiting => DrainChan(w)
      case Retiring => PutBack(w);
    if Enabled(s, l) then Apply(s, l) else s
  }

  function Labour(w: nat): State -> State {
    s => NextWorker(s, w)
  }

  /** Out of the loop: the channel goes back to the pool, empty, and one count of running is due. */
  lemma RetireAlone(s: State, w: nat) returns (e: State)
    requires w < |s.chans| == |s.owner| && s.chans[w].worker == Exiting
    ensures Leads(Labour(w), s, e) && NextWorker(e, w) == e
    ensures e == s.(chans := s.chans[w := Chan(None, NoWorker)], pool := s.pool + {w}, owner := s.owner[w := Pool],
                    live := s.live - {w}, dying := s.dying + 1)
  {
    var a := NextWorker(s, w);
    e := NextWorker(a, w);
    LeadsOne(Labour(w), s);
    LeadsOne(Labour(w), a);
    LeadsOn(Labour(w), s, a, e);
    assert a == s.(chans := s.chans[w := Chan(None, Retiring)]);
    assert e.chans == s.chans[w := Chan(None, NoWorker)];
  }

  /** After a task on a running pool: back on top of the stack. */
  lemma ParkAlone(s: State, w: nat) returns (e: State)
    requires w < |s.chans| == |s.owner| && s.chans[w] == Chan(None, AfterTask) && s.lock == Free && !s.stopped
    ensures Leads(Labour(w), s, e) && NextWorker(e, w) == e
    ensures e == s.(chans := s.chans[w := Chan(None, Recv)], owner := s.owner[w := Stack], ready := s.ready + [w])
  {
    var a := NextWorker(s, w);
    LeadsOne(Labour(w), s);
    assert a == s.(chans := s.chans[w := Chan(None, Locking)]);
    var b := NextWorker(a, w);
    LeadsOne(Labour(w), a);
    assert b == s.(chans := s.chans[w := Chan(None, Pushing)], lock := HeldByWorker(w));
    e := NextWorker(b, w);
    LeadsOne(Labour(w), b);
    assert e.chans == s.chans[w := Chan(None, Recv)];
    LeadsOn(Labour(w), s, a, b);
    LeadsOn(Labour(w), s, b, e);
  }

  /** After a task: back on top of the stack, or out of the loop once the pool has stopped. */
  lemma ReturnAlone(s: State, w: nat) returns (e: State)
    requires w < |s.chans| == |s.owner| && s.chans[w] == Chan(None, AfterTask) && s.lock == Free
    ensures Leads(Labour(w), s, e) && NextWorker(e, w) == e && e.ran == s.ran && e.placed == s.placed
    ensures !s.stopped ==> e.ready == s.ready + [w] && e.chans == s.chans[w := Chan(None, Recv)] && e.pool == s.pool
    ensures s.stopped ==> e.ready == s.ready && e.chans == s.chans[w := Chan(None, NoWorker)] && e.pool == s.pool + {w}
  {
    if s.stopped {
      var a := NextWorker(s, w);
      LeadsOne(Labour(w), s);
      assert a == s.(chans := s.chans[w := Chan(None, Exiting)]);
      e := RetireAlone(a, w);
      LeadsOn(Labour(w), s, a, e);
    } else {
      e := ParkAlone(s, w);
    }
  }

  /** Main theorem: a worker with a task in its channel runs it, once, and is then the first to be taken
      again, or gives its channel back if the pool has stopped. */
  lemma WorkAlone(s: State, w: nat, p: int) returns (e: State)
    requires w < |s.chans| == |s.owner| && s.chans[w] == Chan(Some(Task(p)), Recv) && s.lock == Free
    ensures Leads(Labour(w), s, e) && NextWorker(e, w) == e && e.ran == s.ran + [p] && e.placed == s.placed[p := None]
    ensures !s.stopped ==> e.ready == s.ready + [w] && e.chans == s.chans[w := Chan(None, Recv)] && e.pool == s.pool
    ensures s.stopped ==> e.ready == s.ready && e.chans == s.chans[w := Chan(None, NoWorker)] && e.pool == s.pool + {w}
  {
    var a := NextWorker(s, w);
    var b := NextWorker(a, w);
    LeadsOne(Labour(w), s);
    LeadsOne(Labour(w), a);
    LeadsOn(Labour(w), s, a, b);
    assert a.chans == s.chans[w := Chan(None, Running(p))] && b.chans == s.chans[w := Chan(None, AfterTask)];
    e := ReturnAlone(b, w);
    LeadsOn(Labour(w), s, b, e);
  }

  /** The exit signal ends a worker without running anything. */
  lemma ExitAlone(s: State, w: nat) returns (e: State)
    requires w < |s.chans| == |s.owner| && s.chans[w] == Chan(Some(Exit), Recv)
    ensures Leads(Labour(w), s, e) && NextWorker(e, w) == e
    ensures e.ran == s.ran && e.chans == s.chans[w := Chan(None, NoWorker)] && e.pool == s.pool + {w}
    ensures e.ready == s.ready && e.placed == s.placed && e.dying == s.dying + 1
  {
    var a := NextWorker(s, w);
    LeadsOne(Labour(w), s);
    assert a.chans == s.chans[w := Chan(None, Exiting)];
    e := RetireAlone(a, w);
    LeadsOn(Labour(w), s, a, e);
  }

  // ---------------------------------------------------------------- Stop and the cleaner

  function NextStop(s: State): State
  {
    var l := match s.stop
      case NotCalled => StopClear
      case Called => StopLock
      case Sweeping(k) => if k < |s.ready| then StopSend else StopClear
      case Swept => StopClear;
    if Enabled(s, l) then Apply(s, l) else s
  }

  function Stopping(): State -> State {
    s => NextStop(s)
  }

  /** Channels from a to b of the list hold the exit signal; the other channels are as in s. */
  ghost predicate Dismissed(s: State, e: State, list: seq<nat>, a: nat, b: nat)
  {
    && |e.chans| == |s.chans| && a <= b <= |list|
    && (forall i :: a <= i < b ==> list[i] < |s.chans| && e.chans[list[i]].msg == Some(Exit))
    && (forall w {:trigger e.chans[w]} :: 0 <= w < |s.chans| && w !in list[a..b] ==> e.chans[w] == s.chans[w])
  }

  ghost predicate EmptyFrom(s: State, list: seq<nat>, a: nat)
  {
    && Distinct(list) && |s.owner| == |s.chans|
    && forall i :: a <= i < |list| ==> list[i] < |s.chans| && s.chans[list[i]].msg == None
  }

  lemma OneDismissed(s: State, m: State, e: State, list: seq<nat>, a: nat)
    requires a < |list| && Distinct(list) && list[a] < |s.chans| == |m.chans|
    requires m.chans == s.chans[list[a] := s.chans[list[a]].(msg := Some(Exit))]
    requires Dismissed(m, e, list, a + 1, |list|)
    ensures Dismissed(s, e, list, a, |list|)
  {
    assert list[a..] == [list[a]] + list[a + 1..];
    assert list[a] !in list[a + 1..] by {
      var rest := list[a + 1..];
      forall j | 0 <= j < |rest| ensures rest[j] != list[a] { assert rest[j] == list[a + 1 + j]; }
    }
    assert list[a..|list|] == list[a..] && list[a + 1..|list|] == list[a + 1..];
    assert e.chans[list[a]] == m.chans[list[a]];
  }

  lemma {:induction false} SweepFrom(s: State) returns (e: State)
    requires s.stop.Sweeping? && s.stop.k <= |s.ready| && EmptyFrom(s, s.ready, s.stop.k)
    ensures Leads(Stopping(), s, e) && e.stop == Swept && e.lock == Free && e.ready == [] && e.stopped == s.stopped
    ensures Dismissed(s, e, s.ready, s.stop.k, |s.ready|)
    decreases |s.ready| - s.stop.k
  {
    var k, m := s.stop.k, NextStop(s);
    LeadsOne(Stopping(), s);
    if k < |s.ready| {
      assert m.chans == s.chans[s.ready[k] := s.chans[s.ready[k]].(msg := Some(Exit))];
      e := SweepFrom(m);
      LeadsOn(Stopping(), s, m, e);
      OneDismissed(s, m, e, s.ready, k);
    } else {
      e := m;
    }
  }

  lemma ParkedEmpty(s: State)
    requires Reachable(s) && s.lock == Free
    ensures EmptyFrom(s, s.ready, 0) && Distinct(s.expired)
    ensures forall i :: 0 <= i < |s.expired| ==> s.expired[i] < |s.chans| && s.chans[s.expired[i]].msg == None
  {
    ReachableInv(s);
    assert Owned(s) == s.ready;
    forall i | 0 <= i < |s.ready| ensures s.ready[i] < |s.chans| && s.chans[s.ready[i]].msg == None {
      assert ChanOk(s, Owned(s)[i]) && s.ready[i] in Owned(s);
    }
    forall i | 0 <= i < |s.expired| ensures s.expired[i] < |s.chans| && s.chans[s.expired[i]].msg == None {
      assert ChanOk(s, s.expired[i]) && s.expired[i] in s.expired;
    }
  }

  /** Main theorem: a Stop that runs by itself sends every idle worker away, exactly those, and leaves the
      stack empty and the lock free. */
  lemma StopAlone(s: State) returns (e: State)
    requires Reachable(s) && s.lock == Free && !s.stopped && s.stop == NotCalled
    ensures Leads(Stopping(), s.(stopped := true, stop := StopPc.Called), e)
    ensures e.stop == Swept && e.lock == Free && e.ready == [] && e.stopped && Dismissed(s, e, s.ready, 0, |s.ready|)
  {
    ParkedEmpty(s);
    var a := s.(stopped := true, stop := StopPc.Called);
    var b := NextStop(a);
    LeadsOne(Stopping(), a);
    assert b == a.(lock := HeldByStop, stop := Sweeping(0));
    e := SweepFrom(b);
    LeadsOn(Stopping(), a, b, e);
  }

  function NextCleaner(s: State): State {
    if Enabled(s, Expire) then Apply(s, Expire) else s
  }

  function Cleaning(): State -> State {
    s => NextCleaner(s)
  }

  lemma {:induction false} ExpireFrom(s: State) returns (e: State)
    requires EmptyFrom(s, s.expired, 0)
    ensures Leads(Cleaning(), s, e) && e.expired == [] && e.ready == s.ready && Dismissed(s, e, s.expired, 0, |s.expired|)
    decreases |s.expired|
  {
    LeadsOne(Cleaning(), s);
    if s.expired == [] {
      e := s;
    } else {
      var m := NextCleaner(s);
      assert m.chans == s.chans[s.expired[0] := s.chans[s.expired[0]].(msg := Some(Exit))];
      assert s.expired == [s.expired[0]] + m.expired;
      assert EmptyFrom(m, m.expired, 0) by {
        forall i | 0 <= i < |m.expired| ensures m.chans[m.expired[i]].msg == None { assert m.expired[i] == s.expired[i + 1]; }
      }
      e := ExpireFrom(m);
      LeadsOn(Cleaning(), s, m, e);
      ShiftDismissed(m, e, s.expired);
      OneDismissed(s, m, e, s.expired, 0);
    }
  }

  lemma ShiftDismissed(m: State, e: State, list: seq<nat>)
    requires |list| > 0 && Dismissed(m, e, list[1..], 0, |list| - 1)
    ensures Dismissed(m, e, list, 1, |list|)
  {
    var rest := list[1..];
    assert rest[0..|list| - 1] == rest == list[1..|list|];
    forall i | 1 <= i < |list| ensures list[i] < |m.chans| && e.chans[list[i]].msg == Some(Exit) {
      assert list[i] == rest[i - 1];
    }
  }

  /** Main theorem: a clean-up that runs by itself takes the k workers idle longest off the stack and sends
      exactly those away. */
  lemma CleanAlone(s: State, k: nat) returns (e: State)
    requires Reachable(s) && Enabled(s, Collect(k))
    ensures Leads(Cleaning(), Apply(s, Collect(k)), e)
    ensures e.expired == [] && e.ready == s.ready[k..] && Dismissed(s, e, s.ready[..k], 0, k)
  {
    ParkedEmpty(s);
    var a := Apply(s, Collect(k));
    assert EmptyFrom(a, a.expired, 0);
    e := ExpireFrom(a);
  }
}
