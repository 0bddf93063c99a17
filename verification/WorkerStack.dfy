/** The FILO worker pool (wpool/stack.go) as a transition system: submitters, workers, the cleaner
    and Stop interleave freely; a mutex protects the ready stack, each worker has its own
    1-buffered channel, and channels are recycled through a pool. */
module WorkerStack {
  import opened Lists

  /** What a worker channel carries: a submitted task or the nil exit signal. */
  datatype Msg = Exit | Task(p: int)

  datatype Kind = Blocking | Try | Timed    // Submit, TrySubmit, SubmitTimeout

  datatype SubPc =
    | Check                 // about to read stopped
    | Pop                   // about to lock and pop the ready stack
    | Grow                  // about to load running
    | Swap(seen: int)       // about to compare-and-swap running
    | Begin                 // counted in running, about to start a worker
    | Wait                  // in waitForWorker or in the timed wait loop
    | Send(w: nat)          // owns channel w, about to send

  /** One Submit, TrySubmit or SubmitTimeout call. */
  datatype Sub = Sub(kind: Kind, isNil: bool, pc: SubPc)

  datatype WorkerPc =
    | NoWorker
    | Recv                  // receiving from its channel
    | Running(p: int)
    | AfterTask             // about to read stopped without the lock
    | Locking               // about to take the lock
    | Pushing               // holds the lock and has read stopped == false
    | Exiting               // left the loop, about to drain its channel
    | Retiring              // drained, about to put the channel back

  datatype Chan = Chan(msg: Option<Msg>, worker: WorkerPc)

  datatype StopPc = NotCalled | Called | Sweeping(k: nat) | Swept

  datatype Holder = Free | HeldByWorker(w: nat) | HeldByStop

  /** Who may touch a channel next. */
  datatype Owner = Pool | Stack | Submitter(p: int) | Cleaner | Worker

  /** `owner`, `live`, `begun`, `placed`, `ran` and `used` record history: the owner of each channel,
      the channels with a worker, the submitters counted but without a worker yet, where each
      accepted task sits (a channel, or None once started), the order of execution, and the
      submission identities used so far. */
  datatype State = State(
    max: int, running: int, stopped: bool, lock: Holder, ready: seq<nat>, chans: seq<Chan>, pool: set<nat>,
    dying: nat, subs: map<int, Sub>, expired: seq<nat>, stop: StopPc,
    owner: seq<Owner>, live: set<nat>, begun: set<int>, placed: map<int, Option<nat>>, ran: seq<int>, used: set<int>)

  ghost predicate Init(s: State)
  {
    && s.running == 0 && !s.stopped && s.lock == Free && s.ready == [] && s.chans == [] && s.pool == {}
    && s.dying == 0 && s.subs == map[] && s.expired == [] && s.stop == NotCalled
    && s.owner == [] && s.live == {} && s.begun == {} && s.placed == map[] && s.ran == [] && s.used == {}
  }

  // ---------------------------------------------------------------- steps

  datatype Label =
    | Submit(p: int, kind: Kind, isNil: bool) | ReadStopped(p: int) | TryPop(p: int, impatient: bool)
    | LoadRunning(p: int, impatient: bool) | CasRunning(p: int) | StartWorker(p: int, w: nat)
    | Retry(p: int, timedOut: bool) | SendTask(p: int)
    | Receive(w: nat) | Finish(w: nat) | CheckStopped(w: nat) | LockReady(w: nat) | Push(w: nat)
    | DrainChan(w: nat) | PutBack(w: nat) | Decrement
    | Collect(k: nat) | Expire
    | StopCas | StopLock | StopSend | StopClear

  predicate AtSub(s: State, p: int, pc: SubPc) {
    p in s.subs && s.subs[p].pc == pc
  }

  predicate AtWorker(s: State, w: nat, pc: WorkerPc) {
    w < |s.chans| && s.chans[w].worker == pc
  }

  predicate Enabled(s: State, l: Label)
  {
    && |s.owner| == |s.chans|
    && match l
       case Submit(p, _, _) => p !in s.used
       case ReadStopped(p) => AtSub(s, p, Check)
       case TryPop(p, _) => AtSub(s, p, Pop) && s.lock == Free
       case LoadRunning(p, _) => AtSub(s, p, Grow)
       case CasRunning(p) => p in s.subs && s.subs[p].pc.Swap?
       case StartWorker(p, w) => AtSub(s, p, Begin) && w <= |s.chans| && (w < |s.chans| ==> w in s.pool)
       case Retry(p, _) => AtSub(s, p, Wait) && s.lock == Free
       case SendTask(p) => p in s.subs && s.subs[p].pc.Send? && s.subs[p].pc.w < |s.chans| && s.chans[s.subs[p].pc.w].msg == None
       case Receive(w) => AtWorker(s, w, Recv) && s.chans[w].msg.Some?
       case Finish(w) => w < |s.chans| && s.chans[w].worker.Running?
       case CheckStopped(w) => AtWorker(s, w, AfterTask)
       case LockReady(w) => AtWorker(s, w, Locking) && s.lock == Free
       case Push(w) => AtWorker(s, w, Pushing)
       case DrainChan(w) => AtWorker(s, w, Exiting)
       case PutBack(w) => AtWorker(s, w, Retiring)
       case Decrement => s.dying > 0
       case Collect(k) => s.lock == Free && s.expired == [] && k <= |s.ready|
       case Expire => s.expired != [] && s.expired[0] < |s.chans|
       case StopCas => !s.stopped && s.stop == NotCalled
       case StopLock => s.stop == Called && s.lock == Free
       case StopSend => s.stop.Sweeping? && s.stop.k < |s.ready| && s.ready[s.stop.k] < |s.chans|
                        && s.chans[s.ready[s.stop.k]].msg == None
       case StopClear => s.stop.Sweeping? && s.stop.k >= |s.ready|
  }

  function SetSub(s: State, p: int, pc: SubPc): State
    requires p in s.subs
  {
    s.(subs := s.subs[p := s.subs[p].(pc := pc)])
  }

  function Reject(s: State, p: int): State {
    s.(subs := s.subs - {p})
  }

  function SetWorker(s: State, w: nat, pc: WorkerPc): State
    requires w < |s.chans|
  {
    s.(chans := s.chans[w := s.chans[w].(worker := pc)])
  }

  /** Take the most recently returned worker. */
  function PopReady(s: State, p: int): State
    requires p in s.subs && s.ready != [] && |s.owner| == |s.chans|
  {
    var w := s.ready[|s.ready| - 1];
    var s1 := SetSub(s, p, Send(w)).(ready := s.ready[..|s.ready| - 1]);
    if w < |s.owner| then s1.(owner := s.owner[w := Submitter(p)]) else s1
  }

  /** At the worker limit Submit waits, TrySubmit fails, SubmitTimeout waits unless its timeout is not positive. */
  function AtLimit(s: State, p: int, impatient: bool): State
    requires p in s.subs
  {
    match s.subs[p].kind
    case Blocking => SetSub(s, p, Wait)
    case Try => Reject(s, p)
    case Timed => if impatient then Reject(s, p) else SetSub(s, p, Wait)
  }

  function Apply(s: State, l: Label): State
    requires Enabled(s, l)
  {
    match l
    case Submit(p, kind, isNil) => s.(subs := s.subs[p := Sub(kind, isNil, Check)], used := s.used + {p})
    case ReadStopped(p) => if s.stopped then Reject(s, p) else SetSub(s, p, Pop)
    case TryPop(p, impatient) =>
      if s.ready != [] then PopReady(s, p)
      else if s.subs[p].kind != Blocking && s.max > 0 && s.running >= s.max then AtLimit(s, p, impatient)
      else SetSub(s, p, Grow)
    case LoadRunning(p, impatient) =>
      if s.max > 0 then
        if s.running >= s.max then AtLimit(s, p, impatient) else SetSub(s, p, Swap(s.running))
      else SetSub(s, p, Begin).(running := s.running + 1, begun := s.begun + {p})
    case CasRunning(p) =>
      if s.running == s.subs[p].pc.seen
      then SetSub(s, p, Begin).(running := s.running + 1, begun := s.begun + {p})
      else SetSub(s, p, Grow)
    case StartWorker(p, w) =>
      var s1 := SetSub(s, p, Send(w)).(begun := s.begun - {p}, live := s.live + {w}, pool := s.pool - {w});
      if w < |s.chans| then s1.(chans := s.chans[w := s.chans[w].(worker := Recv)], owner := s.owner[w := Submitter(p)])
      else s1.(chans := s.chans + [Chan(None, Recv)], owner := s.owner + [Submitter(p)])
    case Retry(p, timedOut) =>
      if s.subs[p].kind == Blocking then
        if s.stopped then Reject(s, p) else if s.ready != [] then PopReady(s, p) else s
      else
        if s.ready != [] then PopReady(s, p) else if s.stopped || timedOut then Reject(s, p) else s
    case SendTask(p) =>
      var w := s.subs[p].pc.w;
      var m := if s.subs[p].isNil then Exit else Task(p);
      var s1 := s.(chans := s.chans[w := s.chans[w].(msg := Some(m))], owner := s.owner[w := Worker], subs := s.subs - {p});
      if s.subs[p].isNil then s1 else s1.(placed := s.placed[p := Some(w)])
    case Receive(w) =>
      var m := s.chans[w].msg.value;
      var s1 := s.(chans := s.chans[w := Chan(None, if m == Exit then Exiting else Running(m.p))], owner := s.owner[w := Worker]);
      if m == Exit then s1 else s1.(placed := s.placed[m.p := None], ran := s.ran + [m.p])
    case Finish(w) => SetWorker(s, w, AfterTask)
    case CheckStopped(w) => SetWorker(s, w, if s.stopped then Exiting else Locking)
    case LockReady(w) =>
      if s.stopped then SetWorker(s, w, Exiting) else SetWorker(s, w, Pushing).(lock := HeldByWorker(w))
    case Push(w) =>
      SetWorker(s, w, Recv).(ready := s.ready + [w], owner := s.owner[w := Stack], lock := Free)
    case DrainChan(w) => s.(chans := s.chans[w := Chan(None, Retiring)])
    case PutBack(w) =>
      SetWorker(s, w, NoWorker).(pool := s.pool + {w}, owner := s.owner[w := Pool], live := s.live - {w}, dying := s.dying + 1)
    case Decrement => s.(running := s.running - 1, dying := s.dying - 1)
    case Collect(k) =>
      s.(ready := s.ready[k..], expired := s.ready[..k],
         owner := seq(|s.owner|, w requires 0 <= w < |s.owner| => if w in s.ready[..k] then Cleaner else s.owner[w]))
    case Expire =>
      var w := s.expired[0];
      if s.chans[w].msg == None
      then s.(expired := s.expired[1..], chans := s.chans[w := s.chans[w].(msg := Some(Exit))], owner := s.owner[w := Worker])
      else s.(expired := s.expired[1..])
    case StopCas => s.(stopped := true, stop := Called)
    case StopLock => s.(lock := HeldByStop, stop := Sweeping(0))
    case StopSend =>
      var w := s.ready[s.stop.k];
      s.(chans := s.chans[w := s.chans[w].(msg := Some(Exit))], owner := s.owner[w := Worker], stop := Sweeping(s.stop.k + 1))
    case StopClear => s.(ready := [], lock := Free, stop := Swept)
  }

  // ---------------------------------------------------------------- invariant

  /** The part of the ready slice that the stack still owns: Stop has dealt with the rest. */
  function Owned(s: State): seq<nat> {
    if s.stop.Sweeping? && s.stop.k <= |s.ready| then s.ready[s.stop.k..] else s.ready
  }

  ghost predicate Distinct<A>(q: seq<A>) {
    forall i, j :: 0 <= i < j < |q| ==> q[i] != q[j]
  }

  /** What must hold of channel w given who owns it. */
  ghost predicate ChanOk(s: State, w: nat)
    requires w < |s.chans| == |s.owner|
  {
    var c := s.chans[w];
    && (w in s.live <==> c.worker != NoWorker)
    && (w in Owned(s) <==> s.owner[w] == Stack)
    && (w in s.expired <==> s.owner[w] == Cleaner)
    && (w in s.pool <==> s.owner[w] == Pool)
    && (c.worker == Pushing <==> s.lock == HeldByWorker(w))
    && match s.owner[w]
       case Pool => c == Chan(None, NoWorker)
       case Stack => c == Chan(None, Recv)
       case Submitter(p) => c == Chan(None, Recv) && AtSub(s, p, Send(w))
       case Cleaner => c == Chan(None, Recv)
       case Worker => c.worker != NoWorker && (c.worker == Recv <==> c.msg.Some?)
  }

  ghost predicate SubOk(s: State, p: int)
    requires p in s.subs
  {
    && p in s.used && p !in s.placed
    && (p in s.begun <==> s.subs[p].pc == Begin)
    && (s.subs[p].pc.Swap? && s.max > 0 ==> s.subs[p].pc.seen < s.max)
    && (s.subs[p].pc.Swap? ==> s.max > 0)
    && (s.subs[p].pc.Send? ==> s.subs[p].pc.w < |s.owner| && s.owner[s.subs[p].pc.w] == Submitter(p))
  }

  /** Accepted tasks: each sits in exactly one channel or has been started exactly once. */
  ghost predicate TasksOk(s: State)
  {
    && Distinct(s.ran)
    && (forall p :: p in s.placed ==> p in s.used)
    && (forall p :: p in s.ran <==> p in s.placed && s.placed[p] == None)
    && (forall p :: p in s.placed && s.placed[p].Some? ==>
          s.placed[p].value < |s.chans| && s.chans[s.placed[p].value].msg == Some(Task(p)))
    && (forall w :: 0 <= w < |s.chans| && s.chans[w].msg.Some? && s.chans[w].msg.value.Task? ==>
          var p := s.chans[w].msg.value.p; p in s.placed && s.placed[p] == Some(w))
  }

  ghost predicate CountOk(s: State)
  {
    && s.running == |s.live| + |s.begun| + s.dying
    && (s.max > 0 ==> s.running <= s.max)
    && (forall w :: w in s.live ==> w < |s.chans|)
    && (forall p :: p in s.begun ==> AtSub(s, p, Begin))
  }

  ghost predicate ListsOk(s: State)
  {
    && |s.owner| == |s.chans|
    && Distinct(Owned(s)) && Distinct(s.expired)
    && (forall i :: 0 <= i < |Owned(s)| ==> Owned(s)[i] < |s.chans|)
    && (forall i :: 0 <= i < |s.expired| ==> s.expired[i] < |s.chans|)
    && (forall w :: w in s.pool ==> w < |s.chans|)
    && (s.stop.Sweeping? <==> s.lock == HeldByStop)
    && (s.stop.Sweeping? ==> s.stop.k <= |s.ready|)
    && (s.stop != NotCalled ==> s.stopped)
    && (s.stop == Swept ==> s.ready == [] && !s.lock.HeldByWorker?)
    && (s.lock.HeldByWorker? ==> s.lock.w < |s.chans|)
  }

  ghost predicate Inv(s: State)
  {
    && ListsOk(s) && CountOk(s) && TasksOk(s)
    && (forall w :: 0 <= w < |s.chans| ==> ChanOk(s, w))
    && (forall p :: p in s.subs ==> SubOk(s, p))
  }

  // ---------------------------------------------------------------- frames

  lemma ChanFrame(s: State, s': State, w: nat)
    requires w < |s.chans| == |s.owner| && w < |s'.chans| == |s'.owner| && ChanOk(s, w)
    requires s'.chans[w] == s.chans[w] && s'.owner[w] == s.owner[w]
    requires (w in s'.live <==> w in s.live) && (w in s'.pool <==> w in s.pool)
    requires (w in Owned(s') <==> w in Owned(s)) && (w in s'.expired <==> w in s.expired)
    requires s'.lock == HeldByWorker(w) <==> s.lock == HeldByWorker(w)
    requires s.owner[w].Submitter? && s.owner[w].p in s.subs ==>
             s.owner[w].p in s'.subs && s'.subs[s.owner[w].p] == s.subs[s.owner[w].p]
    ensures ChanOk(s', w)
  {}

  lemma SubFrame(s: State, s': State, p: int)
    requires p in s.subs && p in s'.subs && SubOk(s, p) && s'.subs[p] == s.subs[p] && s'.max == s.max
    requires s.used <= s'.used && (p in s'.placed <==> p in s.placed) && (p in s'.begun <==> p in s.begun)
    requires s.subs[p].pc.Send? && s.subs[p].pc.w < |s.owner| ==>
             s.subs[p].pc.w < |s'.owner| && s'.owner[s.subs[p].pc.w] == s.owner[s.subs[p].pc.w]
    ensures SubOk(s', p)
  {}

  lemma InitInv(s: State)
    requires Init(s)
    ensures Inv(s)
  {}

  // ---------------------------------------------------------------- submitters

  /** Only submission p moves, and it neither owns nor gains a channel. */
  lemma SubMove(s: State, s': State, p: int)
    requires Inv(s)
    requires s' == s.(subs := s'.subs, used := s'.used)
    requires s.used <= s'.used && (p in s.subs ==> !s.subs[p].pc.Send? && s.subs[p].pc != Begin)
    requires forall q :: q != p ==> (q in s'.subs <==> q in s.subs) && (q in s.subs ==> s'.subs[q] == s.subs[q])
    requires p in s'.subs ==> SubOk(s', p)
    ensures Inv(s')
  {
    forall w | 0 <= w < |s.chans| ensures ChanOk(s', w) {
      assert ChanOk(s, w);
      ChanFrame(s, s', w);
    }
    forall q | q in s'.subs && q != p ensures SubOk(s', q) {
      assert SubOk(s, q);
      SubFrame(s, s', q);
    }
    assert p in s.begun ==> AtSub(s, p, Begin);
  }

  lemma SubmitStep(s: State, l: Label)
    requires Inv(s) && Enabled(s, l) && (l.Submit? || l.ReadStopped?)
    ensures Inv(Apply(s, l))
  {
    var s', p := Apply(s, l), l.p;
    if p in s.subs { assert SubOk(s, p); }
    assert p in s.placed ==> p in s.used;
    assert p in s.begun ==> AtSub(s, p, Begin);
    SubMove(s, s', p);
  }

  /** The stack is empty, or the pool has stopped. */
  lemma MissStep(s: State, l: Label)
    requires Inv(s) && Enabled(s, l)
    requires (l.TryPop? && s.ready == []) || (l.Retry? && (s.ready == [] || (s.subs[l.p].kind == Blocking && s.stopped)))
    ensures Inv(Apply(s, l))
  {
    var p := l.p;
    assert SubOk(s, p);
    assert p in s.begun ==> AtSub(s, p, Begin);
    SubMove(s, Apply(s, l), p);
  }

  /** A look at running that reserves nothing. */
  lemma LookStep(s: State, l: Label)
    requires Inv(s) && Enabled(s, l)
    requires (l.LoadRunning? && s.max > 0) || (l.CasRunning? && s.running != s.subs[l.p].pc.seen)
    ensures Inv(Apply(s, l))
  {
    var p := l.p;
    assert SubOk(s, p);
    assert p in s.begun ==> AtSub(s, p, Begin);
    SubMove(s, Apply(s, l), p);
  }

  /** Reserving a worker: running is raised below its limit. */
  lemma ReserveStep(s: State, l: Label)
    requires Inv(s) && Enabled(s, l)
    requires (l.LoadRunning? && s.max <= 0) || (l.CasRunning? && s.running == s.subs[l.p].pc.seen)
    ensures Inv(Apply(s, l))
  {
    var s', p := Apply(s, l), l.p;
    assert SubOk(s, p);
    assert p !in s.begun;
    forall w | 0 <= w < |s.chans| ensures ChanOk(s', w) {
      assert ChanOk(s, w);
      ChanFrame(s, s', w);
    }
    forall q | q in s'.subs ensures SubOk(s', q) {
      assert SubOk(s, q);
      if q != p { SubFrame(s, s', q); }
    }
  }

  lemma PopChans(s: State, p: int)
    requires Inv(s) && p in s.subs && s.ready != [] && s.lock == Free && !s.subs[p].pc.Send? && s.subs[p].pc != Begin
    ensures var s' := PopReady(s, p);
            && ListsOk(s')
            && forall w :: 0 <= w < |s.chans| ==> ChanOk(s', w)
  {
    var s', top := PopReady(s, p), s.ready[|s.ready| - 1];
    assert Owned(s)[|s.ready| - 1] < |s.chans|;
    assert top in Owned(s);
    assert forall w :: w in s.ready ==> w == top || w in s'.ready;
    assert top !in s'.ready;
    forall w | 0 <= w < |s.chans| ensures ChanOk(s', w) {
      assert ChanOk(s, w);
      if w != top { ChanFrame(s, s', w); }
    }
  }

  /** Popping the ready stack hands one idle, empty channel to the submitter. */
  lemma PopStep(s: State, p: int)
    requires Inv(s) && p in s.subs && s.ready != [] && s.lock == Free && !s.subs[p].pc.Send? && s.subs[p].pc != Begin
    ensures Inv(PopReady(s, p))
  {
    var s', top := PopReady(s, p), s.ready[|s.ready| - 1];
    PopChans(s, p);
    assert Owned(s)[|s.ready| - 1] < |s.chans| && top in Owned(s);
    assert ChanOk(s, top);
    forall q | q in s'.subs ensures SubOk(s', q) {
      assert SubOk(s, q);
      if q != p { SubFrame(s, s', q); }
    }
  }

  lemma StartChans(s: State, p: int, w: nat)
    requires Inv(s) && Enabled(s, StartWorker(p, w))
    ensures var s' := Apply(s, StartWorker(p, w));
            && ListsOk(s')
            && forall v :: 0 <= v < |s'.chans| ==> ChanOk(s', v)
  {
    var s' := Apply(s, StartWorker(p, w));
    if w < |s.chans| { assert ChanOk(s, w); }
    assert SubOk(s, p);
    assert Owned(s') == Owned(s);
    assert w == |s.chans| ==> w !in Owned(s) && w !in s.expired && w !in s.pool && s.lock != HeldByWorker(w);
    forall v | 0 <= v < |s'.chans| ensures ChanOk(s', v) {
      if v != w {
        assert ChanOk(s, v);
        ChanFrame(s, s', v);
      }
    }
  }

  lemma StartSubs(s: State, p: int, w: nat)
    requires Inv(s) && Enabled(s, StartWorker(p, w))
    ensures var s' := Apply(s, StartWorker(p, w));
            forall q :: q in s'.subs ==> SubOk(s', q)
  {
    var s' := Apply(s, StartWorker(p, w));
    assert SubOk(s, p);
    if w < |s.chans| { assert ChanOk(s, w); }
    forall q | q in s'.subs ensures SubOk(s', q) {
      assert SubOk(s, q);
      if q != p { SubFrame(s, s', q); }
    }
  }

  /** Starting a worker on a pooled or a new channel. */
  lemma StartStep(s: State, p: int, w: nat)
    requires Inv(s) && Enabled(s, StartWorker(p, w))
    ensures Inv(Apply(s, StartWorker(p, w)))
  {
    StartChans(s, p, w);
    StartSubs(s, p, w);
    assert SubOk(s, p);
    if w < |s.chans| { assert ChanOk(s, w); }
    assert w !in s.live;
  }

  lemma SendChans(s: State, p: int)
    requires Inv(s) && Enabled(s, SendTask(p))
    ensures var s' := Apply(s, SendTask(p));
            ListsOk(s') && forall v :: 0 <= v < |s'.chans| ==> ChanOk(s', v)
  {
    var s', w := Apply(s, SendTask(p)), s.subs[p].pc.w;
    assert SubOk(s, p) && ChanOk(s, w);
    assert Owned(s') == Owned(s);
    forall v | 0 <= v < |s'.chans| ensures ChanOk(s', v) {
      assert ChanOk(s, v);
      if v != w { ChanFrame(s, s', v); }
    }
  }

  lemma SendSubs(s: State, p: int)
    requires Inv(s) && Enabled(s, SendTask(p))
    ensures var s' := Apply(s, SendTask(p));
            forall q :: q in s'.subs ==> SubOk(s', q)
  {
    var s' := Apply(s, SendTask(p));
    assert SubOk(s, p);
    forall q | q in s'.subs ensures SubOk(s', q) {
      assert SubOk(s, q);
      SubFrame(s, s', q);
    }
  }

  lemma SendCount(s: State, p: int)
    requires Inv(s) && Enabled(s, SendTask(p))
    ensures CountOk(Apply(s, SendTask(p)))
  {
    var s' := Apply(s, SendTask(p));
    forall q | q in s.begun ensures AtSub(s', q, Begin) { assert AtSub(s, q, Begin); }
  }

  lemma SendTasks(s: State, p: int)
    requires Inv(s) && Enabled(s, SendTask(p))
    ensures TasksOk(Apply(s, SendTask(p)))
  {
    var s', w := Apply(s, SendTask(p)), s.subs[p].pc.w;
    assert SubOk(s, p);
    assert p !in s.ran;
    forall q | q in s'.placed && s'.placed[q].Some?
      ensures s'.placed[q].value < |s'.chans| && s'.chans[s'.placed[q].value].msg == Some(Task(q))
    {
      if q != p { assert s.chans[s.placed[q].value].msg == Some(Task(q)); }
    }
  }

  /** Sending never meets a full channel, and an accepted task is recorded where it now sits. */
  lemma SendStep(s: State, p: int)
    requires Inv(s) && Enabled(s, SendTask(p))
    ensures Inv(Apply(s, SendTask(p)))
  {
    SendChans(s, p);
    SendSubs(s, p);
    SendCount(s, p);
    SendTasks(s, p);
  }

  // ---------------------------------------------------------------- workers

  /** Only channel w changes, and it stays with its worker. */
  lemma WorkerMove(s: State, s': State, w: nat)
    requires Inv(s) && w < |s.chans| && s.owner[w] == Worker
    requires s' == s.(chans := s'.chans, lock := s'.lock) && |s'.chans| == |s.chans|
    requires forall v :: 0 <= v < |s.chans| && v != w ==> s'.chans[v] == s.chans[v]
    requires s.chans[w].msg == s'.chans[w].msg == None && s'.chans[w].worker !in {NoWorker, Recv}
    requires s.chans[w].worker != Pushing
    requires (s'.lock == s.lock && s'.chans[w].worker != Pushing)
          || (s.lock == Free && !s.stopped && s'.lock == HeldByWorker(w) && s'.chans[w].worker == Pushing)
    ensures Inv(s')
  {
    assert ChanOk(s, w);
    assert Owned(s') == Owned(s);
    forall v | 0 <= v < |s.chans| ensures ChanOk(s', v) {
      assert ChanOk(s, v);
      if v != w { ChanFrame(s, s', v); }
    }
    forall q | q in s'.subs ensures SubOk(s', q) {
      assert SubOk(s, q);
      SubFrame(s, s', q);
    }
  }

  lemma WorkerStep(s: State, l: Label)
    requires Inv(s) && Enabled(s, l)
    requires l.Finish? || l.CheckStopped? || l.LockReady? || l.DrainChan?
    ensures Inv(Apply(s, l))
  {
    assert ChanOk(s, l.w);
    WorkerMove(s, Apply(s, l), l.w);
  }

  lemma ReceiveLists(s: State, w: nat)
    requires Inv(s) && Enabled(s, Receive(w))
    ensures ListsOk(Apply(s, Receive(w))) && Owned(Apply(s, Receive(w))) == Owned(s)
  {
    var s' := Apply(s, Receive(w));
    assert s' == s.(chans := s'.chans, owner := s'.owner, ran := s'.ran, placed := s'.placed)
          && |s'.chans| == |s.chans| && |s'.owner| == |s.owner|;
    ListsFrame(s, s');
  }

  /** The lists do not depend on what the channels hold or who owns them. */
  lemma ListsFrame(s: State, s': State)
    requires ListsOk(s) && s' == s.(chans := s'.chans, owner := s'.owner, ran := s'.ran, placed := s'.placed)
          && |s'.chans| == |s.chans| && |s'.owner| == |s.owner|
    ensures ListsOk(s') && Owned(s') == Owned(s)
  {}

  lemma ReceiveChan(s: State, w: nat, v: nat)
    requires Inv(s) && Enabled(s, Receive(w)) && v < |s.chans|
    requires Owned(Apply(s, Receive(w))) == Owned(s)
    ensures ChanOk(Apply(s, Receive(w)), v)
  {
    assert ChanOk(s, w) && ChanOk(s, v);
    if v != w { ChanFrame(s, Apply(s, Receive(w)), v); }
  }

  lemma ReceiveChans(s: State, w: nat)
    requires Inv(s) && Enabled(s, Receive(w))
    ensures var s' := Apply(s, Receive(w));
            && ListsOk(s')
            && (forall v :: 0 <= v < |s'.chans| ==> ChanOk(s', v))
  {
    ReceiveLists(s, w);
    forall v | 0 <= v < |s.chans| ensures ChanOk(Apply(s, Receive(w)), v) { ReceiveChan(s, w, v); }
  }

  lemma ReceiveSubs(s: State, w: nat)
    requires Inv(s) && Enabled(s, Receive(w))
    ensures var s' := Apply(s, Receive(w));
            CountOk(s') && forall q :: q in s'.subs ==> SubOk(s', q)
  {
    var s' := Apply(s, Receive(w));
    assert ChanOk(s, w);
    forall q | q in s.begun ensures AtSub(s', q, Begin) { assert AtSub(s, q, Begin); }
    forall q | q in s'.subs ensures SubOk(s', q) {
      assert SubOk(s, q);
      SubFrame(s, s', q);
    }
  }

  lemma ReceiveTasks(s: State, w: nat)
    requires Inv(s) && Enabled(s, Receive(w))
    ensures TasksOk(Apply(s, Receive(w)))
  {
    var s', m := Apply(s, Receive(w)), s.chans[w].msg.value;
    if m.Task? {
      assert m.p in s.placed && s.placed[m.p] == Some(w);
      assert m.p !in s.ran;
      forall p ensures p in s'.ran <==> p in s'.placed && s'.placed[p] == None {
        assert p in s'.ran <==> p == m.p || p in s.ran;
      }
    }
  }

  /** A worker takes the message out of its own channel: an exit signal, or a task to start. */
  lemma ReceiveStep(s: State, w: nat)
    requires Inv(s) && Enabled(s, Receive(w))
    ensures Inv(Apply(s, Receive(w)))
  {
    ReceiveChans(s, w);
    ReceiveTasks(s, w);
    ReceiveSubs(s, w);
  }

  lemma PushStep(s: State, w: nat)
    requires Inv(s) && Enabled(s, Push(w))
    ensures Inv(Apply(s, Push(w)))
  {
    var s' := Apply(s, Push(w));
    assert ChanOk(s, w);
    assert Owned(s) == s.ready && Owned(s') == s.ready + [w];
    assert forall v :: v in s'.ready <==> v == w || v in s.ready;
    forall v | 0 <= v < |s.chans| ensures ChanOk(s', v) {
      assert ChanOk(s, v);
      if v != w { ChanFrame(s, s', v); }
    }
    forall q | q in s'.subs ensures SubOk(s', q) {
      assert SubOk(s, q);
      SubFrame(s, s', q);
    }
  }

  lemma PutBackStep(s: State, w: nat)
    requires Inv(s) && Enabled(s, PutBack(w))
    ensures Inv(Apply(s, PutBack(w)))
  {
    var s' := Apply(s, PutBack(w));
    assert ChanOk(s, w);
    assert Owned(s') == Owned(s);
    forall v | 0 <= v < |s.chans| ensures ChanOk(s', v) {
      assert ChanOk(s, v);
      if v != w { ChanFrame(s, s', v); }
    }
    forall q | q in s'.subs ensures SubOk(s', q) {
      assert SubOk(s, q);
      SubFrame(s, s', q);
    }
  }

  lemma DecrementStep(s: State)
    requires Inv(s) && Enabled(s, Decrement)
    ensures Inv(Apply(s, Decrement))
  {
    var s' := Apply(s, Decrement);
    forall v | 0 <= v < |s.chans| ensures ChanOk(s', v) {
      assert ChanOk(s, v);
      ChanFrame(s, s', v);
    }
    forall q | q in s'.subs ensures SubOk(s', q) {
      assert SubOk(s, q);
      SubFrame(s, s', q);
    }
  }

  // ---------------------------------------------------------------- cleaner and Stop

  lemma CollectStep(s: State, k: nat)
    requires Inv(s) && Enabled(s, Collect(k))
    ensures Inv(Apply(s, Collect(k)))
  {
    var s' := Apply(s, Collect(k));
    assert s.ready == s.ready[..k] + s.ready[k..];
    assert Owned(s) == s.ready && Owned(s') == s.ready[k..];
    forall w | 0 <= w < |s.chans| ensures ChanOk(s', w) {
      assert ChanOk(s, w);
      if w in s.ready[..k] {
        assert w !in s.ready[k..];
      } else {
        ChanFrame(s, s', w);
      }
    }
    forall q | q in s'.subs ensures SubOk(s', q) {
      assert SubOk(s, q);
      if s.subs[q].pc.Send? { assert ChanOk(s, s.subs[q].pc.w); }
      SubFrame(s, s', q);
    }
  }

  lemma ExpireStep(s: State)
    requires Inv(s) && Enabled(s, Expire)
    ensures Inv(Apply(s, Expire))
  {
    var s', w := Apply(s, Expire), s.expired[0];
    assert w in s.expired && ChanOk(s, w);
    assert Owned(s') == Owned(s);
    assert forall v :: v in s.expired <==> v == w || v in s'.expired;
    assert w !in s'.expired;
    forall v | 0 <= v < |s.chans| ensures ChanOk(s', v) {
      assert ChanOk(s, v);
      if v != w { ChanFrame(s, s', v); }
    }
    forall q | q in s'.subs ensures SubOk(s', q) {
      assert SubOk(s, q);
      SubFrame(s, s', q);
    }
  }

  lemma StopMove(s: State, l: Label)
    requires Inv(s) && Enabled(s, l) && (l.StopCas? || l.StopLock? || l.StopClear?)
    ensures Inv(Apply(s, l))
  {
    var s' := Apply(s, l);
    assert Owned(s') == Owned(s);
    forall v | 0 <= v < |s.chans| ensures ChanOk(s', v) {
      assert ChanOk(s, v);
      ChanFrame(s, s', v);
    }
    forall q | q in s'.subs ensures SubOk(s', q) {
      assert SubOk(s, q);
      SubFrame(s, s', q);
    }
  }

  lemma StopSendStep(s: State)
    requires Inv(s) && Enabled(s, StopSend)
    ensures Inv(Apply(s, StopSend))
  {
    var s', k := Apply(s, StopSend), s.stop.k;
    var w := s.ready[k];
    assert Owned(s)[0] == w && w in Owned(s) && ChanOk(s, w);
    assert Owned(s') == Owned(s)[1..];
    assert forall v :: v in Owned(s) <==> v == w || v in Owned(s');
    assert w !in Owned(s');
    forall v | 0 <= v < |s.chans| ensures ChanOk(s', v) {
      assert ChanOk(s, v);
      if v != w { ChanFrame(s, s', v); }
    }
    forall q | q in s'.subs ensures SubOk(s', q) {
      assert SubOk(s, q);
      SubFrame(s, s', q);
    }
  }

  /** Every step keeps the invariant. */
  lemma StepInv(s: State, l: Label)
    requires Inv(s) && Enabled(s, l)
    ensures Inv(Apply(s, l))
  {
    match l
    case TryPop(p, _) => if s.ready != [] { PopStep(s, p); } else { MissStep(s, l); }
    case Retry(p, _) =>
      if s.ready != [] && !(s.subs[p].kind == Blocking && s.stopped) { PopStep(s, p); } else { MissStep(s, l); }
    case LoadRunning(p, _) => if s.max > 0 { LookStep(s, l); } else { ReserveStep(s, l); }
    case CasRunning(p) => if s.running == s.subs[p].pc.seen { ReserveStep(s, l); } else { LookStep(s, l); }
    case StartWorker(p, w) => StartStep(s, p, w);
    case SendTask(p) => SendStep(s, p);
    case Receive(w) => ReceiveStep(s, w);
    case Push(w) => PushStep(s, w);
    case PutBack(w) => PutBackStep(s, w);
    case Decrement => DecrementStep(s);
    case Collect(k) => CollectStep(s, k);
    case Expire => ExpireStep(s);
    case StopSend => StopSendStep(s);
    case Submit(_, _, _) => SubmitStep(s, l);
    case ReadStopped(_) => SubmitStep(s, l);
    case StopCas => StopMove(s, l);
    case StopLock => StopMove(s, l);
    case StopClear => StopMove(s, l);
    case _ => WorkerStep(s, l);
  }

  // ---------------------------------------------------------------- whole runs

  ghost predicate Next(s: State, e: State)
  {
    exists l :: Enabled(s, l) && e == Apply(s, l)
  }

  lemma NextInv(s: State, e: State)
    requires Inv(s) && Next(s, e)
    ensures Inv(e)
  {
    var l :| Enabled(s, l) && e == Apply(s, l);
    StepInv(s, l);
  }

  ghost predicate ReachableIn(n: nat, e: State)
  {
    if n == 0 then Init(e) else exists m :: ReachableIn(n - 1, m) && Next(m, e)
  }

  /** Some run of any length from an initial state ends in e. */
  ghost predicate Reachable(e: State)
  {
    exists n: nat :: ReachableIn(n, e)
  }

  lemma {:induction false} RunInv(n: nat, e: State)
    requires ReachableIn(n, e)
    ensures Inv(e)
  {
    if n == 0 {
      InitInv(e);
    } else {
      var m :| ReachableIn(n - 1, m) && Next(m, e);
      RunInv(n - 1, m);
      NextInv(m, e);
    }
  }

  lemma ReachableInv(e: State)
    requires Reachable(e)
    ensures Inv(e)
  {
    var n: nat :| ReachableIn(n, e);
    RunInv(n, e);
  }

  /** Main theorem (task conservation): every accepted task is either waiting in exactly one channel
      or has been started, and none is started twice; a rejected one is never started. */
  lemma TaskConservation(e: State, p: int)
    requires Reachable(e)
    ensures Distinct(e.ran)
    ensures p in e.placed && e.placed[p].Some? ==>
              p !in e.ran && e.placed[p].value < |e.chans| && e.chans[e.placed[p].value].msg == Some(Task(p))
    ensures p in e.placed && e.placed[p] == None ==> p in e.ran
    ensures p !in e.placed ==> p !in e.ran
    ensures forall w, v :: 0 <= w < v < |e.chans| ==> !(e.chans[w].msg == e.chans[v].msg == Some(Task(p)))
  {
    ReachableInv(e);
  }

  /** drainChan never throws a task away: the channel is already empty. */
  lemma NothingDiscarded(e: State, w: nat)
    requires Reachable(e) && Enabled(e, DrainChan(w))
    ensures e.chans[w].msg == None
  {
    ReachableInv(e);
    assert ChanOk(e, w);
  }

  /** Sends never block and are never dropped: a submitter, the cleaner and Stop (while it holds the
      lock) each find the channel empty, because each channel has a single owner. */
  lemma SendsNeverBlock(e: State)
    requires Reachable(e)
    ensures forall p :: p in e.subs && e.subs[p].pc.Send? ==> Enabled(e, SendTask(p))
    ensures e.expired != [] ==> Enabled(e, Expire) && e.chans[e.expired[0]].msg == None
    ensures e.stop.Sweeping? && e.stop.k < |e.ready| ==> Enabled(e, StopSend)
  {
    ReachableInv(e);
    forall p | p in e.subs && e.subs[p].pc.Send? ensures Enabled(e, SendTask(p)) {
      assert SubOk(e, p);
      assert ChanOk(e, e.subs[p].pc.w);
    }
    if e.expired != [] {
      assert e.expired[0] in e.expired;
      assert ChanOk(e, e.expired[0]);
    }
    if e.stop.Sweeping? && e.stop.k < |e.ready| {
      assert Owned(e)[0] in Owned(e);
      assert ChanOk(e, e.ready[e.stop.k]);
    }
  }

  /** The worker goroutines never outnumber `running`, nor a positive limit. */
  lemma WorkersBounded(e: State)
    requires Reachable(e)
    ensures |e.live| <= e.running && (e.max > 0 ==> e.running <= e.max)
    ensures forall w :: 0 <= w < |e.chans| ==> (w in e.live <==> e.chans[w].worker != NoWorker)
  {
    ReachableInv(e);
    forall w | 0 <= w < |e.chans| ensures w in e.live <==> e.chans[w].worker != NoWorker {
      assert ChanOk(e, w);
    }
  }

  /** Once Stop has swept the stack, no worker parks itself there again. */
  lemma NoneParkedAfterStop(e: State)
    requires Reachable(e) && e.stop == Swept
    ensures e.ready == [] && e.stopped && !e.lock.HeldByWorker?
  {
    ReachableInv(e);
  }
}
