/** The counting semaphore (semaphore/semaphore.go) as a transition system: an atomic counter plus
    a buffered channel of wake tokens, any number of goroutines, one atomic operation per step. */
module Semaphore {
  datatype Pc =
    | Idle
    | AcqTop(ctx: bool)             // Acquire or AcquireContext, about to load avail
    | AcqHave(ctx: bool, seen: int) // loaded a positive value, about to compare-and-swap
    | Blocked(ctx: bool)            // waiting for a token
    | TryTop(n: int)                // TryAcquire (n = 1) or TryAcquireN, about to load
    | TryHave(n: int, seen: int)
    | Sending(left: nat)            // Release or ReleaseN, tokens still to offer

  /** `held` counts the permits out with clients. */
  datatype State = State(cap: nat, avail: int, wake: nat, held: nat, threads: seq<Pc>)

  ghost predicate Init(s: State)
  {
    && s.cap >= 1 && s.avail == s.cap && s.wake == 0 && s.held == 0
    && forall t :: 0 <= t < |s.threads| ==> s.threads[t] == Idle
  }

  datatype Label =
    | Acquire(t: nat, ctx: bool) | Load(t: nat) | Cas(t: nat) | Wake(t: nat) | CtxDone(t: nat)
    | TryAcquireN(t: nat, n: int) | TryLoad(t: nat) | TryCas(t: nat)
    | Release(t: nat, n: int) | Offer(t: nat)

  predicate Enabled(s: State, l: Label)
  {
    && l.t < |s.threads|
    && var pc := s.threads[l.t];
       match l
       case Acquire(_, _) => pc == Idle
       case Load(_) => pc.AcqTop?
       case Cas(_) => pc.AcqHave?
       case Wake(_) => pc.Blocked? && s.wake > 0
       case CtxDone(_) => pc.Blocked? && pc.ctx
       case TryAcquireN(_, _) => pc == Idle
       case TryLoad(_) => pc.TryTop?
       case TryCas(_) => pc.TryHave?
       case Release(_, n) => pc == Idle && 1 <= n <= s.held     // clients release only what is held
       case Offer(_) => pc.Sending?
  }

  function Go(s: State, t: nat, pc: Pc): State
    requires t < |s.threads|
  {
    s.(threads := s.threads[t := pc])
  }

  function Apply(s: State, l: Label): State
    requires Enabled(s, l)
  {
    var t, pc := l.t, s.threads[l.t];
    match l
    case Acquire(_, ctx) => Go(s, t, AcqTop(ctx))
    case Load(_) => Go(s, t, if s.avail > 0 then AcqHave(pc.ctx, s.avail) else Blocked(pc.ctx))
    case Cas(_) =>
      if s.avail == pc.seen then Go(s, t, Idle).(avail := s.avail - 1, held := s.held + 1)
      else Go(s, t, Blocked(pc.ctx))
    case Wake(_) => Go(s, t, AcqTop(pc.ctx)).(wake := s.wake - 1)
    case CtxDone(_) => Go(s, t, Idle)
    case TryAcquireN(_, n) => if n < 1 || n > s.cap then s else Go(s, t, TryTop(n))
    case TryLoad(_) => Go(s, t, if s.avail < pc.n then Idle else TryHave(pc.n, s.avail))
    case TryCas(_) =>
      if s.avail == pc.seen && 0 <= pc.n then Go(s, t, Idle).(avail := s.avail - pc.n, held := s.held + pc.n)
      else Go(s, t, TryTop(pc.n))
    case Release(_, n) => Go(s, t, Sending(n)).(avail := s.avail + n, held := s.held - n)
    case Offer(_) =>
      if s.wake < s.cap then Go(s, t, if pc.left <= 1 then Idle else Sending(pc.left - 1)).(wake := s.wake + 1)
      else Go(s, t, Idle)
  }

  // ---------------------------------------------------------------- invariant

  ghost predicate PcOk(cap: nat, pc: Pc)
  {
    && (pc.AcqHave? ==> pc.seen > 0)
    && (pc.TryTop? ==> 1 <= pc.n <= cap)
    && (pc.TryHave? ==> 1 <= pc.n <= cap && pc.n <= pc.seen)
    && (pc.Sending? ==> pc.left >= 1)
  }

  /** Asleep, or about to fall asleep because the compare-and-swap is bound to fail. */
  predicate Waiting(s: State, t: nat)
    requires t < |s.threads|
  {
    s.threads[t].Blocked? || (s.threads[t].AcqHave? && s.threads[t].seen != s.avail)
  }

  /** A releaser that still offers a token, or an acquirer on its way to a compare-and-swap that
      nothing has spoiled. */
  predicate Helps(s: State, t: nat)
    requires t < |s.threads|
  {
    s.threads[t].Sending? || s.threads[t].AcqTop? || (s.threads[t].AcqHave? && s.threads[t].seen == s.avail)
  }

  ghost predicate SomeWaiting(s: State) { exists t :: 0 <= t < |s.threads| && Waiting(s, t) }
  ghost predicate SomeHelp(s: State) { exists t :: 0 <= t < |s.threads| && Helps(s, t) }

  /** Nobody waits in vain: a token exists, somebody will act, or a permit is out and will return. */
  ghost predicate NotStranded(s: State)
  {
    SomeWaiting(s) ==> s.wake > 0 || s.held > 0 || SomeHelp(s)
  }

  ghost predicate Inv(s: State)
  {
    && s.cap >= 1 && 0 <= s.avail && s.avail + s.held == s.cap && s.wake <= s.cap
    && (forall t :: 0 <= t < |s.threads| ==> PcOk(s.cap, s.threads[t]))
    && NotStranded(s)
  }

  lemma StepInv(s: State, l: Label)
    requires Inv(s) && Enabled(s, l)
    ensures Inv(Apply(s, l))
  {
    var s', t := Apply(s, l), l.t;
    assert PcOk(s.cap, s.threads[t]);
    if s'.wake == 0 && s'.held == 0 && SomeWaiting(s') {
      assert s.held == 0 || l.Release?;
      if Helps(s', t) {
        assert SomeHelp(s');
      } else {
        StillHelped(s, l);
      }
    }
  }

  /** The remaining steps leave the counter alone, so helpers and waiters stay what they were. */
  lemma StillHelped(s: State, l: Label)
    requires Inv(s) && Enabled(s, l)
    requires var s' := Apply(s, l);
             s'.wake == 0 && s'.held == 0 && SomeWaiting(s') && !Helps(s', l.t)
    ensures SomeHelp(Apply(s, l))
  {
    var s' := Apply(s, l);
    assert PcOk(s.cap, s.threads[l.t]);
    assert s'.avail == s.avail && s.wake == 0 && s.held == 0;
    var w :| 0 <= w < |s'.threads| && Waiting(s', w);
    assert Waiting(s, w);
    var h :| 0 <= h < |s.threads| && Helps(s, h);
    assert Helps(s', h);
  }

  // ---------------------------------------------------------------- whole runs

  ghost predicate ReachableIn(n: nat, e: State)
  {
    if n == 0 then Init(e) else exists m, l :: ReachableIn(n - 1, m) && Enabled(m, l) && e == Apply(m, l)
  }

  /** Some run of any length from an initial state ends in e. */
  ghost predicate Reachable(e: State)
  {
    exists n: nat :: ReachableIn(n, e)
  }

  lemma {:induction false} RunInv(n: nat, e: State)
    requires ReachableIn(n, e)
    ensures Inv(e)
  {
    if n > 0 {
      var m, l :| ReachableIn(n - 1, m) && Enabled(m, l) && e == Apply(m, l);
      RunInv(n - 1, m);
      StepInv(m, l);
    }
  }

  lemma ReachableInv(e: State)
    requires Reachable(e)
    ensures Inv(e)
  {
    var n: nat :| ReachableIn(n, e);
    RunInv(n, e);
  }

  lemma Then(e: State, l: Label, r: State)
    requires Reachable(e) && Enabled(e, l)
    requires r == Apply(e, l).(threads := r.threads) && |r.threads| == |e.threads|
    requires forall t :: 0 <= t < |e.threads| ==> r.threads[t] == Apply(e, l).threads[t]
    ensures Reachable(r)
  {
    var n: nat :| ReachableIn(n, e);
    assert r.threads == Apply(e, l).threads;
    assert ReachableIn(n + 1, r);
  }

  /** Main theorem: permits are conserved over every run, and the over-release panic cannot happen
      to clients that release only what is held. */
  lemma Conservation(e: State)
    requires Reachable(e)
    ensures 0 <= e.avail <= e.cap && e.held + e.avail == e.cap && e.wake <= e.cap
    ensures forall t, n :: Enabled(e, Release(t, n)) ==> Apply(e, Release(t, n)).avail <= e.cap
  {
    ReachableInv(e);
  }

  /** Main theorem: in no reachable state is a waiter stranded, cancellation, failed swaps and the
      early return of ReleaseN included. */
  lemma NoStrandedWaiter(e: State, t: nat)
    requires Reachable(e) && t < |e.threads| && Waiting(e, t)
    ensures e.wake > 0 || e.held > 0 || SomeHelp(e)
  {
    ReachableInv(e);
    assert SomeWaiting(e);
  }

  // ---------------------------------------------------------------- sleeping beside a free permit

  /** A goroutine sleeps although a permit is free, and nothing is under way to wake it. */
  ghost predicate SleepsBesideFree(s: State)
  {
    (exists t :: 0 <= t < |s.threads| && s.threads[t].Blocked?) && s.avail > 0 && s.wake == 0 && !SomeHelp(s)
  }

  /** With a single permit this cannot happen. */
  lemma SinglePermit(e: State)
    requires Reachable(e) && e.cap == 1
    ensures !SleepsBesideFree(e)
  {
    ReachableInv(e);
    if t :| 0 <= t < |e.threads| && e.threads[t].Blocked? {
      assert Waiting(e, t);
    }
  }

  lemma AllTaken(cap: nat) returns (e: State)
    requires cap >= 2
    ensures Reachable(e) && e == State(cap, 0, 0, cap, [Idle, Idle, Idle])
  {
    e := State(cap, cap, 0, 0, [Idle, Idle, Idle]);
    assert ReachableIn(0, e);
    var s0 := State(cap, cap, 0, 0, [TryTop(cap), Idle, Idle]);
    Then(e, TryAcquireN(0, cap), s0);
    var s1 := State(cap, cap, 0, 0, [TryHave(cap, cap), Idle, Idle]);
    Then(s0, TryLoad(0), s1);
    var s2 := State(cap, 0, 0, cap, [Idle, Idle, Idle]);
    Then(s1, TryCas(0), s2);
    e := s2;
  }

  lemma TwoSleepers(cap: nat) returns (e: State)
    requires cap >= 2
    ensures Reachable(e) && e == State(cap, 0, 0, cap, [Idle, Blocked(false), Blocked(false)])
  {
    e := AllTaken(cap);
    var s0 := State(cap, 0, 0, cap, [Idle, AcqTop(false), Idle]);
    Then(e, Acquire(1, false), s0);
    var s1 := State(cap, 0, 0, cap, [Idle, Blocked(false), Idle]);
    Then(s0, Load(1), s1);
    var s2 := State(cap, 0, 0, cap, [Idle, Blocked(false), AcqTop(false)]);
    Then(s1, Acquire(2, false), s2);
    var s3 := State(cap, 0, 0, cap, [Idle, Blocked(false), Blocked(false)]);
    Then(s2, Load(2), s3);
    e := s3;
  }

  lemma OneWoken(cap: nat) returns (e: State)
    requires cap >= 2
    ensures Reachable(e) && e == State(cap, 1, 0, cap - 1, [Idle, AcqHave(false, 1), Blocked(false)])
  {
    e := TwoSleepers(cap);
    var s0 := State(cap, 1, 0, cap - 1, [Sending(1), Blocked(false), Blocked(false)]);
    Then(e, Release(0, 1), s0);
    var s1 := State(cap, 1, 1, cap - 1, [Idle, Blocked(false), Blocked(false)]);
    Then(s0, Offer(0), s1);
    var s2 := State(cap, 1, 0, cap - 1, [Idle, AcqTop(false), Blocked(false)]);
    Then(s1, Wake(1), s2);
    var s3 := State(cap, 1, 0, cap - 1, [Idle, AcqHave(false, 1), Blocked(false)]);
    Then(s2, Load(1), s3);
    e := s3;
  }

  lemma SwapSpoiled(cap: nat) returns (e: State)
    requires cap >= 2
    ensures Reachable(e) && e == State(cap, 2, 1, cap - 2, [Idle, Blocked(false), Blocked(false)])
  {
    e := OneWoken(cap);
    var s0 := State(cap, 2, 0, cap - 2, [Sending(1), AcqHave(false, 1), Blocked(false)]);
    Then(e, Release(0, 1), s0);
    var s1 := State(cap, 2, 1, cap - 2, [Idle, AcqHave(false, 1), Blocked(false)]);
    Then(s0, Offer(0), s1);
    var s2 := State(cap, 2, 1, cap - 2, [Idle, Blocked(false), Blocked(false)]);
    Then(s1, Cas(1), s2);
    e := s2;
  }

  /** With more it does: a waiter spends the token of one release on a failed swap, caused by the
      next release, and the second token wakes only one of two sleepers. */
  lemma LostWakeup(cap: nat) returns (e: State)
    requires cap >= 2
    ensures Reachable(e) && e == State(cap, 1, 0, cap - 1, [Idle, Idle, Blocked(false)])
  {
    e := SwapSpoiled(cap);
    var s0 := State(cap, 2, 0, cap - 2, [Idle, AcqTop(false), Blocked(false)]);
    Then(e, Wake(1), s0);
    var s1 := State(cap, 2, 0, cap - 2, [Idle, AcqHave(false, 2), Blocked(false)]);
    Then(s0, Load(1), s1);
    var s2 := State(cap, 1, 0, cap - 1, [Idle, Idle, Blocked(false)]);
    Then(s1, Cas(1), s2);
    e := s2;
  }

  lemma SleeperLeft(cap: nat)
    requires cap >= 2
    ensures SleepsBesideFree(State(cap, 1, 0, cap - 1, [Idle, Idle, Blocked(false)]))
  {
    var e := State(cap, 1, 0, cap - 1, [Idle, Idle, Blocked(false)]);
    assert e.threads[2].Blocked?;
  }

  /** Main theorem: a free permit and an unattended sleeper never coexist exactly for capacity 1. */
  lemma LostWakeupExactly(cap: nat)
    requires cap >= 1
    ensures cap == 1 <==> forall e :: Reachable(e) && e.cap == cap ==> !SleepsBesideFree(e)
  {
    if cap == 1 {
      forall e | Reachable(e) && e.cap == cap ensures !SleepsBesideFree(e) { SinglePermit(e); }
    } else {
      var e := LostWakeup(cap);
      SleeperLeft(cap);
    }
  }
}
