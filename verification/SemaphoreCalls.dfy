/** What a semaphore call does when it runs by itself (semaphore/semaphore.go), from any state that the
    other goroutines may have left. */
module SemaphoreCalls {
  import opened Steps
  import opened Semaphore

  /** The next step of a thread in the middle of a call; a sleeper stays asleep without a token. */
  function Move(s: State, t: nat): State
  {
    if t >= |s.threads| then s else
    var l := match s.threads[t]
      case Idle => Load(t)
      case AcqTop(_) => Load(t)
      case AcqHave(_, _) => Cas(t)
      case Blocked(_) => Wake(t)
      case TryTop(_) => TryLoad(t)
      case TryHave(_, _) => TryCas(t)
      case Sending(_) => Offer(t);
    if Enabled(s, l) then Apply(s, l) else s
  }

  function Thread(t: nat): State -> State {
    s => Move(s, t)
  }

  /** In the middle of a call that is the only step the thread can take, short of a cancelled context. */
  lemma MoveIsTheStep(s: State, t: nat, l: Label)
    requires t < |s.threads| && s.threads[t] != Idle && Enabled(s, l) && l.t == t && !l.CtxDone?
    ensures Apply(s, l) == Move(s, t)
  {}

  lemma Unchanged(s: State, t: nat, a: Pc, b: Pc)
    requires t < |s.threads|
    ensures Go(Go(s, t, a), t, b) == Go(s, t, b)
    ensures s.threads[t] == b ==> Go(s, t, b) == s
  {
    assert s.threads[t := a][t := b] == s.threads[t := b];
  }

  /** Main theorem: TryAcquireN takes n permits exactly when n is at least one and that many are free;
      otherwise it leaves everything as it was. */
  lemma TryAlone(s: State, t: nat, n: int)
    requires Reachable(s) && t < |s.threads| && s.threads[t] == Idle
    ensures Iterate(Thread(t), Apply(s, TryAcquireN(t, n)), 2) ==
            if 1 <= n <= s.avail then s.(avail := s.avail - n, held := s.held + n) else s
  {
    ReachableInv(s);
    if 1 <= n <= s.cap {
      var a := Go(s, t, TryTop(n));
      Unchanged(s, t, TryTop(n), TryHave(n, s.avail));
      Unchanged(s, t, TryTop(n), Idle);
      Unchanged(s, t, TryHave(n, s.avail), Idle);
      if n <= s.avail {
        assert Move(a, t) == Go(s, t, TryHave(n, s.avail));
      } else {
        assert Move(a, t) == s && Move(s, t) == s;
      }
    } else {
      assert Move(s, t) == s;
    }
  }

  /** Main theorem: with a free permit Acquire takes one; without one it sleeps, having taken nothing. */
  lemma AcquireAlone(s: State, t: nat, ctx: bool)
    requires Reachable(s) && t < |s.threads| && s.threads[t] == Idle
    ensures s.avail > 0 ==>
              Iterate(Thread(t), Apply(s, Acquire(t, ctx)), 2) == s.(avail := s.avail - 1, held := s.held + 1)
    ensures s.avail == 0 ==> Iterate(Thread(t), Apply(s, Acquire(t, ctx)), 1) == Go(s, t, Blocked(ctx))
  {
    ReachableInv(s);
    Unchanged(s, t, AcqTop(ctx), AcqHave(ctx, s.avail));
    Unchanged(s, t, AcqTop(ctx), Blocked(ctx));
    Unchanged(s, t, AcqHave(ctx, s.avail), Idle);
    var a := Go(s, t, AcqTop(ctx));
    assert Move(a, t) == if s.avail > 0 then Go(s, t, AcqHave(ctx, s.avail)) else Go(s, t, Blocked(ctx));
  }

  /** A TryAcquireN whose swap comes too late looks again, and takes n permits exactly if they are free. */
  lemma StaleTry(s: State, t: nat, n: int, seen: int)
    requires t < |s.threads| && s.threads[t] == TryHave(n, seen) && seen != s.avail && n >= 1
    ensures Iterate(Thread(t), s, 3) ==
            if n <= s.avail then Go(s, t, Idle).(avail := s.avail - n, held := s.held + n) else Go(s, t, Idle)
  {
    var a := Go(s, t, TryTop(n));
    assert Move(s, t) == a;
    Unchanged(s, t, TryTop(n), TryHave(n, s.avail));
    Unchanged(s, t, TryTop(n), Idle);
    Unchanged(s, t, TryHave(n, s.avail), Idle);
    assert Move(a, t) == if n <= s.avail then Go(s, t, TryHave(n, s.avail)) else Go(s, t, Idle);
    if n > s.avail { assert Move(Go(s, t, Idle), t) == Go(s, t, Idle); }
  }

  /** An Acquire whose swap comes too late goes to sleep, even if permits are free. */
  lemma StaleAcquire(s: State, t: nat, ctx: bool, seen: int)
    requires t < |s.threads| && s.threads[t] == AcqHave(ctx, seen) && seen != s.avail
    ensures Move(s, t) == Go(s, t, Blocked(ctx))
  {}

  /** A sleeper with a token and a free permit takes both. */
  lemma WokenAlone(s: State, t: nat)
    requires Reachable(s) && t < |s.threads| && s.threads[t].Blocked? && s.wake > 0 && s.avail > 0
    ensures Iterate(Thread(t), s, 3) == Go(s, t, Idle).(wake := s.wake - 1, avail := s.avail - 1, held := s.held + 1)
  {
    ReachableInv(s);
    var ctx := s.threads[t].ctx;
    var a, b := Go(s, t, AcqTop(ctx)).(wake := s.wake - 1), Go(s, t, AcqHave(ctx, s.avail)).(wake := s.wake - 1);
    Unchanged(s, t, AcqTop(ctx), AcqHave(ctx, s.avail));
    Unchanged(s, t, AcqHave(ctx, s.avail), Idle);
    assert Move(s, t) == a && Move(a, t) == b;
  }

  /** Main theorem: Release and ReleaseN give back n permits and leave a token for each, as far as the
      channel has room. */
  lemma ReleaseAlone(s: State, t: nat, n: nat)
    requires Reachable(s) && t < |s.threads| && s.threads[t] == Idle && 1 <= n <= s.held
    ensures Iterate(Thread(t), Apply(s, Release(t, n)), n) ==
            s.(avail := s.avail + n, held := s.held - n, wake := if s.wake + n <= s.cap then s.wake + n else s.cap)
  {
    ReachableInv(s);
    var a := Go(s, t, Sending(n)).(avail := s.avail + n, held := s.held - n);
    OfferAlone(a, t, n);
    Unchanged(s, t, Sending(n), Idle);
  }

  lemma {:induction false} OfferAlone(s: State, t: nat, left: nat)
    requires t < |s.threads| && s.threads[t] == Sending(left) && left >= 1 && s.wake <= s.cap
    ensures Iterate(Thread(t), s, left) ==
            Go(s, t, Idle).(wake := if s.wake + left <= s.cap then s.wake + left else s.cap)
    decreases left
  {
    var a := Move(s, t);
    if s.wake == s.cap || left == 1 {
      assert a == Go(s, t, Idle).(wake := if s.wake < s.cap then s.wake + 1 else s.wake);
      Rests(a, t, left - 1);
    } else {
      OfferAlone(a, t, left - 1);
      Unchanged(s, t, Sending(left - 1), Idle);
    }
  }

  lemma {:induction false} Rests(s: State, t: nat, k: nat)
    requires t < |s.threads| && s.threads[t] == Idle
    ensures Iterate(Thread(t), s, k) == s
    decreases k
  {
    if k > 0 { Rests(s, t, k - 1); }
  }
}
