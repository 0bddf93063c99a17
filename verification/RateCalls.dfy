/** What an AllowN call does when it runs by itself (ratelimit/ratelimit.go), from any state that
    concurrent calls may have left: the lock-free steps add up to the bucket rule. */
module RateCalls {
  import opened Arith
  import opened Steps
  import opened RateLimit

  /** The next step of a thread in the middle of a call. */
  function Move(s: State, t: nat): State
  {
    if t >= |s.threads| then s else
    var l := match s.threads[t]
      case Idle => LoadLast(t)
      case Top(_, _) => LoadLast(t)
      case HaveLast(_, _, _) => LoadTokens(t)
      case HaveBoth(_, _, _, _) => CasLast(t)
      case Adding(_, _, _) => LoadForAdd(t)
      case AddSwap(_, _, _, _) => CasAdd(t)
      case Reload(_, _) => LoadAgain(t)
      case Deduct(_, _, _) => CasDeduct(t);
    if Enabled(s, l) then Apply(s, l) else s
  }

  lemma MoveIsTheStep(s: State, t: nat, l: Label)
    requires t < |s.threads| && s.threads[t] != Idle && Enabled(s, l) && l.t == t
    ensures Apply(s, l) == Move(s, t)
  {}

  function Thread(t: nat): State -> State {
    s => Move(s, t)
  }

  lemma {:induction false} Rests(s: State, t: nat, k: nat)
    requires t < |s.threads| && s.threads[t] == Idle
    ensures Iterate(Thread(t), s, k) == s
    decreases k
  {
    if k > 0 { Rests(s, t, k - 1); }
  }

  lemma GoGo(s: State, t: nat, a: Pc, b: Pc)
    requires t < |s.threads|
    ensures Go(Go(s, t, a), t, b) == Go(s, t, b)
    ensures s.threads[t] == b ==> Go(s, t, b) == s
  {
    assert s.threads[t := a][t := b] == s.threads[t := b];
  }

  /** Refilled by q intervals; full is what the bucket then holds. */
  function Filled(s: State, q: int, full: int): State {
    s.(last := s.last + q * s.interval, claimed := s.claimed + q, spilled := s.spilled + (s.tokens + q - full), tokens := full)
  }

  /** The need taken from the bucket if it covers it. */
  function Taken(s: State, need: int): State {
    if need <= s.tokens then s.(tokens := s.tokens - need, granted := s.granted + need) else s
  }

  /** From the last load on: take the tokens if there are enough. */
  lemma DeductAlone(s: State, t: nat, need: int, now: int, k: nat)
    requires t < |s.threads| && s.interval >= 1 && s.threads[t] == Deduct(need, now, s.tokens) && k >= 1
    ensures Iterate(Thread(t), s, k) ==
            Go(Taken(s, need), t, Idle)
  {
    Rests(Move(s, t), t, k - 1);
  }

  /** The first two loads see the state as it is. */
  lemma LoadsAlone(s: State, t: nat, need: int, now: int)
    requires t < |s.threads| && s.interval >= 1 && s.threads[t] == Top(need, now)
    ensures Move(Move(s, t), t) == Go(s, t, HaveBoth(need, now, s.last, s.tokens))
  {
    GoGo(s, t, HaveLast(need, now, s.last), HaveBoth(need, now, s.last, s.tokens));
  }

  /** The refill: lastNano moves on by the whole intervals, the tokens by as many, up to the burst. */
  lemma RefillAlone(s: State, t: nat, need: int, now: int, q: int)
    requires t < |s.threads| && s.interval >= 1 && s.threads[t] == HaveBoth(need, now, s.last, s.tokens)
    requires q == (if now < s.last then 0 else (now - s.last) / s.interval) && s.tokens <= s.burst
    ensures var full := if s.tokens + q > s.burst then s.burst else s.tokens + q;
            var e := Go(Filled(s, q, full), t, Deduct(need, now, full));
            && q >= 0 && (q == 0 ==> Move(s, t) == e) && (q > 0 ==> Move(Move(Move(s, t), t), t) == e)
  {
    assert q == Due(now, s.last, s.interval);
    var full := if s.tokens + q > s.burst then s.burst else s.tokens + q;
    GoGo(s, t, Adding(need, now, q), AddSwap(need, now, q, s.tokens));
    GoGo(s, t, AddSwap(need, now, q, s.tokens), Deduct(need, now, full));
  }

  lemma Unfold(s: State, t: nat, k: nat)
    requires t < |s.threads|
    ensures k >= 1 ==> Iterate(Thread(t), s, k) == Iterate(Thread(t), Move(s, t), k - 1)
    ensures k >= 2 ==> Iterate(Thread(t), s, k) == Iterate(Thread(t), Move(Move(s, t), t), k - 2)
    ensures k >= 3 ==> Iterate(Thread(t), s, k) == Iterate(Thread(t), Move(Move(Move(s, t), t), t), k - 3)
  {}

  /** Refill and deduction together. */
  lemma BothAlone(s: State, t: nat, need: int, now: int, q: int, k: nat)
    requires t < |s.threads| && s.interval >= 1 && s.threads[t] == HaveBoth(need, now, s.last, s.tokens) && k >= 4
    requires q == (if now < s.last then 0 else (now - s.last) / s.interval) && s.tokens <= s.burst
    ensures var full := if s.tokens + q > s.burst then s.burst else s.tokens + q;
            Iterate(Thread(t), s, k) == Go(Taken(Filled(s, q, full), need), t, Idle)
  {
    var full := if s.tokens + q > s.burst then s.burst else s.tokens + q;
    RefillAlone(s, t, need, now, q);
    Unfold(s, t, k);
    var e := Go(Filled(s, q, full), t, Deduct(need, now, full));
    DeductAlone(e, t, need, now, if q == 0 then k - 1 else k - 3);
    GoGo(Filled(s, q, full), t, Deduct(need, now, full), Idle);
  }

  /** The whole call from the top of the loop. */
  lemma TopAlone(s: State, t: nat, need: int, now: int, q: int, k: nat)
    requires t < |s.threads| && s.interval >= 1 && s.threads[t] == Top(need, now) && k >= 6
    requires q == (if now < s.last then 0 else (now - s.last) / s.interval) && s.tokens <= s.burst
    ensures var full := if s.tokens + q > s.burst then s.burst else s.tokens + q;
            Iterate(Thread(t), s, k) == Go(Taken(Filled(s, q, full), need), t, Idle)
  {
    var a := Go(s, t, HaveBoth(need, now, s.last, s.tokens));
    LoadsAlone(s, t, need, now);
    Unfold(s, t, k);
    BothAlone(a, t, need, now, q, k - 2);
    var full := if s.tokens + q > s.burst then s.burst else s.tokens + q;
    GoGo(Taken(Filled(s, q, full), need), t, HaveBoth(need, now, s.last, s.tokens), Idle);
  }

  /** A call whose deduction comes too late starts over and decides on the state as it then is. */
  lemma StaleDeduct(s: State, t: nat, need: int, now: int, cur: int, q: int, k: nat)
    requires t < |s.threads| && s.interval >= 1 && s.threads[t] == Deduct(need, now, cur) && cur != s.tokens && need <= cur
    requires q == (if now < s.last then 0 else (now - s.last) / s.interval) && s.tokens <= s.burst && k >= 7
    ensures var full := if s.tokens + q > s.burst then s.burst else s.tokens + q;
            Iterate(Thread(t), s, k) == Go(Taken(Filled(s, q, full), need), t, Idle)
  {
    var full := if s.tokens + q > s.burst then s.burst else s.tokens + q;
    assert Move(s, t) == Go(s, t, Top(need, now));
    Unfold(s, t, k);
    TopAlone(Go(s, t, Top(need, now)), t, need, now, q, k - 1);
    GoGo(Taken(Filled(s, q, full), need), t, Top(need, now), Idle);
  }

  /** A refill whose addition comes too late is not lost: the tokens are added to what is there by then. */
  lemma StaleAdd(s: State, t: nat, need: int, now: int, add: int, tok: int)
    requires t < |s.threads| && s.interval >= 1 && s.threads[t] == AddSwap(need, now, add, tok) && tok != s.tokens
    ensures var full := if s.tokens + add > s.burst then s.burst else s.tokens + add;
            Move(Move(Move(s, t), t), t) ==
            Go(s, t, Deduct(need, now, full)).(tokens := full, spilled := s.spilled + (s.tokens + add - full))
  {
    var full := if s.tokens + add > s.burst then s.burst else s.tokens + add;
    GoGo(s, t, Adding(need, now, add), AddSwap(need, now, add, s.tokens));
    GoGo(s, t, AddSwap(need, now, add, s.tokens), Deduct(need, now, full));
  }

  /** A call that lost the refill to another goes by the tokens that are there now. */
  lemma StaleLast(s: State, t: nat, need: int, now: int, last: int, cur: int)
    requires t < |s.threads| && s.interval >= 1 && s.threads[t] == HaveBoth(need, now, last, cur)
    requires last != s.last && now - last >= s.interval
    ensures Move(Move(s, t), t) == Go(s, t, Deduct(need, now, s.tokens))
  {
    DivAtLeast(now - last, 1, s.interval);
    GoGo(s, t, Reload(need, now), Deduct(need, now, s.tokens));
  }

  lemma AllowFrom(s: State, t: nat, n: int, now: int, k: nat)
    requires s.interval >= 1 && s.tokens <= s.burst && t < |s.threads| && s.threads[t] == Idle && k >= 6
    ensures var need, q := if n <= 0 then 1 else n, if now < s.last then 0 else (now - s.last) / s.interval;
            var full := if s.tokens + q > s.burst then s.burst else s.tokens + q;
            Iterate(Thread(t), Apply(s, AllowN(t, n, now)), k) ==
            if need > s.burst then s
            else s.(latest := if s.latest < now then now else s.latest, last := s.last + q * s.interval,
                    claimed := s.claimed + q, spilled := s.spilled + (s.tokens + q - full),
                    tokens := if need <= full then full - need else full,
                    granted := if need <= full then s.granted + need else s.granted)
  {
    var need, q := if n <= 0 then 1 else n, if now < s.last then 0 else (now - s.last) / s.interval;
    if need > s.burst {
      Rests(s, t, k);
    } else {
      var full := if s.tokens + q > s.burst then s.burst else s.tokens + q;
      var b := s.(latest := if s.latest < now then now else s.latest);
      TopAlone(Go(b, t, Top(need, now)), t, need, now, q, k);
      GoGo(Taken(Filled(b, q, full), need), t, Top(need, now), Idle);
    }
  }

  lemma InBounds(s: State)
    requires Reachable(s)
    ensures s.interval >= 1 && 0 <= s.tokens <= s.burst
  {
    TokenConservation(s);
  }

  /** Main theorem: with q whole intervals since lastNano, the bucket fills up by q tokens at most to the
      burst, and the call is granted exactly when that covers the need. Six steps are enough. */
  lemma AllowAlone(s: State, t: nat, n: int, now: int, k: nat)
    requires Reachable(s) && t < |s.threads| && s.threads[t] == Idle && k >= 6
    ensures var need, q := if n <= 0 then 1 else n, if now < s.last then 0 else (now - s.last) / s.interval;
            var full := if s.tokens + q > s.burst then s.burst else s.tokens + q;
            Iterate(Thread(t), Apply(s, AllowN(t, n, now)), k) ==
            if need > s.burst then s
            else s.(latest := if s.latest < now then now else s.latest, last := s.last + q * s.interval,
                    claimed := s.claimed + q, spilled := s.spilled + (s.tokens + q - full),
                    tokens := if need <= full then full - need else full,
                    granted := if need <= full then s.granted + need else s.granted)
  {
    InBounds(s);
    AllowFrom(s, t, n, now, k);
  }
}
