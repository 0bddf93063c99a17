/** The lock-free token bucket (ratelimit/ratelimit.go): as a transition system with one atomic
    operation per step, and as the sequential object that a single caller sees. */
module RateLimit {
  import opened Arith

  // ---------------------------------------------------------------- configuration

  const Second: nat := 1_000_000_000

  /** `New`: non-positive arguments become 1; each token is worth Second / rate nanoseconds. */
  function Interval(rate: int): int {
    Second / (if rate <= 0 then 1 else rate)
  }

  lemma IntervalPositive(rate: int)
    ensures Interval(rate) >= 1 <==> rate <= Second
  {
    if 0 < rate <= Second {
      assert Second / rate * rate + Second % rate == Second;
      MulMono(Second / rate, 0, rate);
    }
  }

  function Need(n: int): int {
    if n <= 0 then 1 else n
  }

  /** Tokens that have become due since `last`; a clock that ran backwards yields none. */
  function Due(now: int, last: int, interval: int): (add: int)
    requires interval >= 1
    ensures add >= 0
    ensures add > 0 ==> last + add * interval <= now
    ensures now - last < (add + 1) * interval
  {
    var elapsed := if now < last then 0 else now - last;
    var add := elapsed / interval;
    assert elapsed == add * interval + elapsed % interval;
    MulMono(add, -1, interval);
    Distribute(add, 1, interval);
    add
  }

  // ---------------------------------------------------------------- concurrent protocol

  datatype Pc =
    | Idle
    | Top(need: int, now: int)                          // about to load lastNano
    | HaveLast(need: int, now: int, last: int)          // about to load tokens
    | HaveBoth(need: int, now: int, last: int, cur: int)
    | Adding(need: int, now: int, add: int)             // won lastNano, about to load tokens
    | AddSwap(need: int, now: int, add: int, tok: int)
    | Reload(need: int, now: int)                       // lost lastNano
    | Deduct(need: int, now: int, cur: int)

  /** `start`, `latest`, `claimed`, `granted` and `spilled` record history: the first and the latest clock
      reading, the intervals moved past by lastNano, the tokens given out, and those that came to a full
      bucket. */
  datatype State = State(burst: int, interval: int, tokens: int, last: int, threads: seq<Pc>,
                         start: int, latest: int, claimed: int, granted: int, spilled: int)

  ghost predicate Init(s: State)
  {
    && s.burst >= 1 && s.interval >= 1 && s.tokens == s.burst && s.last == s.start == s.latest
    && s.claimed == 0 && s.granted == 0 && s.spilled == 0
    && forall t :: 0 <= t < |s.threads| ==> s.threads[t] == Idle
  }

  datatype Label =
    | AllowN(t: nat, n: int, now: int) | LoadLast(t: nat) | LoadTokens(t: nat) | CasLast(t: nat)
    | LoadForAdd(t: nat) | CasAdd(t: nat) | LoadAgain(t: nat) | CasDeduct(t: nat)

  predicate Enabled(s: State, l: Label)
  {
    && l.t < |s.threads| && s.interval >= 1
    && var pc := s.threads[l.t];
       match l
       case AllowN(_, _, _) => pc == Idle
       case LoadLast(_) => pc.Top?
       case LoadTokens(_) => pc.HaveLast?
       case CasLast(_) => pc.HaveBoth?
       case LoadForAdd(_) => pc.Adding?
       case CasAdd(_) => pc.AddSwap?
       case LoadAgain(_) => pc.Reload?
       case CasDeduct(_) => pc.Deduct?
  }

  function Max(a: int, b: int): int { if a < b then b else a }
  function Min(a: int, b: int): int { if a < b then a else b }

  function Go(s: State, t: nat, pc: Pc): State
    requires t < |s.threads|
  {
    s.(threads := s.threads[t := pc])
  }

  function Apply(s: State, l: Label): State
    requires Enabled(s, l)
  {
    var t, pc := l.t, s.threads[l.t];
    match l
    case AllowN(_, n, now) =>
      if Need(n) > s.burst then s else Go(s, t, Top(Need(n), now)).(latest := Max(s.latest, now))
    case LoadLast(_) => Go(s, t, HaveLast(pc.need, pc.now, s.last))
    case LoadTokens(_) => Go(s, t, HaveBoth(pc.need, pc.now, pc.last, s.tokens))
    case CasLast(_) =>
      var add := Due(pc.now, pc.last, s.interval);
      if add == 0 then Go(s, t, Deduct(pc.need, pc.now, pc.cur))
      else if s.last == pc.last
      then Go(s, t, Adding(pc.need, pc.now, add)).(last := pc.last + add * s.interval, claimed := s.claimed + add)
      else Go(s, t, Reload(pc.need, pc.now))
    case LoadForAdd(_) => Go(s, t, AddSwap(pc.need, pc.now, pc.add, s.tokens))
    case CasAdd(_) =>
      if s.tokens == pc.tok
      then
        var tok := Min(pc.tok + pc.add, s.burst);
        Go(s, t, Deduct(pc.need, pc.now, tok)).(tokens := tok, spilled := s.spilled + (pc.tok + pc.add - tok))
      else Go(s, t, Adding(pc.need, pc.now, pc.add))
    case LoadAgain(_) => Go(s, t, Deduct(pc.need, pc.now, s.tokens))
    case CasDeduct(_) =>
      if pc.cur < pc.need then Go(s, t, Idle)
      else if s.tokens == pc.cur
      then Go(s, t, Idle).(tokens := pc.cur - pc.need, granted := s.granted + pc.need)
      else Go(s, t, Top(pc.need, pc.now))
  }

  /** Tokens a thread has claimed by moving lastNano but not yet put into the bucket. */
  function Pending(pc: Pc): int {
    if pc.Adding? || pc.AddSwap? then pc.add else 0
  }

  function AllPending(ts: seq<Pc>): int {
    if |ts| == 0 then 0 else AllPending(ts[..|ts| - 1]) + Pending(ts[|ts| - 1])
  }

  lemma {:induction false} PendingUpdate(ts: seq<Pc>, t: nat, pc: Pc)
    requires t < |ts|
    ensures AllPending(ts[t := pc]) == AllPending(ts) - Pending(ts[t]) + Pending(pc)
  {
    var u, n := ts[t := pc], |ts| - 1;
    if t == n {
      assert u[..n] == ts[..n];
    } else {
      PendingUpdate(ts[..n], t, pc);
      assert u[..n] == ts[..n][t := pc];
    }
  }

  lemma {:induction false} NonePending(ts: seq<Pc>)
    requires forall t :: 0 <= t < |ts| ==> ts[t] == Idle
    ensures AllPending(ts) == 0
  {
    if |ts| > 0 { NonePending(ts[..|ts| - 1]); }
  }

  lemma {:induction false} PendingCovers(ts: seq<Pc>)
    requires forall t :: 0 <= t < |ts| ==> Pending(ts[t]) >= 0
    ensures AllPending(ts) >= 0
    ensures forall t :: 0 <= t < |ts| ==> Pending(ts[t]) <= AllPending(ts)
  {
    if |ts| > 0 {
      var n := |ts| - 1;
      PendingCovers(ts[..n]);
      forall t | 0 <= t < |ts| ensures Pending(ts[t]) <= AllPending(ts) {
        if t < n { assert ts[t] == ts[..n][t]; }
      }
    }
  }

  ghost predicate PcOk(s: State, pc: Pc)
  {
    && (pc != Idle ==> pc.need >= 1 && pc.now <= s.latest)
    && Pending(pc) >= 0
  }

  /** Every token is accounted for: given out, in the bucket, or about to be added. */
  ghost predicate Inv(s: State)
  {
    && s.interval >= 1 && 0 <= s.tokens <= s.burst && s.granted >= 0
    && s.last == s.start + s.claimed * s.interval && s.last <= s.latest && s.start <= s.latest
    && s.granted + s.tokens + AllPending(s.threads) + s.spilled == s.burst + s.claimed && s.spilled >= 0
    && forall t :: 0 <= t < |s.threads| ==> PcOk(s, s.threads[t])
  }

  /** Winning lastNano turns elapsed intervals into pending tokens. */
  lemma Claim(s: State, t: nat, add: int)
    requires Inv(s) && t < |s.threads| && s.threads[t].HaveBoth? && add >= 0
    requires s.last + add * s.interval <= s.threads[t].now
    ensures Inv(Go(s, t, Adding(s.threads[t].need, s.threads[t].now, add))
                  .(last := s.last + add * s.interval, claimed := s.claimed + add))
  {
    var pc := s.threads[t];
    var to := Adding(pc.need, pc.now, add);
    assert PcOk(s, pc);
    PendingUpdate(s.threads, t, to);
    Distribute(s.claimed, add, s.interval);
    assert forall u :: 0 <= u < |s.threads| ==> PcOk(s, s.threads[u]);
  }

  lemma Distribute(a: int, b: int, d: int)
    ensures (a + b) * d == a * d + b * d
  {}

  /** A step that changes only the thread's own state. */
  lemma Move(s: State, t: nat, to: Pc)
    requires Inv(s) && t < |s.threads| && PcOk(s, to) && Pending(to) == Pending(s.threads[t])
    ensures Inv(Go(s, t, to))
  {
    PendingUpdate(s.threads, t, to);
  }

  lemma CasLastStep(s: State, l: Label)
    requires Inv(s) && Enabled(s, l) && l.CasLast?
    ensures Inv(Apply(s, l))
  {
    var t, pc := l.t, s.threads[l.t];
    var add := Due(pc.now, pc.last, s.interval);
    assert PcOk(s, pc);
    if add > 0 && s.last == pc.last {
      Claim(s, t, add);
    } else {
      Move(s, t, Apply(s, l).threads[t]);
    }
  }

  lemma StepInv(s: State, l: Label)
    requires Inv(s) && Enabled(s, l)
    ensures Inv(Apply(s, l))
  {
    if l.CasLast? {
      CasLastStep(s, l);
    } else {
      var s', t := Apply(s, l), l.t;
      assert PcOk(s, s.threads[t]);
      PendingUpdate(s.threads, t, s'.threads[t]);
      assert s'.claimed == s.claimed && s'.interval == s.interval && s'.last == s.last && s'.start == s.start;
      forall u | 0 <= u < |s'.threads| ensures PcOk(s', s'.threads[u]) { assert PcOk(s, s.threads[u]); }
    }
  }

  ghost predicate ReachableIn(n: nat, e: State)
  {
    if n == 0 then Init(e) else exists m, l :: ReachableIn(n - 1, m) && Enabled(m, l) && e == Apply(m, l)
  }

  ghost predicate Reachable(e: State)
  {
    exists n: nat :: ReachableIn(n, e)
  }

  lemma {:induction false} RunInv(n: nat, e: State)
    requires ReachableIn(n, e)
    ensures Inv(e)
  {
    if n == 0 {
      NonePending(e.threads);
    } else {
      var m, l :| ReachableIn(n - 1, m) && Enabled(m, l) && e == Apply(m, l);
      RunInv(n - 1, m);
      StepInv(m, l);
    }
  }

  /** Main theorem: over every interleaving the bucket stays within its bounds and the tokens given
      out never exceed the burst plus one per interval elapsed on the latest clock reading. */
  lemma TokenConservation(e: State)
    requires Reachable(e)
    ensures 0 <= e.tokens <= e.burst
    ensures e.interval >= 1 && e.granted <= e.burst + (e.latest - e.start) / e.interval
    ensures e.last == e.start + e.claimed * e.interval
    ensures e.granted + e.tokens + AllPending(e.threads) + e.spilled == e.burst + e.claimed && e.spilled >= 0
  {
    var n: nat :| ReachableIn(n, e);
    RunInv(n, e);
    forall t | 0 <= t < |e.threads| ensures Pending(e.threads[t]) >= 0 { assert PcOk(e, e.threads[t]); }
    PendingCovers(e.threads);
    DivAtLeast(e.latest - e.start, e.claimed, e.interval);
  }

  // ---------------------------------------------------------------- one caller

  datatype Bucket = Bucket(burst: int, interval: int, tokens: int, last: int)

  ghost predicate Good(b: Bucket) {
    b.burst >= 1 && b.interval >= 1 && 0 <= b.tokens <= b.burst
  }

  function Refilled(b: Bucket, now: int): Bucket
    requires b.interval >= 1
  {
    var add := Due(now, b.last, b.interval);
    b.(tokens := Min(b.tokens + add, b.burst), last := b.last + add * b.interval)
  }

  /** What an undisturbed AllowN does; it gives out Need(n) tokens or none. */
  function Allow(b: Bucket, n: int, now: int): (Bucket, bool)
    requires b.interval >= 1
  {
    if Need(n) > b.burst then (b, false)
    else
      var r := Refilled(b, now);
      if r.tokens < Need(n) then (r, false) else (r.(tokens := r.tokens - Need(n)), true)
  }

  class Limiter {
    const burst: int
    const interval: int
    var tokens: int
    var lastNano: int

    ghost function Value(): Bucket
      reads this
    {
      Bucket(burst, interval, tokens, lastNano)
    }

    constructor (rate: int, burst: int, now: int)
      requires rate <= Second
      ensures Good(Value()) && tokens == this.burst == Max(burst, 1) && interval == Interval(rate) && lastNano == now
    {
      IntervalPositive(rate);
      this.burst := if burst <= 0 then 1 else burst;
      interval := Second / (if rate <= 0 then 1 else rate);
      tokens := if burst <= 0 then 1 else burst;
      lastNano := now;
    }

    method AllowN(n: int, now: int) returns (ok: bool)
      requires Good(Value())
      modifies this
      ensures Good(Value()) && (Value(), ok) == Allow(old(Value()), n, now)
      ensures var need, q := if n <= 0 then 1 else n, if now < old(lastNano) then 0 else (now - old(lastNano)) / interval;
              var full := if old(tokens) + q > burst then burst else old(tokens) + q;
              && (ok <==> need <= full)
              && tokens == (if need > burst then old(tokens) else if ok then full - need else full)
              && lastNano == (if need > burst then old(lastNano) else old(lastNano) + q * interval)
    {
      var need := if n <= 0 then 1 else n;
      if need > burst { return false; }
      var elapsed := now - lastNano;
      if elapsed < 0 { elapsed := 0; }
      var add := elapsed / interval;
      assert add == Due(now, lastNano, interval);
      if add > 0 {
        lastNano := lastNano + add * interval;
        var tok := tokens + add;
        tokens := if tok > burst then burst else tok;
      }
      if tokens < need { return false; }
      tokens := tokens - need;
      return true;
    }
  }

  /** What a call does, in plain terms: with q whole intervals since the last reading, the bucket fills up
      by q tokens at most to the burst, and the call succeeds exactly when that covers the need. */
  lemma AllowExact(b: Bucket, n: int, now: int)
    requires Good(b)
    ensures var need, q := if n <= 0 then 1 else n, if now < b.last then 0 else (now - b.last) / b.interval;
            var full := if b.tokens + q > b.burst then b.burst else b.tokens + q;
            var (r, ok) := Allow(b, n, now);
            && (ok <==> need <= full)
            && (need > b.burst ==> r == b)
            && (need <= b.burst ==> r == Bucket(b.burst, b.interval, if ok then full - need else full, b.last + q * b.interval))
  {}

  datatype Request = Request(n: int, now: int)

  /** Tokens given out by consecutive undisturbed calls. */
  function Granted(b: Bucket, rs: seq<Request>): int
    requires b.interval >= 1
    decreases |rs|
  {
    if |rs| == 0 then 0
    else
      var (b', ok) := Allow(b, rs[0].n, rs[0].now);
      (if ok then Need(rs[0].n) else 0) + Granted(b', rs[1..])
  }

  /** As long as the bucket covers them, requests are granted one and all. */
  lemma {:induction false} BurstGranted(b: Bucket, rs: seq<Request>)
    requires Good(b) && Needs(rs) <= b.tokens
    ensures Granted(b, rs) == Needs(rs)
    decreases |rs|
  {
    if |rs| > 0 {
      var n, now := rs[0].n, rs[0].now;
      AllowExact(b, n, now);
      NeedsPositive(rs[1..]);
      BurstGranted(Allow(b, n, now).0, rs[1..]);
    }
  }

  function Needs(rs: seq<Request>): int {
    if |rs| == 0 then 0 else (if rs[0].n <= 0 then 1 else rs[0].n) + Needs(rs[1..])
  }

  lemma {:induction false} NeedsPositive(rs: seq<Request>)
    ensures Needs(rs) >= 0
  {
    if |rs| > 0 { NeedsPositive(rs[1..]); }
  }

  /** Requests for one token each, at least an interval apart. */
  predicate Spaced(rs: seq<Request>, interval: int) {
    |rs| > 0 ==>
      rs[0].n <= 1 && Spaced(rs[1..], interval) && (|rs| > 1 ==> rs[1].now - rs[0].now >= interval)
  }

  /** One token is granted if there is one or an interval has passed, and lastNano stays behind the clock. */
  lemma OneGranted(b: Bucket, n: int, now: int)
    requires Good(b) && n <= 1 && b.last <= now && (b.tokens >= 1 || now - b.last >= b.interval)
    ensures var (r, ok) := Allow(b, n, now);
            ok && Good(r) && r.interval == b.interval && r.last <= now
  {
    AllowExact(b, n, now);
    var q := (now - b.last) / b.interval;
    assert now - b.last == q * b.interval + (now - b.last) % b.interval;
    DivAtLeast(now - b.last, 0, b.interval);
    if now - b.last >= b.interval { DivAtLeast(now - b.last, 1, b.interval); }
  }

  /** Main theorem: requests for one token whose readings lie at least an interval apart are all granted,
      whatever the burst, if the first finds a token or comes an interval after the last refill. */
  lemma {:induction false} SpacedGranted(b: Bucket, rs: seq<Request>)
    requires Good(b) && Spaced(rs, b.interval)
    requires |rs| > 0 ==> b.last <= rs[0].now && (b.tokens >= 1 || rs[0].now - b.last >= b.interval)
    ensures Granted(b, rs) == |rs|
    decreases |rs|
  {
    if |rs| > 0 {
      OneGranted(b, rs[0].n, rs[0].now);
      SpacedGranted(Allow(b, rs[0].n, rs[0].now).0, rs[1..]);
    }
  }

  /** Beyond the tokens in the bucket, only intervals up to the last reading can be given out. */
  lemma {:induction false} GrantedFrom(b: Bucket, rs: seq<Request>, end: int, due: int)
    requires Good(b) && due >= 0 && end - b.last < (due + 1) * b.interval
    requires forall i :: 0 <= i < |rs| ==> rs[i].now <= end
    ensures Granted(b, rs) <= b.tokens + due
    decreases |rs|
  {
    if |rs| > 0 {
      var n, now := rs[0].n, rs[0].now;
      var (b', ok) := Allow(b, n, now);
      var add := if Need(n) > b.burst then 0 else Due(now, b.last, b.interval);
      AddFits(add, due, b.interval, now - b.last, end - b.last);
      assert end - b'.last < (due - add + 1) * b.interval by {
        assert (due - add + 1) * b.interval == (due + 1) * b.interval - add * b.interval;
      }
      GrantedFrom(b', rs[1..], end, due - add);
    }
  }

  lemma AddFits(add: int, due: int, d: int, x: int, y: int)
    requires d >= 1 && add >= 0 && due >= 0 && x <= y < (due + 1) * d && (add > 0 ==> add * d <= x)
    ensures add <= due
  {
    MulMono(due + 1, add, d);
  }

  /** Main theorem: consecutive calls whose clock readings lie in [a, b] are granted at most the
      burst plus (b - a) / interval plus one tokens, whatever state they start from. */
  lemma WindowBound(k: Bucket, rs: seq<Request>, a: int, b: int)
    requires Good(k) && a <= b && forall i :: 0 <= i < |rs| ==> a <= rs[i].now <= b
    ensures Granted(k, rs) <= k.burst + (b - a) / k.interval + 1
    decreases |rs|
  {
    var due := (b - a) / k.interval + 1;
    DivAtLeast(b - a, 0, k.interval);
    if |rs| > 0 {
      var n, now := rs[0].n, rs[0].now;
      if Need(n) > k.burst {
        WindowBound(k, rs[1..], a, b);
      } else {
        CaughtUp(k, now, a, b);
        GrantedFrom(Allow(k, n, now).0, rs[1..], b, due);
      }
    }
  }

  /** After one refill at a reading in the window, lastNano is less than an interval behind it. */
  lemma CaughtUp(k: Bucket, now: int, a: int, b: int)
    requires Good(k) && a <= now <= b
    ensures b - Refilled(k, now).last < ((b - a) / k.interval + 2) * k.interval
  {
    var d := k.interval;
    var q, add := (b - a) / d, Due(now, k.last, d);
    assert b - a == q * d + (b - a) % d;
    assert (add + 1) * d == add * d + d;
    assert (q + 2) * d == q * d + 2 * d;
  }
}
