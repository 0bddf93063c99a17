/** What a timing wheel is for (wheel/wheel.go): a calendar of alarms in the order they were added, and
    how a wheel of n slots lays that calendar out. */
module WheelSpec {
  import opened Arith

  datatype Alarm<V> = Alarm(id: nat, val: V, due: nat)

  /** now counts the ticks so far; last is the latest identifier handed out. */
  datatype Calendar<V> = Calendar(now: nat, last: nat, alarms: seq<Alarm<V>>)

  /** Division as the source language has it: toward zero. */
  function TruncDiv(a: int, b: int): int
    requires b != 0
  {
    if (a >= 0) == (b > 0) then (if a >= 0 then a / b else (-a) / (-b))
    else if a >= 0 then -(a / (-b)) else -((-a) / b)
  }

  /** The whole ticks in a duration, at least one. */
  function Ticks(d: int, tick: int): (t: nat)
    requires tick != 0
    ensures t >= 1
  {
    var t := TruncDiv(d, tick);
    if t <= 0 then 1 else t
  }

  /** On a wheel with a positive tick: the ticks that are over after d, and one for anything shorter. */
  lemma TicksAre(d: int, tick: int)
    requires tick > 0
    ensures var t := Ticks(d, tick);
            if d >= tick then t * tick <= d < (t + 1) * tick else t == 1
  {
    var t := Ticks(d, tick);
    if d >= tick {
      DivAtLeast(d, 1, tick);
      assert d == d / tick * tick + d % tick;
      assert (t + 1) * tick == t * tick + tick;
    } else if d >= 0 {
      DivModIs(d, tick, 0, d);
    } else {
      DivAtLeast(-d, 0, tick);
    }
  }

  /** The ticks after which a wheel of n slots lets an alarm off that was added for t ticks. */
  function Delay(n: nat, t: nat): nat
    requires n >= 1
  {
    if t % n == 0 then t + n else t
  }

  function Add<V>(n: nat, c: Calendar<V>, t: nat, v: V): Calendar<V>
    requires n >= 1
  {
    Calendar(c.now, c.last + 1, c.alarms + [Alarm(c.last + 1, v, c.now + Delay(n, t))])
  }

  function Without<V>(l: seq<Alarm<V>>, id: nat): seq<Alarm<V>>
  {
    if |l| == 0 then []
    else if l[0].id == id then Without(l[1..], id)
    else [l[0]] + Without(l[1..], id)
  }

  predicate Pending<V>(c: Calendar<V>, id: nat) {
    HasId(c.alarms, id)
  }

  predicate HasId<V>(l: seq<Alarm<V>>, id: nat) {
    exists i :: 0 <= i < |l| && l[i].id == id
  }

  function Cancel<V>(c: Calendar<V>, id: nat): Calendar<V> {
    c.(alarms := Without(c.alarms, id))
  }

  /** The alarms due at a tick, and the others. */
  function Due<V>(l: seq<Alarm<V>>, t: nat): seq<Alarm<V>> {
    if |l| == 0 then [] else if l[0].due == t then [l[0]] + Due(l[1..], t) else Due(l[1..], t)
  }

  function Later<V>(l: seq<Alarm<V>>, t: nat): seq<Alarm<V>> {
    if |l| == 0 then [] else if l[0].due == t then Later(l[1..], t) else [l[0]] + Later(l[1..], t)
  }

  function Advance<V>(c: Calendar<V>): (Calendar<V>, seq<Alarm<V>>) {
    (Calendar(c.now + 1, c.last, Later(c.alarms, c.now + 1)), Due(c.alarms, c.now + 1))
  }

  /** Every alarm is still to come, and identifiers grow in the order of adding. */
  ghost predicate Sound<V>(c: Calendar<V>)
  {
    AllAfter(c.alarms, c.now) && Growing(c.alarms) && forall i :: 0 <= i < |c.alarms| ==> c.alarms[i].id <= c.last
  }

  ghost predicate AllAfter<V>(l: seq<Alarm<V>>, t: nat)
  {
    forall i :: 0 <= i < |l| ==> l[i].due > t
  }

  ghost predicate Growing<V>(l: seq<Alarm<V>>)
  {
    forall i, j :: 0 <= i < j < |l| ==> l[i].id < l[j].id
  }

  // ---------------------------------------------------------------- the layout on a wheel

  datatype Timer<V> = Timer(id: nat, val: V, rounds: int)

  function TimerOf<V>(n: nat, a: Alarm<V>, now: nat): Timer<V>
    requires n >= 1
  {
    Timer(a.id, a.val, (a.due - now - 1) / n)
  }

  /** The list of slot p: the alarms due at a tick congruent to p, each with its full laps to wait. */
  function SlotOf<V>(n: nat, l: seq<Alarm<V>>, p: nat, now: nat): seq<Timer<V>>
    requires n >= 1
  {
    if |l| == 0 then []
    else if l[0].due % n == p then [TimerOf(n, l[0], now)] + SlotOf(n, l[1..], p, now)
    else SlotOf(n, l[1..], p, now)
  }

  /** What a visit leaves in a slot: one lap less for those that had laps to wait. */
  function Kept<V>(s: seq<Timer<V>>): seq<Timer<V>> {
    if |s| == 0 then []
    else if s[0].rounds > 0 then [s[0].(rounds := s[0].rounds - 1)] + Kept(s[1..])
    else Kept(s[1..])
  }

  function Expired<V>(s: seq<Timer<V>>): seq<V> {
    if |s| == 0 then [] else if s[0].rounds > 0 then Expired(s[1..]) else [s[0].val] + Expired(s[1..])
  }

  function Vals<V>(l: seq<Alarm<V>>): seq<V> {
    if |l| == 0 then [] else [l[0].val] + Vals(l[1..])
  }

  function Drop<V>(s: seq<Timer<V>>, id: nat): seq<Timer<V>> {
    if |s| == 0 then []
    else if s[0].id == id then Drop(s[1..], id)
    else [s[0]] + Drop(s[1..], id)
  }

  /** A visit at the right tick finds laps left exactly when the alarm is for a later lap. */
  lemma LapsAtVisit(n: nat, due: nat, now: nat)
    requires n >= 1 && due > now && due % n == (now + 1) % n
    ensures (due - now - 1) / n == 0 <==> due == now + 1
    ensures due > now + 1 ==> (due - now - 1) / n > 0 && (due - now - 2) / n == (due - now - 1) / n - 1
  {
    var k, q := due - now - 1, due / n - (now + 1) / n;
    assert k == q * n;
    DivModIs(k, n, q, 0);
    if k > 0 {
      MulMono(q, 0, n);
      DivModIs(k - 1, n, q - 1, n - 1);
    }
  }

  /** A tick that visits another slot leaves the laps alone. */
  lemma LapsElsewhere(n: nat, due: nat, now: nat)
    requires n >= 1 && due > now && due % n != (now + 1) % n
    ensures due > now + 1 && (due - now - 2) / n == (due - now - 1) / n
  {
    var k, t := due - now - 1, now + 1;
    if k % n == 0 {
      assert due == (t / n + k / n) * n + t % n;
      DivModIs(due, n, t / n + k / n, t % n);
    }
    DivModIs(k - 1, n, k / n, k % n - 1);
  }

  /** The slot and the laps of a new alarm are those the calendar's due tick asks for. */
  lemma LapsAtAdd(n: nat, now: nat, t: nat)
    requires n >= 1 && t >= 1
    ensures var due := now + Delay(n, t);
            due > now && due % n == (now % n + t) % n && (due - now - 1) / n == t / n
  {
    var due := now + Delay(n, t);
    assert due == (now % n + t) + (now / n + if t % n == 0 then 1 else 0) * n;
    ModShift(due, now % n + t, now / n + if t % n == 0 then 1 else 0, n);
    if t % n == 0 { DivModIs(t + n - 1, n, t / n, n - 1); } else { DivModIs(t - 1, n, t / n, t % n - 1); }
  }

  lemma ModShift(x: int, y: int, k: int, n: nat)
    requires n >= 1 && x == y + k * n
    ensures x % n == y % n
  {
    assert x == (y / n + k) * n + y % n;
    DivModIs(x, n, y / n + k, y % n);
  }

  // ---------------------------------------------------------------- each operation on the layout

  lemma SlotCons<V>(n: nat, a: Alarm<V>, l: seq<Alarm<V>>, p: nat, now: nat)
    requires n >= 1
    ensures SlotOf(n, [a] + l, p, now)
         == if a.due % n == p then [TimerOf(n, a, now)] + SlotOf(n, l, p, now) else SlotOf(n, l, p, now)
  {
    assert ([a] + l)[1..] == l;
  }

  lemma VisitCons<V>(t: Timer<V>, s: seq<Timer<V>>)
    ensures Kept([t] + s) == if t.rounds > 0 then [t.(rounds := t.rounds - 1)] + Kept(s) else Kept(s)
    ensures Expired([t] + s) == if t.rounds > 0 then Expired(s) else [t.val] + Expired(s)
  {
    assert ([t] + s)[1..] == s;
  }

  lemma DropCons<V>(t: Timer<V>, s: seq<Timer<V>>, id: nat)
    ensures Drop([t] + s, id) == if t.id == id then Drop(s, id) else [t] + Drop(s, id)
  {
    assert ([t] + s)[1..] == s;
  }

  lemma {:induction false} SlotAdd<V>(n: nat, l: seq<Alarm<V>>, a: Alarm<V>, p: nat, now: nat)
    requires n >= 1
    ensures SlotOf(n, l + [a], p, now)
         == if a.due % n == p then SlotOf(n, l, p, now) + [TimerOf(n, a, now)] else SlotOf(n, l, p, now)
  {
    if |l| == 0 {
      assert l + [a] == [a];
    } else {
      SlotAdd(n, l[1..], a, p, now);
      assert (l + [a])[1..] == l[1..] + [a];
    }
  }

  lemma {:induction false} SlotCancel<V>(n: nat, l: seq<Alarm<V>>, id: nat, p: nat, now: nat)
    requires n >= 1
    ensures SlotOf(n, Without(l, id), p, now) == Drop(SlotOf(n, l, p, now), id)
  {
    if |l| > 0 {
      var a, rest := l[0], l[1..];
      SlotCancel(n, rest, id, p, now);
      SlotCons(n, a, Without(rest, id), p, now);
      DropCons(TimerOf(n, a, now), SlotOf(n, rest, p, now), id);
    }
  }

  lemma VisitHead<V>(n: nat, a: Alarm<V>, p: nat, now: nat)
    requires n >= 1 && a.due > now && p == (now + 1) % n
    ensures a.due == now + 1 ==> a.due % n == p
    ensures a.due % n == p && a.due > now + 1 ==>
              var t := TimerOf(n, a, now);
              t.rounds > 0 && t.(rounds := t.rounds - 1) == TimerOf(n, a, now + 1)
    ensures a.due == now + 1 ==> TimerOf(n, a, now).rounds == 0
  {
    if a.due % n == p { LapsAtVisit(n, a.due, now); }
  }

  lemma ValsCons<V>(a: Alarm<V>, l: seq<Alarm<V>>)
    ensures Vals([a] + l) == [a.val] + Vals(l)
  {}

  /** The visited slot gives off exactly the alarms due, in the order of adding. */
  lemma {:induction false} SlotVisit<V>(n: nat, l: seq<Alarm<V>>, p: nat, now: nat)
    requires n >= 1 && AllAfter(l, now) && p == (now + 1) % n
    ensures Expired(SlotOf(n, l, p, now)) == Vals(Due(l, now + 1))
    ensures Kept(SlotOf(n, l, p, now)) == SlotOf(n, Later(l, now + 1), p, now + 1)
  {
    if |l| > 0 {
      var a, rest := l[0], l[1..];
      SlotVisit(n, rest, p, now);
      VisitCons(TimerOf(n, a, now), SlotOf(n, rest, p, now));
      SlotCons(n, a, Later(rest, now + 1), p, now + 1);
      VisitHead(n, a, p, now);
      ValsCons(a, Due(rest, now + 1));
    }
  }

  /** The other slots are right for the next tick as they are. */
  lemma {:induction false} SlotElsewhere<V>(n: nat, l: seq<Alarm<V>>, p: nat, now: nat)
    requires n >= 1 && AllAfter(l, now) && p != (now + 1) % n
    ensures SlotOf(n, Later(l, now + 1), p, now + 1) == SlotOf(n, l, p, now)
  {
    if |l| > 0 {
      var a, rest := l[0], l[1..];
      SlotElsewhere(n, rest, p, now);
      SlotCons(n, a, Later(rest, now + 1), p, now + 1);
      if a.due % n == p { LapsElsewhere(n, a.due, now); }
    }
  }

  /** A slot's identifiers are those of the alarms it holds, and every alarm is in its slot. */
  lemma {:induction false} SlotIds<V>(n: nat, l: seq<Alarm<V>>, p: nat, now: nat)
    requires n >= 1
    ensures forall j :: 0 <= j < |SlotOf(n, l, p, now)| ==> HasId(l, SlotOf(n, l, p, now)[j].id)
    ensures forall i :: 0 <= i < |l| && l[i].due % n == p ==> HasTimer(SlotOf(n, l, p, now), l[i].id)
  {
    if |l| > 0 {
      var rest := l[1..];
      SlotIds(n, rest, p, now);
      var s, s' := SlotOf(n, l, p, now), SlotOf(n, rest, p, now);
      forall id | HasId(rest, id) ensures HasId(l, id) {
        var i :| 0 <= i < |rest| && rest[i].id == id;
        assert l[i + 1].id == id;
      }
      forall id | HasTimer(s', id) ensures HasTimer(s, id) {
        var j :| 0 <= j < |s'| && s'[j].id == id;
        assert s[if l[0].due % n == p then j + 1 else j].id == id;
      }
      forall i | 0 <= i < |l| && l[i].due % n == p ensures HasTimer(s, l[i].id) {
        if i == 0 { assert s[0].id == l[0].id; } else { assert rest[i - 1] == l[i]; }
      }
      forall j | 0 <= j < |s| ensures HasId(l, s[j].id) {
        if l[0].due % n == p && j == 0 { assert l[0].id == s[0].id; }
        else { assert s[j] == s'[if l[0].due % n == p then j - 1 else j]; }
      }
    }
  }

  predicate HasTimer<V>(s: seq<Timer<V>>, id: nat) {
    exists j :: 0 <= j < |s| && s[j].id == id
  }

  // ---------------------------------------------------------------- a whole wheel

  /** The n slots hold the timers that the calendar asks for. */
  ghost predicate LaidOut<V>(n: nat, timers: seq<seq<Timer<V>>>, c: Calendar<V>)
  {
    n >= 1 && |timers| == n && forall p :: 0 <= p < n ==> timers[p] == SlotOf(n, c.alarms, p, c.now)
  }

  lemma LayoutAdd<V>(n: nat, timers: seq<seq<Timer<V>>>, c: Calendar<V>, t: nat, v: V, pos: nat)
    requires LaidOut(n, timers, c) && t >= 1 && pos == (c.now % n + t) % n
    ensures LaidOut(n, timers[pos := timers[pos] + [Timer(c.last + 1, v, t / n)]], Add(n, c, t, v))
  {
    LapsAtAdd(n, c.now, t);
    forall p | 0 <= p < n {
      SlotAdd(n, c.alarms, Alarm(c.last + 1, v, c.now + Delay(n, t)), p, c.now);
    }
  }

  lemma LayoutCancel<V>(n: nat, timers: seq<seq<Timer<V>>>, c: Calendar<V>, id: nat, after: seq<seq<Timer<V>>>)
    requires LaidOut(n, timers, c) && |after| == n
    requires forall p :: 0 <= p < n ==> after[p] == Drop(timers[p], id)
    ensures LaidOut(n, after, Cancel(c, id))
  {
    forall p | 0 <= p < n { SlotCancel(n, c.alarms, id, p, c.now); }
  }

  lemma LayoutAdvance<V>(n: nat, timers: seq<seq<Timer<V>>>, c: Calendar<V>, pos: nat)
    requires LaidOut(n, timers, c) && Sound(c) && pos == (c.now + 1) % n
    ensures LaidOut(n, timers[pos := Kept(timers[pos])], Advance(c).0)
    ensures Expired(timers[pos]) == Vals(Advance(c).1)
  {
    SlotVisit(n, c.alarms, pos, c.now);
    forall p | 0 <= p < n && p != pos { SlotElsewhere(n, c.alarms, p, c.now); }
  }

  /** An alarm is pending exactly while some slot holds it. */
  lemma LayoutPending<V>(n: nat, timers: seq<seq<Timer<V>>>, c: Calendar<V>, id: nat)
    requires LaidOut(n, timers, c)
    ensures Pending(c, id) <==> exists p :: 0 <= p < n && HasTimer(timers[p], id)
  {
    forall p | 0 <= p < n { SlotIds(n, c.alarms, p, c.now); }
    if Pending(c, id) {
      var i :| 0 <= i < |c.alarms| && c.alarms[i].id == id;
      assert HasTimer(timers[c.alarms[i].due % n], id);
    }
    if p :| 0 <= p < n && HasTimer(timers[p], id) {
      var j :| 0 <= j < |timers[p]| && timers[p][j].id == id;
      assert HasId(c.alarms, id);
    }
  }

  lemma {:induction false} DropOne<V>(s: seq<Timer<V>>, i: nat)
    requires i < |s| && forall j :: 0 <= j < |s| && j != i ==> s[j].id != s[i].id
    ensures Drop(s, s[i].id) == s[..i] + s[i + 1..]
  {
    if i == 0 {
      DropNone(s[1..], s[0].id);
    } else {
      DropOne(s[1..], i - 1);
    }
  }

  lemma {:induction false} DropNone<V>(s: seq<Timer<V>>, id: nat)
    requires !HasTimer(s, id)
    ensures Drop(s, id) == s
  {
    if |s| > 0 {
      assert forall j :: 0 <= j < |s| - 1 ==> s[1..][j] == s[j + 1];
      assert s[0].id != id;
      DropNone(s[1..], id);
    }
  }

  lemma {:induction false} WithoutNone<V>(l: seq<Alarm<V>>, id: nat)
    requires forall i :: 0 <= i < |l| ==> l[i].id != id
    ensures Without(l, id) == l
  {
    if |l| > 0 { WithoutNone(l[1..], id); }
  }

  function Ids<V>(l: seq<Alarm<V>>): set<nat> {
    if |l| == 0 then {} else {l[0].id} + Ids(l[1..])
  }

  lemma {:induction false} IdsAre<V>(l: seq<Alarm<V>>, id: nat)
    ensures id in Ids(l) <==> HasId(l, id)
  {
    if |l| > 0 {
      IdsAre(l[1..], id);
      if HasId(l[1..], id) {
        var i :| 0 <= i < |l[1..]| && l[1..][i].id == id;
        assert l[i + 1].id == id;
      }
      if HasId(l, id) {
        var i :| 0 <= i < |l| && l[i].id == id;
        assert i > 0 ==> l[1..][i - 1].id == id;
      }
    }
  }

  lemma {:induction false} IdsCount<V>(l: seq<Alarm<V>>)
    requires Growing(l)
    ensures |Ids(l)| == |l|
  {
    if |l| > 0 {
      IdsAre(l[1..], l[0].id);
      IdsCount(l[1..]);
    }
  }

  // ---------------------------------------------------------------- whole runs

  /** Number of slots and length of a tick. */
  datatype Geometry = Geometry(n: nat, tick: int)

  datatype Op<V> = OpAdd(d: int, val: V) | OpCancel(id: nat) | OpAdvance

  datatype Out<V> = Added(id: nat) | Panicked | Cancelled(ok: bool) | Fired(alarms: seq<Alarm<V>>)

  function Step<V>(g: Geometry, c: Calendar<V>, o: Op<V>): (Calendar<V>, Out<V>)
    requires g.n >= 1
  {
    match o
    case OpAdd(d, v) =>
      if g.tick == 0 then (c, Panicked) else (Add(g.n, c, Ticks(d, g.tick), v), Added(c.last + 1))
    case OpCancel(id) => (Cancel(c, id), Cancelled(Pending(c, id)))
    case OpAdvance => (Advance(c).0, Fired(Advance(c).1))
  }

  function Run<V>(g: Geometry, c: Calendar<V>, ops: seq<Op<V>>): Calendar<V>
    requires g.n >= 1
  {
    if |ops| == 0 then c else Step(g, Run(g, c, ops[..|ops| - 1]), ops[|ops| - 1]).0
  }

  /** What a caller of the wheel sees of an operation: an Advance hands over values only. */
  datatype Reply<V> = Identifier(id: nat) | Panic | Ok(ok: bool) | Called(vals: seq<V>)

  function Seen<V>(out: Out<V>): Reply<V>
  {
    match out
    case Added(id) => Identifier(id)
    case Panicked => Panic
    case Cancelled(ok) => Ok(ok)
    case Fired(alarms) => Called(Vals(alarms))
  }

  function Replies<V>(g: Geometry, c: Calendar<V>, ops: seq<Op<V>>): seq<Reply<V>>
    requires g.n >= 1
  {
    if |ops| == 0 then []
    else
      var before := ops[..|ops| - 1];
      Replies(g, c, before) + [Seen(Step(g, Run(g, c, before), ops[|ops| - 1]).1)]
  }

  function Advances<V>(ops: seq<Op<V>>): nat
  {
    if |ops| == 0 then 0 else Advances(ops[..|ops| - 1]) + if ops[|ops| - 1].OpAdvance? then 1 else 0
  }

  /** r holds exactly the alarms of l that satisfy keep. */
  ghost predicate Selects<V>(l: seq<Alarm<V>>, r: seq<Alarm<V>>, keep: Alarm<V> -> bool)
  {
    (forall i :: 0 <= i < |r| ==> r[i] in l && keep(r[i])) && (forall i :: 0 <= i < |l| && keep(l[i]) ==> l[i] in r)
  }

  lemma {:induction false} Members<V>(l: seq<Alarm<V>>, t: nat, id: nat)
    ensures Selects(l, Due(l, t), (x: Alarm<V>) => x.due == t)
    ensures Selects(l, Later(l, t), (x: Alarm<V>) => x.due != t)
    ensures Selects(l, Without(l, id), (x: Alarm<V>) => x.id != id)
  {
    if |l| > 0 {
      Members(l[1..], t, id);
      assert l == [l[0]] + l[1..];
    }
  }

  lemma GrowingCons<V>(a: Alarm<V>, l: seq<Alarm<V>>, r: seq<Alarm<V>>)
    requires Growing([a] + l) && Growing(r) && forall i :: 0 <= i < |r| ==> r[i] in l
    ensures Growing([a] + r)
  {
    forall i | 0 <= i < |r| ensures a.id < r[i].id {
      var j :| 0 <= j < |l| && l[j] == r[i];
      assert ([a] + l)[0] == a && ([a] + l)[j + 1] == l[j];
    }
  }

  lemma {:induction false} StillGrowing<V>(l: seq<Alarm<V>>, t: nat, id: nat)
    requires Growing(l)
    ensures Growing(Due(l, t)) && Growing(Later(l, t)) && Growing(Without(l, id))
  {
    if |l| > 0 {
      var a, rest := l[0], l[1..];
      assert l == [a] + rest;
      StillGrowing(rest, t, id);
      Members(rest, t, id);
      GrowingCons(a, rest, Due(rest, t));
      GrowingCons(a, rest, Later(rest, t));
      GrowingCons(a, rest, Without(rest, id));
    }
  }

  lemma LaterAfter<V>(c: Calendar<V>)
    requires Sound(c)
    ensures AllAfter(Later(c.alarms, c.now + 1), c.now + 1)
  {
    Members(c.alarms, c.now + 1, 0);
  }

  lemma SelectionSound<V>(c: Calendar<V>, r: seq<Alarm<V>>, now: nat)
    requires Sound(c) && Growing(r) && now >= c.now
    requires (now > c.now ==> AllAfter(r, now)) && forall i :: 0 <= i < |r| ==> r[i] in c.alarms
    ensures Sound(Calendar(now, c.last, r))
  {}

  lemma AddSound<V>(n: nat, c: Calendar<V>, t: nat, v: V)
    requires n >= 1 && t >= 1 && Sound(c)
    ensures Sound(Add(n, c, t, v))
  {
    LapsAtAdd(n, c.now, t);
  }

  /** Every operation keeps the calendar sound, and alarms going off together do so in the order they
      were added. */
  lemma StepSound<V>(g: Geometry, c: Calendar<V>, o: Op<V>)
    requires g.n >= 1 && Sound(c)
    ensures Sound(Step(g, c, o).0)
    ensures o.OpAdvance? ==> Growing(Step(g, c, o).1.alarms)
  {
    match o
    case OpAdd(d, v) => if g.tick != 0 { AddSound(g.n, c, Ticks(d, g.tick), v); }
    case OpCancel(id) =>
      Members(c.alarms, 0, id);
      StillGrowing(c.alarms, 0, id);
      SelectionSound(c, Without(c.alarms, id), c.now);
    case OpAdvance =>
      Members(c.alarms, c.now + 1, 0);
      StillGrowing(c.alarms, c.now + 1, 0);
      LaterAfter(c);
      SelectionSound(c, Later(c.alarms, c.now + 1), c.now + 1);
  }

  /** The only alarm of l with a's identifier is a itself, which is there if here says so. */
  ghost predicate Only<V>(l: seq<Alarm<V>>, a: Alarm<V>, here: bool)
  {
    (here ==> a in l) && forall x <- l :: x.id == a.id ==> here && x == a
  }

  ghost predicate Tracks<V>(c: Calendar<V>, a: Alarm<V>, here: bool)
  {
    a.id <= c.last && Only(c.alarms, a, here)
  }

  lemma StepTracks<V>(g: Geometry, c: Calendar<V>, o: Op<V>, a: Alarm<V>, here: bool)
    requires g.n >= 1 && Tracks(c, a, here) && o != OpCancel(a.id)
    ensures Tracks(Step(g, c, o).0, a, here && !(o.OpAdvance? && a.due == c.now + 1))
    ensures o.OpAdvance? ==> Only(Step(g, c, o).1.alarms, a, here && a.due == c.now + 1)
  {
    match o
    case OpAdd(d, v) =>
    case OpCancel(id) => Members(c.alarms, 0, id);
    case OpAdvance => Members(c.alarms, c.now + 1, 0);
  }

  lemma OnlyIsThere<V>(l: seq<Alarm<V>>, a: Alarm<V>, here: bool)
    requires Only(l, a, here)
    ensures here <==> exists i :: 0 <= i < |l| && l[i].id == a.id
    ensures here <==> exists i :: 0 <= i < |l| && l[i].id == a.id && l[i].val == a.val
  {}

  /** An alarm that nobody cancels stays until its tick and is gone for good from then on. */
  lemma {:induction false} Fate<V>(g: Geometry, c: Calendar<V>, ops: seq<Op<V>>, a: Alarm<V>)
    requires g.n >= 1 && Tracks(c, a, true) && a.due > c.now && OpCancel(a.id) !in ops
    ensures Run(g, c, ops).now == c.now + Advances(ops)
    ensures Tracks(Run(g, c, ops), a, c.now + Advances(ops) < a.due)
  {
    if |ops| > 0 {
      var before, o := ops[..|ops| - 1], ops[|ops| - 1];
      Fate(g, c, before, a);
      StepTracks(g, Run(g, c, before), o, a, c.now + Advances(before) < a.due);
    }
  }

  /** The callback is given v for the alarm with this identifier. */
  ghost predicate Fires<V>(out: Out<V>, id: nat, v: V)
  {
    out.Fired? && exists i :: 0 <= i < |out.alarms| && out.alarms[i].id == id && out.alarms[i].val == v
  }

  lemma {:induction false} ValsAre<V>(l: seq<Alarm<V>>)
    ensures |Vals(l)| == |l| && forall i :: 0 <= i < |l| ==> Vals(l)[i] == l[i].val
  {
    if |l| > 0 { ValsAre(l[1..]); }
  }

  /** Main theorem: whatever else happens on the wheel, an alarm added for t ticks and not cancelled is
      pending until Delay(t) ticks have passed, goes off with its value at the next Advance exactly when
      that is the Delay(t)-th one, nothing else ever goes off under its identifier, and it can be
      cancelled exactly while it is pending. */
  lemma GoesOff<V>(g: Geometry, c: Calendar<V>, d: int, v: V, ops: seq<Op<V>>)
    requires g.n >= 1 && g.tick != 0 && Sound(c) && OpCancel(c.last + 1) !in ops
    ensures var (c1, id, delay) := (Step(g, c, OpAdd(d, v)).0, c.last + 1, Delay(g.n, Ticks(d, g.tick)));
            var c2 := Run(g, c1, ops);
            var out := Step(g, c2, OpAdvance).1;
            && (Pending(c2, id) <==> Advances(ops) < delay)
            && (Step(g, c2, OpCancel(id)).1 == Cancelled(Advances(ops) < delay))
            && (Fires(out, id, v) <==> Advances(ops) + 1 == delay)
            && Only(out.alarms, Alarm(id, v, c.now + delay), Advances(ops) + 1 == delay)
            && (Advances(ops) + 1 == delay ==> v in Seen(out).vals)
  {
    var delay := Delay(g.n, Ticks(d, g.tick));
    var a := Alarm(c.last + 1, v, c.now + delay);
    AddTracks(g, c, d, v, ops, delay);
    var c2, here := Run(g, Step(g, c, OpAdd(d, v)).0, ops), Advances(ops) < delay;
    StepTracks(g, c2, OpAdvance, a, here);
    OnlyIsThere(c2.alarms, a, here);
    OnlyIsThere(Advance(c2).1, a, Advances(ops) + 1 == delay);
    ValIsThere(Advance(c2).1, a);
  }

  lemma AddTracks<V>(g: Geometry, c: Calendar<V>, d: int, v: V, ops: seq<Op<V>>, delay: nat)
    requires g.n >= 1 && g.tick != 0 && Sound(c) && OpCancel(c.last + 1) !in ops && delay == Delay(g.n, Ticks(d, g.tick))
    ensures var c2 := Run(g, Step(g, c, OpAdd(d, v)).0, ops);
            c2.now == c.now + Advances(ops) && Tracks(c2, Alarm(c.last + 1, v, c.now + delay), Advances(ops) < delay)
  {
    LapsAtAdd(g.n, c.now, Ticks(d, g.tick));
    Fate(g, Step(g, c, OpAdd(d, v)).0, ops, Alarm(c.last + 1, v, c.now + delay));
  }

  lemma ValIsThere<V>(l: seq<Alarm<V>>, a: Alarm<V>)
    ensures a in l ==> a.val in Vals(l)
  {
    ValsAre(l);
    if a in l {
      var i :| 0 <= i < |l| && l[i] == a;
      assert Vals(l)[i] == a.val;
    }
  }

  /** The promised tick is met exactly when the number of slots does not divide the number of ticks;
      otherwise the alarm is a whole lap late. */
  lemma OnTime<V>(g: Geometry, c: Calendar<V>, d: int, v: V, ops: seq<Op<V>>)
    requires g.n >= 1 && g.tick != 0 && Sound(c) && OpCancel(c.last + 1) !in ops
    requires Advances(ops) + 1 == Ticks(d, g.tick)
    ensures Fires(Step(g, Run(g, Step(g, c, OpAdd(d, v)).0, ops), OpAdvance).1, c.last + 1, v)
       <==> Ticks(d, g.tick) % g.n != 0
  {
    GoesOff(g, c, d, v, ops);
  }

  function Idle<V>(k: nat): (ops: seq<Op<V>>)
    ensures |ops| == k && forall i :: 0 <= i < k ==> ops[i] == OpAdvance
  {
    seq(k, _ => OpAdvance)
  }

  lemma {:induction false} IdleAdvances<V>(ops: seq<Op<V>>)
    requires forall i :: 0 <= i < |ops| ==> ops[i] == OpAdvance
    ensures Advances(ops) == |ops|
  {
    if |ops| > 0 { IdleAdvances(ops[..|ops| - 1]); }
  }

  /** On the smallest wheel, an alarm for sixteen ticks misses the sixteenth and goes off at the
      thirty-second. */
  lemma AWholeLapLate(v: int)
    ensures var g, c := Geometry(16, 1), Calendar(0, 0, []);
            var c1 := Step(g, c, OpAdd(16, v)).0;
            && !Fires(Step(g, Run(g, c1, Idle(15)), OpAdvance).1, 1, v)
            && Fires(Step(g, Run(g, c1, Idle(31)), OpAdvance).1, 1, v)
  {
    IdleAdvances(Idle<int>(15));
    IdleAdvances(Idle<int>(31));
    GoesOff(Geometry(16, 1), Calendar(0, 0, []), 16, v, Idle(15));
    GoesOff(Geometry(16, 1), Calendar(0, 0, []), 16, v, Idle(31));
  }
}
