/** What each call on the group-commit ring does when it runs by itself (mpsc/ring.go), from any state
    that the others may have left: when Enqueue succeeds, what Drain hands over, whom Commit wakes and
    what Wait returns. */
module MpscCalls {
  import opened Arith
  import opened Lists
  import opened Mpsc
  import opened MpscRuns
  import opened Steps

  /** The size of a new ring: the least power of two that is at least four and at least what was asked. */
  method RingSize(size: int) returns (n: nat)
    ensures IsPow2(n) && n >= 4 && n >= size && (n > 4 ==> n < 2 * size)
  {
    n := 1;
    while n < size
      invariant IsPow2(n) && (n > 1 ==> n < 2 * size)
    {
      Pow2Double(n);
      n := 2 * n;
    }
    if n < 4 {
      n := 4;
      assert IsPow2(2);
    }
  }

  // ---------------------------------------------------------------- Enqueue

  /** The state once call p has loaded tail and head. */
  function Loaded<T>(s: State<T>, p: int, v: T): State<T> {
    s.(attempts := s.attempts[p := HaveHead(v, |s.tickets|, s.head)])
  }

  lemma Loads<T>(s: State<T>, p: int, v: T)
    requires Enabled(s, Call(p, v))
    ensures Run(s, [Call(p, v), LoadTail(p), LoadHead(p)], Loaded(s, p, v))
  {
    var b: State<T> := Apply(s, Call(p, v));
    var c: State<T> := Apply(b, LoadTail(p));
    assert c.attempts == s.attempts[p := HaveTail(v, |s.tickets|)];
    var d: State<T> := Apply(c, LoadHead(p));
    assert d.attempts == Loaded(s, p, v).attempts;
    RunThree(s, Call(p, v), LoadTail(p), LoadHead(p));
  }

  /** The call is over but for the filling: the next number is its own. */
  function Claims<T>(s: State<T>, p: int, v: T): State<T> {
    s.(attempts := s.attempts - {p}, tickets := s.tickets + [Ticket(v, Claimed, false)])
  }

  lemma Decides<T>(a: State<T>, p: int)
    requires a.n > 0 && |a.slots| == |a.owner| == a.n && a.head <= |a.tickets| <= a.head + a.n && |a.tickets| + 1 < Modulus
    requires p in a.attempts && a.attempts[p] == HaveHead(a.attempts[p].val, |a.tickets|, a.head)
    ensures var v, room := a.attempts[p].val, |a.tickets| - a.head < a.n;
            && (Enabled(a, Cas(p)) <==> room) && (Enabled(a, GiveUp(p)) <==> !room) && (Enabled(a, Again(p)) <==> !room)
            && (room ==> Apply(a, Cas(p)) == Claims(a, p, v))
            && (!room ==> Apply(a, GiveUp(p)) == a.(attempts := a.attempts - {p}))
  {
    Room(a.n, |a.tickets|, a.head);
  }

  lemma Bounded<T(!new)>(s: State<T>)
    requires Reachable(s)
    ensures s.n > 0 && |s.slots| == |s.owner| == s.n && s.head <= |s.tickets| <= s.head + s.n
  {
    ReachableInv(s);
  }

  /** Main theorem: in any reachable state, an Enqueue whose two loads are up to date claims the next
      sequence number exactly when fewer than n numbers are between head and tail; otherwise it can only
      look again or report the ring full. */
  lemma EnqueueDecides<T(!new)>(s: State<T>, p: int)
    requires Reachable(s) && |s.tickets| + 1 < Modulus
    requires p in s.attempts && s.attempts[p] == HaveHead(s.attempts[p].val, |s.tickets|, s.head)
    ensures var v, room := s.attempts[p].val, |s.tickets| - s.head < s.n;
            && (Enabled(s, Cas(p)) <==> room) && (Enabled(s, GiveUp(p)) <==> !room) && (Enabled(s, Again(p)) <==> !room)
            && (room ==> Apply(s, Cas(p)) == Claims(s, p, v))
            && (!room ==> Apply(s, GiveUp(p)) == s.(attempts := s.attempts - {p}))
  {
    Bounded(s);
    Decides(s, p);
  }

  /** Main theorem: so an Enqueue that runs by itself, once it has loaded tail and head (Loads), adds exactly
      its value when there is room, and leaves the ring as it was when there is none. */
  lemma EnqueueAlone<T(!new)>(s: State<T>, p: int, v: T)
    requires Reachable(s) && p !in s.attempts && |s.tickets| + 1 < Modulus
    ensures var a, room := Loaded(s, p, v), |s.tickets| - s.head < s.n;
            && (Enabled(a, Cas(p)) <==> room) && (Enabled(a, GiveUp(p)) <==> !room) && (Enabled(a, Again(p)) <==> !room)
            && (room ==> Apply(a, Cas(p)) == s.(tickets := s.tickets + [Ticket(v, Claimed, false)]))
            && (!room ==> |s.tickets| - s.head == s.n && Apply(a, GiveUp(p)) == s)
  {
    Bounded(s);
    Decides(Loaded(s, p, v), p);
    assert Loaded(s, p, v).attempts - {p} == s.attempts;
  }

  lemma Room(n: nat, t: nat, h: nat)
    requires h <= t <= h + n && t < Modulus && n > 0
    ensures Full(n, t, h) <==> t - h == n
  {}

  /** A swap that comes too late sends the call back to its loads, with its value. */
  lemma StaleTail<T>(s: State<T>, p: int)
    requires Enabled(s, Cas(p)) && s.attempts[p].t != |s.tickets|
    ensures Run(s, [Cas(p), LoadTail(p), LoadHead(p)], Loaded(s, p, s.attempts[p].val))
  {
    var v := s.attempts[p].val;
    var b: State<T> := Apply(s, Cas(p));
    assert b.attempts == s.attempts[p := Start(v)];
    var c: State<T> := Apply(b, LoadTail(p));
    assert c.attempts == s.attempts[p := HaveTail(v, |s.tickets|)];
    var d: State<T> := Apply(c, LoadHead(p));
    assert d.attempts == Loaded(s, p, v).attempts;
    RunThree(s, Cas(p), LoadTail(p), LoadHead(p));
  }

  lemma RunThree<T>(s: State<T>, a: Label<T>, b: Label<T>, c: Label<T>)
    requires Enabled(s, a) && Enabled(Apply(s, a), b) && Enabled(Apply(Apply(s, a), b), c)
    ensures Run(s, [a, b, c], Apply(Apply(Apply(s, a), b), c))
  {
    var e := Apply(Apply(Apply(s, a), b), c);
    assert Run(e, [], e);
    assert [c][1..] == [] && [b, c][1..] == [c] && [a, b, c][1..] == [b, c];
    assert Run(Apply(Apply(s, a), b), [c], e);
    assert Run(Apply(s, a), [b, c], e);
  }

  // ---------------------------------------------------------------- the life of one number

  /** The next step of the owner of sequence number i. */
  function Move<T>(s: State<T>, i: nat): State<T>
  {
    if i >= |s.tickets| then s else
    var l: Label<T> := match s.tickets[i].phase
      case Claimed => Spin(i)
      case SawFree => StoreFill(i)
      case Filling => WriteVal(i)
      case WroteVal => ClearErr(i)
      case ClearedErr => FlushDone(i)
      case Flushed => Post(i)
      case Posted => Receive(i)
      case Detached => Receive(i)
      case Got(_) => TakeErr(i)
      case TookErr(_) => ZeroVal(i)
      case ZeroedVal(_) => ZeroErr(i)
      case ZeroedErr(_) => Release(i)
      case Returned(_) => Release(i);
    if Enabled(s, l) then Apply(s, l) else s
  }

  function Owner<T>(i: nat): State<T> -> State<T> {
    (s: State<T>) => Move(s, i)
  }

  /** s with number i in another phase and its slot in another condition. */
  function With<T>(s: State<T>, i: nat, ph: Phase, sl: Slot<T>, o: Option<nat>): State<T>
    requires s.n > 0 && |s.slots| == |s.owner| == s.n && i < |s.tickets|
  {
    s.(tickets := s.tickets[i := s.tickets[i].(phase := ph)], slots := s.slots[Idx(s, i) := sl],
       owner := s.owner[Idx(s, i) := o])
  }

  lemma WithSame<T>(s: State<T>, i: nat)
    requires s.n > 0 && |s.slots| == |s.owner| == s.n && i < |s.tickets|
    ensures With(s, i, s.tickets[i].phase, s.slots[Idx(s, i)], s.owner[Idx(s, i)]) == s
  {}

  /** Any one step of filling, in terms of With. */
  lemma FillWith<T>(s: State<T>, i: nat, ph: Phase, sl: Slot<T>, o: Option<nat>)
    requires s.n > 0 && |s.slots| == |s.owner| == s.n && i < |s.tickets|
    requires ph in {Claimed, SawFree, Filling, WroteVal, ClearedErr, Flushed}
    ensures var v, a := s.tickets[i].val, With(s, i, ph, sl, o);
            && (ph == Claimed && sl.state == Free ==> Move(a, i) == With(s, i, SawFree, sl, o))
            && (ph == SawFree ==> Move(a, i) == With(s, i, Filling, sl.(state := Fill), Some(i)))
            && (ph == Filling ==> Move(a, i) == With(s, i, WroteVal, sl.(val := Some(v)), o))
            && (ph == WroteVal ==> Move(a, i) == With(s, i, ClearedErr, sl.(err := Nil), o))
            && (ph == ClearedErr ==> Move(a, i) == With(s, i, Flushed, sl.(done := false), o))
            && (ph == Flushed ==> Move(a, i) == With(s, i, Posted, sl.(state := Ready), o))
  {
    var a, b := With(s, i, ph, sl, o), Move(With(s, i, ph, sl, o), i);
    assert a.slots[Idx(s, i)] == sl && a.tickets[i].phase == ph;
    assert |b.tickets| == |s.tickets| && |b.slots| == |s.slots| && |b.owner| == |s.owner|;
    var t, l, w := b.tickets[i], b.slots[Idx(s, i)], b.owner[Idx(s, i)];
    assert b.tickets == s.tickets[i := t];
    assert b.slots == s.slots[Idx(s, i) := l];
    assert b.owner == s.owner[Idx(s, i) := w];
  }

  /** Any one step of waiting. */
  lemma WaitWith<T>(s: State<T>, i: nat, ph: Phase, sl: Slot<T>, o: Option<nat>)
    requires s.n > 0 && |s.slots| == |s.owner| == s.n && i < |s.tickets|
    requires ph in {Posted, Got(false)} || ph.TookErr? || ph.ZeroedVal? || ph.ZeroedErr?
    ensures var a := With(s, i, ph, sl, o);
            && (ph == Posted && sl.done ==> Move(a, i) == With(s, i, Got(false), sl.(done := false), o))
            && (ph == Got(false) ==> Move(a, i) == With(s, i, TookErr(Result(sl.err)), sl, o))
            && (ph.TookErr? ==> Move(a, i) == With(s, i, ZeroedVal(ph.ret), sl.(val := None), o))
            && (ph.ZeroedVal? ==> Move(a, i) == With(s, i, ZeroedErr(ph.ret), sl.(err := Nil), o))
            && (ph.ZeroedErr? ==> Move(a, i) == With(s, i, Returned(ph.ret), sl.(state := Free), None))
  {
    var a, b := With(s, i, ph, sl, o), Move(With(s, i, ph, sl, o), i);
    assert a.slots[Idx(s, i)] == sl && a.tickets[i].phase == ph;
    assert |b.tickets| == |s.tickets| && |b.slots| == |s.slots| && |b.owner| == |s.owner|;
    var t, l, w := b.tickets[i], b.slots[Idx(s, i)], b.owner[Idx(s, i)];
    assert b.tickets == s.tickets[i := t];
    assert b.slots == s.slots[Idx(s, i) := l];
    assert b.owner == s.owner[Idx(s, i) := w];
  }

  /** Main theorem: once its slot is free, Enqueue fills it with the value and posts it. */
  lemma FillAlone<T(!new)>(s: State<T>, i: nat)
    requires Reachable(s) && i < |s.tickets| && s.n > 0 && |s.slots| == |s.owner| == s.n
    requires s.tickets[i].phase == Claimed && s.slots[Idx(s, i)].state == Free
    ensures Iterate(Owner(i), s, 6) == With(s, i, Posted, Slot(Ready, Some(s.tickets[i].val), Nil, false), Some(i))
  {
    var v, sl, o := s.tickets[i].val, s.slots[Idx(s, i)], s.owner[Idx(s, i)];
    WithSame(s, i);
    FillWith(s, i, Claimed, sl, o);
    FillWith(s, i, SawFree, sl, o);
    FillWith(s, i, Filling, sl.(state := Fill), Some(i));
    FillWith(s, i, WroteVal, Slot(Fill, Some(v), sl.err, sl.done), Some(i));
    FillWith(s, i, ClearedErr, Slot(Fill, Some(v), Nil, sl.done), Some(i));
    FillWith(s, i, Flushed, Slot(Fill, Some(v), Nil, false), Some(i));
  }

  /** A waiter can go on exactly when its number has been committed. */
  lemma WokenExactly<T(!new)>(s: State<T>, i: nat)
    requires Reachable(s) && i < |s.tickets| && s.tickets[i].phase in {Posted, Detached}
    ensures Enabled(s, Receive(i)) <==> i in s.batch
  {
    ReachableInv(s);
    assert TicketOk(s, i);
  }

  /** Main theorem: Wait on a committed number returns the batch error, or else the callback's error for
      that very number, and leaves the slot free and empty. */
  lemma WaitAlone<T(!new)>(s: State<T>, i: nat)
    requires Reachable(s) && i < |s.tickets| && s.tickets[i].phase == Posted && i in s.batch
    ensures s.n > 0 && |s.slots| == |s.owner| == s.n && i < |s.callback|
    ensures Iterate(Owner(i), s, 5) ==
            With(s, i, Returned(Result(if s.batch[i] != Nil then s.batch[i] else s.callback[i])),
                 Slot(Free, None, Nil, false), None)
  {
    ReachableInv(s);
    assert TicketOk(s, i);
    var sl, o := s.slots[Idx(s, i)], s.owner[Idx(s, i)];
    var r := Result(sl.err);
    WithSame(s, i);
    WaitWith(s, i, Posted, sl, o);
    WaitWith(s, i, Got(false), sl.(done := false), o);
    WaitWith(s, i, TookErr(r), sl.(done := false), o);
    WaitWith(s, i, ZeroedVal(r), Slot(sl.state, None, sl.err, false), o);
    WaitWith(s, i, ZeroedErr(r), Slot(sl.state, None, Nil, false), o);
  }

  lemma DetachedWith<T>(s: State<T>, i: nat, ph: Phase, sl: Slot<T>, o: Option<nat>)
    requires s.n > 0 && |s.slots| == |s.owner| == s.n && i < |s.tickets| && ph in {Detached, Got(true)}
    ensures var a := With(s, i, ph, sl, o);
            && (ph == Detached && sl.done ==> Move(a, i) == With(s, i, Got(true), sl.(done := false), o))
            && (ph == Got(true) ==> Move(a, i) == With(s, i, TookErr(Cancelled), sl, o))
  {
    var a, b := With(s, i, ph, sl, o), Move(With(s, i, ph, sl, o), i);
    assert a.slots[Idx(s, i)] == sl && a.tickets[i].phase == ph;
    assert b.tickets == s.tickets[i := b.tickets[i]];
    assert b.slots == s.slots[Idx(s, i) := b.slots[Idx(s, i)]];
    assert b.owner == s.owner[Idx(s, i) := b.owner[Idx(s, i)]];
  }

  /** A cancelled wait takes the token if it is there, and otherwise leaves it to a clean-up. */
  lemma CancelAlone<T(!new)>(s: State<T>, i: nat)
    requires Reachable(s) && i < |s.tickets| && s.tickets[i].phase == Posted
    ensures Enabled(s, Cancel(i))
    ensures Apply(s, Cancel(i)).tickets ==
            s.tickets[i := Ticket(s.tickets[i].val, if i in s.batch then Got(true) else Detached, true)]
  {
    ReachableInv(s);
    assert TicketOk(s, i);
  }

  /** The clean-up of a cancelled wait frees the slot in the same way, once the number is committed. */
  lemma CleanUpAlone<T(!new)>(s: State<T>, i: nat)
    requires Reachable(s) && i < |s.tickets| && s.tickets[i].phase == Detached && i in s.batch
    ensures s.n > 0 && |s.slots| == |s.owner| == s.n
    ensures Iterate(Owner(i), s, 5) == With(s, i, Returned(Cancelled), Slot(Free, None, Nil, false), None)
  {
    ReachableInv(s);
    assert TicketOk(s, i);
    var sl, o := s.slots[Idx(s, i)], s.owner[Idx(s, i)];
    WithSame(s, i);
    DetachedWith(s, i, Detached, sl, o);
    DetachedWith(s, i, Got(true), sl.(done := false), o);
    WaitWith(s, i, TookErr(Cancelled), sl.(done := false), o);
    WaitWith(s, i, ZeroedVal(Cancelled), Slot(sl.state, None, sl.err, false), o);
    WaitWith(s, i, ZeroedErr(Cancelled), Slot(sl.state, None, Nil, false), o);
  }

  // ---------------------------------------------------------------- the consumer

  /** The next step of the consumer, whose callback returns errs(i) for number i. */
  function Serve<T>(s: State<T>, errs: nat -> Err): State<T>
  {
    var l: Label<T> := match s.consumer
      case Idle => Send
      case GotHead(_) => DrainTail
      case Draining(_, _) => Look
      case SawReady(h, _) => Handle(errs(h))
      case Handled(_, _) => MarkDrained
      case Finishing(_) => StoreHead
      case Committing(_, _, _, _) => WriteBatch
      case Sending(_, _, _, _) => Send;
    if Enabled(s, l) then Apply(s, l) else s
  }

  function Consumption<T>(errs: nat -> Err): State<T> -> State<T> {
    (s: State<T>) => Serve(s, errs)
  }

  lemma ServeInv<T>(s: State<T>, errs: nat -> Err)
    requires Inv(s)
    ensures Inv(Serve(s, errs))
  {
    var l: Label<T> := match s.consumer
      case Idle => Send
      case GotHead(_) => DrainTail
      case Draining(_, _) => Look
      case SawReady(h, _) => Handle(errs(h))
      case Handled(_, _) => MarkDrained
      case Finishing(_) => StoreHead
      case Committing(_, _, _, _) => WriteBatch
      case Sending(_, _, _, _) => Send;
    if Enabled(s, l) { StepInv(s, l); }
  }

  /** The Enqueue of number j has completed and its waiter has not been served. */
  predicate Waiting<T>(s: State<T>, j: nat) {
    j < |s.tickets| && s.tickets[j].phase in {Posted, Detached}
  }

  /** m is the end of the run of completed Enqueues that starts at h. */
  predicate RipeUpTo<T>(s: State<T>, h: nat, m: nat) {
    h <= m <= |s.tickets| && (forall j :: h <= j < m ==> Waiting(s, j)) && !Waiting(s, m)
  }

  /** There is always such an end. */
  lemma {:induction false} RipeEnd<T>(s: State<T>, h: nat) returns (m: nat)
    requires h <= |s.tickets|
    ensures RipeUpTo(s, h, m)
    decreases |s.tickets| - h
  {
    if Waiting(s, h) { m := RipeEnd(s, h + 1); } else { m := h; }
  }

  /** The consumer finds number h ready exactly when its Enqueue has completed. */
  lemma SeesReady<T>(s: State<T>, h: nat, t: nat)
    requires Inv(s) && s.consumer == Draining(h, t) && h < |s.tickets|
    ensures s.slots[Idx(s, h)].state == Ready <==> Waiting(s, h)
  {
    assert TicketOk(s, h);
    if s.slots[Idx(s, h)].state == Ready { ReadyIsMine(s, h); }
  }

  /** What a drain has done to s: consumer at c, numbers h to m handed over. */
  ghost predicate Drained<T>(s: State<T>, e: State<T>, h: nat, m: nat, errs: nat -> Err)
  {
    && h <= m <= |s.tickets| && e.tickets == s.tickets && e.batch == s.batch && e.n == s.n
    && |e.delivered| == |s.delivered| + (m - h) && s.delivered <= e.delivered
    && |e.callback| == |s.callback| + (m - h) && s.callback <= e.callback
    && (forall j :: h <= j < m ==> e.delivered[|s.delivered| + (j - h)] == Some(s.tickets[j].val))
    && (forall j :: h <= j < m ==> e.callback[|s.callback| + (j - h)] == errs(j))
  }

  /** The drain is over: everything up to m has been handed over and is to be committed. */
  ghost predicate Finished<T>(s: State<T>, e: State<T>, h: nat, m: nat, errs: nat -> Err)
  {
    e.consumer == Idle && e.head == m && s.head <= m && e.owed == s.owed + Range(s.head, m - s.head) && Drained(s, e, h, m, errs)
  }

  lemma Sees<T>(s: State<T>, errs: nat -> Err)
    requires Inv(s) && s.consumer.Draining? && s.consumer.h < s.consumer.t && Waiting(s, s.consumer.h)
    ensures Serve(s, errs) == s.(consumer := SawReady(s.consumer.h, s.consumer.t)) && Inv(Serve(s, errs))
  {
    SeesReady(s, s.consumer.h, s.consumer.t);
    ServeInv(s, errs);
  }

  lemma Handles<T>(s: State<T>, errs: nat -> Err)
    requires Inv(s) && s.consumer.SawReady? && Waiting(s, s.consumer.h)
    ensures var h, e := s.consumer.h, Serve(s, errs);
            && Inv(e) && e.consumer == Handled(h, s.consumer.t) && e.n == s.n && e.head == s.head && e.owed == s.owed
            && e.tickets == s.tickets && e.batch == s.batch
            && e.delivered == s.delivered + [Some(s.tickets[h].val)] && e.callback == s.callback + [errs(h)]
  {
    assert TicketOk(s, s.consumer.h);
    ServeInv(s, errs);
  }

  lemma Marks<T>(s: State<T>, errs: nat -> Err)
    requires Inv(s) && s.consumer.Handled?
    ensures var e := Serve(s, errs);
            Inv(e) && e == s.(slots := e.slots, consumer := Draining(s.consumer.h + 1, s.consumer.t))
  {
    ServeInv(s, errs);
  }

  /** One turn of Drain's loop. */
  lemma OneDrained<T(!new)>(s: State<T>, errs: nat -> Err) returns (e: State<T>)
    requires Inv(s) && s.consumer.Draining? && s.consumer.h < s.consumer.t && Waiting(s, s.consumer.h)
    ensures Leads(Consumption(errs), s, e) && Inv(e) && e.consumer == Draining(s.consumer.h + 1, s.consumer.t)
    ensures e.n == s.n && e.head == s.head && e.owed == s.owed && e.tickets == s.tickets && e.batch == s.batch
    ensures e.delivered == s.delivered + [Some(s.tickets[s.consumer.h].val)] && e.callback == s.callback + [errs(s.consumer.h)]
  {
    var a, b := Serve(s, errs), Serve(Serve(s, errs), errs);
    e := Serve(b, errs);
    Sees(s, errs);
    Handles(a, errs);
    Marks(b, errs);
    LeadsOne(Consumption(errs), s);
    LeadsOne(Consumption(errs), a);
    LeadsOne(Consumption(errs), b);
    LeadsOn(Consumption(errs), s, a, b);
    LeadsOn(Consumption(errs), s, b, e);
  }

  lemma DrainEnds<T>(s: State<T>, errs: nat -> Err, m: nat)
    requires Inv(s) && s.consumer.Draining? && s.consumer.t == |s.tickets| && s.consumer.h == m && !Waiting(s, m)
    requires m <= |s.tickets|
    ensures Finished(s, Serve(Serve(s, errs), errs), m, m, errs)
  {
    if m < |s.tickets| { SeesReady(s, m, s.consumer.t); }
    assert Serve(s, errs) == s.(consumer := Finishing(m));
  }

  lemma LastTurn<T(!new)>(s: State<T>, errs: nat -> Err, m: nat) returns (e: State<T>)
    requires Inv(s) && s.consumer.Draining? && s.consumer.t == |s.tickets| && s.consumer.h == m && !Waiting(s, m)
    requires m <= |s.tickets|
    ensures Leads(Consumption(errs), s, e) && Finished(s, e, m, m, errs)
  {
    DrainEnds(s, errs, m);
    var a := Serve(s, errs);
    e := Serve(a, errs);
    LeadsOne(Consumption(errs), s);
    LeadsOne(Consumption(errs), a);
    LeadsOn(Consumption(errs), s, a, e);
  }

  lemma SameWaiting<T>(s: State<T>, e: State<T>, h: nat, m: nat)
    requires e.tickets == s.tickets
    ensures Waiting(e, m) == Waiting(s, m) && (h < m && RipeUpTo(s, h, m) ==> RipeUpTo(e, h + 1, m))
    ensures RipeUpTo(s, h, m) ==> RipeUpTo(e, h, m)
  {
    assert forall j :: Waiting(e, j) <==> Waiting(s, j);
  }

  lemma {:induction false} DrainFrom<T(!new)>(s: State<T>, errs: nat -> Err, m: nat) returns (e: State<T>)
    requires Inv(s) && s.consumer.Draining? && s.consumer.t == |s.tickets| && RipeUpTo(s, s.consumer.h, m)
    ensures Leads(Consumption(errs), s, e) && Finished(s, e, s.consumer.h, m, errs)
    decreases m - s.consumer.h
  {
    if s.consumer.h < m {
      var b := OneDrained(s, errs);
      SameWaiting(s, b, s.consumer.h, m);
      e := DrainFrom(b, errs, m);
      LeadsOn(Consumption(errs), s, b, e);
      DrainedTogether(s, b, e, s.consumer.h, m, errs);
    } else {
      e := LastTurn(s, errs, m);
    }
  }

  lemma DrainedTogether<T>(s: State<T>, b: State<T>, e: State<T>, h: nat, m: nat, errs: nat -> Err)
    requires h < m && b.tickets == s.tickets && b.batch == s.batch && b.n == s.n && h < |s.tickets|
    requires b.delivered == s.delivered + [Some(s.tickets[h].val)] && b.callback == s.callback + [errs(h)]
    requires b.head == s.head && b.owed == s.owed && Finished(b, e, h + 1, m, errs)
    ensures Finished(s, e, h, m, errs)
  {
    assert e.delivered[|s.delivered|] == b.delivered[|s.delivered|] && e.callback[|s.callback|] == b.callback[|s.callback|];
    forall j | h <= j < m
      ensures e.delivered[|s.delivered| + (j - h)] == Some(s.tickets[j].val)
      ensures e.callback[|s.callback| + (j - h)] == errs(j)
    {
      if j > h {
        assert e.delivered[|b.delivered| + (j - (h + 1))] == Some(b.tickets[j].val);
        assert e.callback[|b.callback| + (j - (h + 1))] == errs(j);
      }
    }
  }

  /** The same but for the consumer's own place. */
  ghost predicate SameLogs<T>(s: State<T>, b: State<T>)
  {
    && b.n == s.n && b.head == s.head && b.tickets == s.tickets && b.batch == s.batch && b.owed == s.owed
    && b.delivered == s.delivered && b.callback == s.callback
  }

  lemma DrainStarts<T(!new)>(s: State<T>, errs: nat -> Err) returns (b: State<T>)
    requires Reachable(s) && s.consumer == Idle
    ensures Enabled(s, DrainHead) && Leads(Consumption(errs), Apply(s, DrainHead), b)
    ensures Inv(b) && b.consumer == Draining(s.head, |s.tickets|) && SameLogs(s, b)
  {
    ReachableInv(s);
    StepInv(s, DrainHead);
    var a: State<T> := Apply(s, DrainHead);
    ServeInv(a, errs);
    LeadsOne(Consumption(errs), a);
    b := Serve(a, errs);
  }

  /** Main theorem: a Drain that runs by itself hands over, in order, exactly the values of the unbroken run
      of completed Enqueues at the head, and keeps what the callback returns for each. */
  lemma DrainAlone<T(!new)>(s: State<T>, errs: nat -> Err, m: nat) returns (e: State<T>)
    requires Reachable(s) && s.consumer == Idle && RipeUpTo(s, s.head, m)
    ensures Enabled(s, DrainHead) && Leads(Consumption(errs), Apply(s, DrainHead), e)
    ensures Finished(s, e, s.head, m, errs)
  {
    var b := DrainStarts(s, errs);
    SameWaiting(s, b, s.head, m);
    e := DrainFrom(b, errs, m);
    FinishedSame(s, b, e, s.head, m, errs);
    LeadsOn(Consumption(errs), Apply(s, DrainHead), b, e);
  }

  lemma FinishedSame<T>(s: State<T>, b: State<T>, e: State<T>, h: nat, m: nat, errs: nat -> Err)
    requires SameLogs(s, b) && Finished(b, e, h, m, errs)
    ensures Finished(s, e, h, m, errs)
  {
    assert forall j :: h <= j < m ==> b.tickets[j] == s.tickets[j];
  }

  // ---------------------------------------------------------------- Commit

  /** Numbers from a to b are committed with the given batch error and their waiters can go on; the rest is
      as in s. */
  ghost predicate Committed<T>(s: State<T>, e: State<T>, a: nat, b: nat, batch: Err)
  {
    && e.tickets == s.tickets && e.head == s.head && e.owed == s.owed && e.callback == s.callback && e.n == s.n
    && (forall j :: a <= j < b ==> j in e.batch && e.batch[j] == batch)
    && (forall j :: !(a <= j < b) ==> (j in e.batch <==> j in s.batch) && (j in s.batch ==> e.batch[j] == s.batch[j]))
  }

  lemma OneCommitted<T(!new)>(s: State<T>, errs: nat -> Err) returns (e: State<T>)
    requires Inv(s) && s.consumer.Committing? && s.consumer.i < s.consumer.n
    ensures var c := s.consumer;
            && Leads(Consumption(errs), s, e) && Inv(e) && e.consumer == Committing(c.start, c.n, c.i + 1, c.batch)
            && Committed(s, e, c.start + c.i, c.start + c.i + 1, c.batch)
  {
    var a := Serve(s, errs);
    ServeInv(s, errs);
    assert a.consumer == Sending(s.consumer.start, s.consumer.n, s.consumer.i, s.consumer.batch);
    e := Serve(a, errs);
    SendReady(a);
    ServeInv(a, errs);
    LeadsOne(Consumption(errs), s);
    LeadsOne(Consumption(errs), a);
    LeadsOn(Consumption(errs), s, a, e);
  }

  lemma SendReady<T>(s: State<T>)
    requires Inv(s) && s.consumer.Sending?
    ensures Enabled(s, Send)
  {
    var h := s.consumer.start + s.consumer.i;
    assert Uncommitted(s.head, s.batch, h);
    Awaiting(s, h);
  }

  lemma {:induction false} CommitFrom<T(!new)>(s: State<T>, errs: nat -> Err) returns (e: State<T>)
    requires Inv(s) && s.consumer.Committing?
    ensures Leads(Consumption(errs), s, e) && Inv(e) && e.consumer == Idle
    ensures Committed(s, e, s.consumer.start + s.consumer.i, s.consumer.start + s.consumer.n, s.consumer.batch)
    decreases s.consumer.n - s.consumer.i
  {
    if s.consumer.i < s.consumer.n {
      var b := OneCommitted(s, errs);
      e := CommitFrom(b, errs);
      LeadsOn(Consumption(errs), s, b, e);
    } else {
      ServeInv(s, errs);
      LeadsOne(Consumption(errs), s);
      e := Serve(s, errs);
    }
  }

  /** Main theorem: a Commit that runs by itself commits exactly its range with its error, and every waiter
      in the range can go on. */
  lemma CommitAlone<T(!new)>(s: State<T>, start: nat, count: nat, batch: Err, errs: nat -> Err) returns (e: State<T>)
    requires Reachable(s) && Enabled(s, Commit(start, count, batch))
    ensures var a := Apply(s, Commit(start, count, batch));
            Leads(Consumption(errs), a, e) && e.consumer == Idle && Committed(a, e, start, start + count, batch)
    ensures forall j :: start <= j < start + count && Waiting(e, j) ==> Enabled(e, Receive(j))
  {
    ReachableInv(s);
    StepInv(s, Commit(start, count, batch));
    e := CommitFrom(Apply(s, Commit(start, count, batch)), errs);
    forall j | start <= j < start + count && Waiting(e, j) ensures Enabled(e, Receive(j)) { CanGoOn(e, j); }
  }

  lemma CanGoOn<T>(e: State<T>, j: nat)
    requires Inv(e) && Waiting(e, j) && j in e.batch
    ensures Enabled(e, Receive(j))
  {
    assert TicketOk(e, j);
  }
}
