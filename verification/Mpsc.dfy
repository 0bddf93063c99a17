/** The multi-producer group-commit ring (mpsc/ring.go) as a transition system. Every atomic load,
    store, compare-and-swap, channel send and channel receive is one step; any number of Enqueue
    calls, waiters, cancelled waiters and one consumer interleave freely. */
module Mpsc {
  import opened Arith
  import opened Lists

  /** A Go error: nil or some value. */
  datatype Err = Nil | Error(code: int)

  datatype SlotState = Free | Fill | Ready | Drained

  /** One ring slot; `done` says whether the 1-buffered channel holds its token. */
  datatype Slot<T> = Slot(state: SlotState, val: Option<T>, err: Err, done: bool)

  /** What Wait or WaitContext returned. */
  datatype Ret = Result(err: Err) | Cancelled

  /** The life of one successful Enqueue and of the wait that follows it. */
  datatype Phase =
    | Claimed                 // won the tail CAS, spinning for the slot
    | SawFree                 // read state == free
    | Filling                 // stored state = filling
    | WroteVal
    | ClearedErr
    | Flushed                 // residual token drained
    | Posted                  // stored state = ready, Enqueue returned
    | Detached                // WaitContext was cancelled, its clean-up goroutine waits
    | Got(cancelled: bool)    // received the token
    | TookErr(ret: Ret)       // about to zero val
    | ZeroedVal(ret: Ret)
    | ZeroedErr(ret: Ret)
    | Returned(ret: Ret)      // stored state = free

  /** `cancelled` records that the context ended before WaitContext received its token. */
  datatype Ticket<T> = Ticket(val: T, phase: Phase, cancelled: bool)

  /** An Enqueue call before its compare-and-swap succeeds. */
  datatype Attempt<T> = Start(val: T) | HaveTail(val: T, t: nat) | HaveHead(val: T, t: nat, h: nat)

  datatype Consumer =
    | Idle
    | GotHead(h: nat)
    | Draining(h: nat, t: nat)   // top of the loop
    | SawReady(h: nat, t: nat)   // read state == ready
    | Handled(h: nat, t: nat)    // callback ran, err stored
    | Finishing(h: nat)          // loop left, head not yet stored
    | Committing(start: nat, n: nat, i: nat, batch: Err)
    | Sending(start: nat, n: nat, i: nat, batch: Err)

  /** `tickets[s]` belongs to sequence number s. `owner`, `delivered`, `callback`, `batch` and `owed`
      record history: who filled a slot, what the drain callback saw and returned, the batch
      error of each committed number, and the drained numbers still to be committed. */
  datatype State<T> = State(
    n: nat, head: nat, slots: seq<Slot<T>>, tickets: seq<Ticket<T>>, attempts: map<int, Attempt<T>>,
    consumer: Consumer, owner: seq<Option<nat>>, delivered: seq<Option<T>>, callback: seq<Err>,
    batch: map<nat, Err>, owed: set<nat>)

  const Modulus: nat := 0x1_0000_0000_0000_0000

  ghost predicate Init<T>(s: State<T>)
  {
    && s.n >= 4 && s.head == 0 && |s.slots| == s.n && |s.owner| == s.n
    && (forall k :: 0 <= k < s.n ==> s.slots[k] == Slot(Free, None, Nil, false) && s.owner[k] == None)
    && s.tickets == [] && s.attempts == map[] && s.consumer == Idle
    && s.delivered == [] && s.callback == [] && s.batch == map[] && s.owed == {}
  }

  // ---------------------------------------------------------------- steps

  datatype Label<T> =
    | Call(p: int, val: T) | LoadTail(p: int) | LoadHead(p: int) | Again(p: int) | GiveUp(p: int) | Cas(p: int)
    | Spin(i: nat) | StoreFill(i: nat) | WriteVal(i: nat) | ClearErr(i: nat) | FlushDone(i: nat) | Post(i: nat)
    | Receive(i: nat) | Cancel(i: nat) | TakeErr(i: nat) | ZeroVal(i: nat) | ZeroErr(i: nat) | Release(i: nat)
    | DrainHead | DrainTail | Look | Handle(e: Err) | MarkDrained | StoreHead
    | Commit(start: nat, count: nat, e: Err) | WriteBatch | Send

  /** `t - h >= len(slots)` in uint64 arithmetic: h may be newer than t. */
  predicate Full(n: nat, t: nat, h: nat) {
    (t - h) % Modulus >= n
  }

  function Idx<T>(s: State<T>, i: nat): nat
    requires s.n > 0
  {
    i % s.n
  }

  predicate Enabled<T>(s: State<T>, l: Label<T>)
  {
    && s.n > 0 && |s.slots| == s.n && |s.owner| == s.n
    && match l
       case Call(p, _) => p !in s.attempts
       case LoadTail(p) => p in s.attempts && s.attempts[p].Start?
       case LoadHead(p) => p in s.attempts && s.attempts[p].HaveTail?
       case Again(p) => p in s.attempts && s.attempts[p].HaveHead? && Full(s.n, s.attempts[p].t, s.attempts[p].h)
       case GiveUp(p) => p in s.attempts && s.attempts[p].HaveHead? && Full(s.n, s.attempts[p].t, s.attempts[p].h)
       case Cas(p) =>
         && p in s.attempts && s.attempts[p].HaveHead? && !Full(s.n, s.attempts[p].t, s.attempts[p].h)
         && |s.tickets| + 1 < Modulus
       case Spin(i) => i < |s.tickets| && s.tickets[i].phase == Claimed
       case StoreFill(i) => i < |s.tickets| && s.tickets[i].phase == SawFree
       case WriteVal(i) => i < |s.tickets| && s.tickets[i].phase == Filling
       case ClearErr(i) => i < |s.tickets| && s.tickets[i].phase == WroteVal
       case FlushDone(i) => i < |s.tickets| && s.tickets[i].phase == ClearedErr
       case Post(i) => i < |s.tickets| && s.tickets[i].phase == Flushed
       case Receive(i) => i < |s.tickets| && s.tickets[i].phase in {Posted, Detached} && s.slots[Idx(s, i)].done
       case Cancel(i) => i < |s.tickets| && s.tickets[i].phase == Posted
       case TakeErr(i) => i < |s.tickets| && s.tickets[i].phase.Got?
       case ZeroVal(i) => i < |s.tickets| && s.tickets[i].phase.TookErr?
       case ZeroErr(i) => i < |s.tickets| && s.tickets[i].phase.ZeroedVal?
       case Release(i) => i < |s.tickets| && s.tickets[i].phase.ZeroedErr?
       case DrainHead => s.consumer == Idle
       case DrainTail => s.consumer.GotHead?
       case Look => s.consumer.Draining?
       case Handle(_) => s.consumer.SawReady?
       case MarkDrained => s.consumer.Handled?
       case StoreHead => s.consumer.Finishing?
       case Commit(start, count, _) => s.consumer == Idle && forall j :: start <= j < start + count ==> j in s.owed
       case WriteBatch => s.consumer.Committing?
       case Send => s.consumer.Sending? && !s.slots[Idx(s, s.consumer.start + s.consumer.i)].done
  }

  function WithPhase<T>(s: State<T>, i: nat, ph: Phase): State<T>
    requires i < |s.tickets|
  {
    s.(tickets := s.tickets[i := s.tickets[i].(phase := ph)])
  }

  function WithSlot<T>(s: State<T>, i: nat, sl: Slot<T>): State<T>
    requires s.n > 0 && |s.slots| == s.n
  {
    s.(slots := s.slots[Idx(s, i) := sl])
  }

  function Range(start: nat, count: nat): (r: set<nat>)
    ensures forall j :: j in r <==> start <= j < start + count
  {
    if count == 0 then {} else Range(start, count - 1) + {start + count - 1}
  }

  function Apply<T>(s: State<T>, l: Label<T>): State<T>
    requires Enabled(s, l)
  {
    match l
    case Call(p, v) => s.(attempts := s.attempts[p := Start(v)])
    case LoadTail(p) => s.(attempts := s.attempts[p := HaveTail(s.attempts[p].val, |s.tickets|)])
    case LoadHead(p) => s.(attempts := s.attempts[p := HaveHead(s.attempts[p].val, s.attempts[p].t, s.head)])
    case Again(p) => s.(attempts := s.attempts[p := Start(s.attempts[p].val)])
    case GiveUp(p) => s.(attempts := s.attempts - {p})
    case Cas(p) =>
      if s.attempts[p].t == |s.tickets|
      then s.(attempts := s.attempts - {p}, tickets := s.tickets + [Ticket(s.attempts[p].val, Claimed, false)])
      else s.(attempts := s.attempts[p := Start(s.attempts[p].val)])
    case Spin(i) => if s.slots[Idx(s, i)].state == Free then WithPhase(s, i, SawFree) else s
    case StoreFill(i) =>
      WithPhase(WithSlot(s, i, s.slots[Idx(s, i)].(state := Fill)), i, Filling).(owner := s.owner[Idx(s, i) := Some(i)])
    case WriteVal(i) =>
      WithPhase(WithSlot(s, i, s.slots[Idx(s, i)].(val := Some(s.tickets[i].val))), i, WroteVal)
    case ClearErr(i) => WithPhase(WithSlot(s, i, s.slots[Idx(s, i)].(err := Nil)), i, ClearedErr)
    case FlushDone(i) => WithPhase(WithSlot(s, i, s.slots[Idx(s, i)].(done := false)), i, Flushed)
    case Post(i) => WithPhase(WithSlot(s, i, s.slots[Idx(s, i)].(state := Ready)), i, Posted)
    case Receive(i) =>
      WithPhase(WithSlot(s, i, s.slots[Idx(s, i)].(done := false)), i, Got(s.tickets[i].phase == Detached))
    case Cancel(i) =>
      var t := s.tickets[i].(cancelled := true);
      if s.slots[Idx(s, i)].done
      then WithSlot(s, i, s.slots[Idx(s, i)].(done := false)).(tickets := s.tickets[i := t.(phase := Got(true))])
      else s.(tickets := s.tickets[i := t.(phase := Detached)])
    case TakeErr(i) =>
      WithPhase(s, i, TookErr(if s.tickets[i].phase.cancelled then Cancelled else Result(s.slots[Idx(s, i)].err)))
    case ZeroVal(i) =>
      WithPhase(WithSlot(s, i, s.slots[Idx(s, i)].(val := None)), i, ZeroedVal(s.tickets[i].phase.ret))
    case ZeroErr(i) =>
      WithPhase(WithSlot(s, i, s.slots[Idx(s, i)].(err := Nil)), i, ZeroedErr(s.tickets[i].phase.ret))
    case Release(i) =>
      WithPhase(WithSlot(s, i, s.slots[Idx(s, i)].(state := Free)), i, Returned(s.tickets[i].phase.ret))
        .(owner := s.owner[Idx(s, i) := None])
    case DrainHead => s.(consumer := GotHead(s.head))
    case DrainTail => s.(consumer := Draining(s.consumer.h, |s.tickets|))
    case Look =>
      var c := s.consumer;
      if c.h < c.t && s.slots[Idx(s, c.h)].state == Ready
      then s.(consumer := SawReady(c.h, c.t))
      else s.(consumer := Finishing(c.h))
    case Handle(e) =>
      var sl := s.slots[Idx(s, s.consumer.h)];
      WithSlot(s, s.consumer.h, sl.(err := e))
        .(consumer := Handled(s.consumer.h, s.consumer.t),
          delivered := s.delivered + [sl.val], callback := s.callback + [e])
    case MarkDrained =>
      WithSlot(s, s.consumer.h, s.slots[Idx(s, s.consumer.h)].(state := Drained))
        .(consumer := Draining(s.consumer.h + 1, s.consumer.t))
    case StoreHead =>
      s.(head := s.consumer.h, consumer := Idle,
         owed := s.owed + (if s.head <= s.consumer.h then Range(s.head, s.consumer.h - s.head) else {}))
    case Commit(start, count, e) =>
      s.(consumer := Committing(start, count, 0, e), owed := s.owed - Range(start, count))
    case WriteBatch =>
      var c := s.consumer;
      if c.i >= c.n then s.(consumer := Idle)
      else
        var sl := s.slots[Idx(s, c.start + c.i)];
        (if c.batch == Nil then s else WithSlot(s, c.start + c.i, sl.(err := c.batch)))
          .(consumer := Sending(c.start, c.n, c.i, c.batch))
    case Send =>
      var c := s.consumer;
      var sl := s.slots[Idx(s, c.start + c.i)];
      WithSlot(s, c.start + c.i, sl.(done := true))
        .(consumer := Committing(c.start, c.n, c.i + 1, c.batch), batch := s.batch[c.start + c.i := c.batch])
  }

  // ---------------------------------------------------------------- invariant

  /** How far the consumer has drained: its local h while draining, head otherwise. */
  function Frontier<T>(s: State<T>): nat {
    match s.consumer
    case Draining(h, _) => h
    case SawReady(h, _) => h
    case Handled(h, _) => h
    case Finishing(h) => h
    case _ => s.head
  }

  /** The error a committed number must report: the batch error, else the callback's own. */
  function Outcome<T>(s: State<T>, i: nat): Err
    requires i in s.batch && i < |s.callback|
  {
    if s.batch[i] != Nil then s.batch[i] else s.callback[i]
  }

  /** The consumer is between writing the batch error of i and waking its waiter. */
  predicate AboutToSend<T>(s: State<T>, i: nat) {
    s.consumer.Sending? && i == s.consumer.start + s.consumer.i
  }

  /** The content of slot.err from the moment it was cleared until the waiter reads it. */
  function ErrOf<T>(s: State<T>, i: nat): Err {
    if i in s.batch && i < |s.callback| then Outcome(s, i)
    else if i < |s.callback| then
      if AboutToSend(s, i) && s.consumer.batch != Nil then s.consumer.batch else s.callback[i]
    else Nil
  }

  /** Phases during which a ticket owns its slot. */
  predicate Active(ph: Phase) {
    ph != Claimed && ph != SawFree && !ph.Returned?
  }

  predicate RetOk<T>(s: State<T>, i: nat, r: Ret)
    requires i < |s.tickets|
  {
    r == if s.tickets[i].cancelled then Cancelled else Result(ErrOf(s, i))
  }

  ghost predicate TicketOk<T>(s: State<T>, i: nat)
    requires s.n > 0 && |s.slots| == |s.owner| == s.n && i < |s.tickets|
  {
    var t, sl, o := s.tickets[i], s.slots[Idx(s, i)], s.owner[Idx(s, i)];
    && (Active(t.phase) ==> o == Some(i))
    && (i >= Frontier(s) && t.phase != Detached ==> !t.cancelled)
    && match t.phase
       case Claimed => Frontier(s) <= i
       case SawFree => Frontier(s) <= i && o == None
       case Filling => Frontier(s) <= i && sl.state == Fill && !sl.done
       case WroteVal => Frontier(s) <= i && sl.state == Fill && !sl.done && sl.val == Some(t.val)
       case ClearedErr => Frontier(s) <= i && sl == Slot(Fill, Some(t.val), Nil, false)
       case Flushed => Frontier(s) <= i && sl == Slot(Fill, Some(t.val), Nil, false)
       case Posted => !t.cancelled && sl == Slot(if i < Frontier(s) then Drained else Ready, Some(t.val), ErrOf(s, i), i in s.batch)
       case Detached => t.cancelled && sl == Slot(if i < Frontier(s) then Drained else Ready, Some(t.val), ErrOf(s, i), i in s.batch)
       case Got(c) => i in s.batch && c == t.cancelled && sl == Slot(Drained, Some(t.val), ErrOf(s, i), false)
       case TookErr(r) => i in s.batch && sl.state == Drained && !sl.done && RetOk(s, i, r)
       case ZeroedVal(r) => i in s.batch && sl.state == Drained && !sl.done && RetOk(s, i, r)
       case ZeroedErr(r) => i in s.batch && sl.state == Drained && !sl.done && RetOk(s, i, r)
       case Returned(r) => i in s.batch && RetOk(s, i, r)
  }

  ghost predicate SlotOk<T>(s: State<T>, k: nat)
    requires s.n > 0 && |s.slots| == |s.owner| == s.n && k < s.n
  {
    match s.owner[k]
    case None => s.slots[k].state == Free && !s.slots[k].done
    case Some(i) => i < |s.tickets| && Idx(s, i) == k && Active(s.tickets[i].phase)
  }

  ghost predicate AttemptOk<T>(s: State<T>, a: Attempt<T>)
  {
    match a
    case Start(_) => true
    case HaveTail(_, t) => t <= |s.tickets|
    case HaveHead(_, t, h) => t <= |s.tickets| && h <= s.head
  }

  /** A drained number that has not been committed yet. */
  ghost predicate Uncommitted(head: nat, batch: map<nat, Err>, i: nat) {
    i < head && i !in batch
  }

  ghost predicate ConsumerOk<T>(s: State<T>)
  {
    match s.consumer
    case Idle => true
    case GotHead(h) => h == s.head
    case Draining(h, t) => t <= |s.tickets|
    case SawReady(h, t) => t <= |s.tickets| && h < t && h < |s.tickets| && s.tickets[h].phase in {Posted, Detached}
    case Handled(h, t) => t <= |s.tickets| && h < t && h < |s.tickets| && s.tickets[h].phase in {Posted, Detached}
    case Finishing(h) => true
    case Committing(start, n, i, _) =>
      i <= n && forall j :: start + i <= j < start + n ==> Uncommitted(s.head, s.batch, j) && j !in s.owed
    case Sending(start, n, i, _) =>
      i < n && forall j :: start + i <= j < start + n ==> Uncommitted(s.head, s.batch, j) && j !in s.owed
  }

  ghost predicate Logs<T>(s: State<T>)
  {
    && |s.delivered| == |s.callback| == Frontier(s) + (if s.consumer.Handled? then 1 else 0)
    && |s.delivered| <= |s.tickets|
    && (forall i :: 0 <= i < |s.delivered| ==> s.delivered[i] == Some(s.tickets[i].val))
    && (forall i :: i in s.batch ==> i < s.head)
    && (forall i :: i in s.owed ==> Uncommitted(s.head, s.batch, i))
  }

  ghost predicate Bounds<T>(s: State<T>)
  {
    && 4 <= s.n && |s.slots| == |s.owner| == s.n
    && s.head <= Frontier(s) <= |s.tickets| <= s.head + s.n
    && |s.tickets| < Modulus
    && forall p :: p in s.attempts ==> AttemptOk(s, s.attempts[p])
  }

  ghost predicate Inv<T>(s: State<T>)
  {
    && Bounds(s)
    && ConsumerOk(s)
    && Logs(s)
    && (forall i :: 0 <= i < |s.tickets| ==> TicketOk(s, i))
    && (forall k :: 0 <= k < s.n ==> SlotOk(s, k))
  }

  // ---------------------------------------------------------------- preservation

  lemma InitInv<T>(s: State<T>)
    requires Init(s)
    ensures Inv(s)
  {}

  /** Changing only the attempts keeps everything else. */
  lemma Reattempt<T>(s: State<T>, a: map<int, Attempt<T>>)
    requires Inv(s) && forall p :: p in a ==> AttemptOk(s, a[p])
    ensures Inv(s.(attempts := a))
  {
    var s' := s.(attempts := a);
    forall p | p in a ensures AttemptOk(s', a[p]) { assert AttemptOk(s, a[p]); }
    forall i | 0 <= i < |s'.tickets| ensures TicketOk(s', i) { assert TicketOk(s, i); }
    forall k | 0 <= k < s'.n ensures SlotOk(s', k) { assert SlotOk(s, k); }
  }

  /** Steps of Enqueue before the claim. */
  lemma AttemptStep<T>(s: State<T>, l: Label<T>)
    requires Inv(s) && Enabled(s, l)
    requires l.Call? || l.LoadTail? || l.LoadHead? || l.Again? || l.GiveUp?
    ensures Inv(Apply(s, l))
  {
    Reattempt(s, Apply(s, l).attempts);
  }

  /** The compare-and-swap can only succeed when there is room. */
  lemma CasStep<T>(s: State<T>, p: int)
    requires Inv(s) && Enabled(s, Cas(p))
    ensures Inv(Apply(s, Cas(p)))
  {
    var s' := Apply(s, Cas(p));
    var a := s.attempts[p];
    assert AttemptOk(s, a);
    Reattempt(s, s'.attempts);
    if a.t == |s.tickets| {
      assert (a.t - a.h) % Modulus == a.t - a.h;
      AppendTicket(s.(attempts := s'.attempts), Ticket(a.val, Claimed, false));
    }
  }

  lemma AppendTicket<T>(s: State<T>, t: Ticket<T>)
    requires Inv(s) && t.phase == Claimed && !t.cancelled && |s.tickets| < s.head + s.n && |s.tickets| + 1 < Modulus
    ensures Inv(s.(tickets := s.tickets + [t]))
  {
    var s' := s.(tickets := s.tickets + [t]);
    forall p | p in s'.attempts ensures AttemptOk(s', s'.attempts[p]) { assert AttemptOk(s, s.attempts[p]); }
    forall i | 0 <= i < |s.tickets| ensures TicketOk(s', i) { assert TicketOk(s, i); }
    forall k | 0 <= k < s'.n ensures SlotOk(s', k) { assert SlotOk(s, k); }
  }

  /** A ticket is unaffected by what happens to other slots and other numbers. */
  lemma TicketFrame<T>(s: State<T>, s': State<T>, j: nat)
    requires 0 < s.n == s'.n && |s.slots| == |s'.slots| == |s.owner| == |s'.owner| == s.n
    requires j < |s.tickets| && j < |s'.tickets| && s'.tickets[j] == s.tickets[j] && TicketOk(s, j)
    requires j < Frontier(s') <==> j < Frontier(s)
    requires ErrOf(s', j) == ErrOf(s, j) && (j in s'.batch <==> j in s.batch)
    requires Active(s.tickets[j].phase) ==> s'.slots[Idx(s, j)] == s.slots[Idx(s, j)]
    requires Active(s.tickets[j].phase) || s.tickets[j].phase == SawFree ==> s'.owner[Idx(s, j)] == s.owner[Idx(s, j)]
    ensures TicketOk(s', j)
  {}

  /** s' differs from s only in ticket i and in its slot. */
  ghost predicate OnlyTicket<T>(s: State<T>, s': State<T>, i: nat)
  {
    && s.n > 0 && i < |s.tickets| && |s.slots| == |s.owner| == s.n
    && |s'.tickets| == |s.tickets| && |s'.slots| == |s.slots| && |s'.owner| == |s.owner|
    && s' == s.(tickets := s'.tickets, slots := s'.slots, owner := s'.owner)
    && s'.tickets[i].val == s.tickets[i].val
    && (forall j :: 0 <= j < |s.tickets| && j != i ==> s'.tickets[j] == s.tickets[j])
    && (forall k :: 0 <= k < s.n && k != Idx(s, i) ==> s'.slots[k] == s.slots[k] && s'.owner[k] == s.owner[k])
  }

  lemma OthersOk<T>(s: State<T>, s': State<T>, i: nat)
    requires Inv(s) && OnlyTicket(s, s', i) && s.owner[Idx(s, i)] in {None, Some(i)}
    requires forall j :: 0 <= j < |s.tickets| && j != i && Idx(s, j) == Idx(s, i) ==> s.tickets[j].phase != SawFree
    ensures forall j :: 0 <= j < |s.tickets| && j != i ==> TicketOk(s', j)
    ensures forall k :: 0 <= k < s.n && k != Idx(s, i) ==> SlotOk(s', k)
  {
    forall j | 0 <= j < |s.tickets| && j != i ensures TicketOk(s', j) {
      assert TicketOk(s, j);
      TicketFrame(s, s', j);
    }
    forall k | 0 <= k < s.n && k != Idx(s, i) ensures SlotOk(s', k) { assert SlotOk(s, k); }
  }

  /** A ticket takes a step that touches its own phase and, if it owns it, its own slot. */
  lemma TicketStep<T>(s: State<T>, s': State<T>, i: nat)
    requires Inv(s) && OnlyTicket(s, s', i) && s.owner[Idx(s, i)] in {None, Some(i)}
    requires TicketOk(s', i) && SlotOk(s', Idx(s, i))
    requires s.consumer.SawReady? || s.consumer.Handled? ==>
             i != s.consumer.h || s'.tickets[i].phase in {Posted, Detached}
    requires forall j :: 0 <= j < |s.tickets| && j != i && Idx(s, j) == Idx(s, i) ==> s.tickets[j].phase != SawFree
    ensures Inv(s')
  {
    forall p | p in s'.attempts ensures AttemptOk(s', s'.attempts[p]) { assert AttemptOk(s, s.attempts[p]); }
    OthersOk(s, s', i);
    assert Logs(s') by {
      forall j | 0 <= j < |s.delivered| ensures s'.delivered[j] == Some(s'.tickets[j].val) {
        assert s.delivered[j] == Some(s.tickets[j].val);
      }
    }
  }

  /** While a ticket has not been returned, nobody else has seen its slot free. */
  lemma NoRival<T>(s: State<T>, i: nat)
    requires Inv(s) && i < |s.tickets| && !s.tickets[i].phase.Returned?
    ensures forall j :: 0 <= j < |s.tickets| && j != i && Idx(s, j) == Idx(s, i) ==> s.tickets[j].phase != SawFree
  {
    assert TicketOk(s, i);
    forall j | 0 <= j < |s.tickets| && j != i && Idx(s, j) == Idx(s, i) ensures s.tickets[j].phase != SawFree {
      assert TicketOk(s, j);
      if j < i { SameRemainder(j, i, s.n); } else { SameRemainder(i, j, s.n); }
    }
  }

  /** A free slot has no owner. */
  lemma FreeSlot<T>(s: State<T>, k: nat)
    requires Inv(s) && k < s.n && s.slots[k].state == Free
    ensures s.owner[k] == None
  {
    assert SlotOk(s, k);
    if s.owner[k].Some? { assert TicketOk(s, s.owner[k].value); }
  }

  /** Taking a slot: the load that sees it free, and the store that marks it. */
  lemma ClaimStep<T>(s: State<T>, l: Label<T>)
    requires Inv(s) && Enabled(s, l) && (l.Spin? || l.StoreFill?)
    ensures Inv(Apply(s, l))
  {
    var s', i := Apply(s, l), l.i;
    assert TicketOk(s, i) && SlotOk(s, Idx(s, i));
    NoRival(s, i);
    if l.StoreFill? {
      TicketStep(s, s', i);
    } else if s.slots[Idx(s, i)].state == Free {
      FreeSlot(s, Idx(s, i));
      TicketStep(s, s', i);
    }
  }

  /** Writing into the owned slot. */
  lemma FillStep<T>(s: State<T>, l: Label<T>)
    requires Inv(s) && Enabled(s, l) && (l.WriteVal? || l.ClearErr?)
    ensures Inv(Apply(s, l))
  {
    var s', i := Apply(s, l), l.i;
    assert TicketOk(s, i) && SlotOk(s, Idx(s, i));
    NoRival(s, i);
    TicketStep(s, s', i);
  }

  /** Flushing the channel and posting. */
  lemma PostStep<T>(s: State<T>, l: Label<T>)
    requires Inv(s) && Enabled(s, l) && (l.FlushDone? || l.Post?)
    ensures Inv(Apply(s, l))
  {
    var s', i := Apply(s, l), l.i;
    assert TicketOk(s, i) && SlotOk(s, Idx(s, i));
    NoRival(s, i);
    TicketStep(s, s', i);
  }

  /** Receiving the token. */
  lemma ReceiveStep<T>(s: State<T>, l: Label<T>)
    requires Inv(s) && Enabled(s, l) && l.Receive?
    ensures Inv(Apply(s, l))
  {
    var s', i := Apply(s, l), l.i;
    assert TicketOk(s, i) && SlotOk(s, Idx(s, i));
    NoRival(s, i);
    TicketStep(s, s', i);
  }

  /** Being cancelled before the token came. */
  lemma CancelStep<T>(s: State<T>, l: Label<T>)
    requires Inv(s) && Enabled(s, l) && l.Cancel?
    ensures Inv(Apply(s, l))
  {
    var s', i := Apply(s, l), l.i;
    assert TicketOk(s, i) && SlotOk(s, Idx(s, i));
    NoRival(s, i);
    TicketStep(s, s', i);
  }

  /** Reading the error and zeroing the value. */
  lemma TakeStep<T>(s: State<T>, l: Label<T>)
    requires Inv(s) && Enabled(s, l) && (l.TakeErr? || l.ZeroVal?)
    ensures Inv(Apply(s, l))
  {
    var s', i := Apply(s, l), l.i;
    assert TicketOk(s, i) && SlotOk(s, Idx(s, i));
    NoRival(s, i);
    TicketStep(s, s', i);
  }

  /** Zeroing the error. */
  lemma ZeroErrStep<T>(s: State<T>, l: Label<T>)
    requires Inv(s) && Enabled(s, l) && l.ZeroErr?
    ensures Inv(Apply(s, l))
  {
    var s', i := Apply(s, l), l.i;
    assert TicketOk(s, i) && SlotOk(s, Idx(s, i));
    NoRival(s, i);
    TicketStep(s, s', i);
  }

  /** Giving the slot back. */
  lemma ReleaseStep<T>(s: State<T>, l: Label<T>)
    requires Inv(s) && Enabled(s, l) && l.Release?
    ensures Inv(Apply(s, l))
  {
    var s', i := Apply(s, l), l.i;
    assert TicketOk(s, i) && SlotOk(s, Idx(s, i));
    NoRival(s, i);
    TicketStep(s, s', i);
  }

  // ---------------------------------------------------------------- the consumer

  /** The consumer moves on without touching a slot or the frontier. */
  lemma ConsumerMove<T>(s: State<T>, c: Consumer)
    requires Inv(s)
    requires var s' := s.(consumer := c);
             Frontier(s') == Frontier(s) && ConsumerOk(s') && !c.Handled? && !s.consumer.Handled?
             && !c.Sending? && !s.consumer.Sending?
    ensures Inv(s.(consumer := c))
  {
    var s' := s.(consumer := c);
    forall p | p in s'.attempts ensures AttemptOk(s', s'.attempts[p]) { assert AttemptOk(s, s.attempts[p]); }
    forall i | 0 <= i < |s.tickets| ensures TicketOk(s', i) { assert TicketOk(s, i); }
    forall k | 0 <= k < s'.n ensures SlotOk(s', k) { assert SlotOk(s, k); }
  }

  /** A slot the consumer finds ready belongs to the very number it is looking for. */
  lemma ReadyIsMine<T>(s: State<T>, h: nat)
    requires Inv(s) && h == Frontier(s) && h < |s.tickets| && s.slots[Idx(s, h)].state == Ready
    ensures s.owner[Idx(s, h)] == Some(h) && s.tickets[h].phase in {Posted, Detached}
  {
    assert SlotOk(s, Idx(s, h));
    var a := s.owner[Idx(s, h)].value;
    assert TicketOk(s, a);
    if h < a { SameRemainder(h, a, s.n); }
  }

  lemma LookStep<T>(s: State<T>)
    requires Inv(s) && Enabled(s, Look)
    ensures Inv(Apply(s, Look))
  {
    var c := s.consumer;
    if c.h < c.t && s.slots[Idx(s, c.h)].state == Ready { ReadyIsMine(s, c.h); }
    ConsumerMove(s, Apply(s, Look).consumer);
  }

  /** The consumer updates the slot of number h, which its ticket h owns. */
  lemma ConsumerStep<T>(s: State<T>, s': State<T>, h: nat)
    requires Inv(s) && h < |s.tickets| && s.owner[Idx(s, h)] == Some(h)
    requires |s'.slots| == |s.slots| && s'.slots == s.slots[Idx(s, h) := s'.slots[Idx(s, h)]]
    requires s' == s.(slots := s'.slots, consumer := s'.consumer, delivered := s'.delivered,
                      callback := s'.callback, batch := s'.batch)
    requires TicketOk(s', h) && ConsumerOk(s') && Logs(s') && Frontier(s) <= Frontier(s') <= |s.tickets|
    requires forall j :: 0 <= j < |s.tickets| && j != h ==>
               (j < Frontier(s') <==> j < Frontier(s)) && ErrOf(s', j) == ErrOf(s, j) && (j in s'.batch <==> j in s.batch)
    ensures Inv(s')
  {
    forall p | p in s'.attempts ensures AttemptOk(s', s'.attempts[p]) { assert AttemptOk(s, s.attempts[p]); }
    forall j | 0 <= j < |s.tickets| && j != h ensures TicketOk(s', j) {
      assert TicketOk(s, j);
      TicketFrame(s, s', j);
    }
    forall k | 0 <= k < s'.n ensures SlotOk(s', k) { assert SlotOk(s, k); }
  }

  lemma HandleStep<T>(s: State<T>, e: Err)
    requires Inv(s) && Enabled(s, Handle(e))
    ensures Inv(Apply(s, Handle(e)))
  {
    var h := s.consumer.h;
    assert TicketOk(s, h);
    ConsumerStep(s, Apply(s, Handle(e)), h);
  }

  lemma MarkStep<T>(s: State<T>)
    requires Inv(s) && Enabled(s, MarkDrained)
    ensures Inv(Apply(s, MarkDrained))
  {
    var h := s.consumer.h;
    assert TicketOk(s, h);
    ConsumerStep(s, Apply(s, MarkDrained), h);
  }

  lemma StoreHeadStep<T>(s: State<T>)
    requires Inv(s) && Enabled(s, StoreHead)
    ensures Inv(Apply(s, StoreHead))
  {
    var s' := Apply(s, StoreHead);
    forall p | p in s'.attempts ensures AttemptOk(s', s'.attempts[p]) { assert AttemptOk(s, s.attempts[p]); }
    forall i | 0 <= i < |s.tickets| ensures TicketOk(s', i) { assert TicketOk(s, i); }
    forall k | 0 <= k < s'.n ensures SlotOk(s', k) { assert SlotOk(s, k); }
  }

  lemma CommitStep<T>(s: State<T>, l: Label<T>)
    requires Inv(s) && Enabled(s, l) && l.Commit?
    ensures Inv(Apply(s, l))
  {
    var s' := Apply(s, l);
    forall p | p in s'.attempts ensures AttemptOk(s', s'.attempts[p]) { assert AttemptOk(s, s.attempts[p]); }
    forall i | 0 <= i < |s.tickets| ensures TicketOk(s', i) { assert TicketOk(s, i); }
    forall k | 0 <= k < s'.n ensures SlotOk(s', k) { assert SlotOk(s, k); }
  }

  /** A drained, uncommitted number still owns its slot and has no token in its channel. */
  lemma Awaiting<T>(s: State<T>, i: nat)
    requires Inv(s) && Uncommitted(s.head, s.batch, i)
    ensures i < |s.tickets| && s.tickets[i].phase in {Posted, Detached}
    ensures s.owner[Idx(s, i)] == Some(i) && !s.slots[Idx(s, i)].done
  {
    assert TicketOk(s, i);
  }

  lemma WriteBatchOwn<T>(s: State<T>, h: nat)
    requires Inv(s) && Enabled(s, WriteBatch) && s.consumer.i < s.consumer.n && h == s.consumer.start + s.consumer.i
    ensures var s' := Apply(s, WriteBatch);
            h < |s.tickets| && s.owner[Idx(s, h)] == Some(h) && TicketOk(s', h) && ConsumerOk(s') && Logs(s')
  {
    assert Uncommitted(s.head, s.batch, h);
    Awaiting(s, h);
    assert TicketOk(s, h);
  }

  lemma WriteBatchSlot<T>(s: State<T>)
    requires Inv(s) && Enabled(s, WriteBatch) && s.consumer.i < s.consumer.n
    ensures Inv(Apply(s, WriteBatch))
  {
    var s', h := Apply(s, WriteBatch), s.consumer.start + s.consumer.i;
    WriteBatchOwn(s, h);
    forall j | 0 <= j < |s.tickets| && j != h ensures ErrOf(s', j) == ErrOf(s, j) { OtherErr(s, j); }
    ConsumerStep(s, s', h);
  }

  lemma OtherErr<T>(s: State<T>, j: nat)
    requires Inv(s) && Enabled(s, WriteBatch) && s.consumer.i < s.consumer.n && j != s.consumer.start + s.consumer.i
    ensures ErrOf(Apply(s, WriteBatch), j) == ErrOf(s, j)
  {}

  lemma WriteBatchStep<T>(s: State<T>)
    requires Inv(s) && Enabled(s, WriteBatch)
    ensures Inv(Apply(s, WriteBatch))
  {
    if s.consumer.i >= s.consumer.n { ConsumerMove(s, Idle); } else { WriteBatchSlot(s); }
  }

  lemma SendPending<T>(s: State<T>)
    requires Inv(s) && Enabled(s, Send)
    ensures ConsumerOk(Apply(s, Send)) && Logs(Apply(s, Send))
  {
    var s', c := Apply(s, Send), s.consumer;
    assert Uncommitted(s.head, s.batch, c.start + c.i);
    forall j | c.start + c.i + 1 <= j < c.start + c.n ensures Uncommitted(s'.head, s'.batch, j) && j !in s'.owed {
      assert Uncommitted(s.head, s.batch, j);
    }
    forall j | j in s.owed ensures Uncommitted(s'.head, s'.batch, j) {
      assert Uncommitted(s.head, s.batch, j);
    }
  }

  lemma SendStep<T>(s: State<T>)
    requires Inv(s) && Enabled(s, Send)
    ensures Inv(Apply(s, Send))
  {
    var s', h := Apply(s, Send), s.consumer.start + s.consumer.i;
    Awaiting(s, h);
    assert TicketOk(s, h);
    SendPending(s);
    assert ErrOf(s', h) == ErrOf(s, h);
    assert forall j :: 0 <= j < |s.tickets| && j != h ==> ErrOf(s', j) == ErrOf(s, j) && (j in s'.batch <==> j in s.batch);
    ConsumerStep(s, s', h);
  }

  /** Every step keeps the invariant. */
  lemma StepInv<T>(s: State<T>, l: Label<T>)
    requires Inv(s) && Enabled(s, l)
    ensures Inv(Apply(s, l))
  {
    match l
    case Cas(p) => CasStep(s, p);
    case Spin(_) => ClaimStep(s, l);
    case StoreFill(_) => ClaimStep(s, l);
    case WriteVal(_) => FillStep(s, l);
    case ClearErr(_) => FillStep(s, l);
    case FlushDone(_) => PostStep(s, l);
    case Post(_) => PostStep(s, l);
    case Receive(_) => ReceiveStep(s, l);
    case Cancel(_) => CancelStep(s, l);
    case TakeErr(_) => TakeStep(s, l);
    case ZeroVal(_) => TakeStep(s, l);
    case ZeroErr(_) => ZeroErrStep(s, l);
    case Release(_) => ReleaseStep(s, l);
    case DrainHead => ConsumerMove(s, GotHead(s.head));
    case DrainTail => ConsumerMove(s, Draining(s.consumer.h, |s.tickets|));
    case Look => LookStep(s);
    case Handle(e) => HandleStep(s, e);
    case MarkDrained => MarkStep(s);
    case StoreHead => StoreHeadStep(s);
    case Commit(_, _, _) => CommitStep(s, l);
    case WriteBatch => WriteBatchStep(s);
    case Send => SendStep(s);
    case _ => AttemptStep(s, l);
  }
}
