/** What holds over every run of the group-commit ring (mpsc/ring.go). */
module MpscRuns {
  import opened Lists
  import opened Mpsc

  /** A run: each label is enabled where it is taken. */
  ghost predicate Run<T>(s: State<T>, ls: seq<Label<T>>, e: State<T>)
    decreases |ls|
  {
    if |ls| == 0 then e == s else Enabled(s, ls[0]) && Run(Apply(s, ls[0]), ls[1..], e)
  }

  ghost predicate Reachable<T(!new)>(e: State<T>)
  {
    exists s: State<T>, ls: seq<Label<T>> :: Init(s) && Run(s, ls, e)
  }

  lemma {:induction false} RunInv<T>(s: State<T>, ls: seq<Label<T>>, e: State<T>)
    requires Inv(s) && Run(s, ls, e)
    ensures Inv(e)
    decreases |ls|
  {
    if |ls| > 0 {
      StepInv(s, ls[0]);
      RunInv(Apply(s, ls[0]), ls[1..], e);
    }
  }

  lemma ReachableInv<T(!new)>(e: State<T>)
    requires Reachable(e)
    ensures Inv(e)
  {
    var s: State<T>, ls: seq<Label<T>> :| Init(s) && Run(s, ls, e);
    InitInv(s);
    RunInv(s, ls, e);
  }

  /** Main theorem (exclusion): the ring never holds more than its capacity, and no slot ever has
      two users although nothing but the tail is claimed by compare-and-swap. */
  lemma Exclusive<T(!new)>(e: State<T>, i: nat, j: nat)
    requires Reachable(e)
    requires i < |e.tickets| && j < |e.tickets| && Active(e.tickets[i].phase) && Active(e.tickets[j].phase)
    ensures 0 < e.n && e.head <= |e.tickets| <= e.head + e.n
    ensures i % e.n == j % e.n ==> i == j
  {
    ReachableInv(e);
    assert TicketOk(e, i) && TicketOk(e, j);
  }

  /** Main theorem (delivery): the values handed to the drain callback are the enqueued values in
      sequence order, each exactly once. */
  lemma Delivery<T(!new)>(e: State<T>)
    requires Reachable(e)
    ensures |e.delivered| <= |e.tickets|
    ensures forall i :: 0 <= i < |e.delivered| ==> e.delivered[i] == Some(e.tickets[i].val)
    ensures e.head <= |e.delivered|
  {
    ReachableInv(e);
  }

  /** A posted value stays in its slot until its own waiter gives the slot back. */
  lemma Retained<T(!new)>(e: State<T>, i: nat)
    requires Reachable(e) && i < |e.tickets|
    requires e.tickets[i].phase in {Posted, Detached, Got(false), Got(true)}
    ensures 0 < e.n == |e.slots| && e.slots[i % e.n].val == Some(e.tickets[i].val)
  {
    ReachableInv(e);
    assert TicketOk(e, i);
  }

  /** Main theorem (results): a wait that was not cancelled returns the batch error if there is one
      and otherwise exactly what the callback returned for that number; it returns only after
      the number was committed. */
  lemma Results<T(!new)>(e: State<T>, i: nat)
    requires Reachable(e) && i < |e.tickets| && e.tickets[i].phase.Returned?
    ensures i in e.batch && i < |e.callback|
    ensures e.tickets[i].phase.ret == if e.tickets[i].cancelled then Cancelled else
              Result(if e.batch[i] != Nil then e.batch[i] else e.callback[i])
  {
    ReachableInv(e);
    assert TicketOk(e, i);
  }

  /** Commit never blocks: whenever it is about to send, the channel is empty. */
  lemma CommitNeverBlocks<T(!new)>(e: State<T>)
    requires Reachable(e) && e.consumer.Sending?
    ensures Enabled(e, Send)
  {
    ReachableInv(e);
    Awaiting(e, e.consumer.start + e.consumer.i);
  }

  /** The defensive drain in Enqueue never finds a token, so no wake-up is ever thrown away. */
  lemma NothingToFlush<T(!new)>(e: State<T>, i: nat)
    requires Reachable(e) && Enabled(e, FlushDone(i))
    ensures !e.slots[i % e.n].done
  {
    ReachableInv(e);
    assert TicketOk(e, i);
  }

  /** A slot is given back once, by the ticket that owns it, after its number was committed; the
      same holds when a cancelled wait left the job to its clean-up goroutine. */
  lemma ReleasedByOwner<T(!new)>(e: State<T>, i: nat)
    requires Reachable(e) && Enabled(e, Release(i))
    ensures e.owner[i % e.n] == Some(i) && e.slots[i % e.n].state == Drained && i in e.batch
    ensures !Enabled(Apply(e, Release(i)), Release(i))
  {
    ReachableInv(e);
    assert TicketOk(e, i);
  }
}
