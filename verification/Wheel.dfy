/** The timing wheel as it lies in memory (wheel/wheel.go): a ring of slots, each a circular list of
    entries, and an index of the entries by identifier, proved against WheelSpec. */
module Wheel {
  import opened Arith
  import opened Lists
  import opened WheelSpec
  import opened Links

  type Item<V(0)> = ListNode<nat, V>

  ghost function Holds<V(0)>(n: Item<V>): Timer<V>
    reads n`val, n`stamp
  {
    Timer(n.key, n.val, n.stamp)
  }

  /** The nodes of r hold the timers of s, one by one. */
  ghost predicate Matches<V(0)>(r: seq<Item<V>>, s: seq<Timer<V>>)
    reads r`val, r`stamp
  {
    |r| == |s| && forall i {:trigger s[i]} :: 0 <= i < |r| ==> Holds(r[i]) == s[i]
  }

  lemma MatchesCut<V(0)>(r: seq<Item<V>>, s: seq<Timer<V>>, i: nat)
    requires Matches(r, s) && i < |r|
    ensures Matches(Cut(r, i), Cut(s, i))
  {
    forall j | 0 <= j < |r| - 1 ensures Holds(Cut(r, i)[j]) == Cut(s, i)[j] {
      CutAt(r, i, j);
      CutAt(s, i, j);
    }
  }

  class Slot<V(0)> {
    const head: Item<V>
    ghost const home: nat
    ghost var list: seq<Item<V>>
    ghost var timers: seq<Timer<V>> // what the slot holds, in order of adding
    ghost var repr: set<Item<V>>

    ghost predicate Linked()
      reads this`list, this`repr, repr`next, repr`prev
    {
      && head in repr && (forall n <- repr :: n.home == home)
      && (forall i :: 0 <= i < |list| ==> list[i] in repr) && Circle([head] + list)
    }

    ghost predicate Valid()
      reads this, repr
    {
      Linked() && Matches(list, timers)
    }

    constructor (ghost p: nat)
      ensures Valid() && home == p && list == [] && timers == [] && fresh(repr)
    {
      head := new ListNode<nat, V>.Sentinel(p);
      home, list, timers := p, [], [];
      new;
      repr := {head};
    }

    method PushBack(e: Item<V>)
      requires Valid() && e !in repr && e.home == home
      modifies this, e`prev, e`next, repr`prev, repr`next
      ensures Valid() && repr == old(repr) + {e}
      ensures list == old(list) + [e] && timers == old(timers) + [Holds(e)]
    {
      ghost var r := [head] + list;
      Links.PushBack(head, e, r);
      list, repr := list + [e], repr + {e};
      timers := timers + [Holds(e)];
      assert [head] + list == r + [e];
    }
  }

  /** Takes the i-th entry out of the slot s it is in. */
  method RemoveEntry<V(0)>(e: Item<V>, ghost s: Slot<V>, ghost i: nat)
    requires s.Valid() && i < |s.list| && s.list[i] == e
    modifies s`list, s`timers, s.repr`prev, s.repr`next
    ensures s.Valid() && s.list == Cut(old(s.list), i) && s.timers == Cut(old(s.timers), i)
  {
    ghost var r := [s.head] + s.list;
    Links.Remove(e, r, i + 1);
    MatchesCut(s.list, s.timers, i);
    s.list, s.timers := Cut(s.list, i), Cut(s.timers, i);
    assert [s.head] + s.list == Cut(r, i + 1);
    e.prev := e;
    e.next := e;
  }

  /** Grants the k-th entry of s one lap less. */
  method OneLapLess<V(0)>(e: Item<V>, ghost s: Slot<V>, ghost k: nat)
    requires s.Valid() && k < |s.list| && s.list[k] == e
    modifies s`timers, e`stamp
    ensures s.Valid() && s.timers == old(s.timers)[k := old(s.timers[k]).(rounds := old(s.timers[k].rounds) - 1)]
  {
    SlotDistinct(s);
    assert s.timers[k] == Holds(e);
    e.stamp := e.stamp - 1;
    s.timers := s.timers[k := Holds(e)];
  }

  lemma SlotDistinct<V(0)>(s: Slot<V>)
    requires s.Linked()
    ensures AllDistinct(s.list)
  {
    var r := [s.head] + s.list;
    CircleDistinct(r);
    assert forall j :: 0 <= j < |s.list| ==> s.list[j] == r[j + 1];
  }

  lemma HeadApart<V(0)>(s: Slot<V>)
    requires s.Linked()
    ensures s.head !in s.list
    ensures s.head.next == if |s.list| > 0 then s.list[0] else s.head
  {
    var r := [s.head] + s.list;
    CircleDistinct(r);
    assert r[0] == s.head && r[0].next == s.head.next;
    forall i | 0 <= i < |s.list| ensures s.list[i] != s.head {
      assert s.list[i] == r[i + 1];
    }
  }

  lemma NextIs<V(0)>(s: Slot<V>, k: nat)
    requires s.Linked() && k < |s.list|
    ensures s.list[k].next == if k + 1 < |s.list| then s.list[k + 1] else s.head
  {
    var r := [s.head] + s.list;
    assert s.list[k] == r[k + 1] && r[k + 1].next == s.list[k].next;
  }

  /** What a visit has done after some entries: nodes and timers that stay, values gone, index left. */
  datatype Progress<V(0)> = Progress(nodes: seq<Item<V>>, kept: seq<Timer<V>>, expired: seq<V>, left: map<nat, Item<V>>)

  ghost function Next<V(0)>(p: Progress<V>, n: Item<V>, t: Timer<V>): Progress<V>
  {
    if t.rounds > 0 then
      Progress(p.nodes + [n], p.kept + [t.(rounds := t.rounds - 1)], p.expired, p.left)
    else
      Progress(p.nodes, p.kept, p.expired + [t.val], p.left - {t.id})
  }

  ghost function After<V(0)>(index: map<nat, Item<V>>, r: seq<Item<V>>, t: seq<Timer<V>>, i: nat): (p: Progress<V>)
    requires i <= |r| == |t|
  {
    if i == 0 then Progress([], [], [], index) else Next(After(index, r, t, i - 1), r[i - 1], t[i - 1])
  }

  lemma NextKeeps<V(0)>(p: Progress<V>, n: Item<V>, h: Timer<V>, k: seq<Timer<V>>, x: seq<V>)
    ensures var q := Next(p, n, h);
            && q.kept + k == p.kept + (if h.rounds > 0 then [h.(rounds := h.rounds - 1)] + k else k)
            && q.expired + x == p.expired + (if h.rounds > 0 then x else [h.val] + x)
  {}

  lemma {:induction false} AfterIs<V(0)>(index: map<nat, Item<V>>, r: seq<Item<V>>, t: seq<Timer<V>>, i: nat)
    requires i <= |r| == |t|
    ensures var p := After(index, r, t, i);
            p.kept + Kept(t[i..]) == Kept(t) && p.expired + Expired(t[i..]) == Expired(t)
  {
    if i == 0 {
      assert t[0..] == t;
    } else {
      AfterIs(index, r, t, i - 1);
      assert t[i - 1..] == [t[i - 1]] + t[i..];
      VisitCons(t[i - 1], t[i..]);
      NextKeeps(After(index, r, t, i - 1), r[i - 1], t[i - 1], Kept(t[i..]), Expired(t[i..]));
    }
  }

  /** A visit turns the timers of a slot into those WheelSpec keeps, and gives off those it expires. */
  lemma AfterAll<V(0)>(index: map<nat, Item<V>>, r: seq<Item<V>>, t: seq<Timer<V>>)
    requires |r| == |t|
    ensures After(index, r, t, |t|).kept == Kept(t) && After(index, r, t, |t|).expired == Expired(t)
  {
    AfterIs(index, r, t, |t|);
  }

  lemma SplitAt<A>(s: seq<A>, done: seq<A>, rest: seq<A>, i: nat, x: A)
    requires i < |rest| && s == done + rest[i..]
    ensures |done| < |s| && s[|done|] == rest[i]
    ensures |done| + 1 < |s| <==> i + 1 < |rest|
    ensures i + 1 < |rest| ==> s[|done| + 1] == rest[i + 1]
    ensures Cut(s, |done|) == done + rest[i + 1..]
    ensures s[|done| := x] == done + [x] + rest[i + 1..]
  {}

  /** The entry at e either loses a lap or goes off. */
  method VisitEntry<V(0)>(e: Item<V>, index: map<nat, Item<V>>, ghost s: Slot<V>, ghost k: nat)
    returns (next: Item<V>, left: map<nat, Item<V>>, off: seq<V>)
    requires s.Valid() && k < |s.list| && s.list[k] == e
    modifies s`list, s`timers, s.repr`prev, s.repr`next, e`stamp
    ensures s.Valid() && next == old(if k + 1 < |s.list| then s.list[k + 1] else s.head)
    ensures var l, t := old(s.list), old(s.timers);
            if t[k].rounds > 0 then
              && s.list == l && s.timers == t[k := t[k].(rounds := t[k].rounds - 1)] && left == index && off == []
            else
              && s.list == Cut(l, k) && s.timers == Cut(t, k) && left == index - {t[k].id} && off == [t[k].val]
  {
    NextIs(s, k);
    next := e.next;
    assert s.timers[k] == Holds(e);
    if e.stamp > 0 {
      OneLapLess(e, s, k);
      return next, index, [];
    }
    RemoveEntry(e, s, k);
    return next, index - {e.key}, [e.val];
  }

  /** Where the loop of Advance stands: p is done, r and t are still to visit from i on. */
  ghost predicate Midway<V(0)>(s: Slot<V>, r: seq<Item<V>>, t: seq<Timer<V>>, i: nat, p: Progress<V>)
    reads s`list, s`timers
  {
    i <= |r| == |t| && |p.nodes| == |p.kept| && s.list == p.nodes + r[i..] && s.timers == p.kept + t[i..]
  }

  /** The same with what the loop has in hand: the next entry, the index and the values collected. */
  ghost predicate Going<V(0)>(s: Slot<V>, r: seq<Item<V>>, t: seq<Timer<V>>, i: nat,
                              p: Progress<V>, e: Item<V>, left: map<nat, Item<V>>, expired: seq<V>)
    reads s`list, s`timers
  {
    Midway(s, r, t, i, p) && e == (if i < |r| then r[i] else s.head) && expired == p.expired && left == p.left
  }

  /** One turn of the loop of Advance. */
  method Turn<V(0)>(e: Item<V>, left: map<nat, Item<V>>, expired: seq<V>, ghost s: Slot<V>,
                    ghost r: seq<Item<V>>, ghost t: seq<Timer<V>>, ghost i: nat, ghost p: Progress<V>)
    returns (next: Item<V>, left': map<nat, Item<V>>, expired': seq<V>)
    requires s.Valid() && Going(s, r, t, i, p, e, left, expired) && i < |r|
    modifies s`list, s`timers, s.repr`prev, s.repr`next, s.repr`stamp
    ensures s.Valid() && Going(s, r, t, i + 1, Next(p, r[i], t[i]), next, left', expired')
  {
    SplitAt(s.list, p.nodes, r, i, r[i]);
    SplitAt(s.timers, p.kept, t, i, t[i].(rounds := t[i].rounds - 1));
    var off;
    next, left', off := VisitEntry(e, left, s, |p.nodes|);
    expired' := expired + off;
  }

  lemma SweepStart<V(0)>(s: Slot<V>, index: map<nat, Item<V>>)
    requires s.Valid()
    ensures Going(s, s.list, s.timers, 0, Progress([], [], [], index), s.head.next, index, []) && s.head !in s.list
  {
    HeadApart(s);
  }

  lemma SweepEnd<V(0)>(s: Slot<V>, index: map<nat, Item<V>>, r: seq<Item<V>>, t: seq<Timer<V>>, p: Progress<V>)
    requires Midway(s, r, t, |r|, p) && p == After(index, r, t, |r|)
    ensures s.list == p.nodes && s.timers == Kept(t) && p.expired == Expired(t)
  {
    AfterAll(index, r, t);
  }

  /** ps lists the progress of a visit, from its start on. */
  ghost predicate Chain<V(0)>(index: map<nat, Item<V>>, r: seq<Item<V>>, t: seq<Timer<V>>, ps: seq<Progress<V>>)
  {
    && 1 <= |ps| <= |r| + 1 == |t| + 1 && ps[0] == Progress([], [], [], index)
    && (forall i {:trigger At(ps, i)} :: 1 <= i < |ps| ==> At(ps, i) == Next(ps[i - 1], r[i - 1], t[i - 1]))
  }

  ghost function At<A>(s: seq<A>, i: nat): A
    requires i < |s|
  {
    s[i]
  }

  lemma {:induction false} ChainEnd<V(0)>(index: map<nat, Item<V>>, r: seq<Item<V>>, t: seq<Timer<V>>,
                                          ps: seq<Progress<V>>, i: nat)
    requires Chain(index, r, t, ps) && i < |ps|
    ensures ps[i] == After(index, r, t, i)
  {
    if i > 0 {
      ChainEnd(index, r, t, ps, i - 1);
      assert At(ps, i) == Next(ps[i - 1], r[i - 1], t[i - 1]);
    }
  }

  lemma ChainStep<V(0)>(index: map<nat, Item<V>>, r: seq<Item<V>>, t: seq<Timer<V>>, ps: seq<Progress<V>>, p: Progress<V>)
    requires Chain(index, r, t, ps) && |ps| <= |r| && p == Next(ps[|ps| - 1], r[|ps| - 1], t[|ps| - 1])
    ensures Chain(index, r, t, ps + [p])
  {
    var ps' := ps + [p];
    forall i | 1 <= i < |ps'| ensures At(ps', i) == Next(ps'[i - 1], r[i - 1], t[i - 1]) {
      if i < |ps| { assert At(ps, i) == At(ps', i); }
    }
  }

  /** The loop of Advance over the slot it has come to. */
  method Sweep<V(0)>(s: Slot<V>, index: map<nat, Item<V>>) returns (left: map<nat, Item<V>>, expired: seq<V>)
    requires s.Valid()
    modifies s`list, s`timers, s.repr`prev, s.repr`next, s.repr`stamp
    ensures s.Valid() && s.timers == Kept(old(s.timers)) && expired == Expired(old(s.timers))
    ensures var p := After(index, old(s.list), old(s.timers), |old(s.timers)|);
            s.list == p.nodes && left == p.left
  {
    ghost var r, t, i := s.list, s.timers, 0;
    ghost var p := Progress([], [], [], index);
    ghost var ps := [p];
    left, expired := index, [];
    var e := s.head.next;
    SweepStart(s, index);
    while e != s.head
      invariant s.Valid() && Going(s, r, t, i, p, e, left, expired)
      invariant 0 <= i <= |r| && Chain(index, r, t, ps) && |ps| == i + 1 && ps[i] == p
      decreases |r| - i
    {
      e, left, expired := Turn(e, left, expired, s, r, t, i, p);
      p := Next(p, r[i], t[i]);
      ChainStep(index, r, t, ps, p);
      ps := ps + [p];
      i := i + 1;
    }
    ChainEnd(index, r, t, ps, i);
    SweepEnd(s, index, r, t, p);
  }

  /** The index holds exactly the entries of the lists, each under its own identifier. */
  ghost predicate Catalogued<V(0)>(index: map<nat, Item<V>>, lists: seq<seq<Item<V>>>)
  {
    && (forall p, i {:trigger lists[p][i].key} :: 0 <= p < |lists| && 0 <= i < |lists[p]| ==>
          lists[p][i].key in index && index[lists[p][i].key] == lists[p][i])
    && (forall k {:trigger index[k]} :: k in index ==>
          index[k].key == k && index[k].home < |lists| && index[k] in lists[index[k].home])
  }

  /** Every list is made of its own nodes, without repetition. */
  ghost predicate Apart<V(0)>(lists: seq<seq<Item<V>>>)
  {
    && (forall p, i {:trigger lists[p][i].home} :: 0 <= p < |lists| && 0 <= i < |lists[p]| ==> lists[p][i].home == p)
    && (forall p :: 0 <= p < |lists| ==> AllDistinct(lists[p]))
  }

  /** Entries and timers agree on the identifiers. */
  ghost predicate Keyed<V(0)>(lists: seq<seq<Item<V>>>, timers: seq<seq<Timer<V>>>)
  {
    && |lists| == |timers| && (forall p :: 0 <= p < |lists| ==> |lists[p]| == |timers[p]|)
    && (forall p, i {:trigger timers[p][i].id} :: 0 <= p < |lists| && 0 <= i < |lists[p]| ==>
          timers[p][i].id == lists[p][i].key)
  }

  lemma CataloguedAdd<V(0)>(index: map<nat, Item<V>>, lists: seq<seq<Item<V>>>, e: Item<V>)
    requires Catalogued(index, lists) && e.key !in index && e.home < |lists|
    ensures Catalogued(index[e.key := e], lists[e.home := lists[e.home] + [e]])
  {}

  /** An identifier is filed under one place only. */
  lemma OnePlace<V(0)>(index: map<nat, Item<V>>, lists: seq<seq<Item<V>>>, p: nat, i: nat, q: nat, j: nat)
    requires Catalogued(index, lists) && Apart(lists)
    requires p < |lists| && i < |lists[p]| && q < |lists| && j < |lists[q]|
    ensures lists[p][i].key == lists[q][j].key ==> p == q && i == j
  {
    assert lists[p][i].home == p && lists[q][j].home == q;
  }

  lemma CataloguedCut<V(0)>(index: map<nat, Item<V>>, lists: seq<seq<Item<V>>>, p: nat, i: nat)
    requires Catalogued(index, lists) && Apart(lists) && p < |lists| && i < |lists[p]|
    ensures Catalogued(index - {lists[p][i].key}, lists[p := Cut(lists[p], i)])
  {
    var id := lists[p][i].key;
    var index': map<nat, Item<V>>, lists': seq<seq<Item<V>>> := index - {id}, lists[p := Cut(lists[p], i)];
    forall q, j | 0 <= q < |lists'| && 0 <= j < |lists'[q]|
      ensures lists'[q][j].key in index' && index'[lists'[q][j].key] == lists'[q][j] {
      var j' := if q == p && j >= i then j + 1 else j;
      assert lists'[q][j] == lists[q][j'];
      OnePlace(index, lists, p, i, q, j');
    }
    forall k | k in index' ensures index'[k] in lists'[index'[k].home] {
      var q := index[k].home;
      var j :| 0 <= j < |lists[q]| && lists[q][j] == index[k];
      if q == p { assert lists'[p][if j < i then j else j - 1] == lists[p][j]; }
    }
  }

  /** What a visit of timers t does to the nodes r: those with a lap left stay, the others go. */
  lemma {:induction false} AfterNodes<V(0)>(index: map<nat, Item<V>>, r: seq<Item<V>>, t: seq<Timer<V>>, i: nat)
    requires i <= |r| == |t| && forall j :: 0 <= j < |t| ==> t[j].id == r[j].key
    ensures var p := After(index, r, t, i);
            && (forall x <- p.nodes :: exists j :: 0 <= j < i && r[j] == x && t[j].rounds > 0)
            && (forall j :: 0 <= j < i ==> if t[j].rounds > 0 then r[j] in p.nodes else r[j].key !in p.left)
            && (forall k <- index :: k in p.left || exists j :: 0 <= j < i && r[j].key == k && t[j].rounds <= 0)
            && (forall k <- p.left :: k in index && p.left[k] == index[k])
  {
    if i > 0 { AfterNodes(index, r, t, i - 1); }
  }

  /** left and nodes are what remains of index and r when the entries without a lap to wait go. */
  ghost predicate Remains<V(0)>(index: map<nat, Item<V>>, r: seq<Item<V>>, t: seq<Timer<V>>,
                                nodes: seq<Item<V>>, left: map<nat, Item<V>>)
    requires |r| == |t|
  {
    && (forall x <- nodes :: exists j :: 0 <= j < |r| && r[j] == x && t[j].rounds > 0)
    && (forall j :: 0 <= j < |r| ==> if t[j].rounds > 0 then r[j] in nodes else r[j].key !in left)
    && (forall k <- index :: k in left || exists j :: 0 <= j < |r| && r[j].key == k && t[j].rounds <= 0)
    && (forall k <- left :: k in index && left[k] == index[k])
  }

  lemma CataloguedRemains<V(0)>(index: map<nat, Item<V>>, lists: seq<seq<Item<V>>>, p: nat, t: seq<Timer<V>>,
                                nodes: seq<Item<V>>, left: map<nat, Item<V>>)
    requires Catalogued(index, lists) && Apart(lists) && p < |lists| && |t| == |lists[p]|
    requires Remains(index, lists[p], t, nodes, left)
    ensures Catalogued(left, lists[p := nodes])
  {
    var r: seq<Item<V>>, lists': seq<seq<Item<V>>> := lists[p], lists[p := nodes];
    forall q, j | 0 <= q < |lists'| && 0 <= j < |lists'[q]|
      ensures lists'[q][j].key in left && left[lists'[q][j].key] == lists'[q][j] {
      var x: Item<V> := lists'[q][j];
      assert q == p ==> x in nodes;
      var j' :| 0 <= j' < |lists[q]| && lists[q][j'] == x && (q == p ==> t[j'].rounds > 0);
      assert lists[q][j'].key in index;
      forall i | 0 <= i < |r| ensures r[i].key == x.key ==> q == p && i == j' {
        OnePlace(index, lists, p, i, q, j');
      }
      assert x.key in left;
    }
    forall k | k in left ensures left[k] in lists'[left[k].home] {
      var q := index[k].home;
      var j :| 0 <= j < |lists[q]| && lists[q][j] == index[k];
    }
  }

  lemma CataloguedVisit<V(0)>(index: map<nat, Item<V>>, lists: seq<seq<Item<V>>>, timers: seq<seq<Timer<V>>>, p: nat)
    requires Catalogued(index, lists) && Apart(lists) && Keyed(lists, timers) && p < |lists|
    ensures var a := After(index, lists[p], timers[p], |timers[p]|);
            Catalogued(a.left, lists[p := a.nodes])
  {
    var r, t := lists[p], timers[p];
    var a := After(index, r, t, |t|);
    AfterNodes(index, r, t, |t|);
    CataloguedRemains(index, lists, p, t, a.nodes, a.left);
  }

  /** The index knows an identifier exactly while its alarm is pending. */
  lemma IndexIsPending<V(0)>(n: nat, index: map<nat, Item<V>>, lists: seq<seq<Item<V>>>, timers: seq<seq<Timer<V>>>,
                             c: Calendar<V>, id: nat)
    requires Catalogued(index, lists) && Keyed(lists, timers) && LaidOut(n, timers, c)
    ensures id in index <==> Pending(c, id)
  {
    LayoutPending(n, timers, c, id);
    if id in index {
      var p := index[id].home;
      var i :| 0 <= i < |lists[p]| && lists[p][i] == index[id];
      assert timers[p][i].id == id && HasTimer(timers[p], id);
    }
    if p :| 0 <= p < n && HasTimer(timers[p], id) {
      var i :| 0 <= i < |timers[p]| && timers[p][i].id == id;
      assert lists[p][i].key == id;
    }
  }

  lemma LayoutCut<V(0)>(n: nat, index: map<nat, Item<V>>, lists: seq<seq<Item<V>>>, timers: seq<seq<Timer<V>>>,
                        c: Calendar<V>, p: nat, i: nat)
    requires Catalogued(index, lists) && Apart(lists) && Keyed(lists, timers) && LaidOut(n, timers, c)
    requires p < |lists| && i < |lists[p]|
    ensures LaidOut(n, timers[p := Cut(timers[p], i)], Cancel(c, lists[p][i].key))
  {
    var id, after := lists[p][i].key, timers[p := Cut(timers[p], i)];
    assert timers[p][i].id == id;
    forall q | 0 <= q < n ensures after[q] == Drop(timers[q], id) {
      forall j | 0 <= j < |timers[q]| ensures timers[q][j].id == id ==> p == q && i == j {
        OnePlace(index, lists, p, i, q, j);
      }
      if q == p { DropOne(timers[p], i); } else { DropNone(timers[q], id); }
    }
    LayoutCancel(n, timers, c, id, after);
  }

  method Size(numSlots: int) returns (n: nat)
    ensures IsPow2(n) && n >= 16 && n >= numSlots && (n > 16 ==> n < 2 * numSlots)
  {
    n := 16;
    while n < numSlots
      invariant IsPow2(n) && n >= 16 && (n > 16 ==> n < 2 * numSlots)
    {
      Pow2Double(n);
      n := 2 * n;
    }
  }

  method MakeSlots<V(0)>(n: nat) returns (s: seq<Slot<V>>, ghost r: set<Item<V>>)
    ensures |s| == n && fresh(s) && fresh(r)
    ensures forall p {:trigger s[p]} :: 0 <= p < n ==>
              s[p].home == p && s[p].Valid() && s[p].repr <= r && s[p].list == [] && s[p].timers == []
  {
    s, r := [], {};
    for i := 0 to n
      invariant |s| == i && fresh(s) && fresh(r)
      invariant forall p {:trigger s[p]} :: 0 <= p < i ==>
                  s[p].home == p && s[p].Valid() && s[p].repr <= r && s[p].list == [] && s[p].timers == []
    {
      var one := new Slot<V>(i);
      s, r := s + [one], r + one.repr;
    }
  }

  class Wheel<V(0)> {
    const tick: int
    const slots: seq<Slot<V>>
    var cur: nat
    var nextID: nat
    var index: map<nat, Item<V>>
    ghost var cal: Calendar<V> // the calendar the wheel stands for
    ghost var lists: seq<seq<Item<V>>> // the entries of each slot
    ghost var timers: seq<seq<Timer<V>>> // and what they hold
    ghost var repr: set<Item<V>>

    /** Every slot is a circle of its own entries. */
    ghost predicate Rings()
      reads this`repr, this`lists, this`timers, slots, repr
    {
      |lists| == |timers| == |slots| && forall p {:trigger slots[p]} :: 0 <= p < |slots| ==>
        && slots[p].home == p && slots[p].repr <= repr && slots[p].Valid()
        && slots[p].list == lists[p] && slots[p].timers == timers[p]
    }

    ghost predicate Valid()
      reads this, slots, repr
    {
      && Rings() && Catalogued(index, lists) && LaidOut(|slots|, timers, cal) && Sound(cal)
      && cur == cal.now % |slots| && nextID == cal.last
    }

    constructor (t: int, numSlots: int)
      ensures Valid() && fresh(slots) && fresh(repr) && cal == Calendar(0, 0, []) && tick == t
      ensures IsPow2(|slots|) && |slots| >= 16 && |slots| >= numSlots && (|slots| > 16 ==> |slots| < 2 * numSlots)
    {
      var n := Size(numSlots);
      var s, r := MakeSlots<V>(n);
      tick, slots, cur, nextID, index := t, s, 0, 0, map[];
      cal, repr := Calendar(0, 0, []), r;
      lists, timers := seq(n, _ => []), seq(n, _ => []);
    }

    ghost function Shape(): Geometry { Geometry(|slots|, tick) }

    lemma RingFacts()
      requires Rings()
      ensures Apart(lists) && Keyed(lists, timers)
    {
      forall p | 0 <= p < |slots| ensures AllDistinct(lists[p]) && |lists[p]| == |timers[p]| {
        assert slots[p].Valid();
        SlotDistinct(slots[p]);
      }
      forall p, i | 0 <= p < |slots| && 0 <= i < |lists[p]| ensures lists[p][i].home == p && timers[p][i].id == lists[p][i].key {
        assert slots[p].Valid();
        assert timers[p][i] == Holds(lists[p][i]) && slots[p].list[i] in slots[p].repr;
      }
    }

    /** Links a new entry into its slot. */
    method Link(e: Item<V>, pos: nat)
      requires Rings() && pos < |slots| && e.home == pos && e !in repr
      modifies this`lists, this`timers, this`repr, slots[pos], e`prev, e`next, repr`prev, repr`next
      ensures Rings() && repr == old(repr) + {e} && lists == old(lists)[pos := old(lists)[pos] + [e]]
      ensures timers == old(timers)[pos := old(timers)[pos] + [Holds(e)]]
    {
      slots[pos].PushBack(e);
      repr := repr + {e};
      lists, timers := lists[pos := lists[pos] + [e]], timers[pos := timers[pos] + [Holds(e)]];
    }

    method Unlink(e: Item<V>, ghost p: nat, ghost i: nat)
      requires Rings() && p < |slots| && i < |lists[p]| && lists[p][i] == e
      modifies this`lists, this`timers, slots[p], repr`prev, repr`next
      ensures Rings() && lists == old(lists)[p := Cut(old(lists)[p], i)]
      ensures timers == old(timers)[p := Cut(old(timers)[p], i)]
    {
      RemoveEntry(e, slots[p], i);
      lists, timers := lists[p := slots[p].list], timers[p := slots[p].timers];
    }

    method Visit(pos: nat) returns (left: map<nat, Item<V>>, expired: seq<V>)
      requires Rings() && pos < |slots|
      modifies this`lists, this`timers, slots[pos], repr`prev, repr`next, repr`stamp
      ensures Rings() && timers == old(timers)[pos := Kept(old(timers)[pos])] && expired == Expired(old(timers)[pos])
      ensures var a := After(index, old(lists)[pos], old(timers)[pos], |old(timers)[pos]|);
              lists == old(lists)[pos := a.nodes] && left == a.left
    {
      left, expired := Sweep(slots[pos], index);
      lists, timers := lists[pos := slots[pos].list], timers[pos := slots[pos].timers];
    }

    /** Clears a slot of what expires and the index with it. */
    method Clear(pos: nat) returns (expired: seq<V>)
      requires Rings() && Catalogued(index, lists) && pos < |slots|
      modifies this`lists, this`timers, this`index, slots[pos], repr`prev, repr`next, repr`stamp
      ensures Rings() && Catalogued(index, lists)
      ensures timers == old(timers)[pos := Kept(old(timers)[pos])] && expired == Expired(old(timers)[pos])
    {
      RingFacts();
      CataloguedVisit(index, lists, timers, pos);
      index, expired := Visit(pos);
    }

    /** Makes, links and files a new entry. */
    method Enter(id: nat, val: V, rounds: int, pos: nat)
      requires Rings() && Catalogued(index, lists) && id !in index && pos < |slots|
      modifies this`lists, this`timers, this`repr, this`index, slots[pos], repr`prev, repr`next
      ensures Rings() && Catalogued(index, lists) && fresh(repr - old(repr))
      ensures timers == old(timers)[pos := old(timers)[pos] + [Timer(id, val, rounds)]]
    {
      var e := new ListNode(id, val, rounds, pos);
      CataloguedAdd(index, lists, e);
      Link(e, pos);
      index := index[id := e];
    }

    /** What a new entry for t ticks will do to the layout. */
    lemma AddFacts(t: nat, val: V)
      requires Valid() && t >= 1
      ensures nextID + 1 !in index && Sound(WheelSpec.Add(|slots|, cal, t, val))
      ensures var id, pos := nextID + 1, (cur + t) % |slots|;
              LaidOut(|slots|, timers[pos := timers[pos] + [Timer(id, val, t / |slots|)]], WheelSpec.Add(|slots|, cal, t, val))
    {
      RingFacts();
      IndexIsPending(|slots|, index, lists, timers, cal, nextID + 1);
      LayoutAdd(|slots|, timers, cal, t, val, (cur + t) % |slots|);
      AddSound(|slots|, cal, t, val);
    }

    /** None stands for the division by zero of a wheel whose tick is zero. */
    method Add(d: int, val: V) returns (res: Option<nat>)
      requires Valid()
      modifies this, slots, repr`prev, repr`next
      ensures Valid() && fresh(repr - old(repr))
      ensures var (c, out) := Step(Shape(), old(cal), OpAdd(d, val));
              cal == c && out == if res.Some? then Added(res.value) else Panicked
    {
      if tick == 0 { return None; }
      var ticks := TruncDiv(d, tick);
      if ticks <= 0 { ticks := 1; }
      var id := Schedule(ticks, val);
      res := Some(id);
    }

    /** Add, once the number of ticks is known. */
    method Schedule(ticks: nat, val: V) returns (id: nat)
      requires Valid() && ticks >= 1
      modifies this, slots, repr`prev, repr`next
      ensures Valid() && fresh(repr - old(repr))
      ensures cal == WheelSpec.Add(|slots|, old(cal), ticks, val) && id == old(cal).last + 1
    {
      id := nextID + 1;
      AddFacts(ticks, val);
      Enter(id, val, ticks / |slots|, (cur + ticks) % |slots|);
      nextID := id;
      cal := WheelSpec.Add(|slots|, cal, ticks, val);
    }

    /** Drops an entry from the index and from its slot. */
    method Discard(id: nat, ghost p: nat, ghost i: nat)
      requires Rings() && id in index && p < |slots| && i < |lists[p]| == |timers[p]| && lists[p][i] == index[id]
      requires Catalogued(index - {id}, lists[p := Cut(lists[p], i)])
      modifies this`lists, this`timers, this`index, slots[p], repr`prev, repr`next
      ensures Rings() && Catalogued(index, lists) && timers == old(timers)[p := Cut(old(timers)[p], i)]
    {
      var e := index[id];
      index := index - {id};
      Unlink(e, p, i);
    }

    /** Where a pending entry is, and what its removal will do. */
    lemma CancelFacts(id: nat) returns (p: nat, i: nat)
      requires Valid()
      ensures id in index <==> Pending(cal, id)
      ensures id !in index ==> WheelSpec.Cancel(cal, id) == cal
      ensures Sound(WheelSpec.Cancel(cal, id))
      ensures id in index ==>
                && p < |slots| && i < |lists[p]| == |timers[p]| && lists[p][i] == index[id]
                && Catalogued(index - {id}, lists[p := Cut(lists[p], i)])
                && LaidOut(|slots|, timers[p := Cut(timers[p], i)], WheelSpec.Cancel(cal, id))
    {
      RingFacts();
      StepSound(Shape(), cal, OpCancel(id));
      IndexIsPending(|slots|, index, lists, timers, cal, id);
      p, i := 0, 0;
      if id in index {
        p := index[id].home;
        i :| 0 <= i < |lists[p]| && lists[p][i] == index[id];
        CataloguedCut(index, lists, p, i);
        LayoutCut(|slots|, index, lists, timers, cal, p, i);
      } else {
        WithoutNone(cal.alarms, id);
      }
    }

    method Cancel(id: nat) returns (ok: bool)
      requires Valid()
      modifies this, slots, repr`prev, repr`next
      ensures Valid() && repr == old(repr)
      ensures (cal, Cancelled(ok)) == Step(Shape(), old(cal), OpCancel(id))
    {
      ghost var p, i := CancelFacts(id);
      if id !in index { return false; }
      Discard(id, p, i);
      cal := WheelSpec.Cancel(cal, id);
      ok := true;
    }

    /** What the visit of the next slot will do. */
    lemma AdvanceFacts(pos: nat)
      requires Valid() && pos == (cur + 1) % |slots|
      ensures pos == (cal.now + 1) % |slots|
      ensures LaidOut(|slots|, timers[pos := Kept(timers[pos])], WheelSpec.Advance(cal).0)
      ensures Expired(timers[pos]) == Vals(WheelSpec.Advance(cal).1) && Sound(WheelSpec.Advance(cal).0)
    {
      ModShift(cal.now + 1, cur + 1, cal.now / |slots|, |slots|);
      LayoutAdvance(|slots|, timers, cal, pos);
      StepSound(Shape(), cal, OpAdvance);
    }

    /** The result is what the callback is given, in order. */
    method Advance() returns (expired: seq<V>)
      requires Valid()
      modifies this, slots, repr`prev, repr`next, repr`stamp
      ensures Valid() && repr == old(repr)
      ensures var (c, out) := Step(Shape(), old(cal), OpAdvance);
              cal == c && expired == Vals(out.alarms)
    {
      var pos := (cur + 1) % |slots|;
      AdvanceFacts(pos);
      cur := pos;
      expired := Clear(pos);
      cal := WheelSpec.Advance(cal).0;
    }

    method Len() returns (n: nat)
      requires Valid()
      ensures n == |cal.alarms|
    {
      RingFacts();
      forall k ensures k in index.Keys <==> k in Ids(cal.alarms) {
        IndexIsPending(|slots|, index, lists, timers, cal, k);
        IdsAre(cal.alarms, k);
      }
      assert index.Keys == Ids(cal.alarms);
      IdsCount(cal.alarms);
      n := |index|;
    }

    /** One operation, and what the caller sees of it. */
    method Apply(o: Op<V>) returns (reply: Reply<V>)
      requires Valid()
      modifies this, slots, repr
      ensures Valid() && fresh(repr - old(repr))
      ensures var (c, out) := Step(Shape(), old(cal), o);
              cal == c && reply == Seen(out)
    {
      match o {
        case OpAdd(d, v) =>
          var id := Add(d, v);
          reply := if id.Some? then Identifier(id.value) else Panic;
        case OpCancel(id) =>
          var ok := Cancel(id);
          reply := Ok(ok);
        case OpAdvance =>
          var vals := Advance();
          reply := Called(vals);
      }
    }

    /** Over any run the caller sees what the calendar says, identifiers, answers and values handed to the
        callback alike, and the wheel stands for the resulting calendar. */
    method Replay(ops: seq<Op<V>>) returns (replies: seq<Reply<V>>)
      requires Valid()
      modifies this, slots, repr
      ensures Valid() && cal == Run(Shape(), old(cal), ops) && replies == Replies(Shape(), old(cal), ops)
    {
      replies := [];
      assert ops[..|ops|] == ops;
      for i := 0 to |ops|
        invariant Valid() && fresh(repr - old(repr))
        invariant cal == Run(Shape(), old(cal), ops[..i]) && replies == Replies(Shape(), old(cal), ops[..i])
      {
        assert ops[..i + 1][..i] == ops[..i];
        var reply := Apply(ops[i]);
        replies := replies + [reply];
      }
    }
  }
}
