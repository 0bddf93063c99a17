/** Circular doubly linked lists through a sentinel, as the LRU shard (lru/lru.go) and the slots of
    the timing wheel (wheel/wheel.go) have them. */
module Links {
  import opened Lists

  /** A list node: key for identity, val for the payload, stamp for the creation time or the laps left. */
  class ListNode<K(0), V(0)> {
    const key: K
    var val: V
    var stamp: int
    var prev: ListNode<K, V>
    var next: ListNode<K, V>
    ghost const home: nat // the list the node is made for

    constructor Sentinel(ghost h: nat)
      ensures prev == this && next == this && home == h
    {
      stamp, home := 0, h;
      prev, next := this, this;
    }

    /** A node on its own; the links are set when it joins a list. */
    constructor (k: K, v: V, s: int, ghost h: nat)
      ensures key == k && val == v && stamp == s && home == h
    {
      key, val, stamp, home := k, v, s, h;
      prev, next := this, this;
    }
  }

  /** The nodes of r form one circle, in this order, linked in both directions. */
  ghost predicate Circle<K(0), V(0)>(r: seq<ListNode<K, V>>)
    reads r`next, r`prev
  {
    && |r| >= 1
    && (forall i, j {:trigger r[i].next, r[j].next} :: 0 <= i < j < |r| ==> r[i] != r[j])
    && (forall i {:trigger r[i].next} :: 0 <= i < |r| - 1 ==> r[i].next == r[i + 1])
    && (forall i {:trigger r[i].prev} :: 1 <= i < |r| ==> r[i].prev == r[i - 1])
    && r[|r| - 1].next == r[0]
    && r[0].prev == r[|r| - 1]
  }

  lemma CircleDistinct<K(0), V(0)>(r: seq<ListNode<K, V>>)
    requires Circle(r)
    ensures AllDistinct(r)
  {
    forall j, k | 0 <= j < k < |r| ensures r[j] != r[k] {
      var _, _ := r[j].next, r[k].next;
    }
  }

  method PushFront<K(0), V(0)>(head: ListNode<K, V>, n: ListNode<K, V>, ghost r: seq<ListNode<K, V>>)
    requires Circle(r) && r[0] == head && n !in r
    modifies n`prev, n`next, r`prev, r`next
    ensures Circle([head, n] + r[1..])
  {
    CircleDistinct(r);
    assert head.next == if |r| > 1 then r[1] else r[0];
    n.prev := head;
    n.next := head.next;
    head.next.prev := n;
    head.next := n;
  }

  method PushBack<K(0), V(0)>(head: ListNode<K, V>, n: ListNode<K, V>, ghost r: seq<ListNode<K, V>>)
    requires Circle(r) && r[0] == head && n !in r
    modifies n`prev, n`next, r`prev, r`next
    ensures Circle(r + [n])
  {
    CircleDistinct(r);
    n.prev := head.prev;
    n.next := head;
    head.prev.next := n;
    head.prev := n;
  }

  method Remove<K(0), V(0)>(n: ListNode<K, V>, ghost r: seq<ListNode<K, V>>, ghost i: nat)
    requires Circle(r) && 1 <= i < |r| && r[i] == n
    modifies r`prev, r`next
    ensures Circle(Cut(r, i)) && n !in Cut(r, i)
  {
    CircleDistinct(r);
    assert n.prev == r[i - 1] && n.next == if i + 1 < |r| then r[i + 1] else r[0];
    n.prev.next := n.next;
    n.next.prev := n.prev;
    ghost var c := Cut(r, i);
    forall j | 0 <= j < |c| - 1 ensures c[j].next == c[j + 1] && c[j + 1].prev == c[j] {
      CutAt(r, i, j);
      CutAt(r, i, j + 1);
    }
    CutMisses(r, i);
  }
}
