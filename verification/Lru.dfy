/** The LRU shard as it lies in memory (lru/lru.go): a map of nodes and a circular list through a
    sentinel, proved against LruSpec. */
module Lru {
  import opened Lists
  import opened LruSpec
  import opened Links

  ghost function EntryOf<V(0)>(n: ListNode<string, V>): Entry<V>
    reads n`val, n`stamp
  {
    Entry(n.key, n.val, n.stamp)
  }

  /** The nodes of r hold the entries of l, one by one. */
  ghost predicate Matches<V(0)>(r: seq<ListNode<string, V>>, l: Recency<V>)
    reads r`val, r`stamp
  {
    |r| == |l| && forall i {:trigger l[i]} :: 0 <= i < |r| ==> EntryOf(r[i]) == l[i]
  }

  lemma MatchesCut<V(0)>(r: seq<ListNode<string, V>>, l: Recency<V>, i: nat)
    requires Matches(r, l) && i < |r|
    ensures Matches(Cut(r, i), Cut(l, i))
  {
    forall j | 0 <= j < |r| - 1 ensures EntryOf(Cut(r, i)[j]) == Cut(l, i)[j] {
      CutAt(r, i, j);
    }
  }

  lemma MatchesPush<V(0)>(r: seq<ListNode<string, V>>, l: Recency<V>, n: ListNode<string, V>)
    requires Matches(r, l)
    ensures Matches([n] + r, [EntryOf(n)] + l)
  {}

  /** The index holds exactly the nodes of r, each under its own key. */
  ghost predicate Indexed<V(0)>(items: map<string, ListNode<string, V>>, r: seq<ListNode<string, V>>)
  {
    && (forall i {:trigger r[i].key} :: 0 <= i < |r| ==> r[i].key in items && items[r[i].key] == r[i])
    && (forall k :: k in items ==> items[k] in r && items[k].key == k)
    && |items| == |r|
  }

  lemma IndexedCut<V(0)>(items: map<string, ListNode<string, V>>, r: seq<ListNode<string, V>>, i: nat)
    requires Indexed(items, r) && i < |r| && AllDistinct(r)
    ensures Indexed(items - {r[i].key}, Cut(r, i))
  {
    var c, rest := Cut(r, i), items - {r[i].key};
    forall k | k in rest ensures rest[k] in c {
      var j :| 0 <= j < |r| && r[j] == items[k];
      CutAt(r, i, if j < i then j else j - 1);
    }
    forall j | 0 <= j < |c| ensures c[j].key in rest && rest[c[j].key] == c[j] {
      CutAt(r, i, j);
    }
    RemoveOne(items, r[i].key);
  }

  lemma RemoveOne<A, B>(m: map<A, B>, k: A)
    requires k in m
    ensures |m - {k}| == |m| - 1
  {
    assert (m - {k}).Keys == m.Keys - {k};
    assert |m.Keys| == |m| && |(m - {k}).Keys| == |m - {k}|;
  }

  lemma IndexedPush<V(0)>(items: map<string, ListNode<string, V>>, r: seq<ListNode<string, V>>, n: ListNode<string, V>)
    requires Indexed(items, r) && n.key !in items
    ensures Indexed(items[n.key := n], [n] + r)
  {
    var p := [n] + r;
    assert forall j :: 0 <= j < |p| ==> p[j] == if j == 0 then n else r[j - 1];
    forall k | k in items ensures items[k] in p {
      var j :| 0 <= j < |r| && r[j] == items[k];
      assert p[j + 1] == r[j];
    }
    assert p[0] == n;
  }

  lemma IndexedMove<V(0)>(items: map<string, ListNode<string, V>>, r: seq<ListNode<string, V>>, i: nat)
    requires Indexed(items, r) && i < |r| && AllDistinct(r)
    ensures Indexed(items, [r[i]] + Cut(r, i))
  {
    IndexedCut(items, r, i);
    IndexedPush(items - {r[i].key}, Cut(r, i), r[i]);
    assert (items - {r[i].key})[r[i].key := r[i]] == items;
  }

  class Shard<V(0)> {
    var items: map<string, ListNode<string, V>>
    const head: ListNode<string, V>
    const cfg: Config
    ghost var list: seq<ListNode<string, V>> // the nodes of the circle after the sentinel, newest to oldest
    ghost var repr: set<ListNode<string, V>> // every node the shard may touch

    ghost var abs: Recency<V> // the recency list the shard stands for

    ghost predicate Linked()
      reads this`list, this`repr, repr`next, repr`prev
    {
      head in repr && (forall i :: 0 <= i < |list| ==> list[i] in repr) && Circle([head] + list)
    }

    /** Circle, index and recency list hold the same entries. */
    ghost predicate Agrees()
      reads this, repr
    {
      Linked() && Indexed(items, list) && Matches(list, abs)
    }

    ghost predicate Valid()
      reads this, repr
    {
      Agrees() && Sound(cfg, abs)
    }

    constructor (cap: int, ttl: int)
      ensures Valid() && abs == [] && cfg == Config(cap, ttl) && fresh(repr)
    {
      var h := new ListNode<string, V>.Sentinel(0);
      items, head, cfg := map[], h, Config(cap, ttl);
      list, repr, abs := [], {h}, [];
    }

    method PushFront(n: ListNode<string, V>)
      requires Linked() && n != head && n !in list
      modifies this`list, this`repr, n`prev, n`next, repr`prev, repr`next
      ensures Linked() && repr == old(repr) + {n} && list == [n] + old(list)
    {
      ghost var r := [head] + list;
      Links.PushFront(head, n, r);
      list, repr := [n] + list, repr + {n};
      assert [head] + list == [head, n] + r[1..];
    }

    method Remove(n: ListNode<string, V>, ghost i: nat)
      requires Linked() && i < |list| && list[i] == n
      modifies this`list, repr`prev, repr`next
      ensures Linked() && list == Cut(old(list), i) && n != head && n !in list
    {
      ghost var r := [head] + list;
      Links.Remove(n, r, i + 1);
      list := Cut(list, i);
      assert [head] + list == Cut(r, i + 1);
    }

    method MoveToFront(n: ListNode<string, V>, ghost i: nat)
      requires Linked() && i < |list| && list[i] == n
      modifies this`list, this`repr, repr`prev, repr`next
      ensures Linked() && repr == old(repr) && list == [n] + Cut(old(list), i)
    {
      Remove(n, i);
      PushFront(n);
    }

    lemma ListDistinct()
      requires Linked()
      ensures AllDistinct(list)
    {
      var r := [head] + list;
      CircleDistinct(r);
      assert forall j :: 0 <= j < |list| ==> list[j] == r[j + 1];
    }

    lemma AfterCut(i: nat)
      requires Agrees() && i < |list|
      ensures Indexed(items - {list[i].key}, Cut(list, i)) && Matches(Cut(list, i), Cut(abs, i))
    {
      ListDistinct();
      IndexedCut(items, list, i);
      MatchesCut(list, abs, i);
    }

    lemma AfterMove(i: nat)
      requires Agrees() && i < |list|
      ensures Indexed(items, [list[i]] + Cut(list, i))
      ensures Matches([list[i]] + Cut(list, i), [abs[i]] + Cut(abs, i))
    {
      ListDistinct();
      IndexedMove(items, list, i);
      MatchesCut(list, abs, i);
      MatchesPush(Cut(list, i), Cut(abs, i), list[i]);
    }

    lemma AfterPush(n: ListNode<string, V>)
      requires Agrees() && n.key !in items
      ensures Indexed(items[n.key := n], [n] + list) && Matches([n] + list, [EntryOf(n)] + abs)
    {
      IndexedPush(items, list, n);
      MatchesPush(list, abs, n);
    }

    /** Takes the i-th node out of the circle and out of the index. */
    method Forget(n: ListNode<string, V>, ghost i: nat)
      requires Agrees() && i < |list| && list[i] == n
      modifies this, repr`prev, repr`next
      ensures Agrees() && repr == old(repr) && abs == Cut(old(abs), i)
    {
      AfterCut(i);
      Remove(n, i);
      items := items - {n.key};
      abs := Cut(abs, i);
    }

    /** Makes the i-th node the newest. */
    method Touch(n: ListNode<string, V>, ghost i: nat)
      requires Agrees() && i < |list| && list[i] == n
      modifies this`list, this`repr, this`abs, repr`prev, repr`next
      ensures Agrees() && repr == old(repr) && abs == [old(abs[i])] + Cut(old(abs), i)
    {
      AfterMove(i);
      MoveToFront(n, i);
      abs := [abs[i]] + Cut(abs, i);
    }

    /** Find on the recency list agrees with the index. */
    lemma Where(key: string) returns (i: nat)
      requires Valid()
      ensures i == Find(abs, key) && (key in items <==> i < |list|) && |list| == |abs|
      ensures i < |list| ==> list[i] == items[key] && abs[i] == EntryOf(items[key])
    {
      if key in items {
        i :| 0 <= i < |list| && list[i] == items[key];
        FindUnique(abs, key, i);
      } else {
        i := |list|;
        FindAt(abs, key, i);
      }
    }

    method Get(key: string, now: int) returns (res: Option<V>)
      requires Valid()
      modifies this, repr`prev, repr`next
      ensures Valid() && repr == old(repr)
      ensures (abs, res) == LruSpec.Get(cfg, old(abs), key, now)
    {
      ghost var i := Where(key);
      StepSound(cfg, abs, OpGet(key, now));
      if key !in items { return None; }
      var n := items[key];
      if cfg.ttl > 0 && now - n.stamp > cfg.ttl {
        Forget(n, i);
        return None;
      }
      Touch(n, i);
      res := Some(n.val);
    }

    method Del(key: string)
      requires Valid()
      modifies this, repr`prev, repr`next
      ensures Valid() && repr == old(repr)
      ensures abs == LruSpec.Del(old(abs), key)
    {
      ghost var i := Where(key);
      StepSound(cfg, abs, OpDel(key));
      if key in items { Forget(items[key], i); }
    }

    /** Drops the least recent entry, if there is one. */
    method UnlinkOldest() returns (res: Option<Entry<V>>)
      requires Agrees()
      modifies this, repr`prev, repr`next
      ensures Agrees() && repr == old(repr)
      ensures |old(abs)| == 0 ==> res == None && abs == []
      ensures var l := old(abs);
              |l| > 0 ==> abs == l[..|l| - 1] && res == Some(l[|l| - 1])
    {
      ghost var r := [head] + list;
      assert head == r[0] && head.prev == r[|r| - 1];
      var tail := head.prev;
      if tail == head { return None; }
      assert list[|list| - 1] == tail;
      res := Some(Entry(tail.key, tail.val, tail.stamp));
      Forget(tail, |list| - 1);
    }

    /** The result is the entry handed to the eviction callback. */
    method Set(key: string, val: V, now: int) returns (evicted: Option<Entry<V>>)
      requires Valid()
      modifies this, repr
      ensures Valid() && fresh(repr - old(repr))
      ensures (abs, evicted) == LruSpec.Set(cfg, old(abs), key, val, now)
    {
      ghost var i := Where(key);
      StepSound(cfg, abs, OpSet(key, val, now));
      evicted := None;
      if key in items {
        Overwrite(items[key], val, now, i);
      } else {
        evicted := Insert(key, val, if cfg.ttl > 0 then now else 0);
      }
    }

    /** Set on an absent key: an overflow drops the oldest entry. */
    method Insert(key: string, val: V, ts: int) returns (evicted: Option<Entry<V>>)
      requires Agrees() && key !in items
      modifies this, repr`prev, repr`next
      ensures Agrees() && fresh(repr - old(repr))
      ensures var l := [Entry(key, val, ts)] + old(abs);
              (abs, evicted) == if |l| > cfg.cap then (l[..|l| - 1], Some(l[|l| - 1])) else (l, None)
    {
      AddNew(key, val, ts);
      evicted := None;
      if |items| > cfg.cap { evicted := UnlinkOldest(); }
    }

    method Write(n: ListNode<string, V>, val: V, now: int, ghost i: nat)
      requires Agrees() && i < |list| && list[i] == n
      modifies this`abs, n`val, n`stamp
      ensures Agrees()
      ensures abs == old(abs)[i := Entry(n.key, val, if cfg.ttl > 0 then now else old(n.stamp))]
    {
      ListDistinct();
      n.val := val;
      if cfg.ttl > 0 { n.stamp := now; }
      abs := abs[i := EntryOf(n)];
    }

    /** Set on a present key. */
    method Overwrite(n: ListNode<string, V>, val: V, now: int, ghost i: nat)
      requires Agrees() && i < |list| && list[i] == n
      modifies this`list, this`repr, this`abs, repr
      ensures Agrees() && repr == old(repr)
      ensures var l := old(abs);
              abs == [Entry(n.key, val, if cfg.ttl > 0 then now else l[i].created)] + Cut(l, i)
    {
      Write(n, val, now, i);
      assert Cut(abs, i) == Cut(old(abs), i);
      Touch(n, i);
    }

    /** A new node goes to the front. */
    method AddNew(key: string, val: V, ts: int)
      requires Agrees() && key !in items
      modifies this, repr`prev, repr`next
      ensures Agrees() && fresh(repr - old(repr))
      ensures abs == [Entry(key, val, ts)] + old(abs)
    {
      var n := new ListNode(key, val, ts, 0);
      Enter(n);
    }

    /** Files a node and links it. */
    method Enter(n: ListNode<string, V>)
      requires Agrees() && n.key !in items && n !in repr
      modifies this, n`prev, n`next, repr`prev, repr`next
      ensures Agrees() && repr == old(repr) + {n} && abs == [EntryOf(n)] + old(abs)
    {
      AfterPush(n);
      PushFront(n);
      items, abs := items[n.key := n], [EntryOf(n)] + abs;
    }

    /** One operation of a trace. */
    method Apply(o: Op<V>) returns (reply: Reply<V>)
      requires Valid()
      modifies this, repr
      ensures Valid() && fresh(repr - old(repr))
      ensures abs == Step(cfg, old(abs), o).0 && reply == ReplyTo(cfg, old(abs), o)
    {
      match o {
        case OpGet(k, now) =>
          var res := Get(k, now);
          reply := Looked(res);
        case OpSet(k, v, now) =>
          var evicted := Set(k, v, now);
          reply := Stored(evicted);
        case OpDel(k) =>
          Del(k);
          reply := Deleted;
      }
    }

    /** Over any trace the hits, misses and evictions are those of the recency lists, and the shard stands
        for the list that LruSpec.Run computes. */
    method Replay(ops: seq<Op<V>>) returns (replies: seq<Reply<V>>)
      requires Valid() && abs == []
      modifies this, repr
      ensures Valid() && abs == Run(cfg, ops) && replies == Replies(cfg, ops)
    {
      replies := [];
      assert ops[..|ops|] == ops;
      for i := 0 to |ops|
        invariant Valid() && fresh(repr - old(repr))
        invariant abs == Run(cfg, ops[..i]) && replies == Replies(cfg, ops[..i])
      {
        assert ops[..i + 1][..i] == ops[..i];
        var reply := Apply(ops[i]);
        replies := replies + [reply];
      }
    }

    method Len() returns (n: nat)
      requires Valid()
      ensures n == |abs| && (cfg.cap >= 0 ==> n <= cfg.cap)
    {
      n := |items|;
    }

    /** The snapshot of a walk. */
    method Collect(now: int) returns (snap: seq<(string, V)>)
      requires Agrees()
      ensures snap == Pairs(Fresh(cfg, abs, now))
    {
      snap := [];
      ghost var r, i := [head] + list, 0;
      ghost var walk := Pairs(Fresh(cfg, abs, now));
      WalkEnds(cfg, abs, now);
      CircleDistinct(r);
      assert head == r[0];
      var n := head.next;
      while n != head
        invariant 0 <= i <= |list| && n == if i < |list| then r[i + 1] else r[0]
        invariant Reported(cfg, abs, i, now, snap, walk)
        decreases |list| - i
      {
        assert n == r[i + 1] == list[i] && abs[i] == EntryOf(n);
        WalkStep(cfg, abs, i, now, snap, walk);
        if !(cfg.ttl > 0 && now - n.stamp > cfg.ttl) {
          snap := snap + [(n.key, n.val)];
        }
        n := n.next;
        i := i + 1;
      }
    }

    /** The callback sees the unexpired entries, newest first, up to its first refusal. */
    method RangeAll(now: int, fn: Callback<(string, V)>) returns (calls: seq<(string, V)>, done: bool)
      requires Valid()
      ensures (calls, done) == Feed([], Pairs(Fresh(cfg, abs, now)), fn)
    {
      var snap := Collect(now);
      calls, done := Visit(snap, fn);
    }

    method Purge()
      requires Valid()
      modifies this, head`prev, head`next
      ensures Valid() && abs == [] && repr == old(repr)
    {
      items := map[];
      head.next := head;
      head.prev := head;
      list, abs := [], [];
      assert [head] + list == [head];
    }
  }

  /** What a callback is given of each entry. */
  function Pairs<V>(l: Recency<V>): seq<(string, V)>
  {
    seq(|l|, i requires 0 <= i < |l| => (l[i].key, l[i].val))
  }

  /** snap and what a walk reports from position i on make up the whole walk. */
  ghost predicate Reported<V>(c: Config, l: Recency<V>, i: int, now: int, snap: seq<(string, V)>, walk: seq<(string, V)>)
  {
    0 <= i <= |l| && snap + Pairs(Fresh(c, l[i..], now)) == walk
  }

  lemma WalkEnds<V>(c: Config, l: Recency<V>, now: int)
    ensures Reported(c, l, 0, now, [], Pairs(Fresh(c, l, now)))
    ensures forall snap, walk :: Reported(c, l, |l|, now, snap, walk) ==> snap == walk
  {
    assert l[0..] == l && l[|l|..] == [];
  }

  lemma WalkStep<V>(c: Config, l: Recency<V>, i: nat, now: int, snap: seq<(string, V)>, walk: seq<(string, V)>)
    requires i < |l| && Reported(c, l, i, now, snap, walk)
    ensures Reported(c, l, i + 1, now, if Expired(c, l[i], now) then snap else snap + [(l[i].key, l[i].val)], walk)
  {
    var a, b := Fresh(c, l[i..], now), Fresh(c, l[i + 1..], now);
    assert l[i..][1..] == l[i + 1..] && l[i..][0] == l[i];
    assert Pairs(a) == (if Expired(c, l[i], now) then [] else [(l[i].key, l[i].val)]) + Pairs(b);
  }
}
