/** When the LRU shard answers (lru/lru.go): the exact condition for a hit, for being reported by a walk,
    and for an entry to be still there after a trace. */
module LruHits {
  import opened Lists
  import opened LruSpec

  /** Present, and no older than the time to live. */
  ghost predicate Fine<V>(c: Config, l: Recency<V>, e: Entry<V>, key: string, now: int)
  {
    e in l && e.key == key && (c.ttl <= 0 || now - e.created <= c.ttl)
  }

  /** Main theorem: a get hits exactly when the shard holds the key and the entry is within its time to
      live. It then returns the value and makes the entry the newest; otherwise the key is gone. */
  lemma HitExactly<V>(c: Config, ops: seq<Op<V>>, key: string, now: int)
    ensures var l := Run(c, ops);
            var (l', r) := Get(c, l, key, now);
            && (r.Some? <==> exists e <- l :: Fine(c, l, e, key, now))
            && (forall e <- l :: Fine(c, l, e, key, now) ==> r == Some(e.val) && |l'| == |l| && l'[0] == e)
            && (r.None? ==> forall e <- l' :: e.key != key)
            && (forall e <- l :: e.key != key ==> e in l')
  {
    RecencyOrder(c, ops);
    var l := Run(c, ops);
    var i := Find(l, key);
    if i < |l| {
      CutKeys(l, i);
      CutHolds(l, i);
      assert l[i] in l;
      forall e | e in l && e.key == key ensures e == l[i] {
        var j :| 0 <= j < |l| && l[j] == e;
        FindUnique(l, key, j);
      }
      assert Fine(c, l, l[i], key, now) <==> !Expired(c, l[i], now);
      forall e | e in l && e.key != key ensures e in Get(c, l, key, now).0 {
        assert e in Cut(l, i);
      }
    } else {
      forall e | e in l ensures e.key != key {
        var j :| 0 <= j < |l| && l[j] == e;
      }
    }
  }

  lemma CutHolds<A>(l: seq<A>, i: nat)
    requires i < |l|
    ensures forall e <- l :: e != l[i] ==> e in Cut(l, i)
  {
    forall e | e in l && e != l[i] ensures e in Cut(l, i) {
      var j :| 0 <= j < |l| && l[j] == e;
      CutAt(l, i, if j < i then j else j - 1);
    }
  }

  /** Main theorem: a walk reports exactly the entries within their time to live, in the order of the
      recency list. */
  lemma {:induction false} WalkExactly<V>(c: Config, l: Recency<V>, now: int)
    ensures Within(Fresh(c, l, now), l)
    ensures forall e :: e in Fresh(c, l, now) <==> e in l && (c.ttl <= 0 || now - e.created <= c.ttl)
  {
    if |l| > 0 {
      var rest, f := l[1..], Fresh(c, l[1..], now);
      WalkExactly(c, rest, now);
      assert l == [l[0]] + rest;
      if Expired(c, l[0], now) {
        assert Fresh(c, l, now) == f;
        WithinCons(f, rest, l[0]);
      } else {
        assert Fresh(c, l, now) == [l[0]] + f;
        WithinFront(f, rest, l[0]);
      }
    }
  }

  // ---------------------------------------------------------------- still there

  /** The other keys that a trace gets or sets. */
  function Others<V>(ops: seq<Op<V>>, key: string): set<string>
  {
    if |ops| == 0 then {}
    else
      var o := ops[|ops| - 1];
      Others(ops[..|ops| - 1], key) + if o.OpDel? || o.key == key then {} else {o.key}
  }

  /** The trace neither sets nor deletes the key, and each get of it comes within the time to live of t. */
  ghost predicate Spares<V>(c: Config, ops: seq<Op<V>>, key: string, t: int)
  {
    forall o <- ops :: o.key == key ==> o.OpGet? && (c.ttl <= 0 || o.now - t <= c.ttl)
  }

  /** The entry is there, and whatever is newer has one of the given keys. */
  ghost predicate Holds<V>(l: Recency<V>, e: Entry<V>, newer: set<string>)
  {
    var i := Find(l, e.key);
    i < |l| && l[i] == e && forall j :: 0 <= j < i ==> l[j].key in newer
  }

  /** Fewer than a list of distinct keys has, if they all come from a small set. */
  lemma {:induction false} DistinctBound<V>(l: Recency<V>, i: nat, keys: set<string>)
    requires DistinctKeys(l) && i <= |l| && forall j :: 0 <= j < i ==> l[j].key in keys
    ensures i <= |keys|
  {
    if i > 0 { DistinctBound(l, i - 1, keys - {l[i - 1].key}); }
  }

  lemma CutKeepsPlace<V>(l: Recency<V>, e: Entry<V>, newer: set<string>, i: nat)
    requires DistinctKeys(l) && Holds(l, e, newer) && i < |l| && l[i].key != e.key
    ensures Holds(Cut(l, i), e, newer)
  {
    var k, w := Find(l, e.key), Cut(l, i);
    var k' := if k < i then k else k - 1;
    forall j | 0 <= j <= k' ensures w[j] == l[if j < i then j else j + 1] { CutAt(l, i, j); }
    FindAt(w, e.key, k');
  }

  lemma PushKeepsPlace<V>(l: Recency<V>, e: Entry<V>, newer: set<string>, x: Entry<V>)
    requires Holds(l, e, newer) && x.key != e.key
    ensures Holds([x] + l, e, newer + {x.key})
  {
    FindAt([x] + l, e.key, Find(l, e.key) + 1);
  }

  lemma FrontHolds<V>(l: Recency<V>, e: Entry<V>, newer: set<string>)
    ensures Holds([e] + l, e, newer)
  {
    FindAt([e] + l, e.key, 0);
  }

  lemma DropKeepsPlace<V>(l: Recency<V>, e: Entry<V>, newer: set<string>)
    requires DistinctKeys(l) && Holds(l, e, newer) && |l| > |newer| + 1
    ensures Holds(l[..|l| - 1], e, newer)
  {
    var i := Find(l, e.key);
    DistinctBound(l, i, newer);
    FindAt(l[..|l| - 1], e.key, i);
  }

  /** One operation that spares the entry. */
  lemma StepHolds<V>(c: Config, l: Recency<V>, o: Op<V>, e: Entry<V>, newer: set<string>)
    requires Sound(c, l) && Holds(l, e, newer)
    requires o.key == e.key ==> o.OpGet? && (c.ttl <= 0 || o.now - e.created <= c.ttl)
    requires var newer' := newer + if o.OpDel? || o.key == e.key then {} else {o.key}; |newer'| < c.cap
    ensures Holds(Step(c, l, o).0, e, newer + if o.OpDel? || o.key == e.key then {} else {o.key})
  {
    var i := Find(l, o.key);
    if o.key == e.key {
      FrontHolds(Cut(l, i), e, newer);
    } else if i < |l| {
      CutKeepsPlace(l, e, newer, i);
      match o
      case OpDel(_) =>
      case OpGet(_, now) => PushKeepsPlace(Cut(l, i), e, newer, l[i]); Wider(Cut(l, i), e, newer, newer + {o.key});
      case OpSet(k, v, now) =>
        PushKeepsPlace(Cut(l, i), e, newer, Entry(k, v, if c.ttl > 0 then now else l[i].created));
    } else {
      Wider(l, e, newer, newer + {o.key});
      if o.OpSet? { InsertHolds(c, l, o, e, newer); }
    }
  }

  lemma Wider<V>(l: Recency<V>, e: Entry<V>, a: set<string>, b: set<string>)
    requires Holds(l, e, a) && a <= b
    ensures Holds(l, e, b)
  {}

  lemma InsertHolds<V>(c: Config, l: Recency<V>, o: Op<V>, e: Entry<V>, newer: set<string>)
    requires Sound(c, l) && Holds(l, e, newer) && o.OpSet? && Find(l, o.key) == |l| && o.key != e.key
    requires |newer + {o.key}| < c.cap
    ensures Holds(Step(c, l, o).0, e, newer + {o.key})
  {
    var x := Entry(o.key, o.val, if c.ttl > 0 then o.now else 0);
    var m := [x] + l;
    PushKeepsPlace(l, e, newer, x);
    PushDistinct(l, x);
    assert Step(c, l, o).0 == if |m| > c.cap then m[..|m| - 1] else m;
    if |m| > c.cap { DropKeepsPlace(m, e, newer + {o.key}); }
  }

  lemma PushDistinct<V>(l: Recency<V>, x: Entry<V>)
    requires DistinctKeys(l) && Find(l, x.key) == |l|
    ensures DistinctKeys([x] + l)
  {}

  /** What a set leaves behind is at the front. */
  lemma SetHolds<V>(c: Config, ops: seq<Op<V>>, key: string, val: V, t: int) returns (e: Entry<V>)
    requires c.cap >= 1
    ensures e.key == key && e.val == val && (c.ttl > 0 ==> e.created == t)
    ensures Holds(Run(c, ops + [OpSet(key, val, t)]), e, {})
  {
    var all := ops + [OpSet(key, val, t)];
    assert all[..|ops|] == ops;
    RecencyOrder(c, ops);
    StepSound(c, Run(c, ops), OpSet(key, val, t));
    var l := Run(c, all);
    e := l[0];
    FindAt(l, key, 0);
  }

  lemma {:induction false} TraceHolds<V>(c: Config, before: seq<Op<V>>, later: seq<Op<V>>, e: Entry<V>)
    requires Holds(Run(c, before), e, {}) && Spares(c, later, e.key, e.created) && |Others(later, e.key)| < c.cap
    ensures Holds(Run(c, before + later), e, Others(later, e.key))
  {
    if |later| == 0 {
      assert before + later == before;
    } else {
      var n, o := |later| - 1, later[|later| - 1];
      OneMore(c, before, later);
      FewerOthers(later, e.key);
      TraceHolds(c, before, later[..n], e);
      RecencyOrder(c, before + later[..n]);
      StepHolds(c, Run(c, before + later[..n]), o, e, Others(later[..n], e.key));
    }
  }

  lemma {:induction false} OneMore<V>(c: Config, before: seq<Op<V>>, later: seq<Op<V>>)
    requires |later| > 0
    ensures Run(c, before + later) == Step(c, Run(c, before + later[..|later| - 1]), later[|later| - 1]).0
  {
    var all := before + later;
    assert all[..|all| - 1] == before + later[..|later| - 1];
    RunLast(c, all);
  }

  lemma {:induction false} RunLast<V>(c: Config, ops: seq<Op<V>>)
    requires |ops| > 0
    ensures Run(c, ops) == Step(c, Run(c, ops[..|ops| - 1]), ops[|ops| - 1]).0
  {}

  lemma FewerOthers<V>(ops: seq<Op<V>>, key: string)
    requires |ops| > 0
    ensures |Others(ops[..|ops| - 1], key)| <= |Others(ops, key)|
  {
    var a, b := Others(ops[..|ops| - 1], key), Others(ops, key);
    assert b == a + (b - a);
  }

  /** Main theorem (retention): a key that was set, and since then neither set again nor deleted, with every
      get of it within the time to live, is found with its value for as long as the time to live lasts and
      fewer other keys than the capacity have been used. */
  lemma StillFound<V>(c: Config, before: seq<Op<V>>, key: string, val: V, t: int, later: seq<Op<V>>, now: int)
    requires c.cap >= 1 && Spares(c, later, key, t) && |Others(later, key)| < c.cap
    requires c.ttl <= 0 || now - t <= c.ttl
    ensures Get(c, Run(c, before + [OpSet(key, val, t)] + later), key, now).1 == Some(val)
  {
    var e := SetHolds(c, before, key, val, t);
    TraceHolds(c, before + [OpSet(key, val, t)], later, e);
  }
}
