/** The `Tree` object as a dictionary: it refines a plain map under every history, and its shape
    remembers nothing of that history. */
module ArtDict {
  import opened Lists
  import opened ArtKeys
  import opened ArtTree
  import opened ArtOps
  import opened ArtScan

  // ---------------------------------------------------------------- contents as a map

  function FromEntries<V>(es: seq<Entry<V>>): map<Key, V>
  {
    if |es| == 0 then map[] else FromEntries(es[1..])[es[0].0 := es[0].1]
  }

  /** The finite map that a tree denotes. */
  function Contents<V>(root: Option<Node<V>>): map<Key, V>
  {
    if root.None? then map[] else FromEntries(Entries(root.value))
  }

  lemma {:induction false} FromEntriesAre<V>(es: seq<Entry<V>>, k: Key, v: V)
    requires Ascending(es)
    ensures k in FromEntries(es) && FromEntries(es)[k] == v <==> (k, v) in es
    ensures |FromEntries(es)| == |es|
    decreases |es|
  {
    if |es| > 0 {
      FromEntriesAre(es[1..], k, v);
      assert (k, v) in es <==> (k, v) == es[0] || (k, v) in es[1..];
      LessTotal(k, k);
      var w := es[0].1;
      if es[0].0 in FromEntries(es[1..]) {
        w := FromEntries(es[1..])[es[0].0];
      }
      FromEntriesAre(es[1..], es[0].0, w);
      LessTotal(es[0].0, es[0].0);
    }
  }

  lemma ContentsAre<V(!new)>(root: Option<Node<V>>)
    requires OptWF(root, [])
    ensures forall k, v :: k in Contents(root) && Contents(root)[k] == v <==> OptHas(root, k, v)
  {
    forall k, v ensures k in Contents(root) && Contents(root)[k] == v <==> OptHas(root, k, v) {
      if root.Some? {
        EntriesAscend(root.value, []);
        EntriesAre(root.value, (k, v));
        FromEntriesAre(Entries(root.value), k, v);
      }
    }
  }

  /** The same map means the same tree. */
  lemma RootUnique<V(!new)>(a: Option<Node<V>>, b: Option<Node<V>>)
    requires OptWF(a, []) && OptWF(b, []) && Contents(a) == Contents(b)
    ensures a == b
  {
    ContentsAre(a);
    ContentsAre(b);
    if a.Some? && b.Some? {
      forall k, v ensures Has(a.value, k, v) <==> Has(b.value, k, v) {
        assert OptHas(a, k, v) <==> OptHas(b, k, v);
      }
      Canonical(a.value, b.value, []);
    } else if a.Some? {
      var s := Sample(a.value, []);
      assert OptHas(a, s.0, s.1);
    } else if b.Some? {
      var s := Sample(b.value, []);
      assert OptHas(b, s.0, s.1);
    }
  }

  /** The same set of keys means the same shape. */
  lemma ShapeUnique<V(!new)>(a: Node<V>, b: Node<V>)
    requires WF(a, []) && WF(b, []) && Contents(Some(a)).Keys == Contents(Some(b)).Keys
    ensures Erase(a) == Erase(b)
  {
    forall k ensures HasKey(a, k) <==> HasKey(b, k) {
      KeyIn(a, k);
      KeyIn(b, k);
    }
    ShapeFromKeys(a, b, []);
  }

  lemma KeyIn<V(!new)>(a: Node<V>, k: Key)
    requires WF(a, [])
    ensures HasKey(a, k) <==> k in Contents(Some(a))
  {
    ContentsAre(Some(a));
    if k in Contents(Some(a)) {
      assert OptHas(Some(a), k, Contents(Some(a))[k]);
    }
    if HasKey(a, k) {
      var v :| Has(a, k, v);
      assert OptHas(Some(a), k, v);
    }
  }

  // ---------------------------------------------------------------- the Tree object

  class Tree<V(!new)> {
    var root: Option<Node<V>>
    var size: int

    ghost predicate Valid()
      reads this
    {
      OptWF(root, []) && size == |Contents(root)|
    }

    constructor ()
      ensures Valid() && Contents(root) == map[]
    {
      root, size := None, 0;
    }

    /** `Reset`. */
    method Reset()
      modifies this
      ensures Valid() && Contents(root) == map[]
    {
      root, size := None, 0;
    }

    method Len() returns (n: int)
      requires Valid()
      ensures n == |Contents(root)|
    {
      n := size;
    }

    method Get(key: Key) returns (r: Option<V>)
      requires Valid()
      ensures r == if key in Contents(root) then Some(Contents(root)[key]) else None
    {
      r := ArtOps.Get(root, key);
      ContentsAre(root);
      if r.Some? { assert OptHas(root, key, r.value); }
      if key in Contents(root) { assert OptHas(root, key, Contents(root)[key]); }
    }

    method Put(key: Key, val: V) returns (prev: Option<V>)
      requires Valid()
      modifies this
      ensures Valid()
      ensures Contents(root) == old(Contents(root))[key := val]
      ensures prev == if key in old(Contents(root)) then Some(old(Contents(root))[key]) else None
    {
      ghost var before := root;
      ContentsAre(before);
      assert key[..0] == [];
      var out;
      prev, out := ArtOps.Put(root, key, val, 0);
      root := Some(out);
      ContentsAre(root);
      if prev.None? { size := size + 1; }
      PutMap(before, root, key, val, prev);
    }

    method Delete(key: Key) returns (prev: Option<V>)
      requires Valid()
      modifies this
      ensures Valid()
      ensures Contents(root) == old(Contents(root)) - {key}
      ensures prev == if key in old(Contents(root)) then Some(old(Contents(root))[key]) else None
      ensures prev.None? ==> root == old(root)
    {
      if root.None? { return None; }
      ghost var before := root;
      ContentsAre(before);
      assert key[..0] == [];
      var out;
      prev, out := ArtOps.Del(root.value, key, 0);
      root := out;
      ContentsAre(root);
      if prev.Some? { size := size - 1; }
      DelMap(before, root, key, prev);
    }

    /** All entries in ascending order, until the callback stops. */
    method ForEach(fn: Callback<Entry<V>>) returns (out: seq<Entry<V>>)
      requires Valid()
      ensures out == Feed([], Listing(Contents(root), All), fn).0
    {
      out := [];
      ListingIs(root, All);
      if root.Some? {
        KeepUniform(All, Entries(root.value));
        var go;
        out, go := ArtScan.ForEach(root.value, fn, []);
      }
    }

    /** The entries with a key strictly above `start`, in ascending order. */
    method Seek(start: Key, fn: Callback<Entry<V>>) returns (out: seq<Entry<V>>)
      requires Valid()
      ensures out == Feed([], Listing(Contents(root), Above(start)), fn).0
    {
      out := [];
      ListingIs(root, Above(start));
      assert start[..0] == [];
      if root.Some? {
        var go;
        out, go := ArtScan.Seek(root.value, start, 0, fn, []);
      }
    }

    /** The entries whose key starts with `prefix`, in ascending order. */
    method ScanPrefix(prefix: Key, fn: Callback<Entry<V>>) returns (out: seq<Entry<V>>)
      requires Valid()
      ensures out == Feed([], Listing(Contents(root), Under(prefix)), fn).0
    {
      out := [];
      ListingIs(root, Under(prefix));
      assert prefix[..0] == [];
      if root.Some? {
        var go;
        out, go := ArtScan.ScanPrefix(root.value, prefix, 0, fn, []);
      }
    }
  }

  lemma PutMap<V(!new)>(before: Option<Node<V>>, after: Option<Node<V>>, key: Key, val: V, prev: Option<V>)
    requires OptWF(before, []) && OptWF(after, [])
    requires forall v :: prev == Some(v) <==> OptHas(before, key, v)
    requires forall k, v :: OptHas(after, k, v) <==> if k == key then v == val else OptHas(before, k, v)
    ensures Contents(after) == Contents(before)[key := val]
    ensures prev == if key in Contents(before) then Some(Contents(before)[key]) else None
    ensures |Contents(after)| == |Contents(before)| + if prev.None? then 1 else 0
  {
    ContentsAre(before);
    ContentsAre(after);
    var a, b := Contents(after), Contents(before)[key := val];
    PrevIs(before, key, prev);
    forall k ensures k in a <==> k in b {
      if k in a { assert OptHas(after, k, a[k]); }
      if k in b { assert OptHas(after, k, b[k]); }
    }
    forall k | k in a ensures a[k] == b[k] {
      assert OptHas(after, k, a[k]);
    }
    assert a == b;
  }

  lemma PrevIs<V(!new)>(before: Option<Node<V>>, key: Key, prev: Option<V>)
    requires OptWF(before, [])
    requires forall v :: prev == Some(v) <==> OptHas(before, key, v)
    ensures prev == if key in Contents(before) then Some(Contents(before)[key]) else None
  {
    ContentsAre(before);
    if key in Contents(before) { assert OptHas(before, key, Contents(before)[key]); }
    if prev.Some? { assert OptHas(before, key, prev.value); }
  }

  lemma DelMap<V(!new)>(before: Option<Node<V>>, after: Option<Node<V>>, key: Key, prev: Option<V>)
    requires OptWF(before, []) && OptWF(after, [])
    requires forall v :: prev == Some(v) <==> OptHas(before, key, v)
    requires forall k, v :: OptHas(after, k, v) <==> k != key && OptHas(before, k, v)
    ensures Contents(after) == Contents(before) - {key}
    ensures prev == if key in Contents(before) then Some(Contents(before)[key]) else None
    ensures |Contents(after)| == |Contents(before)| - if prev.None? then 0 else 1
  {
    ContentsAre(before);
    ContentsAre(after);
    var a, b := Contents(after), Contents(before) - {key};
    PrevIs(before, key, prev);
    forall k ensures k in a <==> k in b {
      if k in a { assert OptHas(after, k, a[k]); }
      if k in b { assert OptHas(before, k, b[k]); assert OptHas(after, k, b[k]); }
    }
    forall k | k in a ensures a[k] == b[k] {
      assert OptHas(after, k, a[k]);
    }
    assert a == b;
    if key in Contents(before) {
      assert Contents(before).Keys == b.Keys + {key};
    } else {
      assert Contents(before) == b;
    }
  }

  // ---------------------------------------------------------------- listings

  ghost predicate IsListing<V(!new)>(es: seq<Entry<V>>, m: map<Key, V>, sel: Selection)
  {
    && Ascending(es)
    && forall k, v :: (k, v) in es <==> k in m && m[k] == v && Selects(sel, k)
  }

  /** The selected entries of a map in ascending key order: specified by what it contains. */
  ghost function Listing<V(!new)>(m: map<Key, V>, sel: Selection): seq<Entry<V>>
  {
    if exists es :: IsListing(es, m, sel) then var es :| IsListing(es, m, sel); es else []
  }

  lemma ListingUnique<V(!new)>(es: seq<Entry<V>>, m: map<Key, V>, sel: Selection)
    requires IsListing(es, m, sel)
    ensures Listing(m, sel) == es
  {
    var l := Listing(m, sel);
    forall e ensures e in es <==> e in l {
      var (k, v) := e;
      assert (k, v) in es <==> (k, v) in l;
    }
    AscendingUnique(es, l);
  }

  lemma ListingIs<V(!new)>(root: Option<Node<V>>, sel: Selection)
    requires OptWF(root, [])
    ensures Listing(Contents(root), sel) == if root.None? then [] else Keep(sel, Entries(root.value))
  {
    ContentsAre(root);
    var es := if root.None? then [] else Keep(sel, Entries(root.value));
    if root.Some? {
      EntriesAscend(root.value, []);
      KeepAscends(sel, Entries(root.value));
    }
    forall k, v ensures (k, v) in es <==> k in Contents(root) && Contents(root)[k] == v && Selects(sel, k) {
      if root.Some? {
        KeepMember(sel, Entries(root.value), (k, v));
        EntriesAre(root.value, (k, v));
      }
      assert OptHas(root, k, v) <==> k in Contents(root) && Contents(root)[k] == v;
    }
    ListingUnique(es, Contents(root), sel);
  }

  // ---------------------------------------------------------------- histories

  datatype Op<V> = OpPut(key: Key, val: V) | OpDelete(key: Key) | OpGet(key: Key)

  /** What a plain map does and answers. */
  function MapStep<V>(m: map<Key, V>, op: Op<V>): (map<Key, V>, Option<V>)
  {
    var hit := if op.key in m then Some(m[op.key]) else None;
    match op
    case OpPut(k, v) => (m[k := v], hit)
    case OpDelete(k) => (m - {k}, hit)
    case OpGet(_) => (m, hit)
  }

  function MapRun<V>(m: map<Key, V>, ops: seq<Op<V>>): (map<Key, V>, seq<Option<V>>)
    decreases |ops|
  {
    if |ops| == 0 then (m, [])
    else
      var (m', r) := MapStep(m, ops[0]);
      var (end, rs) := MapRun(m', ops[1..]);
      (end, [r] + rs)
  }

  method Step<V(!new)>(t: Tree<V>, op: Op<V>) returns (r: Option<V>)
    requires t.Valid()
    modifies t
    ensures t.Valid()
    ensures Contents(t.root) == MapStep(old(Contents(t.root)), op).0
    ensures r == MapStep(old(Contents(t.root)), op).1
  {
    match op
    case OpPut(k, v) => r := t.Put(k, v);
    case OpDelete(k) => r := t.Delete(k);
    case OpGet(k) => r := t.Get(k);
  }

  /** Main theorem: any history of operations gives the answers of a plain map, starting from
      any tree, and ends in that map. */
  method Replay<V(!new)>(t: Tree<V>, ops: seq<Op<V>>) returns (answers: seq<Option<V>>)
    requires t.Valid()
    modifies t
    ensures t.Valid()
    ensures Contents(t.root) == MapRun(old(Contents(t.root)), ops).0
    ensures answers == MapRun(old(Contents(t.root)), ops).1
  {
    answers := [];
    assert ops[0..] == ops;
    for i := 0 to |ops|
      invariant t.Valid()
      invariant MapRun(old(Contents(t.root)), ops).0 == MapRun(Contents(t.root), ops[i..]).0
      invariant MapRun(old(Contents(t.root)), ops).1 == answers + MapRun(Contents(t.root), ops[i..]).1
    {
      assert ops[i..][0] == ops[i] && ops[i..][1..] == ops[i + 1..];
      var r := Step(t, ops[i]);
      answers := answers + [r];
    }
    assert answers + MapRun(Contents(t.root), []).1 == answers;
  }

  /** Main theorem (history independence): two histories that leave the same map leave the very
      same tree, and two that leave the same keys leave the same shape. */
  method Histories<V(!new)>(one: seq<Op<V>>, two: seq<Op<V>>) returns (a: Option<Node<V>>, b: Option<Node<V>>)
    ensures Contents(a) == MapRun(map[], one).0 && Contents(b) == MapRun(map[], two).0
    ensures MapRun(map[], one).0 == MapRun(map[], two).0 ==> a == b
    ensures a.Some? && b.Some? && MapRun(map[], one).0.Keys == MapRun(map[], two).0.Keys ==>
              Erase(a.value) == Erase(b.value)
  {
    var s := new Tree<V>();
    var t := new Tree<V>();
    var _ := Replay(s, one);
    var _ := Replay(t, two);
    a, b := s.root, t.root;
    if Contents(a) == Contents(b) { RootUnique(a, b); }
    if a.Some? && b.Some? && Contents(a).Keys == Contents(b).Keys { ShapeUnique(a.value, b.value); }
  }

  /** Inserting a new key and deleting it again restores the tree exactly. */
  method PutThenDelete<V(!new)>(t: Tree<V>, key: Key, val: V)
    requires t.Valid() && key !in Contents(t.root)
    modifies t
    ensures t.root == old(t.root) && t.size == old(t.size)
  {
    ghost var before := t.root;
    var _ := t.Put(key, val);
    var _ := t.Delete(key);
    assert Contents(t.root) == Contents(before);
    RootUnique(t.root, before);
  }
}
