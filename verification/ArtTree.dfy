/** The radix tree itself: structure, well-formedness, contents, canonical form. */
module ArtTree {
  import opened Lists
  import opened ArtKeys

  /** The four adaptive layouts of an inner node. */
  datatype Kind = N4 | N16 | N48 | N256

  /** A leaf holds a whole key. An inner node holds the compressed path `prefix`, the entry
      whose key ends exactly there, and its children in ascending byte order. */
  datatype Node<V> =
    | Leaf(key: Key, val: V)
    | Inner(kind: Kind, prefix: Key, leaf: Option<(Key, V)>, bytes: seq<Byte>, kids: seq<Node<V>>)

  function Capacity(kind: Kind): nat {
    match kind case N4 => 4 case N16 => 16 case N48 => 48 case N256 => 256
  }

  /** The smallest layout that can hold n children. */
  function KindFor(n: nat): Kind {
    if n <= 4 then N4 else if n <= 16 then N16 else if n <= 48 then N48 else N256
  }

  /** The tree stores the pair (k, v): it sits in some leaf, wherever that leaf hangs. */
  ghost predicate Has<V>(n: Node<V>, k: Key, v: V)
  {
    match n
    case Leaf(key, val) => key == k && val == v
    case Inner(_, _, leaf, _, kids) =>
      leaf == Some((k, v)) || exists i :: 0 <= i < |kids| && Has(kids[i], k, v)
  }

  ghost predicate OptHas<V>(n: Option<Node<V>>, k: Key, v: V)
  {
    n.Some? && Has(n.value, k, v)
  }

  /** The structural invariant of a subtree reached by the bytes `path`: every leaf is on its
      own path, children are sorted by their branch byte, there are at least two branches and
      the layout is the smallest that fits. */
  ghost predicate WF<V>(n: Node<V>, path: Key)
  {
    match n
    case Leaf(key, _) => path <= key
    case Inner(kind, prefix, leaf, bytes, kids) =>
      && (leaf.Some? ==> leaf.value.0 == path + prefix)
      && |bytes| == |kids|
      && Sorted(bytes)
      && kind == KindFor(|kids|)
      && |kids| + (if leaf.Some? then 1 else 0) >= 2
      && forall i :: 0 <= i < |kids| ==> WF(kids[i], path + prefix + [bytes[i]])
  }

  ghost predicate OptWF<V>(n: Option<Node<V>>, path: Key)
  {
    n.Some? ==> WF(n.value, path)
  }

  // ---------------------------------------------------------------- facts about paths

  /** Every stored key extends the path to its subtree. */
  lemma {:induction false} OnPath<V>(n: Node<V>, path: Key, k: Key, v: V)
    requires WF(n, path) && Has(n, k, v)
    ensures path <= k
    ensures n.Inner? ==> path + n.prefix <= k
    decreases n
  {
    if n.Inner? && n.leaf != Some((k, v)) {
      var i :| 0 <= i < |n.kids| && Has(n.kids[i], k, v);
      OnPath(n.kids[i], path + n.prefix + [n.bytes[i]], k, v);
      assert path + n.prefix <= path + n.prefix + [n.bytes[i]];
    }
  }

  /** A stored key sits in child i exactly when it continues with that child's byte. */
  lemma InChild<V>(n: Node<V>, path: Key, i: nat, k: Key, v: V)
    requires WF(n, path) && n.Inner? && i < |n.kids|
    ensures Has(n.kids[i], k, v) <==> Has(n, k, v) && path + n.prefix + [n.bytes[i]] <= k
  {
    var p := path + n.prefix;
    if Has(n.kids[i], k, v) {
      OnPath(n.kids[i], p + [n.bytes[i]], k, v);
    }
    if Has(n, k, v) && p + [n.bytes[i]] <= k {
      var j :| 0 <= j < |n.kids| && Has(n.kids[j], k, v);
      OnPath(n.kids[j], p + [n.bytes[j]], k, v);
      assert k[|p|] == (p + [n.bytes[j]])[|p|];
      assert k[|p|] == (p + [n.bytes[i]])[|p|];
    }
  }

  /** The key that ends at an inner node is stored in that node's own leaf and nowhere else. */
  lemma AtNode<V>(n: Node<V>, path: Key, v: V)
    requires WF(n, path) && n.Inner?
    ensures Has(n, path + n.prefix, v) <==> n.leaf.Some? && n.leaf.value.1 == v
  {
    var p := path + n.prefix;
    if Has(n, p, v) && n.leaf != Some((p, v)) {
      var i :| 0 <= i < |n.kids| && Has(n.kids[i], p, v);
      OnPath(n.kids[i], p + [n.bytes[i]], p, v);
    }
  }

  /** One key has one value. */
  lemma {:induction false} Functional<V>(n: Node<V>, path: Key, k: Key, v: V, w: V)
    requires WF(n, path) && Has(n, k, v) && Has(n, k, w)
    ensures v == w
    decreases n
  {
    if n.Inner? {
      var p := path + n.prefix;
      OnPath(n, path, k, v);
      if k == p {
        AtNode(n, path, v);
        AtNode(n, path, w);
      } else {
        var i :| 0 <= i < |n.kids| && Has(n.kids[i], k, v);
        InChild(n, path, i, k, v);
        InChild(n, path, i, k, w);
        Functional(n.kids[i], p + [n.bytes[i]], k, v, w);
      }
    }
  }

  /** Some key stored in a subtree; subtrees are never empty. */
  ghost function Sample<V>(n: Node<V>, path: Key): (r: (Key, V))
    requires WF(n, path)
    ensures Has(n, r.0, r.1)
    decreases n
  {
    match n
    case Leaf(k, v) => (k, v)
    case Inner(_, prefix, leaf, bytes, kids) =>
      if leaf.Some? then leaf.value
      else
        var r := Sample(kids[0], path + prefix + [bytes[0]]);
        assert Has(kids[0], r.0, r.1);
        r
  }

  // ---------------------------------------------------------------- canonical form

  /** An inner node stores two keys that part right after its prefix. */
  lemma Branches<V>(n: Node<V>, path: Key) returns (a: (Key, V), b: (Key, V))
    requires WF(n, path) && n.Inner?
    ensures Has(n, a.0, a.1) && Has(n, b.0, b.1)
    ensures path + n.prefix <= a.0 && path + n.prefix <= b.0
    ensures |b.0| > |path + n.prefix|
    ensures |a.0| == |path + n.prefix| || a.0[|path + n.prefix|] != b.0[|path + n.prefix|]
  {
    var p := path + n.prefix;
    var last := |n.kids| - 1;
    b := Sample(n.kids[last], p + [n.bytes[last]]);
    InChild(n, path, last, b.0, b.1);
    assert b.0[|p|] == (p + [n.bytes[last]])[|p|];
    if n.leaf.Some? {
      a := n.leaf.value;
    } else {
      a := Sample(n.kids[0], p + [n.bytes[0]]);
      InChild(n, path, 0, a.0, a.1);
      assert a.0[|p|] == (p + [n.bytes[0]])[|p|];
    }
    OnPath(n, path, a.0, a.1);
    OnPath(n, path, b.0, b.1);
  }

  ghost predicate SameContents<V(!new)>(m: Node<V>, n: Node<V>)
  {
    forall k, v :: Has(m, k, v) <==> Has(n, k, v)
  }

  /** With equal contents neither prefix can be longer than the other. */
  lemma PrefixNotLonger<V(!new)>(m: Node<V>, n: Node<V>, path: Key)
    requires WF(m, path) && WF(n, path) && m.Inner? && n.Inner? && SameContents(m, n)
    ensures |n.prefix| <= |m.prefix|
    ensures m.prefix[..|n.prefix|] == n.prefix
  {
    var a, b := Branches(m, path);
    OnPath(n, path, a.0, a.1);
    OnPath(n, path, b.0, b.1);
    var p, q := path + m.prefix, path + n.prefix;
    assert forall i :: 0 <= i < |q| ==> a.0[i] == q[i] == b.0[i];
    assert forall i :: 0 <= i < |p| ==> a.0[i] == p[i];
    assert |q| <= |p|;
    assert forall i :: 0 <= i < |n.prefix| ==> n.prefix[i] == q[|path| + i] && m.prefix[i] == p[|path| + i];
  }

  /** Branch bytes can be read off the contents. */
  lemma BranchByte<V(!new)>(m: Node<V>, n: Node<V>, path: Key, c: Byte)
    requires WF(m, path) && WF(n, path) && m.Inner? && n.Inner? && SameContents(m, n)
    requires m.prefix == n.prefix && c in m.bytes
    ensures c in n.bytes
  {
    var p := path + m.prefix;
    var i :| 0 <= i < |m.bytes| && m.bytes[i] == c;
    var s := Sample(m.kids[i], p + [c]);
    InChild(m, path, i, s.0, s.1);
    assert s.0[|p|] == (p + [c])[|p|];
    assert Has(n, s.0, s.1);
    assert n.leaf != Some((s.0, s.1));
    var j :| 0 <= j < |n.kids| && Has(n.kids[j], s.0, s.1);
    InChild(n, path, j, s.0, s.1);
    assert s.0[|p|] == (p + [n.bytes[j]])[|p|];
  }

  /** Main theorem: the tree is a function of its contents. Whatever sequence of insertions and
      deletions built them, two trees holding the same entries are the same tree: same
      prefixes, same branch bytes, same layouts. */
  lemma {:induction false} Canonical<V(!new)>(m: Node<V>, n: Node<V>, path: Key)
    requires WF(m, path) && WF(n, path) && SameContents(m, n)
    ensures m == n
    decreases m
  {
    if m.Leaf? && n.Leaf? {
      assert Has(m, m.key, m.val);
    } else if m.Leaf? {
      var a, b := Branches(n, path);
      assert false;
    } else if n.Leaf? {
      var a, b := Branches(m, path);
      assert false;
    } else {
      PrefixNotLonger(m, n, path);
      PrefixNotLonger(n, m, path);
      assert m.prefix == n.prefix;
      CanonicalInner(m, n, path);
    }
  }

  lemma {:induction false} CanonicalInner<V(!new)>(m: Node<V>, n: Node<V>, path: Key)
    requires WF(m, path) && WF(n, path) && m.Inner? && n.Inner? && SameContents(m, n)
    requires m.prefix == n.prefix
    ensures m == n
    decreases m, 0
  {
    var p := path + m.prefix;
    forall c ensures c in m.bytes <==> c in n.bytes {
      if c in m.bytes { BranchByte(m, n, path, c); }
      if c in n.bytes { BranchByte(n, m, path, c); }
    }
    SortedUnique(m.bytes, n.bytes);
    assert m.leaf == n.leaf by {
      if m.leaf.Some? { AtNode(m, path, m.leaf.value.1); AtNode(n, path, m.leaf.value.1); }
      if n.leaf.Some? { AtNode(m, path, n.leaf.value.1); AtNode(n, path, n.leaf.value.1); }
    }
    forall i | 0 <= i < |m.kids| ensures m.kids[i] == n.kids[i] {
      forall k, v ensures Has(m.kids[i], k, v) <==> Has(n.kids[i], k, v) {
        InChild(m, path, i, k, v);
        InChild(n, path, i, k, v);
      }
      Canonical(m.kids[i], n.kids[i], p + [m.bytes[i]]);
    }
    assert m.kids == n.kids;
  }

  // ---------------------------------------------------------------- shape

  function EraseAll<V>(kids: seq<Node<V>>): (r: seq<Node<()>>)
    ensures |r| == |kids|
    ensures forall i :: 0 <= i < |kids| ==> r[i] == Erase(kids[i])
  {
    if |kids| == 0 then [] else [Erase(kids[0])] + EraseAll(kids[1..])
  }

  /** The shape of a tree: everything but the values. */
  function Erase<V>(n: Node<V>): Node<()>
  {
    match n
    case Leaf(k, _) => Leaf(k, ())
    case Inner(kind, prefix, leaf, bytes, kids) =>
      Inner(kind, prefix, if leaf.Some? then Some((leaf.value.0, ())) else None, bytes, EraseAll(kids))
  }

  ghost predicate HasKey<V(!new)>(n: Node<V>, k: Key)
  {
    exists v :: Has(n, k, v)
  }

  lemma {:induction false} EraseFacts<V(!new)>(n: Node<V>, path: Key)
    requires WF(n, path)
    ensures WF(Erase(n), path)
    ensures forall k :: Has(Erase(n), k, ()) <==> HasKey(n, k)
    decreases n
  {
    match n
    case Leaf(k, v) =>
      assert Has(n, k, v);
    case Inner(kind, prefix, leaf, bytes, kids) =>
      var e := Erase(n);
      forall i | 0 <= i < |kids|
        ensures WF(e.kids[i], path + prefix + [bytes[i]])
        ensures forall k :: Has(e.kids[i], k, ()) <==> HasKey(kids[i], k)
      {
        EraseFacts(kids[i], path + prefix + [bytes[i]]);
      }
      forall k ensures Has(e, k, ()) <==> HasKey(n, k) {
        EraseKey(n, k);
      }
  }

  lemma EraseKey<V(!new)>(n: Node<V>, k: Key)
    requires n.Inner?
    requires forall i :: 0 <= i < |n.kids| ==> (Has(Erase(n.kids[i]), k, ()) <==> HasKey(n.kids[i], k))
    ensures Has(Erase(n), k, ()) <==> HasKey(n, k)
  {
    var e := Erase(n);
    if HasKey(n, k) {
      var v :| Has(n, k, v);
      if n.leaf != Some((k, v)) {
        var i :| 0 <= i < |n.kids| && Has(n.kids[i], k, v);
        assert Has(e.kids[i], k, ());
      }
    }
    if Has(e, k, ()) {
      if e.leaf == Some((k, ())) {
        assert Has(n, k, n.leaf.value.1);
      } else {
        var i :| 0 <= i < |n.kids| && Has(e.kids[i], k, ());
        var v :| Has(n.kids[i], k, v);
        assert Has(n, k, v);
      }
    }
  }

  /** Main theorem: the shape depends on the set of keys alone. */
  lemma ShapeFromKeys<V(!new)>(m: Node<V>, n: Node<V>, path: Key)
    requires WF(m, path) && WF(n, path)
    requires forall k :: HasKey(m, k) <==> HasKey(n, k)
    ensures Erase(m) == Erase(n)
  {
    EraseFacts(m, path);
    EraseFacts(n, path);
    forall k, u ensures Has(Erase(m), k, u) <==> Has(Erase(n), k, u) {
      assert u == ();
    }
    Canonical(Erase(m), Erase(n), path);
  }
}
