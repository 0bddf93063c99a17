/** Lookup, insertion and deletion in the radix tree (art/tree.go). */
module ArtOps {
  import opened Lists
  import opened ArtKeys
  import opened ArtTree

  // ---------------------------------------------------------------- node surgery

  /** Everything `WF` asks of an inner node except its branch count and layout. */
  ghost predicate Loose<V>(n: Node<V>, path: Key)
  {
    && n.Inner?
    && (n.leaf.Some? ==> n.leaf.value.0 == path + n.prefix)
    && |n.bytes| == |n.kids|
    && Sorted(n.bytes)
    && forall i :: 0 <= i < |n.kids| ==> WF(n.kids[i], path + n.prefix + [n.bytes[i]])
  }

  function AddChild<V>(n: Node<V>, c: Byte, ch: Node<V>): Node<V>
    requires n.Inner? && |n.bytes| == |n.kids|
  {
    var pos := Slot(n.bytes, c);
    n.(bytes := Insert(n.bytes, pos, c), kids := Insert(n.kids, pos, ch))
  }

  function RemoveChildAt<V>(n: Node<V>, i: nat): Node<V>
    requires n.Inner? && |n.bytes| == |n.kids| && i < |n.kids|
  {
    n.(bytes := Cut(n.bytes, i), kids := Cut(n.kids, i))
  }

  function SetChild<V>(n: Node<V>, i: nat, ch: Node<V>): Node<V>
    requires n.Inner? && i < |n.kids|
  {
    n.(kids := n.kids[i := ch])
  }

  lemma AddChildAt<V>(n: Node<V>, pos: nat, c: Byte, ch: Node<V>, k: Key, v: V)
    requires n.Inner? && pos <= |n.kids| == |n.bytes|
    ensures Has(n.(bytes := Insert(n.bytes, pos, c), kids := Insert(n.kids, pos, ch)), k, v) <==>
            Has(n, k, v) || Has(ch, k, v)
  {
    var r := n.(bytes := Insert(n.bytes, pos, c), kids := Insert(n.kids, pos, ch));
    assert r.kids[pos] == ch;
    forall i | 0 <= i < |n.kids| ensures Has(n.kids[i], k, v) ==> Has(r, k, v) {
      assert n.kids[i] == r.kids[if i < pos then i else i + 1];
    }
    forall i | 0 <= i < |r.kids| ensures Has(r.kids[i], k, v) ==> Has(n, k, v) || Has(ch, k, v) {
      assert i == pos || r.kids[i] == n.kids[if i < pos then i else i - 1];
    }
  }

  lemma AddChildFacts<V(!new)>(n: Node<V>, path: Key, c: Byte, ch: Node<V>)
    requires Loose(n, path) && c !in n.bytes && WF(ch, path + n.prefix + [c])
    ensures Loose(AddChild(n, c, ch), path)
    ensures forall k, v :: Has(AddChild(n, c, ch), k, v) <==> Has(n, k, v) || Has(ch, k, v)
  {
    var r, pos := AddChild(n, c, ch), Slot(n.bytes, c);
    InsertKeepsSorted(n.bytes, c);
    forall i | 0 <= i < |r.kids| ensures WF(r.kids[i], path + n.prefix + [r.bytes[i]]) {
      if i != pos {
        var j := if i < pos then i else i - 1;
        assert r.kids[i] == n.kids[j] && r.bytes[i] == n.bytes[j];
      }
    }
    forall k, v ensures Has(r, k, v) <==> Has(n, k, v) || Has(ch, k, v) {
      AddChildAt(n, pos, c, ch, k, v);
    }
  }

  lemma RemoveChildHas<V>(n: Node<V>, i: nat, k: Key, v: V)
    requires n.Inner? && i < |n.kids| == |n.bytes|
    ensures Has(n, k, v) <==> Has(RemoveChildAt(n, i), k, v) || Has(n.kids[i], k, v)
  {
    var r := RemoveChildAt(n, i);
    forall j | 0 <= j < |r.kids| ensures Has(r.kids[j], k, v) ==> Has(n, k, v) {
      assert r.kids[j] == n.kids[if j < i then j else j + 1];
    }
    forall j | 0 <= j < |n.kids| && j != i ensures Has(n.kids[j], k, v) ==> Has(r, k, v) {
      assert n.kids[j] == r.kids[if j < i then j else j - 1];
    }
  }

  lemma RemoveChildFacts<V(!new)>(n: Node<V>, path: Key, i: nat)
    requires Loose(n, path) && i < |n.kids|
    ensures Loose(RemoveChildAt(n, i), path)
    ensures forall k, v :: Has(n, k, v) <==> Has(RemoveChildAt(n, i), k, v) || Has(n.kids[i], k, v)
  {
    var r := RemoveChildAt(n, i);
    RemoveKeepsSorted(n.bytes, i);
    forall j | 0 <= j < |r.kids| ensures WF(r.kids[j], path + n.prefix + [r.bytes[j]]) {
      var t := if j < i then j else j + 1;
      assert r.kids[j] == n.kids[t] && r.bytes[j] == n.bytes[t];
    }
    forall k, v ensures Has(n, k, v) <==> Has(r, k, v) || Has(n.kids[i], k, v) {
      RemoveChildHas(n, i, k, v);
    }
  }

  lemma OneChild<V>(n: Node<V>, path: Key, i: nat, j: nat, k: Key, v: V)
    requires WF(n, path) && n.Inner? && i < |n.kids| && j < |n.kids|
    ensures Has(n.kids[i], k, v) && Has(n.kids[j], k, v) ==> i == j
  {
    InChild(n, path, i, k, v);
    InChild(n, path, j, k, v);
    var p := path + n.prefix;
    assert p + [n.bytes[i]] <= k ==> k[|p|] == (p + [n.bytes[i]])[|p|];
    assert p + [n.bytes[j]] <= k ==> k[|p|] == (p + [n.bytes[j]])[|p|];
  }

  lemma SetChildAt<V>(n: Node<V>, path: Key, i: nat, ch: Node<V>, k: Key, v: V)
    requires WF(n, path) && n.Inner? && i < |n.kids| && WF(ch, path + n.prefix + [n.bytes[i]])
    ensures WF(SetChild(n, i, ch), path)
    ensures Has(SetChild(n, i, ch), k, v) <==> Has(ch, k, v) || (Has(n, k, v) && !Has(n.kids[i], k, v))
  {
    var r := SetChild(n, i, ch);
    InChild(n, path, i, k, v);
    InChild(r, path, i, k, v);
    if Has(r, k, v) && !Has(ch, k, v) {
      assert !(path + n.prefix + [n.bytes[i]] <= k);
      if r.leaf != Some((k, v)) {
        var j :| 0 <= j < |r.kids| && Has(r.kids[j], k, v);
        assert Has(n.kids[j], k, v);
      }
    }
    if Has(n, k, v) && !Has(n.kids[i], k, v) && n.leaf != Some((k, v)) {
      var j :| 0 <= j < |n.kids| && Has(n.kids[j], k, v);
      assert Has(r.kids[j], k, v);
    }
  }

  /** Replacing one child by its updated version updates the whole node in the same way. */
  lemma PutBelow<V(!new)>(n: Node<V>, path: Key, key: Key, val: V, i: nat, ch: Node<V>)
    requires WF(n, path) && n.Inner? && i < |n.kids| && path + n.prefix + [n.bytes[i]] <= key
    requires WF(ch, path + n.prefix + [n.bytes[i]])
    requires forall k, v :: Has(ch, k, v) <==> if k == key then v == val else Has(n.kids[i], k, v)
    ensures WF(SetChild(n, i, ch), path)
    ensures forall k, v :: Has(SetChild(n, i, ch), k, v) <==> if k == key then v == val else Has(n, k, v)
  {
    SetChildAt(n, path, i, ch, key, val);
    forall k, v ensures Has(SetChild(n, i, ch), k, v) <==> if k == key then v == val else Has(n, k, v) {
      SetChildAt(n, path, i, ch, k, v);
      InChild(n, path, i, k, v);
    }
  }

  lemma DelBelow<V(!new)>(n: Node<V>, path: Key, key: Key, i: nat, ch: Node<V>)
    requires WF(n, path) && n.Inner? && i < |n.kids| && path + n.prefix + [n.bytes[i]] <= key
    requires WF(ch, path + n.prefix + [n.bytes[i]])
    requires forall k, v :: Has(ch, k, v) <==> k != key && Has(n.kids[i], k, v)
    ensures WF(SetChild(n, i, ch), path)
    ensures forall k, v :: Has(SetChild(n, i, ch), k, v) <==> k != key && Has(n, k, v)
  {
    var s := Sample(ch, path + n.prefix + [n.bytes[i]]);
    SetChildAt(n, path, i, ch, s.0, s.1);
    forall k, v ensures Has(SetChild(n, i, ch), k, v) <==> k != key && Has(n, k, v) {
      SetChildAt(n, path, i, ch, k, v);
      InChild(n, path, i, k, v);
    }
  }

  /** Storing a value in the node's own leaf. */
  lemma PutHere<V(!new)>(n: Node<V>, path: Key, val: V)
    requires WF(n, path) && n.Inner?
    ensures WF(n.(leaf := Some((path + n.prefix, val))), path)
    ensures forall k, v :: Has(n.(leaf := Some((path + n.prefix, val))), k, v) <==>
                           if k == path + n.prefix then v == val else Has(n, k, v)
  {
    var r := n.(leaf := Some((path + n.prefix, val)));
    forall k, v ensures Has(r, k, v) <==> if k == path + n.prefix then v == val else Has(n, k, v) {
      AtNode(n, path, v);
      AtNode(r, path, v);
    }
  }

  lemma DelHere<V(!new)>(n: Node<V>, path: Key)
    requires WF(n, path) && n.Inner?
    ensures Loose(n.(leaf := None), path)
    ensures forall k, v :: Has(n.(leaf := None), k, v) <==> k != path + n.prefix && Has(n, k, v)
  {
    forall k, v ensures Has(n.(leaf := None), k, v) <==> k != path + n.prefix && Has(n, k, v) {
      forall i | 0 <= i < |n.kids| { InChild(n, path, i, k, v); }
    }
  }

  lemma DelLast<V(!new)>(n: Node<V>, path: Key, key: Key, i: nat)
    requires WF(n, path) && n.Inner? && i < |n.kids| && path + n.prefix + [n.bytes[i]] <= key
    requires forall k, v :: Has(n.kids[i], k, v) ==> k == key
    ensures Loose(RemoveChildAt(n, i), path)
    ensures forall k, v :: Has(RemoveChildAt(n, i), k, v) <==> k != key && Has(n, k, v)
  {
    RemoveChildFacts(n, path, i);
    var r := RemoveChildAt(n, i);
    forall k, v ensures Has(r, k, v) ==> k != key {
      if Has(r, k, v) && k == key {
        InChild(n, path, i, k, v);
        GoneFrom(n, path, i, k, v);
      }
    }
  }

  lemma GoneFrom<V>(n: Node<V>, path: Key, i: nat, k: Key, v: V)
    requires WF(n, path) && n.Inner? && i < |n.kids| && Has(n.kids[i], k, v)
    ensures !Has(RemoveChildAt(n, i), k, v)
  {
    var r := RemoveChildAt(n, i);
    InChild(n, path, i, k, v);
    assert forall j :: 0 <= j < |r.kids| ==> r.kids[j] == n.kids[if j < i then j else j + 1];
    forall j | 0 <= j < |r.kids| ensures !Has(r.kids[j], k, v) {
      OneChild(n, path, i, if j < i then j else j + 1, k, v);
    }
    AtNode(n, path, v);
    assert |k| > |path + n.prefix|;
  }

  /** A new node4 with its own entry and one child. */
  lemma LeafAndChild<V(!new)>(path: Key, prefix: Key, val: V, c: Byte, ch: Node<V>)
    requires WF(ch, path + prefix + [c])
    ensures var r := AddChild(Inner(N4, prefix, Some((path + prefix, val)), [], []), c, ch);
            && WF(r, path)
            && forall k, v :: Has(r, k, v) <==> (k == path + prefix && v == val) || Has(ch, k, v)
  {
    AddChildFacts(Inner(N4, prefix, Some((path + prefix, val)), [], []), path, c, ch);
  }

  lemma FirstChild<V(!new)>(path: Key, prefix: Key, c: Byte, ch: Node<V>)
    requires WF(ch, path + prefix + [c])
    ensures var one := AddChild(Inner(N4, prefix, None, [], []), c, ch);
            && Loose(one, path) && one.bytes == [c] && one.kids == [ch]
            && forall k, v :: Has(one, k, v) <==> Has(ch, k, v)
  {
    AddChildFacts(Inner(N4, prefix, None, [], []), path, c, ch);
  }

  lemma SecondChild<V(!new)>(path: Key, one: Node<V>, d: Byte, dh: Node<V>)
    requires Loose(one, path) && one.kind == N4 && |one.kids| == 1 && d !in one.bytes
    requires WF(dh, path + one.prefix + [d])
    ensures WF(AddChild(one, d, dh), path)
    ensures forall k, v :: Has(AddChild(one, d, dh), k, v) <==> Has(one, k, v) || Has(dh, k, v)
  {
    AddChildFacts(one, path, d, dh);
    assert |AddChild(one, d, dh).kids| == 2;
  }

  /** A new node4 with two children. */
  lemma TwoChildren<V(!new)>(path: Key, prefix: Key, c: Byte, ch: Node<V>, d: Byte, dh: Node<V>)
    requires WF(ch, path + prefix + [c]) && WF(dh, path + prefix + [d]) && c != d
    ensures var r := AddChild(AddChild(Inner(N4, prefix, None, [], []), c, ch), d, dh);
            && WF(r, path)
            && forall k, v :: Has(r, k, v) <==> Has(ch, k, v) || Has(dh, k, v)
  {
    FirstChild(path, prefix, c, ch);
    SecondChild(path, AddChild(Inner(N4, prefix, None, [], []), c, ch), d, dh);
  }

  // ---------------------------------------------------------------- loops over prefixes

  /** `checkPrefix`: does key[depth:] start with the node's prefix? */
  predicate CheckPrefix(prefix: Key, key: Key, depth: nat)
  {
    |prefix| == 0 || (depth + |prefix| <= |key| && key[depth..depth + |prefix|] == prefix)
  }

  /** `prefixMismatch`: first position where the prefix and key[depth:] part. */
  method PrefixMismatch(prefix: Key, key: Key, depth: nat) returns (m: nat)
    requires depth <= |key|
    ensures m == Common(prefix, key[depth..])
  {
    m := 0;
    while m < |prefix|
      invariant m <= |prefix| && depth + m <= |key|
      invariant prefix[..m] == key[depth..][..m]
    {
      if depth + m >= |key| || prefix[m] != key[depth + m] {
        CommonIs(prefix, key[depth..], m);
        return;
      }
      m := m + 1;
    }
    CommonIs(prefix, key[depth..], m);
  }

  /** The scanning loop of `splitLeaf`. */
  method PrefixEnd(a: Key, b: Key, depth: nat) returns (e: nat)
    requires depth <= |a| && depth <= |b| && a[..depth] == b[..depth]
    ensures e == Common(a, b) && depth <= e
  {
    e := depth;
    while e < |a| && e < |b| && a[e] == b[e]
      invariant depth <= e <= |a| && e <= |b| && a[..e] == b[..e]
    {
      e := e + 1;
    }
    CommonIs(a, b, e);
  }

  /** i is the position of c, or the length when c is absent. */
  ghost predicate IsIndex(bs: seq<Byte>, c: Byte, i: nat)
  {
    i <= |bs| && if i < |bs| then bs[i] == c else c !in bs
  }

  /** The search for a child among the sorted bytes. */
  method IndexOf(bs: seq<Byte>, c: Byte) returns (i: nat)
    ensures IsIndex(bs, c, i)
  {
    i := 0;
    while i < |bs| && bs[i] != c
      invariant i <= |bs| && forall j :: 0 <= j < i ==> bs[j] != c
    {
      i := i + 1;
    }
  }

  // ---------------------------------------------------------------- Get

  method Get<V(!new)>(root: Option<Node<V>>, key: Key) returns (r: Option<V>)
    requires OptWF(root, [])
    ensures forall v :: r == Some(v) <==> OptHas(root, key, v)
  {
    if root.None? { return None; }
    var n, depth := root.value, 0;
    assert key[..0] == [];
    while true
      invariant depth <= |key| && WF(n, key[..depth])
      invariant forall v :: Has(root.value, key, v) <==> Has(n, key, v)
      decreases n
    {
      match n
      case Leaf(k, v) =>
        return if k == key then Some(v) else None;
      case Inner(_, prefix, leaf, bytes, kids) =>
        ghost var path := key[..depth];
        if !CheckPrefix(prefix, key, depth) {
          NotUnder(n, path, key);
          return None;
        }
        depth := depth + |prefix|;
        assert key[..depth] == path + prefix;
        forall v { AtNode(n, path, v); }
        if depth == |key| {
          assert path + prefix == key;
          return if leaf.Some? then Some(leaf.value.1) else None;
        }
        var i := IndexOf(bytes, key[depth]);
        NextChild(n, path, key, i);
        if i == |bytes| { return None; }
        depth := depth + 1;
        assert key[..depth] == path + prefix + [bytes[i]];
        n := kids[i];
    }
  }

  /** Every stored key runs through the node's compressed path. */
  lemma UnderPrefix<V>(n: Node<V>, path: Key, k: Key, v: V)
    requires WF(n, path) && n.Inner? && Has(n, k, v)
    ensures CheckPrefix(n.prefix, k, |path|)
    ensures forall m :: 0 <= m < |n.prefix| ==> k[|path| + m] == n.prefix[m]
  {
    OnPath(n, path, k, v);
    var p := path + n.prefix;
    assert k[..|p|] == p;
    assert k[|path|..|p|] == p[|path|..] == n.prefix;
  }

  /** A key that leaves the compressed path is not stored below it. */
  lemma NotUnder<V(!new)>(n: Node<V>, path: Key, key: Key)
    requires WF(n, path) && n.Inner?
    requires !CheckPrefix(n.prefix, key, |path|)
    ensures forall v :: !Has(n, key, v)
  {
    forall v ensures !Has(n, key, v) {
      if Has(n, key, v) { UnderPrefix(n, path, key, v); }
    }
  }

  /** A longer key can only be stored in the child that continues with its next byte. */
  lemma NextChild<V(!new)>(n: Node<V>, path: Key, key: Key, i: nat)
    requires WF(n, path) && n.Inner? && path + n.prefix <= key && |path + n.prefix| < |key|
    requires IsIndex(n.bytes, key[|path + n.prefix|], i)
    ensures i < |n.kids| ==> forall v :: Has(n, key, v) <==> Has(n.kids[i], key, v)
    ensures i == |n.kids| ==> forall v :: !Has(n, key, v)
  {
    var p := path + n.prefix;
    forall v | Has(n, key, v) ensures i < |n.kids| && Has(n.kids[i], key, v) {
      var j :| 0 <= j < |n.kids| && Has(n.kids[j], key, v);
      InChild(n, path, j, key, v);
      assert key[|p|] == (p + [n.bytes[j]])[|p|];
    }
  }

  // ---------------------------------------------------------------- Put

  /** Insert or replace below a node reached by key[..depth]. */
  method Put<V(!new)>(n: Option<Node<V>>, key: Key, val: V, depth: nat)
    returns (prev: Option<V>, out: Node<V>)
    requires depth <= |key| && OptWF(n, key[..depth])
    ensures WF(out, key[..depth])
    ensures forall v :: prev == Some(v) <==> OptHas(n, key, v)
    ensures forall k, v :: Has(out, k, v) <==> if k == key then v == val else OptHas(n, k, v)
    decreases |key| - depth, 1
  {
    if n.None? { return None, Leaf(key, val); }
    match n.value
    case Leaf(k, v) =>
      if k == key { return Some(v), Leaf(k, val); }
      prev, out := SplitLeaf(n.value, key, val, depth);
    case Inner(_, _, _, _, _) =>
      prev, out := PutInner(n.value, key, val, depth);
  }

  method SplitLeaf<V(!new)>(existing: Node<V>, key: Key, val: V, depth: nat)
    returns (prev: Option<V>, out: Node<V>)
    requires depth <= |key| && existing.Leaf? && WF(existing, key[..depth]) && existing.key != key
    ensures WF(out, key[..depth]) && prev == None
    ensures forall k, v :: Has(out, k, v) <==> Has(existing, k, v) || (k == key && v == val)
  {
    var other := existing.key;
    var e := PrefixEnd(other, key, depth);
    ghost var path := key[..depth];
    var bare := Inner(N4, key[depth..e], None, [], []);
    assert path + key[depth..e] == key[..e] == other[..e];
    if e == |key| {
      assert other[..e] + [other[e]] <= other;
      LeafAndChild(path, key[depth..e], val, other[e], existing);
      return None, AddChild(bare.(leaf := Some((key, val))), other[e], existing);
    }
    assert key[..e] + [key[e]] <= key;
    if e == |other| {
      LeafAndChild(path, key[depth..e], existing.val, key[e], Leaf(key, val));
      return None, AddChild(bare.(leaf := Some((other, existing.val))), key[e], Leaf(key, val));
    }
    assert other[..e] + [other[e]] <= other;
    TwoChildren(path, key[depth..e], other[e], existing, key[e], Leaf(key, val));
    return None, AddChild(AddChild(bare, other[e], existing), key[e], Leaf(key, val));
  }

  method PutInner<V(!new)>(n: Node<V>, key: Key, val: V, depth: nat)
    returns (prev: Option<V>, out: Node<V>)
    requires depth <= |key| && n.Inner? && WF(n, key[..depth])
    ensures WF(out, key[..depth])
    ensures forall v :: prev == Some(v) <==> Has(n, key, v)
    ensures forall k, v :: Has(out, k, v) <==> if k == key then v == val else Has(n, k, v)
    decreases |key| - depth, 0
  {
    ghost var path := key[..depth];
    var m := PrefixMismatch(n.prefix, key, depth);
    assert n.prefix[..m] == key[depth..][..m] == key[depth..depth + m];
    if m < |n.prefix| {
      SplitPoint(n, path, key, m);
      prev, out := SplitNode(n, key, val, depth, m);
      return;
    }
    var d := depth + m;
    assert key[..d] == path + n.prefix;
    forall v { AtNode(n, path, v); }
    if d == |key| {
      assert path + n.prefix == key;
      prev := if n.leaf.Some? then Some(n.leaf.value.1) else None;
      PutHere(n, path, val);
      out := n.(leaf := Some((key, val)));
      return;
    }
    var c := key[d];
    var i := IndexOf(n.bytes, c);
    NextChild(n, path, key, i);
    assert key[..d + 1] == path + n.prefix + [c];
    if i < |n.bytes| {
      var ch;
      prev, ch := Put(Some(n.kids[i]), key, val, d + 1);
      PutBelow(n, path, key, val, i, ch);
      out := SetChild(n, i, ch);
      return;
    }
    prev := None;
    out := AddOrGrow(n, c, Leaf(key, val), path);
  }

  /** A full layout is replaced by the next larger one before the child is added. */
  method AddOrGrow<V(!new)>(n: Node<V>, c: Byte, ch: Node<V>, ghost path: Key) returns (out: Node<V>)
    requires WF(n, path) && n.Inner? && c !in n.bytes && WF(ch, path + n.prefix + [c])
    ensures WF(out, path)
    ensures forall k, v :: Has(out, k, v) <==> Has(n, k, v) || Has(ch, k, v)
  {
    var grown := n;
    if |n.kids| >= Capacity(n.kind) {
      grown := n.(kind := match n.kind case N4 => N16 case N16 => N48 case _ => N256);
    }
    assert forall k, v :: Has(grown, k, v) <==> Has(n, k, v);
    AddChildFacts(grown, path, c, ch);
    out := AddChild(grown, c, ch);
  }

  /** Where the paths part, the key to insert is new. */
  lemma SplitPoint<V(!new)>(n: Node<V>, path: Key, key: Key, m: nat)
    requires WF(n, path) && n.Inner?
    requires m < |n.prefix|
    requires |path| + m >= |key| || key[|path| + m] != n.prefix[m]
    ensures forall v :: !Has(n, key, v)
  {
    forall v ensures !Has(n, key, v) {
      if Has(n, key, v) { UnderPrefix(n, path, key, v); }
    }
  }

  /** The original node moves one level down with the rest of its prefix. */
  method SplitNode<V(!new)>(n: Node<V>, key: Key, val: V, depth: nat, m: nat)
    returns (prev: Option<V>, out: Node<V>)
    requires depth + m <= |key| && n.Inner? && WF(n, key[..depth])
    requires m < |n.prefix| && n.prefix[..m] == key[depth..depth + m]
    requires depth + m < |key| ==> key[depth + m] != n.prefix[m]
    ensures WF(out, key[..depth]) && prev == None
    ensures forall k, v :: Has(out, k, v) <==> Has(n, k, v) || (k == key && v == val)
  {
    ghost var path := key[..depth];
    var bare := Inner(N4, n.prefix[..m], None, [], []);
    var splitByte := n.prefix[m];
    var lower := n.(prefix := n.prefix[m + 1..]);
    assert path + n.prefix == path + n.prefix[..m] + [splitByte] + lower.prefix;
    assert WF(lower, path + n.prefix[..m] + [splitByte]);
    assert forall k, v :: Has(lower, k, v) <==> Has(n, k, v);
    var top := AddChild(bare, splitByte, lower);
    var d := depth + m;
    assert path + n.prefix[..m] == key[..d];
    if d == |key| {
      LeafAndChild(path, n.prefix[..m], val, splitByte, lower);
      return None, top.(leaf := Some((key, val)));
    }
    assert key[..d] + [key[d]] <= key;
    TwoChildren(path, n.prefix[..m], splitByte, lower, key[d], Leaf(key, val));
    return None, AddChild(top, key[d], Leaf(key, val));
  }

  // ---------------------------------------------------------------- Delete

  method Del<V(!new)>(n: Node<V>, key: Key, depth: nat) returns (prev: Option<V>, out: Option<Node<V>>)
    requires depth <= |key| && WF(n, key[..depth])
    ensures OptWF(out, key[..depth])
    ensures forall v :: prev == Some(v) <==> Has(n, key, v)
    ensures forall k, v :: OptHas(out, k, v) <==> k != key && Has(n, k, v)
    ensures prev.None? ==> out == Some(n)
    decreases n, 1
  {
    match n
    case Leaf(k, v) =>
      if k == key { return Some(v), None; }
      return None, Some(n);
    case Inner(_, _, _, _, _) =>
      prev, out := DelInner(n, key, depth);
  }

  method DelInner<V(!new)>(n: Node<V>, key: Key, depth: nat) returns (prev: Option<V>, out: Option<Node<V>>)
    requires depth <= |key| && n.Inner? && WF(n, key[..depth])
    ensures OptWF(out, key[..depth])
    ensures forall v :: prev == Some(v) <==> Has(n, key, v)
    ensures forall k, v :: OptHas(out, k, v) <==> k != key && Has(n, k, v)
    ensures prev.None? ==> out == Some(n)
    decreases n, 0
  {
    ghost var path := key[..depth];
    if !CheckPrefix(n.prefix, key, depth) {
      NotUnder(n, path, key);
      return None, Some(n);
    }
    var d := depth + |n.prefix|;
    assert key[..d] == path + n.prefix;
    forall v { AtNode(n, path, v); }
    if d == |key| {
      assert path + n.prefix == key;
      if n.leaf.None? { return None, Some(n); }
      prev := Some(n.leaf.value.1);
      DelHere(n, path);
      out := AfterRemoval(n.(leaf := None), path);
      return;
    }
    var i := IndexOf(n.bytes, key[d]);
    NextChild(n, path, key, i);
    if i == |n.bytes| { return None, Some(n); }
    assert key[..d + 1] == path + n.prefix + [n.bytes[i]];
    var ch;
    prev, ch := Del(n.kids[i], key, d + 1);
    if prev.None? { return None, Some(n); }
    if ch.Some? {
      assert forall k, v :: Has(ch.value, k, v) <==> OptHas(ch, k, v);
      DelBelow(n, path, key, i, ch.value);
      out := Some(SetChild(n, i, ch.value));
    } else {
      DelLast(n, path, key, i);
      out := AfterRemoval(RemoveChildAt(n, i), path);
    }
  }

  /** What each layout does after losing its leaf or a child: node4 collapses to its only
      remaining branch, the others step down at 4, 16 and 48 children. */
  method AfterRemoval<V(!new)>(n: Node<V>, ghost path: Key) returns (out: Option<Node<V>>)
    requires Loose(n, path)
    requires n.kind in {KindFor(|n.kids|), KindFor(|n.kids| + 1)}
    requires |n.kids| + (if n.leaf.Some? then 1 else 0) >= 1
    ensures out.Some? && WF(out.value, path)
    ensures forall k, v :: Has(out.value, k, v) <==> Has(n, k, v)
  {
    if |n.kids| == 1 && n.leaf.None? {
      assert forall k, v :: Has(n, k, v) <==> Has(n.kids[0], k, v);
    }
    match n.kind
    case N4 =>
      if |n.kids| == 0 && n.leaf.Some? {
        return Some(Leaf(n.leaf.value.0, n.leaf.value.1));
      }
      if |n.kids| == 1 && n.leaf.None? {
        var r := MergeWithChild(n.prefix, n.bytes[0], n.kids[0], path);
        return Some(r);
      }
      return Some(n);
    case N16 => out := Some(if |n.kids| <= 4 then n.(kind := N4) else n);
    case N48 => out := Some(if |n.kids| <= 16 then n.(kind := N16) else n);
    case N256 => out := Some(if |n.kids| <= 48 then n.(kind := N48) else n);
  }

  method MergeWithChild<V(!new)>(prefix: Key, c: Byte, child: Node<V>, ghost path: Key) returns (out: Node<V>)
    requires WF(child, path + prefix + [c])
    ensures WF(out, path)
    ensures forall k, v :: Has(out, k, v) <==> Has(child, k, v)
  {
    if child.Leaf? {
      assert path <= path + prefix + [c];
      return child;
    }
    out := child.(prefix := prefix + [c] + child.prefix);
    assert path + out.prefix == path + prefix + [c] + child.prefix;
  }
}
