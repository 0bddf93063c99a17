/** Byte-string keys, their lexicographic order, and the sorted byte lists that index the
    children of a radix-tree node (art/node.go, art/tree.go). */
module ArtKeys {
  import opened Lists
  import Bits

  type Byte = Bits.Byte
  type Key = seq<Byte>

  // ---------------------------------------------------------------- keys

  /** m is the length of the longest common prefix of two keys. */
  ghost predicate Parts(a: Key, b: Key, m: nat)
  {
    && m <= |a| && m <= |b|
    && a[..m] == b[..m]
    && (m < |a| && m < |b| ==> a[m] != b[m])
  }

  lemma {:induction false} PartsSomewhere(a: Key, b: Key)
    ensures exists m: nat :: Parts(a, b, m)
  {
    if |a| == 0 || |b| == 0 || a[0] != b[0] {
      assert Parts(a, b, 0);
    } else {
      PartsSomewhere(a[1..], b[1..]);
      var r: nat :| Parts(a[1..], b[1..], r);
      assert a[..1 + r] == [a[0]] + a[1..][..r];
      assert b[..1 + r] == [b[0]] + b[1..][..r];
      assert Parts(a, b, 1 + r);
    }
  }

  /** Length of the longest common prefix. */
  ghost function Common(a: Key, b: Key): (m: nat)
    ensures Parts(a, b, m)
  {
    PartsSomewhere(a, b);
    var m: nat :| Parts(a, b, m);
    m
  }

  /** Go's `<` on strings: byte-lexicographic, a proper prefix comes first. */
  predicate Less(a: Key, b: Key)
  {
    exists m :: 0 <= m <= |a| && m < |b| && a[..m] == b[..m] && (m == |a| || a[m] < b[m])
  }

  lemma LessIs(a: Key, b: Key, m: nat)
    requires Parts(a, b, m)
    ensures Less(a, b) <==> m < |b| && (m == |a| || a[m] < b[m])
  {
    if Less(a, b) {
      var w :| 0 <= w <= |a| && w < |b| && a[..w] == b[..w] && (w == |a| || a[w] < b[w]);
      CommonIs(a, b, w);
      CommonIs(a, b, m);
    }
  }

  /** The position of the first difference is unique. */
  lemma CommonIs(a: Key, b: Key, m: nat)
    requires m <= |a| && m <= |b| && a[..m] == b[..m]
    requires m == |a| || m == |b| || a[m] != b[m]
    ensures Common(a, b) == m
  {
    var c := Common(a, b);
    assert forall i :: 0 <= i < m ==> a[i] == a[..m][i] == b[..m][i] == b[i];
    assert forall i :: 0 <= i < c ==> a[i] == a[..c][i] == b[..c][i] == b[i];
  }

  /** `Less` is a strict total order. */
  lemma LessTotal(a: Key, b: Key)
    ensures !(Less(a, b) && Less(b, a))
    ensures Less(a, b) || Less(b, a) || a == b
    ensures !Less(a, a)
  {
    var m := Common(a, b);
    LessIs(a, b, m);
    LessIs(b, a, m);
    LessIs(a, a, |a|);
    if m == |a| && m == |b| {
      assert a == a[..m] == b[..m] == b;
    }
  }

  /** Keys that branch on different bytes after a shared prefix are ordered by those bytes. */
  lemma BranchOrder(p: Key, x: Byte, y: Byte, a: Key, b: Key)
    requires p + [x] <= a && p + [y] <= b && x < y
    ensures Less(a, b)
  {
    var m := |p|;
    assert a[..m] == p && b[..m] == p by {
      assert a[..m] == (p + [x])[..m];
      assert b[..m] == (p + [y])[..m];
    }
    assert a[m] == (p + [x])[m] && b[m] == (p + [y])[m];
    LessIs(a, b, m);
  }

  /** A key comes before each of its proper extensions. */
  lemma ExtensionOrder(p: Key, a: Key)
    requires p <= a && |p| < |a|
    ensures Less(p, a)
  {
    LessIs(p, a, |p|);
  }

  // ---------------------------------------------------------------- sorted byte lists

  ghost predicate Sorted(bs: seq<Byte>)
  {
    forall i, j :: 0 <= i < j < |bs| ==> bs[i] < bs[j]
  }

  function Insert<T>(s: seq<T>, i: nat, x: T): seq<T>
    requires i <= |s|
  {
    s[..i] + [x] + s[i..]
  }

  /** Where `addChild` puts a new byte: before the first larger one. */
  function Slot(bs: seq<Byte>, c: Byte): (pos: nat)
    ensures pos <= |bs|
    ensures forall i :: 0 <= i < pos ==> bs[i] <= c
    ensures pos < |bs| ==> c < bs[pos]
  {
    if |bs| == 0 || c < bs[0] then 0 else 1 + Slot(bs[1..], c)
  }

  /** Position of byte c, or |bs| when it is absent. */
  function Find(bs: seq<Byte>, c: Byte): (pos: nat)
    ensures pos <= |bs|
    ensures pos < |bs| ==> bs[pos] == c
    ensures pos == |bs| ==> c !in bs
  {
    if |bs| == 0 || bs[0] == c then 0 else 1 + Find(bs[1..], c)
  }

  lemma InsertKeepsSorted(bs: seq<Byte>, c: Byte)
    requires Sorted(bs) && c !in bs
    ensures Sorted(Insert(bs, Slot(bs, c), c))
  {
    var pos := Slot(bs, c);
    var r := Insert(bs, pos, c);
    forall i, j | 0 <= i < j < |r| ensures r[i] < r[j] {
      if i < pos { assert bs[i] <= c && bs[i] in bs; }
      if pos < j && pos < |bs| { assert bs[pos] <= bs[j - 1]; }
    }
  }

  lemma RemoveKeepsSorted(bs: seq<Byte>, i: nat)
    requires Sorted(bs) && i < |bs|
    ensures Sorted(Cut(bs, i))
    ensures forall c :: c in Cut(bs, i) <==> c in bs && c != bs[i]
  {
    var r := Cut(bs, i);
    assert forall k :: 0 <= k < |r| ==> r[k] == if k < i then bs[k] else bs[k + 1];
    forall c | c in bs && c != bs[i] ensures c in r {
      var k :| 0 <= k < |bs| && bs[k] == c;
      assert r[if k < i then k else k - 1] == c;
    }
  }

  /** A strictly sorted list is determined by its set of elements. */
  lemma {:induction false} SortedUnique(a: seq<Byte>, b: seq<Byte>)
    requires Sorted(a) && Sorted(b)
    requires forall c :: c in a <==> c in b
    ensures a == b
  {
    assert |a| > 0 ==> a[0] in b;
    assert |b| > 0 ==> b[0] in a;
    if |a| > 0 {
      assert a[0] == b[0];
      forall c ensures c in a[1..] <==> c in b[1..] {
        if c in a[1..] { assert c in a && c != a[0]; }
        if c in b[1..] { assert c in b && c != b[0]; }
      }
      SortedUnique(a[1..], b[1..]);
      assert a == [a[0]] + a[1..] && b == [b[0]] + b[1..];
    }
  }
}
