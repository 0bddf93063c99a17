/** Ordered traversal (art/tree.go): ForEach, Seek and ScanPrefix. */
module ArtScan {
  import opened Lists
  import opened ArtKeys
  import opened ArtTree
  import opened ArtOps

  type Entry<V> = (Key, V)

  // ---------------------------------------------------------------- specification

  /** All entries below a node, leaf first, then child by child. */
  function Entries<V>(n: Node<V>): seq<Entry<V>>
  {
    match n
    case Leaf(k, v) => [(k, v)]
    case Inner(_, _, leaf, _, kids) => (if leaf.Some? then [leaf.value] else []) + KidEntries(kids, 0)
  }

  /** The entries of the children from position i on. */
  function KidEntries<V>(kids: seq<Node<V>>, i: nat): seq<Entry<V>>
    decreases kids, |kids| - i
  {
    if i >= |kids| then [] else Entries(kids[i]) + KidEntries(kids, i + 1)
  }

  datatype Selection = All | Above(start: Key) | Under(prefix: Key)

  predicate Selects(sel: Selection, k: Key)
  {
    match sel
    case All => true
    case Above(start) => Less(start, k)
    case Under(prefix) => prefix <= k
  }

  function Keep<V>(sel: Selection, es: seq<Entry<V>>): seq<Entry<V>>
  {
    if |es| == 0 then []
    else if Selects(sel, es[0].0) then [es[0]] + Keep(sel, es[1..])
    else Keep(sel, es[1..])
  }

  // ---------------------------------------------------------------- lists

  lemma {:induction false} KeepAppend<V>(sel: Selection, a: seq<Entry<V>>, b: seq<Entry<V>>)
    ensures Keep(sel, a + b) == Keep(sel, a) + Keep(sel, b)
  {
    if |a| == 0 {
      assert a + b == b;
    } else {
      assert (a + b)[1..] == a[1..] + b;
      KeepAppend(sel, a[1..], b);
    }
  }

  lemma {:induction false} KeepUniform<V>(sel: Selection, es: seq<Entry<V>>)
    ensures (forall i :: 0 <= i < |es| ==> Selects(sel, es[i].0)) ==> Keep(sel, es) == es
    ensures (forall i :: 0 <= i < |es| ==> !Selects(sel, es[i].0)) ==> Keep(sel, es) == []
  {
    if |es| > 0 {
      KeepUniform(sel, es[1..]);
      assert es == [es[0]] + es[1..];
      assert forall i :: 0 <= i < |es| - 1 ==> es[1..][i] == es[i + 1];
    }
  }

  /** The selected sublist has exactly the selected entries ... */
  lemma {:induction false} KeepMember<V>(sel: Selection, es: seq<Entry<V>>, e: Entry<V>)
    ensures e in Keep(sel, es) <==> e in es && Selects(sel, e.0)
  {
    if |es| > 0 {
      KeepMember(sel, es[1..], e);
      assert e in es <==> e == es[0] || e in es[1..];
    }
  }

  /** ... in the same order. */
  lemma {:induction false} KeepAscends<V>(sel: Selection, es: seq<Entry<V>>)
    requires Ascending(es)
    ensures Ascending(Keep(sel, es))
  {
    if |es| > 0 {
      var rest := Keep(sel, es[1..]);
      KeepAscends(sel, es[1..]);
      forall j | 0 <= j < |rest| ensures Less(es[0].0, rest[j].0) {
        KeepMember(sel, es[1..], rest[j]);
        var i :| 0 <= i < |es[1..]| && es[1..][i] == rest[j];
      }
    }
  }

  // ---------------------------------------------------------------- order of the entries

  ghost predicate Ascending<V>(es: seq<Entry<V>>)
  {
    forall i, j :: 0 <= i < j < |es| ==> Less(es[i].0, es[j].0)
  }

  lemma {:induction false} EntriesAre<V>(n: Node<V>, e: Entry<V>)
    ensures e in Entries(n) <==> Has(n, e.0, e.1)
    decreases n
  {
    if n.Inner? {
      KidEntriesAre(n.kids, 0, e);
    }
  }

  lemma {:induction false} KidEntriesAre<V>(kids: seq<Node<V>>, from: nat, e: Entry<V>)
    ensures e in KidEntries(kids, from) <==> exists i :: from <= i < |kids| && Has(kids[i], e.0, e.1)
    decreases kids, |kids| - from
  {
    if from < |kids| {
      EntriesAre(kids[from], e);
      KidEntriesAre(kids, from + 1, e);
    }
  }

  /** Main theorem: depth-first order is strictly increasing lexicographic order. */
  lemma {:induction false} EntriesAscend<V>(n: Node<V>, path: Key)
    requires WF(n, path)
    ensures Ascending(Entries(n))
    decreases n, 1
  {
    if n.Inner? {
      var p := path + n.prefix;
      KidEntriesAscend(n, path, 0);
      var ks := KidEntries(n.kids, 0);
      forall j | 0 <= j < |ks| && n.leaf.Some? ensures Less(p, ks[j].0) {
        KidEntriesAre(n.kids, 0, ks[j]);
        var i :| 0 <= i < |n.kids| && Has(n.kids[i], ks[j].0, ks[j].1);
        InChild(n, path, i, ks[j].0, ks[j].1);
        ExtensionOrder(p, ks[j].0);
      }
    }
  }

  lemma {:induction false} KidEntriesAscend<V>(n: Node<V>, path: Key, from: nat)
    requires WF(n, path) && n.Inner? && from <= |n.kids|
    ensures Ascending(KidEntries(n.kids, from))
    decreases n, 0, |n.kids| - from
  {
    if from < |n.kids| {
      var p := path + n.prefix;
      EntriesAscend(n.kids[from], p + [n.bytes[from]]);
      KidEntriesAscend(n, path, from + 1);
      var a, b := Entries(n.kids[from]), KidEntries(n.kids, from + 1);
      forall i, j | 0 <= i < |a| && 0 <= j < |b| ensures Less(a[i].0, b[j].0) {
        EntriesAre(n.kids[from], a[i]);
        KidEntriesAre(n.kids, from + 1, b[j]);
        var t :| from < t < |n.kids| && Has(n.kids[t], b[j].0, b[j].1);
        SiblingOrder(n, path, from, t, a[i], b[j]);
      }
    }
  }

  lemma SiblingOrder<V>(n: Node<V>, path: Key, s: nat, t: nat, a: Entry<V>, b: Entry<V>)
    requires WF(n, path) && n.Inner? && s < t < |n.kids|
    requires Has(n.kids[s], a.0, a.1) && Has(n.kids[t], b.0, b.1)
    ensures Less(a.0, b.0)
  {
    var p := path + n.prefix;
    OnPath(n.kids[s], p + [n.bytes[s]], a.0, a.1);
    OnPath(n.kids[t], p + [n.bytes[t]], b.0, b.1);
    BranchOrder(p, n.bytes[s], n.bytes[t], a.0, b.0);
  }

  /** An ascending list is determined by its set of entries. */
  lemma {:induction false} AscendingUnique<V>(a: seq<Entry<V>>, b: seq<Entry<V>>)
    requires Ascending(a) && Ascending(b)
    requires forall e :: e in a <==> e in b
    ensures a == b
  {
    assert |a| > 0 ==> a[0] in b;
    assert |b| > 0 ==> b[0] in a;
    if |a| > 0 {
      LessTotal(a[0].0, b[0].0);
      forall e ensures e in a[1..] <==> e in b[1..] {
        LessTotal(a[0].0, a[0].0);
        if e in a[1..] { assert e in a; }
        if e in b[1..] { assert e in b; }
      }
      AscendingUnique(a[1..], b[1..]);
      assert a == [a[0]] + a[1..] && b == [b[0]] + b[1..];
    }
  }

  // ---------------------------------------------------------------- ForEach

  method ForEach<V>(n: Node<V>, fn: Callback<Entry<V>>, acc: seq<Entry<V>>) returns (out: seq<Entry<V>>, go: bool)
    ensures (out, go) == Feed(acc, Entries(n), fn)
    decreases n, 2
  {
    match n
    case Leaf(k, v) =>
      out := acc + [(k, v)];
      go := fn(out);
    case Inner(_, _, _, _, _) =>
      out, go := EmitAll(n, fn, acc);
  }

  /** Emit a node's own entry and all its children. */
  method EmitAll<V>(n: Node<V>, fn: Callback<Entry<V>>, acc: seq<Entry<V>>) returns (out: seq<Entry<V>>, go: bool)
    requires n.Inner?
    ensures (out, go) == Feed(acc, Entries(n), fn)
    decreases n, 1
  {
    out, go := acc, true;
    ghost var own := if n.leaf.Some? then [n.leaf.value] else [];
    FeedAppend(acc, own, KidEntries(n.kids, 0), fn);
    if n.leaf.Some? {
      out := acc + [n.leaf.value];
      go := fn(out);
      if !go { return; }
    }
    out, go := EmitKids(n, fn, out);
  }

  method EmitKids<V>(n: Node<V>, fn: Callback<Entry<V>>, acc: seq<Entry<V>>) returns (out: seq<Entry<V>>, go: bool)
    requires n.Inner?
    ensures (out, go) == Feed(acc, KidEntries(n.kids, 0), fn)
    decreases n, 0
  {
    out, go := acc, true;
    for i := 0 to |n.kids|
      invariant Feed(acc, KidEntries(n.kids, 0), fn) == Feed(out, KidEntries(n.kids, i), fn)
    {
      FeedAppend(out, Entries(n.kids[i]), KidEntries(n.kids, i + 1), fn);
      out, go := ForEach(n.kids[i], fn, out);
      if !go { return; }
    }
    go := true;
  }

  // ---------------------------------------------------------------- Seek

  /** `comparePrefixRange`: how the node's prefix compares with start[depth:]. */
  method ComparePrefixRange(prefix: Key, start: Key, depth: nat) returns (r: int)
    requires depth <= |start|
    ensures r in {-1, 0, 1}
    ensures r == 0 <==> CheckPrefix(prefix, start, depth)
    ensures r > 0 <==> var m := Common(prefix, start[depth..]);
                       m < |prefix| && (depth + m == |start| || prefix[m] > start[depth + m])
  {
    var i := 0;
    while i < |prefix|
      invariant i <= |prefix| && depth + i <= |start|
      invariant prefix[..i] == start[depth..][..i]
    {
      var si := depth + i;
      if si >= |start| || prefix[i] != start[si] {
        CommonIs(prefix, start[depth..], i);
        if si < |start| && |prefix| + depth <= |start| {
          assert start[depth..depth + |prefix|][i] != prefix[i];
        }
        return if si >= |start| || prefix[i] > start[si] then 1 else -1;
      }
      i := i + 1;
    }
    CommonIs(prefix, start[depth..], i);
    assert |prefix| > 0 ==> start[depth..depth + |prefix|] == start[depth..][..i];
    return 0;
  }

  /** How the entries of a node relate to `start` once its prefix has been compared. */
  lemma SeekCases<V>(n: Node<V>, start: Key, depth: nat, r: int)
    requires depth <= |start| && n.Inner? && WF(n, start[..depth])
    requires r == 0 <==> CheckPrefix(n.prefix, start, depth)
    requires r > 0 <==> var m := Common(n.prefix, start[depth..]);
                        m < |n.prefix| && (depth + m == |start| || n.prefix[m] > start[depth + m])
    ensures r > 0 ==> Keep(Above(start), Entries(n)) == Entries(n)
    ensures r < 0 ==> Keep(Above(start), Entries(n)) == []
  {
    var es := Entries(n);
    KeepUniform(Above(start), es);
    forall i | 0 <= i < |es| && r != 0 ensures Less(start, es[i].0) <==> r > 0 {
      EntriesAre(n, es[i]);
      SeekCase(n, start, depth, es[i].0, es[i].1);
    }
  }

  lemma SeekCase<V>(n: Node<V>, start: Key, depth: nat, k: Key, v: V)
    requires depth <= |start| && n.Inner? && WF(n, start[..depth]) && Has(n, k, v)
    requires !CheckPrefix(n.prefix, start, depth)
    ensures var m := Common(n.prefix, start[depth..]);
            Less(start, k) <==> m < |n.prefix| && (depth + m == |start| || n.prefix[m] > start[depth + m])
  {
    OnPath(n, start[..depth], k, v);
    UnderPrefix(n, start[..depth], k, v);
    MismatchAt(n.prefix, start, depth, k);
  }

  lemma FullMatch(prefix: Key, key: Key, depth: nat)
    requires depth <= |key|
    ensures CheckPrefix(prefix, key, depth) <==> Common(prefix, key[depth..]) == |prefix|
  {
    var tail := key[depth..];
    if CheckPrefix(prefix, key, depth) {
      assert tail[..|prefix|] == prefix;
      CommonIs(prefix, tail, |prefix|);
    }
    if Common(prefix, tail) == |prefix| {
      assert |prefix| > 0 ==> key[depth..depth + |prefix|] == tail[..|prefix|];
    }
  }

  /** The first difference between `start` and any key below the node is where the prefix parts. */
  lemma MismatchAt(prefix: Key, start: Key, depth: nat, k: Key)
    requires depth <= |start| && start[..depth] <= k && CheckPrefix(prefix, k, depth)
    requires !CheckPrefix(prefix, start, depth)
    ensures var m := Common(prefix, start[depth..]);
            m < |prefix| && (Less(start, k) <==> depth + m == |start| || prefix[m] > start[depth + m])
  {
    FullMatch(prefix, start, depth);
    var m := Common(prefix, start[depth..]);
    PartAt(prefix, start, depth, k, m);
    LessIs(start, k, depth + m);
  }

  lemma PartAt(prefix: Key, start: Key, depth: nat, k: Key, m: nat)
    requires m < |prefix| && depth + m <= |start| && start[..depth] <= k && depth + |prefix| <= |k|
    requires k[depth..depth + |prefix|] == prefix && prefix[..m] == start[depth..][..m]
    requires depth + m < |start| ==> prefix[m] != start[depth + m]
    ensures Parts(start, k, depth + m) && k[depth + m] == prefix[m]
  {
    assert forall i :: 0 <= i < |prefix| ==> k[depth + i] == k[depth..depth + |prefix|][i] == prefix[i];
    assert forall i :: 0 <= i < m ==> start[depth + i] == start[depth..][..m][i] == prefix[..m][i] == prefix[i];
    assert forall i :: 0 <= i < depth + m ==> start[i] == k[i] by {
      forall i | 0 <= i < depth + m ensures start[i] == k[i] {
        if i < depth {
          assert start[..depth][i] == k[..depth][i];
        } else {
          assert start[depth + (i - depth)] == prefix[i - depth];
        }
      }
    }
    assert start[..depth + m] == k[..depth + m];
  }

  /** The branch byte decides a whole child, except for the child on the path of `start`. */
  lemma SeekChild<V>(n: Node<V>, path: Key, start: Key, i: nat)
    requires n.Inner? && WF(n, path) && path + n.prefix <= start && |path + n.prefix| < |start| && i < |n.kids|
    ensures n.bytes[i] < start[|path + n.prefix|] ==> Keep(Above(start), Entries(n.kids[i])) == []
    ensures n.bytes[i] > start[|path + n.prefix|] ==> Keep(Above(start), Entries(n.kids[i])) == Entries(n.kids[i])
  {
    var es, p := Entries(n.kids[i]), path + n.prefix;
    var t := start[|p|];
    assert p + [t] <= start;
    KeepUniform(Above(start), es);
    forall j | 0 <= j < |es| ensures n.bytes[i] < t ==> !Less(start, es[j].0)
                             ensures n.bytes[i] > t ==> Less(start, es[j].0) {
      EntriesAre(n.kids[i], es[j]);
      InChild(n, path, i, es[j].0, es[j].1);
      if n.bytes[i] < t {
        BranchOrder(p, n.bytes[i], t, es[j].0, start);
        LessTotal(start, es[j].0);
      } else if n.bytes[i] > t {
        BranchOrder(p, t, n.bytes[i], start, es[j].0);
      }
    }
  }

  /** All keys strictly below an exhausted `start` are larger. */
  lemma SeekExhausted<V>(n: Node<V>, path: Key)
    requires n.Inner? && WF(n, path)
    ensures Keep(Above(path + n.prefix), KidEntries(n.kids, 0)) == KidEntries(n.kids, 0)
  {
    var es, p := KidEntries(n.kids, 0), path + n.prefix;
    KeepUniform(Above(p), es);
    forall j | 0 <= j < |es| ensures Less(p, es[j].0) {
      KidEntriesAre(n.kids, 0, es[j]);
      var i :| 0 <= i < |n.kids| && Has(n.kids[i], es[j].0, es[j].1);
      InChild(n, path, i, es[j].0, es[j].1);
      ExtensionOrder(p, es[j].0);
    }
  }

  method Seek<V>(n: Node<V>, start: Key, depth: nat, fn: Callback<Entry<V>>, acc: seq<Entry<V>>)
    returns (out: seq<Entry<V>>, go: bool)
    requires depth <= |start| && WF(n, start[..depth])
    ensures (out, go) == Feed(acc, Keep(Above(start), Entries(n)), fn)
    decreases n, 2
  {
    match n
    case Leaf(k, v) =>
      if Less(start, k) {
        out := acc + [(k, v)];
        go := fn(out);
      } else {
        out, go := acc, true;
      }
    case Inner(_, prefix, _, _, _) =>
      var cmp := ComparePrefixRange(prefix, start, depth);
      SeekCases(n, start, depth, cmp);
      if cmp > 0 {
        out, go := EmitAll(n, fn, acc);
        return;
      }
      if cmp < 0 { return acc, true; }
      out, go := SeekMatched(n, start, depth, fn, acc);
  }

  /** The node's prefix lies on the path of `start`. */
  method SeekMatched<V>(n: Node<V>, start: Key, depth: nat, fn: Callback<Entry<V>>, acc: seq<Entry<V>>)
    returns (out: seq<Entry<V>>, go: bool)
    requires depth <= |start| && n.Inner? && WF(n, start[..depth]) && CheckPrefix(n.prefix, start, depth)
    ensures (out, go) == Feed(acc, Keep(Above(start), Entries(n)), fn)
    decreases n, 1
  {
    var d := depth + |n.prefix|;
    assert start[..depth] + n.prefix == start[..d];
    ghost var own := if n.leaf.Some? then [n.leaf.value] else [];
    KeepAppend(Above(start), own, KidEntries(n.kids, 0));
    FeedAppend(acc, Keep(Above(start), own), Keep(Above(start), KidEntries(n.kids, 0)), fn);
    out := acc;
    if n.leaf.Some? && Less(start, n.leaf.value.0) {
      out := acc + [n.leaf.value];
      assert Keep(Above(start), own) == own;
      go := fn(out);
      if !go { return; }
    } else {
      assert Keep(Above(start), own) == [];
    }
    if d >= |start| {
      SeekExhausted(n, start[..depth]);
      assert start[..d] == start;
      out, go := EmitKids(n, fn, out);
    } else {
      out, go := SeekKids(n, start[..depth], start, d, fn, out);
    }
  }

  /** One child's share of a filtered walk over the children from i on. */
  lemma KidStep<V>(sel: Selection, kids: seq<Node<V>>, i: nat, out: seq<Entry<V>>, fn: Callback<Entry<V>>)
    requires i < |kids|
    ensures Feed(out, Keep(sel, KidEntries(kids, i)), fn) ==
            var r := Feed(out, Keep(sel, Entries(kids[i])), fn);
            if r.1 then Feed(r.0, Keep(sel, KidEntries(kids, i + 1)), fn) else r
  {
    KeepAppend(sel, Entries(kids[i]), KidEntries(kids, i + 1));
    FeedAppend(out, Keep(sel, Entries(kids[i])), Keep(sel, KidEntries(kids, i + 1)), fn);
  }

  /** Skip the children before the target byte, seek in the one on it, emit the rest. */
  method SeekKids<V>(n: Node<V>, ghost path: Key, start: Key, depth: nat, fn: Callback<Entry<V>>, acc: seq<Entry<V>>)
    returns (out: seq<Entry<V>>, go: bool)
    requires n.Inner? && WF(n, path) && depth < |start| && path + n.prefix == start[..depth]
    ensures (out, go) == Feed(acc, Keep(Above(start), KidEntries(n.kids, 0)), fn)
    decreases n, 0, 1
  {
    out, go := acc, true;
    for i := 0 to |n.kids|
      invariant Feed(acc, Keep(Above(start), KidEntries(n.kids, 0)), fn)
             == Feed(out, Keep(Above(start), KidEntries(n.kids, i)), fn)
    {
      KidStep(Above(start), n.kids, i, out, fn);
      out, go := SeekKid(n, path, start, depth, i, fn, out);
      if !go { return; }
    }
    go := true;
  }

  method SeekKid<V>(n: Node<V>, ghost path: Key, start: Key, depth: nat, i: nat, fn: Callback<Entry<V>>, acc: seq<Entry<V>>)
    returns (out: seq<Entry<V>>, go: bool)
    requires n.Inner? && WF(n, path) && depth < |start| && path + n.prefix == start[..depth] && i < |n.kids|
    ensures (out, go) == Feed(acc, Keep(Above(start), Entries(n.kids[i])), fn)
    decreases n, 0, 0
  {
    SeekChild(n, path, start, i);
    if n.bytes[i] < start[depth] { return acc, true; }
    if n.bytes[i] == start[depth] {
      assert start[..depth + 1] == path + n.prefix + [n.bytes[i]];
      out, go := Seek(n.kids[i], start, depth + 1, fn, acc);
    } else {
      out, go := ForEach(n.kids[i], fn, acc);
    }
  }

  // ---------------------------------------------------------------- ScanPrefix

  /** How the entries of a node relate to the scanned prefix. */
  lemma ScanCases<V>(n: Node<V>, prefix: Key, depth: nat)
    requires depth <= |prefix| && n.Inner? && WF(n, prefix[..depth])
    ensures var m := Common(n.prefix, prefix[depth..]);
            && (depth + m == |prefix| ==> Keep(Under(prefix), Entries(n)) == Entries(n))
            && (depth + m < |prefix| && m < |n.prefix| ==> Keep(Under(prefix), Entries(n)) == [])
  {
    var m, es := Common(n.prefix, prefix[depth..]), Entries(n);
    KeepUniform(Under(prefix), es);
    forall i | 0 <= i < |es| ensures depth + m == |prefix| ==> prefix <= es[i].0
                             ensures depth + m < |prefix| && m < |n.prefix| ==> !(prefix <= es[i].0) {
      var k := es[i].0;
      EntriesAre(n, es[i]);
      OnPath(n, prefix[..depth], k, es[i].1);
      UnderPrefix(n, prefix[..depth], k, es[i].1);
      if depth + m == |prefix| {
        assert prefix == prefix[..depth] + prefix[depth..][..m];
        assert prefix == prefix[..depth] + n.prefix[..m];
        assert k[..depth] == prefix[..depth];
        assert prefix[..depth] + n.prefix <= k;
      }
    }
  }

  /** Children on other bytes hold no key under the scanned prefix. */
  lemma ScanMiss<V>(n: Node<V>, path: Key, prefix: Key, i: nat)
    requires n.Inner? && WF(n, path) && path + n.prefix <= prefix && |path + n.prefix| < |prefix| && i < |n.kids|
    requires n.bytes[i] != prefix[|path + n.prefix|]
    ensures Keep(Under(prefix), Entries(n.kids[i])) == []
  {
    var es, p := Entries(n.kids[i]), path + n.prefix;
    KeepUniform(Under(prefix), es);
    forall j | 0 <= j < |es| ensures !(prefix <= es[j].0) {
      EntriesAre(n.kids[i], es[j]);
      OnPath(n.kids[i], p + [n.bytes[i]], es[j].0, es[j].1);
      assert es[j].0[|p|] == (p + [n.bytes[i]])[|p|];
    }
  }

  /** Below a matched prefix only the child on the next byte can hold matching keys. */
  lemma ScanChild<V>(n: Node<V>, path: Key, prefix: Key, i: nat)
    requires n.Inner? && WF(n, path) && path + n.prefix <= prefix && |path + n.prefix| < |prefix|
    requires IsIndex(n.bytes, prefix[|path + n.prefix|], i)
    ensures Keep(Under(prefix), Entries(n)) ==
            if i == |n.bytes| then [] else Keep(Under(prefix), Entries(n.kids[i]))
  {
    var own := if n.leaf.Some? then [n.leaf.value] else [];
    KeepAppend(Under(prefix), own, KidEntries(n.kids, 0));
    ScanKids(n, path, prefix, 0, i);
  }

  lemma {:induction false} ScanKids<V>(n: Node<V>, path: Key, prefix: Key, from: nat, i: nat)
    requires n.Inner? && WF(n, path) && path + n.prefix <= prefix && |path + n.prefix| < |prefix|
    requires from <= |n.kids|
    requires forall j :: 0 <= j < |n.bytes| ==> (n.bytes[j] == prefix[|path + n.prefix|] <==> j == i)
    ensures Keep(Under(prefix), KidEntries(n.kids, from)) ==
            if from <= i < |n.bytes| then Keep(Under(prefix), Entries(n.kids[i])) else []
    decreases |n.kids| - from
  {
    if from < |n.kids| {
      KeepAppend(Under(prefix), Entries(n.kids[from]), KidEntries(n.kids, from + 1));
      ScanKids(n, path, prefix, from + 1, i);
      if from != i {
        ScanMiss(n, path, prefix, from);
      }
    }
  }

  method ScanPrefix<V>(n: Node<V>, prefix: Key, depth: nat, fn: Callback<Entry<V>>, acc: seq<Entry<V>>)
    returns (out: seq<Entry<V>>, go: bool)
    requires depth <= |prefix| && WF(n, prefix[..depth])
    ensures (out, go) == Feed(acc, Keep(Under(prefix), Entries(n)), fn)
    decreases n, 1
  {
    match n
    case Leaf(k, v) =>
      if |k| >= |prefix| && k[..|prefix|] == prefix {
        out := acc + [(k, v)];
        go := fn(out);
      } else {
        out, go := acc, true;
      }
    case Inner(_, pfx, _, bytes, kids) =>
      ScanCases(n, prefix, depth);
      var i := 0;
      while i < |pfx|
        invariant i <= |pfx| && depth + i <= |prefix|
        invariant pfx[..i] == prefix[depth..][..i]
      {
        if depth + i >= |prefix| {
          CommonIs(pfx, prefix[depth..], i);
          out, go := EmitAll(n, fn, acc);
          return;
        }
        if pfx[i] != prefix[depth + i] {
          CommonIs(pfx, prefix[depth..], i);
          return acc, true;
        }
        i := i + 1;
      }
      CommonIs(pfx, prefix[depth..], i);
      if depth + |pfx| >= |prefix| {
        out, go := EmitAll(n, fn, acc);
        return;
      }
      assert prefix[..depth + i] == prefix[..depth] + prefix[depth..][..i] == prefix[..depth] + pfx;
      out, go := ScanKid(n, prefix[..depth], prefix, depth + |pfx|, fn, acc);
  }

  /** The node's prefix is a proper part of the scanned prefix: go on in one child. */
  method ScanKid<V>(n: Node<V>, ghost path: Key, prefix: Key, depth: nat, fn: Callback<Entry<V>>, acc: seq<Entry<V>>)
    returns (out: seq<Entry<V>>, go: bool)
    requires n.Inner? && WF(n, path) && depth < |prefix| && path + n.prefix == prefix[..depth]
    ensures (out, go) == Feed(acc, Keep(Under(prefix), Entries(n)), fn)
    decreases n, 0
  {
    var j := IndexOf(n.bytes, prefix[depth]);
    ScanChild(n, path, prefix, j);
    if j == |n.bytes| { return acc, true; }
    assert prefix[..depth + 1] == path + n.prefix + [n.bytes[j]];
    out, go := ScanPrefix(n.kids[j], prefix, depth + 1, fn, acc);
  }
}
