/** The four node layouts (art/node.go): each stores the same thing, a list of children sorted by
    branch byte, and each operation acts on that list in the same way. A uint64 bitmap is modelled
    as the set of its one bits. */
module ArtNodes {
  import opened Lists
  import opened ArtKeys
  import Bits
  import Swar

  /** What a layout stores: branch bytes in ascending order and the child of each. */
  datatype View<T> = View(bytes: seq<Byte>, kids: seq<Option<T>>)

  ghost predicate GoodView<T>(v: View<T>)
  {
    && |v.bytes| == |v.kids|
    && Sorted(v.bytes)
    && forall i :: 0 <= i < |v.kids| ==> v.kids[i].Some?
  }

  ghost function Added<T>(v: View<T>, c: Byte, ch: T): View<T>
    requires |v.bytes| == |v.kids|
  {
    var pos := Slot(v.bytes, c);
    View(Insert(v.bytes, pos, c), Insert(v.kids, pos, Some(ch)))
  }

  ghost function Removed<T>(v: View<T>, i: nat): View<T>
    requires i < |v.bytes| == |v.kids|
  {
    View(Cut(v.bytes, i), Cut(v.kids, i))
  }

  /** The child on byte c, if any. */
  ghost function ChildOf<T>(v: View<T>, c: Byte): Option<T>
    requires |v.bytes| == |v.kids|
  {
    var i := Find(v.bytes, c);
    if i < |v.bytes| then v.kids[i] else None
  }

  /** What a walk hands to its callback. */
  ghost function Pairs<T>(v: View<T>): (ps: seq<(Byte, Option<T>)>)
    requires |v.bytes| == |v.kids|
    ensures |ps| == |v.bytes| && forall i :: 0 <= i < |ps| ==> ps[i] == (v.bytes[i], v.kids[i])
  {
    seq(|v.bytes|, i requires 0 <= i < |v.bytes| => (v.bytes[i], v.kids[i]))
  }

  /** `for i: if c < keys[i] { pos = i; break }` */
  method FindSlot(keys: array<Byte>, num: nat, c: Byte) returns (pos: nat)
    requires num <= keys.Length
    ensures pos == Slot(keys[..num], c)
  {
    pos := 0;
    while pos < num
      invariant pos <= num
      invariant forall i :: 0 <= i < pos ==> keys[i] <= c
    {
      if c < keys[pos] { break; }
      pos := pos + 1;
    }
    SlotIs(keys[..num], c, pos);
  }

  lemma {:induction false} SlotIs(bs: seq<Byte>, c: Byte, pos: nat)
    requires pos <= |bs| && (forall i :: 0 <= i < pos ==> bs[i] <= c) && (pos < |bs| ==> c < bs[pos])
    ensures Slot(bs, c) == pos
  {
    if pos > 0 { SlotIs(bs[1..], c, pos - 1); }
  }

  lemma {:induction false} FindIs(bs: seq<Byte>, c: Byte, pos: nat)
    requires Sorted(bs) && pos <= |bs| && (if pos < |bs| then bs[pos] == c else c !in bs)
    ensures Find(bs, c) == pos
  {
    if pos > 0 {
      assert bs[0] in bs;
      FindIs(bs[1..], c, pos - 1);
    }
  }

  /** `for i: if keys[i] == c` */
  method FindIndex(keys: array<Byte>, num: nat, c: Byte) returns (i: nat)
    requires num <= keys.Length && Sorted(keys[..num])
    ensures i == Find(keys[..num], c)
  {
    i := 0;
    while i < num && keys[i] != c
      invariant i <= num && forall j :: 0 <= j < i ==> keys[j] != c
    {
      i := i + 1;
    }
    FindIs(keys[..num], c, i);
  }

  /** Open a gap at pos in the first n cells and put x there. */
  method InsertInto<T>(a: array<T>, n: nat, pos: nat, x: T)
    requires pos <= n < a.Length
    modifies a
    ensures a[..n + 1] == Insert(old(a[..n]), pos, x)
    ensures a[n + 1..] == old(a[n + 1..])
  {
    var i := n;
    while i > pos
      invariant pos <= i <= n
      invariant forall k :: 0 <= k < i ==> a[k] == old(a[k])
      invariant forall k :: i < k <= n ==> a[k] == old(a[k - 1])
      invariant forall k :: n < k < a.Length ==> a[k] == old(a[k])
    {
      a[i] := a[i - 1];
      i := i - 1;
    }
    a[pos] := x;
  }

  /** Close the gap at i in the first n cells and clear the last of them. */
  method RemoveFrom<T>(a: array<T>, n: nat, i: nat, blank: T)
    requires i < n <= a.Length
    modifies a
    ensures a[..n - 1] == Cut(old(a[..n]), i)
    ensures a[n - 1] == blank
    ensures a[n..] == old(a[n..])
  {
    var j := i;
    while j < n - 1
      invariant i <= j <= n - 1
      invariant forall k :: 0 <= k < i ==> a[k] == old(a[k])
      invariant forall k :: i <= k < j ==> a[k] == old(a[k + 1])
      invariant forall k :: j <= k < a.Length ==> a[k] == old(a[k])
    {
      a[j] := a[j + 1];
      j := j + 1;
    }
    a[n - 1] := blank;
  }

  // ---------------------------------------------------------------- node4 and node16

  /** node4 (cap 4) and node16 (cap 16): parallel sorted arrays, the tail zeroed. */
  class ArrayNode<T> {
    const cap: nat
    var num: nat
    const keys: array<Byte>
    const children: array<Option<T>>

    ghost predicate Valid()
      reads this, keys, children
    {
      && keys.Length == children.Length == cap && num <= cap
      && GoodView(TheView())
      && forall i :: num <= i < cap ==> keys[i] == 0 && children[i] == None
    }

    ghost function TheView(): View<T>
      requires keys.Length == children.Length == cap && num <= cap
      reads this, keys, children
    {
      View(keys[..num], children[..num])
    }

    constructor (cap: nat)
      ensures Valid() && fresh(keys) && fresh(children)
      ensures this.cap == cap && TheView() == View([], [])
    {
      this.cap, num := cap, 0;
      keys := new Byte[cap](_ => 0);
      children := new Option<T>[cap](_ => None);
    }

    /** node4's linear search. */
    method FindChild4(c: Byte) returns (r: Option<T>)
      requires Valid()
      ensures r == ChildOf(TheView(), c)
    {
      var i := FindIndex(keys, num, c);
      return if i < num then children[i] else None;
    }

    /** node16's search eight bytes at a time, also right for byte 0 against the zeroed tail. */
    method FindChild16(c: Byte) returns (r: Option<T>)
      requires Valid() && cap == 16
      ensures r == ChildOf(TheView(), c)
    {
      var ks := keys[..];
      Swar.FirstInWord(ks, 0, c);
      var idx := Swar.FirstByte(Bits.LoadAt(ks, 0), c);
      if idx < num && idx < 8 {
        FindIs(keys[..num], c, idx);
        return children[idx];
      }
      if num > 8 {
        Swar.FirstInWord(ks, 8, c);
        idx := 8 + Swar.FirstByte(Bits.LoadAt(ks, 8), c);
        if idx < num {
          FindIs(keys[..num], c, idx);
          return children[idx];
        }
      }
      FindIs(keys[..num], c, num);
      return None;
    }

    method AddChild(c: Byte, child: T)
      requires Valid() && num < cap && c !in TheView().bytes
      modifies this`num, keys, children
      ensures Valid() && TheView() == Added(old(TheView()), c, child)
    {
      ghost var v := TheView();
      var pos := FindSlot(keys, num, c);
      InsertInto(keys, num, pos, c);
      InsertInto(children, num, pos, Some(child));
      num := num + 1;
      AddedKids(v, c, child);
    }

    method RemoveChildAt(i: nat)
      requires Valid() && i < num
      modifies this`num, keys, children
      ensures Valid() && TheView() == Removed(old(TheView()), i)
    {
      RemovedKids(TheView(), i);
      RemoveFrom(keys, num, i, 0);
      RemoveFrom(children, num, i, None);
      num := num - 1;
    }

    /** `rangeChildren`: the children in ascending byte order, until the callback refuses. */
    method RangeChildren(fn: Callback<(Byte, Option<T>)>) returns (seen: seq<(Byte, Option<T>)>, go: bool)
      requires Valid()
      ensures (seen, go) == Feed([], Pairs(TheView()), fn)
    {
      ghost var ps := Pairs(TheView());
      FedEnds(ps, fn);
      seen := [];
      for i := 0 to num
        invariant Fed(ps, fn, i) && seen == ps[..i]
      {
        FedStep(ps, fn, i);
        seen := seen + [(keys[i], children[i])];
        if !fn(seen) { return seen, false; }
      }
      return seen, true;
    }

    /** The first n children of v are in place, and the count is still to be set. */
    ghost predicate Copied(v: View<T>, n: nat)
      reads this, keys, children
    {
      && n <= |v.bytes| == |v.kids| && n <= cap == keys.Length == children.Length && num == 0
      && keys[..n] == v.bytes[..n] && children[..n] == v.kids[..n]
      && forall j :: n <= j < cap ==> keys[j] == 0 && children[j] == None
    }

    method CopyAt(n: nat, b: Byte, child: Option<T>, ghost v: View<T>)
      requires Copied(v, n) && n < |v.bytes| && n < cap && b == v.bytes[n] && child == v.kids[n]
      modifies keys, children
      ensures Copied(v, n + 1)
    {
      keys[n], children[n] := b, child;
    }

    /** `grow` of node4 and `shrink` of node16: both copy the used cells into fresh arrays. */
    method Resized(newCap: nat) returns (r: ArrayNode<T>)
      requires Valid() && num <= newCap
      ensures fresh(r) && r.Valid() && r.cap == newCap && r.TheView() == TheView()
    {
      r := new ArrayNode<T>(newCap);
      ghost var v := TheView();
      for i := 0 to num
        invariant fresh(r) && fresh(r.keys) && fresh(r.children) && r.cap == newCap && r.Copied(v, i)
      {
        r.CopyAt(i, keys[i], children[i], v);
      }
      r.num := num;
    }

    /** `grow` of node16: slot i for the i-th byte, the slots from num on free. */
    method Grow() returns (r: Node48<T>)
      requires Valid() && num <= 48
      ensures fresh(r) && r.Valid() && r.TheView() == TheView()
    {
      ghost var v := TheView();
      r := new Node48<T>();
      var free := FreeSlots(num);
      r.num, r.free := num, free;
      for i := 0 to num
        invariant fresh(r) && fresh(r.sorted) && fresh(r.index) && fresh(r.children)
        invariant r.num == num && r.free == free && Filled(r.Snapshot(), v, i)
      {
        r.Fill(i, keys[i], children[i], v);
      }
      FilledGood(r.Snapshot(), v);
    }
  }

  lemma AddedKids<T>(v: View<T>, c: Byte, ch: T)
    requires GoodView(v) && c !in v.bytes
    ensures GoodView(Added(v, c, ch))
  {
    InsertKeepsSorted(v.bytes, c);
    var r, pos := Added(v, c, ch), Slot(v.bytes, c);
    assert forall i :: 0 <= i < |r.kids| ==>
      r.kids[i] == if i < pos then v.kids[i] else if i == pos then Some(ch) else v.kids[i - 1];
  }

  lemma RemovedKids<T>(v: View<T>, i: nat)
    requires GoodView(v) && i < |v.bytes|
    ensures GoodView(Removed(v, i))
  {
    RemoveKeepsSorted(v.bytes, i);
    var r := Removed(v, i);
    assert forall j :: 0 <= j < |r.kids| ==> r.kids[j] == v.kids[if j < i then j else j + 1];
  }

  // ---------------------------------------------------------------- bitmaps

  ghost predicate IsLeast(bits: set<int>, m: int)
  {
    m in bits && forall x :: x in bits ==> m <= x
  }

  lemma Least(bits: set<int>) returns (m: int)
    requires bits != {}
    ensures IsLeast(bits, m)
  {
    assert (forall x :: x !in bits) ==> bits == {};
    m :| m in bits;
    if bits != {m} {
      var rest := bits - {m};
      var r := Least(rest);
      assert forall x :: x in bits ==> x == m || x in rest;
      if r < m { m := r; }
    }
  }

  lemma LeastExists(bits: set<int>)
    requires bits != {}
    ensures exists m :: IsLeast(bits, m)
  {
    var m := Least(bits);
  }

  /** The set 0 .. n-1. */
  function Below(n: nat): (r: set<int>)
    ensures forall b :: b in r <==> 0 <= b < n
    ensures |r| == n
  {
    if n == 0 then {} else Below(n - 1) + {n - 1}
  }

  /** The bitmap 1<<n - 1. */
  method Full(n: nat) returns (r: set<int>)
    ensures |r| == n && forall b :: b in r <==> 0 <= b < n
  {
    r := Below(n);
  }

  /** One 64-bit word of a longer bitmap. */
  method WordAt(bits: set<int>, base: nat) returns (word: set<int>)
    ensures IsWord(bits, word, base, base)
  {
    var all := Full(64);
    word := set b | b in all && base + b in bits;
  }

  /** `bits.TrailingZeros64` of a non-zero bitmap: its least one bit. */
  ghost function TrailingZeros(bits: set<int>): (m: int)
    requires bits != {}
    ensures IsLeast(bits, m)
  {
    LeastExists(bits);
    var m :| IsLeast(bits, m);
    m
  }

  // ---------------------------------------------------------------- node48

  /** A snapshot of node48: a 256-entry index into 48 slots (0 for none, else slot + 1), the
      sorted bytes, and the bitmap of free slots. */
  datatype Slots<T> = Slots(num: nat, free: set<int>, sorted: seq<Byte>, index: seq<int>, children: seq<Option<T>>)

  /** The index is a bijection from the sorted bytes onto the slots that are not free. */
  ghost predicate GoodSlots<T>(s: Slots<T>)
  {
    && |s.sorted| == 48 && |s.index| == 256 && |s.children| == 48 && s.num <= 48
    && Sorted(s.sorted[..s.num])
    && (forall c: Byte :: 0 <= s.index[c] <= 48)
    && (forall c: Byte :: s.index[c] != 0 <==> c in s.sorted[..s.num])
    && (forall c: Byte, d: Byte :: s.index[c] == s.index[d] != 0 ==> c == d)
    && (forall c: Byte :: s.index[c] != 0 ==> s.index[c] - 1 !in s.free && s.children[s.index[c] - 1].Some?)
    && (forall t :: t in s.free ==> 0 <= t < 48)
    && |s.free| + s.num == 48
  }

  ghost function SlotKid<T>(s: Slots<T>, c: Byte): Option<T>
    requires |s.index| == 256 && |s.children| == 48
  {
    if 1 <= s.index[c] <= 48 then s.children[s.index[c] - 1] else None
  }

  ghost function SlotsView<T>(s: Slots<T>): View<T>
    requires |s.index| == 256 && |s.children| == 48 && s.num <= |s.sorted|
  {
    View(s.sorted[..s.num], seq(s.num, i requires 0 <= i < s.num => SlotKid(s, s.sorted[i])))
  }

  lemma SlotsGoodView<T>(s: Slots<T>)
    requires GoodSlots(s)
    ensures GoodView(SlotsView(s))
    ensures forall c: Byte :: ChildOf(SlotsView(s), c) == SlotKid(s, c)
  {
    forall i | 0 <= i < s.num ensures SlotKid(s, s.sorted[i]).Some? {
      assert s.sorted[i] in s.sorted[..s.num];
    }
    forall c: Byte ensures ChildOf(SlotsView(s), c) == SlotKid(s, c) {
      assert Find(s.sorted[..s.num], c) < s.num <==> c in s.sorted[..s.num];
    }
  }

  /** node48.addChild on snapshots: byte c takes a free slot and its place among the sorted bytes. */
  ghost function SlotsAdded<T>(s: Slots<T>, slot: int, pos: nat, c: Byte, ch: T): Slots<T>
    requires GoodSlots(s) && s.num < 48 && pos <= s.num && slot in s.free
  {
    Slots(s.num + 1, s.free - {slot}, Insert(s.sorted[..s.num], pos, c) + s.sorted[s.num + 1..],
          s.index[c := slot + 1], s.children[slot := Some(ch)])
  }

  lemma SlotsAddFrame<T>(s: Slots<T>, slot: int, pos: nat, c: Byte, ch: T, d: Byte)
    requires GoodSlots(s) && s.num < 48 && pos <= s.num && slot in s.free
    ensures var r := SlotsAdded(s, slot, pos, c, ch);
            && |r.sorted| == 48 && r.sorted[..r.num] == Insert(s.sorted[..s.num], pos, c)
            && SlotKid(r, d) == (if d == c then Some(ch) else SlotKid(s, d))
            && r.index[d] == (if d == c then slot + 1 else s.index[d])
            && (d != c && r.index[d] != 0 ==> r.index[d] != slot + 1)
  {
    assert s.index[d] != 0 ==> s.index[d] - 1 != slot;
  }

  lemma SlotsAddGood<T>(s: Slots<T>, slot: int, pos: nat, c: Byte, ch: T)
    requires GoodSlots(s) && s.num < 48 && pos <= s.num && slot in s.free
    requires c !in s.sorted[..s.num] && Sorted(Insert(s.sorted[..s.num], pos, c))
    ensures GoodSlots(SlotsAdded(s, slot, pos, c, ch))
  {
    var r := SlotsAdded(s, slot, pos, c, ch);
    InsertMembers(s.sorted[..s.num], pos, c);
    forall d: Byte
      ensures r.sorted[..r.num] == Insert(s.sorted[..s.num], pos, c)
      ensures r.index[d] == if d == c then slot + 1 else s.index[d]
      ensures d != c ==> r.index[d] != slot + 1
      ensures r.index[d] != 0 ==> r.index[d] - 1 !in r.free && r.children[r.index[d] - 1].Some?
    {
      SlotsAddFrame(s, slot, pos, c, ch, d);
    }
    SlotsAddFrame(s, slot, pos, c, ch, c);
    assert |r.free| == |s.free| - 1;
  }

  lemma SlotsAddView<T>(s: Slots<T>, slot: int, pos: nat, c: Byte, ch: T)
    requires GoodSlots(s) && s.num < 48 && pos <= s.num && slot in s.free
    requires c !in s.sorted[..s.num]
    ensures var v := SlotsView(s);
            SlotsView(SlotsAdded(s, slot, pos, c, ch)) == View(Insert(v.bytes, pos, c), Insert(v.kids, pos, Some(ch)))
  {
    var r, bs := SlotsAdded(s, slot, pos, c, ch), s.sorted[..s.num];
    SlotsAddFrame(s, slot, pos, c, ch, c);
    var v, w := SlotsView(r), Insert(SlotsView(s).kids, pos, Some(ch));
    forall i | 0 <= i < r.num ensures v.kids[i] == w[i] {
      if i == pos {
        assert v.bytes[i] == c;
      } else {
        var j := if i < pos then i else i - 1;
        assert v.bytes[i] == bs[j] && bs[j] in bs;
        SlotsAddFrame(s, slot, pos, c, ch, bs[j]);
      }
    }
  }

  lemma InsertMembers(bs: seq<Byte>, pos: nat, c: Byte)
    requires pos <= |bs|
    ensures forall d: Byte :: d in Insert(bs, pos, c) <==> d == c || d in bs
  {
    var r := Insert(bs, pos, c);
    assert r[pos] == c;
    assert bs == bs[..pos] + bs[pos..];
  }

  /** Removal of the byte at position i in delInner48; its slot becomes free. */
  ghost function SlotsRemoved<T>(s: Slots<T>, i: nat): Slots<T>
    requires GoodSlots(s) && i < s.num && s.index[s.sorted[i]] != 0
  {
    var slot := s.index[s.sorted[i]] - 1;
    Slots(s.num - 1, s.free + {slot}, Cut(s.sorted[..s.num], i) + [0] + s.sorted[s.num..],
          s.index[s.sorted[i] := 0], s.children[slot := None])
  }

  lemma SlotsRemoveFrame<T>(s: Slots<T>, i: nat, d: Byte)
    requires GoodSlots(s) && i < s.num && s.index[s.sorted[i]] != 0
    ensures var r, c := SlotsRemoved(s, i), s.sorted[i];
            && |r.sorted| == 48 && r.sorted[..r.num] == Cut(s.sorted[..s.num], i)
            && r.index[d] == (if d == c then 0 else s.index[d])
            && (d != c ==> SlotKid(r, d) == SlotKid(s, d) && s.index[d] != s.index[c])
  {
    var r := SlotsRemoved(s, i);
    assert r.sorted[..r.num] == Cut(s.sorted[..s.num], i);
    assert s.index[d] == s.index[s.sorted[i]] ==> d == s.sorted[i];
  }

  lemma SlotsRemoveGood<T>(s: Slots<T>, i: nat)
    requires GoodSlots(s) && i < s.num && s.index[s.sorted[i]] != 0
    ensures GoodSlots(SlotsRemoved(s, i))
  {
    var r, c := SlotsRemoved(s, i), s.sorted[i];
    RemoveKeepsSorted(s.sorted[..s.num], i);
    forall d: Byte
      ensures r.sorted[..r.num] == Cut(s.sorted[..s.num], i)
      ensures r.index[d] == if d == c then 0 else s.index[d]
      ensures r.index[d] != 0 ==> r.index[d] - 1 !in r.free && r.children[r.index[d] - 1].Some?
    {
      SlotsRemoveFrame(s, i, d);
    }
    SlotsRemoveFrame(s, i, c);
    assert |r.free| == |s.free| + 1;
  }

  lemma SlotsRemoveView<T>(s: Slots<T>, i: nat)
    requires GoodSlots(s) && i < s.num && s.index[s.sorted[i]] != 0
    ensures SlotsView(SlotsRemoved(s, i)) == Removed(SlotsView(s), i)
  {
    var r, bs := SlotsRemoved(s, i), s.sorted[..s.num];
    SlotsRemoveFrame(s, i, s.sorted[i]);
    var v, w := SlotsView(r), Removed(SlotsView(s), i);
    forall j | 0 <= j < r.num ensures v.kids[j] == w.kids[j] {
      var t := if j < i then j else j + 1;
      assert v.bytes[j] == bs[t] != bs[i];
      SlotsRemoveFrame(s, i, bs[t]);
    }
  }

  /** The slots after the removal of a byte found at position i. */
  lemma SlotsAfter<T>(s: Slots<T>, c: Byte, i: nat) returns (after: Slots<T>)
    requires GoodSlots(s) && i < s.num && s.sorted[i] == c
    ensures 1 <= s.index[c] <= 48 && GoodSlots(after)
    ensures after == Slots(s.num - 1, s.free + {s.index[c] - 1}, Cut(s.sorted[..s.num], i) + [0] + s.sorted[s.num..],
                           s.index[c := 0], s.children[s.index[c] - 1 := None])
    ensures SlotsView(after) == Removed(SlotsView(s), Find(SlotsView(s).bytes, c))
  {
    assert s.sorted[i] in s.sorted[..s.num];
    after := SlotsRemoved(s, i);
    SlotsRemoveGood(s, i);
    SlotsRemoveView(s, i);
    FindIs(s.sorted[..s.num], c, i);
  }

  /** The slots from n on are free. */
  ghost predicate FreeFrom(free: set<int>, n: nat)
  {
    n <= 48 && |free| == 48 - n && forall b :: b in free <==> n <= b < 48
  }

  lemma FreeNext(free: set<int>, n: nat)
    requires FreeFrom(free, n) && n < 48
    ensures FreeFrom(free - {n}, n + 1)
  {}

  lemma Minus(a: set<int>, b: set<int>)
    requires b <= a
    ensures |a - b| == |a| - |b|
  {
    assert a == (a - b) + b;
  }

  /** The bitmap of the free slots once 0 .. n-1 are taken. */
  method FreeSlots(n: nat) returns (free: set<int>)
    requires n <= 48
    ensures FreeFrom(free, n)
  {
    var all := Full(48);
    var used := Full(n);
    free := all - used;
    forall b | b in used ensures b in all {}
    Minus(all, used);
  }

  /** The first n children of v are in slots 0 .. n-1 and nothing else is entered. */
  ghost predicate Filled<T>(s: Slots<T>, v: View<T>, n: nat)
  {
    && |s.sorted| == 48 && |s.index| == 256 && |s.children| == 48 && n <= |v.bytes| == |v.kids| && n <= 48
    && (forall i :: 0 <= i < n ==> s.sorted[i] == v.bytes[i] && s.children[i] == v.kids[i] && s.index[v.bytes[i]] == i + 1)
    && (forall c: Byte :: c !in v.bytes[..n] ==> s.index[c] == 0)
  }

  lemma FilledStep<T>(s: Slots<T>, v: View<T>, n: nat)
    requires GoodView(v) && Filled(s, v, n) && n < |v.bytes| && n < 48
    ensures Filled(s.(sorted := s.sorted[n := v.bytes[n]], index := s.index[v.bytes[n] := n + 1],
                      children := s.children[n := v.kids[n]]), v, n + 1)
  {
    assert v.bytes[..n + 1] == v.bytes[..n] + [v.bytes[n]];
  }

  lemma FilledIndex<T>(s: Slots<T>, v: View<T>, c: Byte)
    requires GoodView(v) && Filled(s, v, |v.bytes|)
    ensures var i := Find(v.bytes, c);
            s.index[c] == (if i < |v.bytes| then i + 1 else 0) && (c in v.bytes <==> i < |v.bytes|)
            && (i < |v.bytes| ==> s.children[i] == v.kids[i] && v.bytes[i] == c)
  {
    assert v.bytes[..|v.bytes|] == v.bytes;
  }

  /** With all children entered and the other slots free, it is a node48 with that view. */
  lemma FilledGood<T>(s: Slots<T>, v: View<T>)
    requires GoodView(v) && Filled(s, v, s.num) && s.num == |v.bytes| && FreeFrom(s.free, s.num)
    ensures GoodSlots(s) && SlotsView(s) == v
  {
    assert s.sorted[..s.num] == v.bytes;
    forall c: Byte
      ensures 0 <= s.index[c] <= 48 && (s.index[c] != 0 <==> c in v.bytes)
      ensures s.index[c] != 0 ==> s.index[c] - 1 !in s.free && s.children[s.index[c] - 1].Some?
    {
      FilledIndex(s, v, c);
    }
    forall c: Byte, d: Byte ensures s.index[c] == s.index[d] != 0 ==> c == d {
      FilledApart(s, v, c, d);
    }
    FilledView(s, v);
  }

  lemma FilledApart<T>(s: Slots<T>, v: View<T>, c: Byte, d: Byte)
    requires GoodView(v) && Filled(s, v, |v.bytes|)
    ensures s.index[c] == s.index[d] != 0 ==> c == d
  {
    FilledIndex(s, v, c);
    FilledIndex(s, v, d);
  }

  lemma FilledView<T>(s: Slots<T>, v: View<T>)
    requires GoodView(v) && Filled(s, v, s.num) && s.num == |v.bytes|
    ensures SlotsView(s) == v
  {
    assert s.sorted[..s.num] == v.bytes;
    assert SlotsView(s).kids == v.kids;
  }

  class Node48<T> {
    var num: nat
    var free: set<int>
    const sorted: array<Byte>
    const index: array<int>
    const children: array<Option<T>>

    ghost function Snapshot(): Slots<T>
      reads this, sorted, index, children
    {
      Slots(num, free, sorted[..], index[..], children[..])
    }

    ghost predicate Valid()
      reads this, sorted, index, children
    {
      GoodSlots(Snapshot())
    }

    ghost function TheView(): View<T>
      requires Valid()
      reads this, sorted, index, children
    {
      SlotsView(Snapshot())
    }

    /** An empty node48; only `grow` and `shrink` create one. */
    constructor ()
      ensures Valid() && fresh(sorted) && fresh(index) && fresh(children)
      ensures TheView() == View([], []) && num == 0 && FreeFrom(free, 0)
    {
      num := 0;
      var all := Full(48);
      free := all;
      sorted := new Byte[48](_ => 0);
      index := new int[256](_ => 0);
      children := new Option<T>[48](_ => None);
    }

    method FindChild(c: Byte) returns (r: Option<T>)
      requires Valid()
      ensures r == ChildOf(TheView(), c)
    {
      SlotsGoodView(Snapshot());
      var idx := index[c];
      if idx == 0 { return None; }
      return children[idx - 1];
    }

    method RangeChildren(fn: Callback<(Byte, Option<T>)>) returns (seen: seq<(Byte, Option<T>)>, go: bool)
      requires Valid()
      ensures (seen, go) == Feed([], Pairs(TheView()), fn)
    {
      ghost var ps := Pairs(TheView());
      FedEnds(ps, fn);
      seen := [];
      for i := 0 to num
        invariant Fed(ps, fn, i) && seen == ps[..i]
      {
        FedStep(ps, fn, i);
        var b := sorted[i];
        assert b in sorted[..][..num];
        seen := seen + [(b, children[index[b] - 1])];
        if !fn(seen) { return seen, false; }
      }
      return seen, true;
    }

    /** The stores with which `grow` and `shrink` enter the n-th child. */
    method Fill(n: nat, b: Byte, child: Option<T>, ghost v: View<T>)
      requires GoodView(v) && Filled(Snapshot(), v, n) && n < |v.bytes| && n < 48
      requires b == v.bytes[n] && child == v.kids[n]
      modifies sorted, index, children
      ensures Filled(Snapshot(), v, n + 1)
    {
      ghost var s := Snapshot();
      FilledStep(s, v, n);
      index[b] := n + 1;
      children[n] := child;
      sorted[n] := b;
      assert Snapshot() == s.(sorted := s.sorted[n := b], index := s.index[b := n + 1], children := s.children[n := child]);
    }

    /** The i-th byte and its child, found through the index. */
    method ChildAt(i: nat) returns (b: Byte, child: Option<T>)
      requires Valid() && i < num
      ensures b == TheView().bytes[i] && child == TheView().kids[i]
    {
      b := sorted[i];
      assert b in sorted[..][..num];
      child := children[index[b] - 1];
    }

    lemma ViewFacts()
      requires Valid()
      ensures GoodView(TheView()) && |TheView().bytes| == num
    {
      SlotsGoodView(Snapshot());
    }

    /** `grow`: the children move to the cells of their bytes. */
    method Grow() returns (r: Node256<T>)
      requires Valid()
      ensures fresh(r) && r.Valid() && r.TheView() == TheView()
    {
      ghost var s, v := Snapshot(), TheView();
      ViewFacts();
      r := new Node256<T>();
      r.num := num;
      for i := 0 to num
        invariant fresh(r) && fresh(r.children) && r.num == num && Scattered(r.Snapshot(), v, i)
        invariant Snapshot() == s
      {
        var b, child := ChildAt(i);
        r.Enter(b, child, v, i);
      }
      ScatteredGood(r.Snapshot(), v);
    }

    /** `shrink`: the children move into arrays in the order of their bytes. */
    method Shrink() returns (r: ArrayNode<T>)
      requires Valid() && num <= 16
      ensures fresh(r) && r.Valid() && r.cap == 16 && r.TheView() == TheView()
    {
      ghost var s, v := Snapshot(), TheView();
      ViewFacts();
      r := new ArrayNode<T>(16);
      for i := 0 to num
        invariant fresh(r) && fresh(r.keys) && fresh(r.children) && r.cap == 16 && r.Copied(v, i)
        invariant Snapshot() == s
      {
        var b, child := ChildAt(i);
        r.CopyAt(i, b, child, v);
      }
      r.num := num;
    }

    method AddChild(c: Byte, child: T)
      requires Valid() && num < 48 && c !in TheView().bytes
      modifies this`num, this`free, sorted, index, children
      ensures Valid() && TheView() == Added(old(TheView()), c, child)
    {
      ghost var s := Snapshot();
      assert sorted[..num] == s.sorted[..num];
      assert free != {};
      var slot := LowestBit(free);
      free := free - {slot};
      index[c] := slot + 1;
      children[slot] := Some(child);
      var pos := FindSlot(sorted, num, c);
      InsertKeepsSorted(s.sorted[..s.num], c);
      SlotsAddGood(s, slot, pos, c, child);
      SlotsAddView(s, slot, pos, c, child);
      InsertInto(sorted, num, pos, c);
      num := num + 1;
      assert sorted[..] == sorted[..num] + sorted[num..];
      assert Snapshot() == SlotsAdded(s, slot, pos, c, child);
    }

    method RemoveChild(c: Byte)
      requires Valid() && c in TheView().bytes
      modifies this`num, this`free, sorted, index, children
      ensures Valid() && TheView() == Removed(old(TheView()), Find(old(TheView()).bytes, c))
    {
      ghost var s := Snapshot();
      assert sorted[..num] == s.sorted[..num];
      var i := FindIndex(sorted, num, c);
      ghost var after := SlotsAfter(s, c, i);
      Vacate(c, i);
      assert Snapshot() == after;
    }

    /** Clears the cells of the byte at position i of the sorted bytes. */
    method Vacate(c: Byte, i: nat)
      requires sorted.Length == 48 && index.Length == 256 && children.Length == 48 && i < num <= 48
      requires sorted[i] == c && 1 <= index[c] <= 48
      modifies this`num, this`free, sorted, index, children
      ensures var s, slot := old(Snapshot()), old(index[c]) - 1;
              Snapshot() == Slots(s.num - 1, s.free + {slot}, Cut(s.sorted[..s.num], i) + [0] + s.sorted[s.num..],
                                  s.index[c := 0], s.children[slot := None])
    {
      ghost var s := Snapshot();
      assert sorted[..num] == s.sorted[..num];
      var idx := index[c];
      children[idx - 1] := None;
      index[c] := 0;
      free := free + {idx - 1};
      RemoveFrom(sorted, num, i, 0);
      num := num - 1;
      assert sorted[..] == sorted[..num] + [sorted[num]] + sorted[num + 1..];
    }
  }

  // ---------------------------------------------------------------- node256

  ghost predicate IsListed(bits: set<int>, bs: seq<Byte>)
  {
    Sorted(bs) && forall d: Byte :: d in bs <==> d in bits
  }

  lemma {:induction false} ListedExists(bits: set<int>, n: nat)
    requires n <= 256
    ensures exists bs: seq<Byte> :: Sorted(bs) && forall d: Byte :: d in bs <==> d in bits && d < n
  {
    if n == 0 {
      var none: seq<Byte> := [];
      assert Sorted(none) && forall d: Byte :: d in none <==> d in bits && d < n;
    } else {
      ListedExists(bits, n - 1);
      var bs: seq<Byte> :| Sorted(bs) && forall d: Byte :: d in bs <==> d in bits && d < n - 1;
      var last: Byte := n - 1;
      var more := if last in bits then bs + [last] else bs;
      forall i | 0 <= i < |bs| ensures bs[i] < last { assert bs[i] in bs; }
      assert Sorted(more) && forall d: Byte :: d in more <==> d in bits && d < n;
    }
  }

  lemma ListedSomewhere(bits: set<int>)
    ensures exists bs :: IsListed(bits, bs)
  {
    ListedExists(bits, 256);
    var bs: seq<Byte> :| Sorted(bs) && forall d: Byte :: d in bs <==> d in bits && d < 256;
    assert IsListed(bits, bs);
  }

  /** The bytes of a bitmap in ascending order. */
  ghost function Listed(bits: set<int>): (bs: seq<Byte>)
    ensures IsListed(bits, bs)
  {
    ListedSomewhere(bits);
    var bs :| IsListed(bits, bs);
    bs
  }

  lemma {:induction false} ListedCount(bits: set<int>, bs: seq<Byte>)
    requires IsListed(bits, bs) && forall b :: b in bits ==> 0 <= b < 256
    ensures |bs| == |bits|
    decreases |bs|
  {
    if |bs| == 0 {
      assert forall b :: b in bits ==> (b as Byte) in bs;
      assert bits == {};
    } else {
      var last := bs[|bs| - 1];
      assert last in bs;
      assert bs == bs[..|bs| - 1] + [last];
      ListedCount(bits - {last}, bs[..|bs| - 1]);
    }
  }

  /** A snapshot of node256: one child cell per byte and a 256-bit presence bitmap. */
  datatype Cells<T> = Cells(num: nat, present: set<int>, children: seq<Option<T>>)

  ghost predicate GoodCells<T>(s: Cells<T>)
  {
    && |s.children| == 256
    && (forall c :: c in s.present ==> 0 <= c < 256)
    && (forall c: Byte :: c in s.present <==> s.children[c].Some?)
    && s.num == |s.present|
  }

  ghost predicate CellsHave<T>(s: Cells<T>, v: View<T>)
    requires |s.children| == 256
  {
    && |v.bytes| == |v.kids|
    && forall i :: 0 <= i < |v.bytes| ==> v.kids[i] == s.children[v.bytes[i]]
  }

  ghost function CellsView<T>(s: Cells<T>): (v: View<T>)
    requires |s.children| == 256
    ensures CellsHave(s, v)
  {
    var bs := Listed(s.present);
    View(bs, seq(|bs|, i requires 0 <= i < |bs| => s.children[bs[i]]))
  }

  /** Any sorted list of the present bytes with their children is the view. */
  lemma CellsViewIs<T>(s: Cells<T>, v: View<T>)
    requires GoodCells(s) && IsListed(s.present, v.bytes) && CellsHave(s, v)
    ensures CellsView(s) == v
  {
    SortedUnique(CellsView(s).bytes, v.bytes);
    assert CellsView(s).kids == v.kids;
  }

  lemma CellsGoodView<T>(s: Cells<T>)
    requires GoodCells(s)
    ensures GoodView(CellsView(s)) && |CellsView(s).bytes| == s.num
    ensures forall c: Byte :: ChildOf(CellsView(s), c) == s.children[c]
  {
    var v := CellsView(s);
    ListedCount(s.present, v.bytes);
    forall i | 0 <= i < |v.bytes| ensures v.kids[i].Some? {
      assert v.bytes[i] in v.bytes;
    }
    forall c: Byte ensures ChildOf(v, c) == s.children[c] {
      assert Find(v.bytes, c) < |v.bytes| <==> c in v.bytes;
    }
  }

  lemma CellsAdd<T>(s: Cells<T>, c: Byte, ch: T)
    requires GoodCells(s) && c !in s.present
    ensures var r := Cells(s.num + 1, s.present + {c}, s.children[c := Some(ch)]);
            GoodCells(r) && CellsView(r) == Added(CellsView(s), c, ch)
  {
    var r := Cells(s.num + 1, s.present + {c}, s.children[c := Some(ch)]);
    var v := CellsView(s);
    var pos := Slot(v.bytes, c);
    InsertKeepsSorted(v.bytes, c);
    InsertMembers(v.bytes, pos, c);
    CellsInsert(s, v, pos, c, ch);
    CellsViewIs(r, Added(v, c, ch));
  }

  lemma CellsInsert<T>(s: Cells<T>, v: View<T>, pos: nat, c: Byte, ch: T)
    requires |s.children| == 256 && CellsHave(s, v) && c !in v.bytes && pos <= |v.bytes|
    ensures CellsHave(s.(children := s.children[c := Some(ch)]),
                      View(Insert(v.bytes, pos, c), Insert(v.kids, pos, Some(ch))))
  {
    var w := View(Insert(v.bytes, pos, c), Insert(v.kids, pos, Some(ch)));
    forall j | 0 <= j < |w.bytes| ensures w.kids[j] == s.children[c := Some(ch)][w.bytes[j]] {
      if j != pos {
        var t := if j < pos then j else j - 1;
        assert w.bytes[j] == v.bytes[t] && w.kids[j] == v.kids[t] && v.bytes[t] in v.bytes;
      }
    }
  }

  lemma CellsRemove<T>(s: Cells<T>, c: Byte)
    requires GoodCells(s) && c in s.present
    ensures var r := Cells(s.num - 1, s.present - {c}, s.children[c := None]);
            GoodCells(r) && CellsView(r) == Removed(CellsView(s), Find(CellsView(s).bytes, c))
  {
    var r := Cells(s.num - 1, s.present - {c}, s.children[c := None]);
    var v := CellsView(s);
    var i := Find(v.bytes, c);
    RemoveKeepsSorted(v.bytes, i);
    CellsDelete(s, v, i, c);
    CellsViewIs(r, Removed(v, i));
  }

  lemma CellsDelete<T>(s: Cells<T>, v: View<T>, i: nat, c: Byte)
    requires |s.children| == 256 && CellsHave(s, v) && Sorted(v.bytes) && i < |v.bytes| && v.bytes[i] == c
    ensures CellsHave(s.(children := s.children[c := None]), Removed(v, i))
  {
    var w := Removed(v, i);
    forall j | 0 <= j < |w.bytes| ensures w.kids[j] == s.children[c := None][w.bytes[j]] {
      var t := if j < i then j else j + 1;
      assert w.bytes[j] == v.bytes[t] != c && w.kids[j] == v.kids[t];
    }
  }

  /** The first n children of v are in the cells of their bytes and nothing else is entered. */
  ghost predicate Scattered<T>(s: Cells<T>, v: View<T>, n: nat)
  {
    && |s.children| == 256 && n <= |v.bytes| == |v.kids|
    && (forall i :: 0 <= i < n ==> s.children[v.bytes[i]] == v.kids[i])
    && (forall c: Byte :: c !in v.bytes[..n] ==> s.children[c] == None)
    && (forall c :: c in s.present <==> 0 <= c < 256 && c in v.bytes[..n])
  }

  lemma ScatterStep<T>(s: Cells<T>, v: View<T>, n: nat)
    requires GoodView(v) && Scattered(s, v, n) && n < |v.bytes|
    ensures Scattered(s.(present := s.present + {v.bytes[n]}, children := s.children[v.bytes[n] := v.kids[n]]), v, n + 1)
  {
    assert v.bytes[..n + 1] == v.bytes[..n] + [v.bytes[n]];
  }

  lemma ScatteredGood<T>(s: Cells<T>, v: View<T>)
    requires GoodView(v) && Scattered(s, v, |v.bytes|) && s.num == |v.bytes|
    ensures GoodCells(s) && CellsView(s) == v
  {
    assert v.bytes[..|v.bytes|] == v.bytes;
    ListedCount(s.present, v.bytes);
    forall c: Byte | c in v.bytes ensures s.children[c].Some? {
      var i :| 0 <= i < |v.bytes| && v.bytes[i] == c;
    }
    CellsViewIs(s, v);
  }

  class Node256<T> {
    var num: nat
    var present: set<int>
    const children: array<Option<T>>

    ghost function Snapshot(): Cells<T>
      reads this, children
    {
      Cells(num, present, children[..])
    }

    ghost predicate Valid()
      reads this, children
    {
      GoodCells(Snapshot())
    }

    ghost function TheView(): View<T>
      requires Valid()
      reads this, children
    {
      CellsView(Snapshot())
    }

    constructor ()
      ensures Valid() && fresh(children)
      ensures TheView() == View([], [])
    {
      num, present := 0, {};
      children := new Option<T>[256](_ => None);
      new;
      CellsViewIs(Snapshot(), View([], []));
    }

    method FindChild(c: Byte) returns (r: Option<T>)
      requires Valid()
      ensures r == ChildOf(TheView(), c)
    {
      CellsGoodView(Snapshot());
      r := children[c];
    }

    method AddChild(c: Byte, child: T)
      requires Valid() && c !in TheView().bytes
      modifies this, children
      ensures Valid() && TheView() == Added(old(TheView()), c, child)
    {
      ghost var s := Snapshot();
      CellsAdd(s, c, child);
      children[c] := Some(child);
      present := present + {c};
      num := num + 1;
      assert Snapshot() == Cells(s.num + 1, s.present + {c}, s.children[c := Some(child)]);
    }

    /** The stores with which `grow` enters the n-th child. */
    method Enter(b: Byte, child: Option<T>, ghost v: View<T>, ghost n: nat)
      requires GoodView(v) && Scattered(Snapshot(), v, n) && n < |v.bytes| && b == v.bytes[n] && child == v.kids[n]
      modifies this`present, children
      ensures Scattered(Snapshot(), v, n + 1)
    {
      ghost var s := Snapshot();
      ScatterStep(s, v, n);
      children[b] := child;
      present := present + {b};
      assert Snapshot() == s.(present := s.present + {b}, children := s.children[b := child]);
    }

    /** Removal in delInner256. */
    method RemoveChild(c: Byte)
      requires Valid() && c in TheView().bytes
      modifies this, children
      ensures Valid() && TheView() == Removed(old(TheView()), Find(old(TheView()).bytes, c))
    {
      ghost var s := Snapshot();
      CellsRemove(s, c);
      children[c] := None;
      present := present - {c};
      num := num - 1;
      assert Snapshot() == Cells(s.num - 1, s.present - {c}, s.children[c := None]);
    }

    /** `rangeChildren`: walk the four bitmap words, lowest bit first, dropping it each time. */
    method RangeChildren(fn: Callback<(Byte, Option<T>)>) returns (seen: seq<(Byte, Option<T>)>, go: bool)
      requires Valid()
      ensures (seen, go) == Feed([], Pairs(TheView()), fn)
    {
      ghost var v := TheView();
      ghost var ps := Pairs(v);
      FedEnds(ps, fn);
      seen := [];
      for w := 0 to 4
        invariant |seen| <= |ps| && seen == ps[..|seen|] && Fed(ps, fn, |seen|) && Walked(v.bytes, |seen|, 64 * w)
      {
        seen, go := RangeWord(w, fn, seen, v);
        if !go { return seen, false; }
      }
      WalkEnd(v.bytes, |seen|);
      return seen, true;
    }

    /** The inner loop over one 64-bit word. */
    method RangeWord(w: nat, fn: Callback<(Byte, Option<T>)>, before: seq<(Byte, Option<T>)>, ghost v: View<T>)
      returns (seen: seq<(Byte, Option<T>)>, go: bool)
      requires w < 4 && children.Length == 256 && CellsHave(Snapshot(), v) && IsListed(present, v.bytes)
      requires Walked(v.bytes, |before|, 64 * w) && before == Pairs(v)[..|before|] && Fed(Pairs(v), fn, |before|)
      ensures go ==> Walked(v.bytes, |seen|, 64 * w + 64) && seen == Pairs(v)[..|seen|] && Fed(Pairs(v), fn, |seen|)
      ensures !go ==> Feed([], Pairs(v), fn) == (seen, false)
    {
      ghost var ps := Pairs(v);
      seen := before;
      var word := WordAt(present, 64 * w);
      ghost var at := 64 * w;
      while word != {}
        invariant 64 * w <= at <= 64 * w + 64 && Walked(v.bytes, |seen|, at)
        invariant seen == ps[..|seen|] && Fed(ps, fn, |seen|)
        invariant IsWord(present, word, 64 * w, at)
        decreases word
      {
        var bit := NextBit(present, v.bytes, word, 64 * w, at, |seen|);
        var b: Byte := 64 * w + bit;
        FedStep(ps, fn, |seen|);
        assert ps[|seen|] == (b, children[b]);
        seen := seen + [(b, children[b])];
        if !fn(seen) { return seen, false; }
        word := word - {bit};
        at := b + 1;
      }
      WordGap(present, word, 64 * w, at, 64);
      WalkSkip(present, v.bytes, |seen|, at, 64 * w + 64);
      go := true;
    }

    /** `shrink`: walk the bitmap and enter the n-th byte found in slot n. */
    method Shrink() returns (r: Node48<T>)
      requires Valid() && num <= 48
      ensures fresh(r) && r.Valid() && r.TheView() == TheView()
    {
      ghost var v := TheView();
      CellsGoodView(Snapshot());
      r := new Node48<T>();
      var n := 0;
      for w := 0 to 4
        invariant fresh(r) && fresh(r.sorted) && fresh(r.index) && fresh(r.children)
        invariant Walked(v.bytes, n, 64 * w) && Filled(r.Snapshot(), v, n) && FreeFrom(r.free, n)
      {
        n := ShrinkWord(w, r, n, v);
      }
      WalkEnd(v.bytes, n);
      r.num := n;
      FilledGood(r.Snapshot(), v);
    }

    /** The inner loop over one 64-bit word. */
    method ShrinkWord(w: nat, r: Node48<T>, before: nat, ghost v: View<T>) returns (n: nat)
      requires w < 4 && children.Length == 256 && CellsHave(Snapshot(), v) && IsListed(present, v.bytes)
      requires GoodView(v) && |v.bytes| <= 48 && Walked(v.bytes, before, 64 * w)
      requires children != r.children && Filled(r.Snapshot(), v, before) && FreeFrom(r.free, before)
      modifies r`free, r.sorted, r.index, r.children
      ensures Walked(v.bytes, n, 64 * w + 64) && Filled(r.Snapshot(), v, n) && FreeFrom(r.free, n)
    {
      n := before;
      var word := WordAt(present, 64 * w);
      ghost var at := 64 * w;
      while word != {}
        invariant 64 * w <= at <= 64 * w + 64 && Walked(v.bytes, n, at)
        invariant Filled(r.Snapshot(), v, n) && FreeFrom(r.free, n)
        invariant IsWord(present, word, 64 * w, at)
        decreases word
      {
        var bit := NextBit(present, v.bytes, word, 64 * w, at, n);
        var b: Byte := 64 * w + bit;
        r.Fill(n, b, children[b], v);
        FreeNext(r.free, n);
        r.free := r.free - {n};
        n := n + 1;
        word := word - {bit};
        at := b + 1;
      }
      WordGap(present, word, 64 * w, at, 64);
      WalkSkip(present, v.bytes, n, at, 64 * w + 64);
    }
  }

  /** word holds the bits of the 64-bit bitmap word at `base` that are not yet behind `at`. */
  ghost predicate IsWord(present: set<int>, word: set<int>, base: nat, at: nat)
  {
    forall b :: b in word <==> at - base <= b < 64 && base + b in present
  }

  lemma WordGap(present: set<int>, word: set<int>, base: nat, at: nat, bit: int)
    requires IsWord(present, word, base, at) && base <= at && bit <= 64 && forall b :: b in word ==> bit <= b
    ensures forall d :: at <= d < base + bit ==> d !in present
  {
    forall d | at <= d < base + bit ensures d !in present {
      assert d - base in word <==> base + (d - base) in present;
    }
  }

  /** `word &= word - 1` leaves the bits above the lowest one. */
  lemma WordNext(present: set<int>, word: set<int>, base: nat, at: nat, bit: int)
    requires IsWord(present, word, base, at) && IsLeast(word, bit)
    ensures IsWord(present, word - {bit}, base, base + bit + 1)
  {}

  /** A walk of the bitmap that has come to `at` has passed exactly the first n of its bytes. */
  ghost predicate Walked(bs: seq<Byte>, n: nat, at: nat)
  {
    n <= |bs| && forall i :: 0 <= i < |bs| ==> (bs[i] < at <==> i < n)
  }

  lemma WalkStep(present: set<int>, bs: seq<Byte>, n: nat, at: nat, b: Byte)
    requires IsListed(present, bs) && Walked(bs, n, at)
    requires at <= b && b in present && forall d :: at <= d < b ==> d !in present
    ensures n < |bs| && bs[n] == b && Walked(bs, n + 1, b + 1)
  {
    assert b in bs;
    var i :| 0 <= i < |bs| && bs[i] == b;
    assert bs[n] in bs;
  }

  lemma WalkSkip(present: set<int>, bs: seq<Byte>, n: nat, at: nat, to: nat)
    requires IsListed(present, bs) && Walked(bs, n, at) && at <= to && forall d :: at <= d < to ==> d !in present
    ensures Walked(bs, n, to)
  {
    forall i | 0 <= i < |bs| ensures bs[i] < to <==> i < n { assert bs[i] in bs; }
  }

  lemma WalkEnd(bs: seq<Byte>, n: nat)
    requires Walked(bs, n, 256)
    ensures n == |bs|
  {
    if |bs| > 0 { assert bs[|bs| - 1] < 256; }
  }

  /** One turn of a walk over a bitmap word: its lowest bit is the next byte of the list. */
  method NextBit(ghost present: set<int>, ghost bs: seq<Byte>, word: set<int>, ghost base: nat, ghost at: nat, ghost n: nat)
    returns (bit: int)
    requires word != {} && IsWord(present, word, base, at) && base <= at && base <= 192 && IsListed(present, bs) && Walked(bs, n, at)
    ensures 0 <= bit < 64 && at <= base + bit && n < |bs| && bs[n] == base + bit
    ensures IsWord(present, word - {bit}, base, base + bit + 1) && Walked(bs, n + 1, base + bit + 1)
    ensures bit in word
  {
    bit := LowestBit(word);
    WordGap(present, word, base, at, bit);
    WalkStep(present, bs, n, at, base + bit);
    WordNext(present, word, base, at, bit);
  }

  /** Finding the least one bit of a bitmap. */
  method LowestBit(bits: set<int>) returns (m: int)
    requires bits != {} && forall b :: b in bits ==> 0 <= b < 64
    ensures m == TrailingZeros(bits)
  {
    m := 0;
    while m !in bits
      invariant 0 <= m && forall b :: b in bits ==> m <= b < 64
      decreases 64 - m
    {
      assert TrailingZeros(bits) >= m;
      m := m + 1;
    }
  }
}
