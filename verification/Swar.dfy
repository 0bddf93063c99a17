/** Byte scanning eight bytes at a time (swar/swar.go). */
module Swar {
  import opened Bits

  /** (x - n*Lo) &^ x & Hi: the marker word behind every test of this package. */
  function Markers(x: Word, n: Byte): Word {
    TopAndNot(Sub(x, Repeat(n)), x)
  }

  predicate HasZero(x: Word) {
    Markers(x, 1) != Zero
  }

  predicate HasByte(x: Word, b: Byte) {
    HasZero(Xor(x, Repeat(b)))
  }

  predicate HasLess(x: Word, n: Byte) {
    Markers(x, n) != Zero
  }

  function FirstByte(x: Word, b: Byte): int {
    var mask := Markers(Xor(x, Repeat(b)), 1);
    if mask == Zero then 8 else TrailingZeros64(mask) / 8
  }

  // ---------------------------------------------------------------- one lane

  lemma {:induction false} NoBorrow(x: Word, n: Byte, k: nat)
    requires k <= 8 && forall j :: 0 <= j < k ==> x[j] >= n
    ensures Borrow(x, Repeat(n), k) == 0
  {
    if k > 0 { NoBorrow(x, n, k - 1); }
  }

  // ---------------------------------------------------------------- one word

  /** Up to and including the first lane below n the markers are exact, whatever borrows follow. */
  lemma FirstMarker(x: Word, n: Byte, k: nat)
    requires k < 8 && n <= 128 && forall j :: 0 <= j < k ==> x[j] >= n
    ensures Markers(x, n)[k] != 0 <==> x[k] < n
  {
    NoBorrow(x, n, k);
  }

  /** The lowest marked lane is the first lane below n. */
  lemma MarkersFind(x: Word, n: Byte)
    requires n <= 128
    ensures var r := LowestLane(Markers(x, n), 0);
            && (r < 8 ==> x[r] < n)
            && forall j :: 0 <= j < r ==> x[j] >= n
  {
    NotBefore(x, n, LowestLane(Markers(x, n), 0));
    var r := LowestLane(Markers(x, n), 0);
    if r < 8 { FirstMarker(x, n, r); }
  }

  lemma {:induction false} NotBefore(x: Word, n: Byte, k: nat)
    requires k <= 8 && n <= 128
    requires forall j :: 0 <= j < k ==> Markers(x, n)[j] == 0
    ensures forall j :: 0 <= j < k ==> x[j] >= n
  {
    if k > 0 {
      NotBefore(x, n, k - 1);
      FirstMarker(x, n, k - 1);
    }
  }

  /** HasLess is an exact test for every word precisely when n is at most 128; above that it
      misses small bytes that have their top bit set. */
  lemma HasLessExact(n: Byte)
    ensures n <= 128 <==> forall x: Word :: HasLess(x, n) <==> exists k :: 0 <= k < 8 && x[k] < n
  {
    if n <= 128 {
      forall x: Word ensures HasLess(x, n) <==> exists k :: 0 <= k < 8 && x[k] < n {
        LessExact(x, n);
      }
    } else {
      var x := Repeat(128);
      ZeroIsZero(Markers(x, n));
      assert x[0] < n && !HasLess(x, n);
    }
  }

  lemma LessExact(x: Word, n: Byte)
    requires n <= 128
    ensures HasLess(x, n) <==> exists k :: 0 <= k < 8 && x[k] < n
  {
    MarkersFind(x, n);
    ZeroIsZero(Markers(x, n));
  }

  lemma XorLanes(x: Word, b: Byte)
    ensures forall k :: 0 <= k < 8 ==> (Xor(x, Repeat(b))[k] < 1 <==> x[k] == b)
  {
  }

  lemma HasByteExact(x: Word, b: Byte)
    ensures HasByte(x, b) <==> exists k :: 0 <= k < 8 && x[k] == b
  {
    XorLanes(x, b);
    LessExact(Xor(x, Repeat(b)), 1);
  }

  /** FirstByte is the least lane holding b, or 8. */
  lemma FirstByteLeast(x: Word, b: Byte)
    ensures 0 <= FirstByte(x, b) <= 8
    ensures FirstByte(x, b) < 8 ==> x[FirstByte(x, b)] == b
    ensures forall k :: 0 <= k < FirstByte(x, b) ==> x[k] != b
  {
    XorLanes(x, b);
    MarkersFind(Xor(x, Repeat(b)), 1);
    ZeroIsZero(Markers(Xor(x, Repeat(b)), 1));
  }

  // ---------------------------------------------------------------- scanning

  lemma FirstInWord(data: seq<Byte>, i: nat, b: Byte)
    requires i + 8 <= |data|
    ensures var idx := FirstByte(LoadAt(data, i), b);
            && 0 <= idx <= 8
            && (idx < 8 ==> data[i + idx] == b)
            && forall j :: i <= j < i + idx ==> data[j] != b
  {
    var x := LoadAt(data, i);
    FirstByteLeast(x, b);
    assert forall j :: i <= j < i + 8 ==> data[j] == x[j - i];
  }

  /** FindByte: the first position of b, or -1. */
  method FindByte(data: seq<Byte>, b: Byte) returns (r: int)
    ensures -1 <= r < |data|
    ensures r >= 0 ==> data[r] == b && forall j :: 0 <= j < r ==> data[j] != b
    ensures r == -1 ==> b !in data
  {
    var i, n := 0, |data|;
    while i + 8 <= n
      invariant 0 <= i <= n
      invariant forall j :: 0 <= j < i ==> data[j] != b
    {
      var idx := FirstByte(LoadAt(data, i), b);
      FirstInWord(data, i, b);
      if idx < 8 { return i + idx; }
      i := i + 8;
    }
    while i < n
      invariant 0 <= i <= n
      invariant forall j :: 0 <= j < i ==> data[j] != b
    {
      if data[i] == b { return i; }
      i := i + 1;
    }
    return -1;
  }

  /** Bytes that section 7 of RFC 8259 requires a JSON string to escape. */
  predicate MustEscape(c: Byte) {
    c < 0x20 || c == 0x22 || c == 0x5c
  }

  lemma CleanWord(data: seq<Byte>, i: nat)
    requires i + 8 <= |data|
    ensures var x := LoadAt(data, i);
            HasLess(x, 0x20) || HasByte(x, 0x22) || HasByte(x, 0x5c) <==>
            exists j :: i <= j < i + 8 && MustEscape(data[j])
  {
    var x := LoadAt(data, i);
    LessExact(x, 0x20);
    HasByteExact(x, 0x22);
    HasByteExact(x, 0x5c);
    assert forall k :: 0 <= k < 8 ==> x[k] == data[i + k];
    if j :| i <= j < i + 8 && MustEscape(data[j]) { assert x[j - i] == data[j]; }
  }

  /** FindEscape: the first byte that needs a JSON escape, or -1. */
  method FindEscape(data: seq<Byte>) returns (r: int)
    ensures -1 <= r < |data|
    ensures r >= 0 ==> MustEscape(data[r]) && forall j :: 0 <= j < r ==> !MustEscape(data[j])
    ensures r == -1 ==> forall j :: 0 <= j < |data| ==> !MustEscape(data[j])
  {
    var i, n := 0, |data|;
    while i + 8 <= n
      invariant 0 <= i <= n
      invariant forall j :: 0 <= j < i ==> !MustEscape(data[j])
    {
      var x := LoadAt(data, i);
      CleanWord(data, i);
      if HasLess(x, 0x20) || HasByte(x, 0x22) || HasByte(x, 0x5c) {
        var j := 0;
        while j < 8 && i + j < n
          invariant 0 <= j <= 8
          invariant forall t :: 0 <= t < i + j ==> !MustEscape(data[t])
        {
          if MustEscape(data[i + j]) { return i + j; }
          j := j + 1;
        }
      }
      i := i + 8;
    }
    while i < n
      invariant 0 <= i <= n
      invariant forall j :: 0 <= j < i ==> !MustEscape(data[j])
    {
      if MustEscape(data[i]) { return i; }
      i := i + 1;
    }
    return -1;
  }
}
