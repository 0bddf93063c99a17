/** ASCII case-insensitive comparison eight bytes at a time (fold/fold.go). */
module Fold {
  import opened Bits

  /** The `lower` table. */
  function Lower(b: Byte): Byte {
    if 65 <= b <= 90 then b + 32 else b
  }

  /** Equal after folding A-Z to a-z: what the package promises. */
  predicate FoldEqual(a: seq<Byte>, b: seq<Byte>) {
    |a| == |b| && forall i :: 0 <= i < |a| ==> Lower(a[i]) == Lower(b[i])
  }

  // ---------------------------------------------------------------- byte masks

  /** b | 0x20 */
  function Or20(b: Byte): Byte {
    if b / 32 % 2 == 1 then b else b + 32
  }

  /** b &^ 0x20 */
  function AndNot20(b: Byte): Byte {
    if b / 32 % 2 == 1 then b - 32 else b
  }

  /** b | 0x80 */
  function Or80(b: Byte): Byte {
    if b >= 128 then b else b + 128
  }

  /** x ^ y splits into the upper bits and the lowest bit. */
  lemma XorHalves(x: nat, y: nat)
    ensures XorNat(x, y) == 2 * XorNat(x / 2, y / 2) + if x % 2 == y % 2 then 0 else 1
  {}

  /** Exclusive or works on the upper bits and on the lowest n bits separately. */
  lemma {:induction false} XorSplit(x: nat, y: nat, n: nat, hx: nat, lx: nat, hy: nat, ly: nat)
    requires x == Pow2(n) * hx + lx && lx < Pow2(n)
    requires y == Pow2(n) * hy + ly && ly < Pow2(n)
    ensures XorNat(x, y) == Pow2(n) * XorNat(hx, hy) + XorNat(lx, ly)
    ensures XorNat(lx, ly) < Pow2(n)
    decreases n
  {
    XorBound(lx, ly, n, Pow2(n));
    if n > 0 {
      var p := Pow2(n - 1);
      Halve(x, p, hx, lx);
      Halve(y, p, hy, ly);
      XorSplit(x / 2, y / 2, n - 1, hx, lx / 2, hy, ly / 2);
      XorHalves(x, y);
      XorHalves(lx, ly);
      Regroup(p, XorNat(hx, hy));
    }
  }

  lemma Regroup(p: nat, h: nat)
    ensures 2 * p * h == 2 * (p * h)
  {}

  lemma Halve(x: nat, p: nat, h: nat, l: nat)
    requires x == 2 * p * h + l
    ensures x / 2 == p * h + l / 2 && x % 2 == l % 2
  {
    Regroup(p, h);
  }

  /** Two bytes differ in bit 5 at most exactly when they agree once that bit is set. */
  lemma CaseBit(a: Byte, b: Byte)
    ensures AndNot20(XorByte(a, b)) == 0 <==> Or20(a) == Or20(b)
  {
    assert Pow2(5) == 32 && Pow2(6) == 64;
    XorSplit(a, b, 5, a / 32, a % 32, b / 32, b % 32);
    XorSplit(a, b, 6, a / 64, a % 64, b / 64, b % 64);
    CaseMask(XorByte(a, b));
    OrCaseIs(a);
    OrCaseIs(b);
  }

  lemma CaseMask(x: Byte)
    ensures AndNot20(x) == 0 <==> x % 32 == 0 && x / 64 == 0
  {}

  lemma OrCaseIs(a: Byte)
    ensures Or20(a) == 64 * (a / 64) + 32 + a % 32
  {}

  // ---------------------------------------------------------------- i8differs

  function OrCase(x: Word): Word {
    seq(8, k requires 0 <= k < 8 => Or20(x[k]))
  }

  function OrTop(x: Word): Word {
    seq(8, k requires 0 <= k < 8 => Or80(x[k]))
  }

  /** `letter >> 2`, lane by lane: bit 5 where both comparisons set bit 7. */
  predicate Letter(la: Word, k: nat)
    requires k < 8
  {
    Sub(OrTop(la), Repeat(0x61))[k] >= 128 && Sub(Repeat(0xfa), la)[k] >= 128
  }

  predicate Differs(wa: Word, wb: Word) {
    var d := Xor(wa, wb);
    if d == Zero then false
    else if exists k :: 0 <= k < 8 && AndNot20(d[k]) != 0 then true
    else
      var la := OrCase(wa);
      exists k :: 0 <= k < 8 && (if Letter(la, k) then AndNot20(d[k]) else d[k]) != 0
  }

  /** Bytes up to 0xfa (with bit 5 set) cannot borrow in 0xfafa... - la. */
  predicate Safe(b: Byte) {
    Or20(b) <= 0xfa
  }

  lemma {:induction false} NoBorrowZ(la: Word, k: nat)
    requires k <= 8 && forall j :: 0 <= j < k ==> la[j] <= 0xfa
    ensures Borrow(Repeat(0xfa), la, k) == 0
  {
    if k > 0 { NoBorrowZ(la, k - 1); }
  }

  lemma {:induction false} NoBorrowA(la: Word, k: nat)
    requires k <= 8
    ensures Borrow(OrTop(la), Repeat(0x61), k) == 0
  {
    if k > 0 { NoBorrowA(la, k - 1); }
  }

  lemma LetterExact(x: Word, k: nat)
    requires k < 8 && forall j :: 0 <= j <= k ==> Safe(x[j])
    ensures Letter(OrCase(x), k) <==> 0x61 <= Or20(x[k]) <= 0x7a
  {
    var la := OrCase(x);
    NoBorrowA(la, k);
    NoBorrowA(la, k + 1);
    NoBorrowZ(la, k);
    NoBorrowZ(la, k + 1);
  }

  /** A byte above 0xfa passes for a letter, with or without a borrow from below. */
  lemma LetterWrong(x: Word, k: nat)
    requires k < 8 && !Safe(x[k])
    ensures Letter(OrCase(x), k)
  {
    var la := OrCase(x);
    NoBorrowA(la, k);
    NoBorrowA(la, k + 1);
  }

  lemma SameLower(a: Byte, b: Byte)
    ensures Lower(a) == Lower(b) <==> a == b || (Or20(a) == Or20(b) && 0x61 <= Or20(a) <= 0x7a)
  {}

  /** On safe words the bit trick is the table comparison. */
  lemma DiffersExact(wa: Word, wb: Word)
    requires forall k :: 0 <= k < 8 ==> Safe(wa[k])
    ensures Differs(wa, wb) <==> exists k :: 0 <= k < 8 && Lower(wa[k]) != Lower(wb[k])
  {
    var d := Xor(wa, wb);
    ZeroIsZero(d);
    forall k | 0 <= k < 8
      ensures d[k] == 0 <==> wa[k] == wb[k]
      ensures AndNot20(d[k]) == 0 <==> Or20(wa[k]) == Or20(wb[k])
      ensures Letter(OrCase(wa), k) <==> 0x61 <= Or20(wa[k]) <= 0x7a
      ensures Lower(wa[k]) == Lower(wb[k]) <==>
              wa[k] == wb[k] || (Or20(wa[k]) == Or20(wb[k]) && 0x61 <= Or20(wa[k]) <= 0x7a)
    {
      CaseBit(wa[k], wb[k]);
      LetterExact(wa, k);
      SameLower(wa[k], wb[k]);
    }
  }

  // ---------------------------------------------------------------- EqualBytes

  /** What EqualBytes accepts: words that do not differ, then a tail equal under the table. */
  predicate CodeEqual(a: seq<Byte>, b: seq<Byte>) {
    && |a| == |b|
    && (forall w :: 0 <= w < |a| / 8 ==> !Differs(LoadAt(a, 8 * w), LoadAt(b, 8 * w)))
    && forall i :: |a| / 8 * 8 <= i < |a| ==> Lower(a[i]) == Lower(b[i])
  }

  /** No byte that the word loop reads can borrow. */
  predicate SafeWords(a: seq<Byte>) {
    forall i :: 0 <= i < |a| / 8 * 8 ==> Safe(a[i])
  }

  method EqualBytes(a: seq<Byte>, b: seq<Byte>) returns (r: bool)
    ensures r <==> CodeEqual(a, b)
    ensures SafeWords(a) ==> (r <==> FoldEqual(a, b))
  {
    if SafeWords(a) { CodeIsFold(a, b); }
    var n := |a|;
    if n != |b| { return false; }
    var i := 0;
    ghost var w := 0;
    while i + 8 <= n
      invariant i == 8 * w <= n
      invariant forall v :: 0 <= v < w ==> !Differs(LoadAt(a, 8 * v), LoadAt(b, 8 * v))
    {
      if Differs(LoadAt(a, i), LoadAt(b, i)) { return false; }
      i, w := i + 8, w + 1;
    }
    while i < n
      invariant |a| / 8 * 8 <= i <= n
      invariant forall j :: |a| / 8 * 8 <= j < i ==> Lower(a[j]) == Lower(b[j])
    {
      if Lower(a[i]) != Lower(b[i]) { return false; }
      i := i + 1;
    }
    return true;
  }

  lemma CodeIsFold(a: seq<Byte>, b: seq<Byte>)
    requires SafeWords(a)
    ensures CodeEqual(a, b) <==> FoldEqual(a, b)
  {
    if |a| == |b| {
      forall w | 0 <= w < |a| / 8
        ensures Differs(LoadAt(a, 8 * w), LoadAt(b, 8 * w)) <==>
                exists i :: 8 * w <= i < 8 * w + 8 && Lower(a[i]) != Lower(b[i])
      {
        WordIsFold(a, b, w);
      }
      if CodeEqual(a, b) {
        forall i | 0 <= i < |a| ensures Lower(a[i]) == Lower(b[i]) {
          if i < |a| / 8 * 8 { assert !Differs(LoadAt(a, 8 * (i / 8)), LoadAt(b, 8 * (i / 8))); }
        }
      }
    }
  }

  lemma WordIsFold(a: seq<Byte>, b: seq<Byte>, w: nat)
    requires |a| == |b| && w < |a| / 8 && SafeWords(a)
    ensures Differs(LoadAt(a, 8 * w), LoadAt(b, 8 * w)) <==>
            exists i :: 8 * w <= i < 8 * w + 8 && Lower(a[i]) != Lower(b[i])
  {
    var x, y := LoadAt(a, 8 * w), LoadAt(b, 8 * w);
    assert forall k :: 0 <= k < 8 ==> x[k] == a[8 * w + k] && y[k] == b[8 * w + k];
    DiffersExact(x, y);
    if i :| 8 * w <= i < 8 * w + 8 && Lower(a[i]) != Lower(b[i]) {
      assert x[i - 8 * w] == a[i] && y[i - 8 * w] == b[i];
    }
  }

  /** The byte with bit 5 flipped. */
  function Flip(b: Byte): Byte {
    if b / 32 % 2 == 1 then b - 32 else b + 32
  }

  /** An unsafe byte is taken for a letter, so flipping its case bit goes unnoticed. */
  lemma UnsafeFools(a: seq<Byte>, i: nat)
    requires i < |a| / 8 * 8 && !Safe(a[i])
    ensures CodeEqual(a, a[i := Flip(a[i])]) && !FoldEqual(a, a[i := Flip(a[i])])
  {
    var b := a[i := Flip(a[i])];
    assert Lower(a[i]) != Lower(b[i]);
    forall w | 0 <= w < |a| / 8 ensures !Differs(LoadAt(a, 8 * w), LoadAt(b, 8 * w)) {
      var x, y := LoadAt(a, 8 * w), LoadAt(b, 8 * w);
      if 8 * w <= i < 8 * w + 8 {
        FlipUnseen(x, i - 8 * w);
        assert y == x[i - 8 * w := Flip(x[i - 8 * w])];
      } else {
        assert x == y;
        ZeroIsZero(Xor(x, y));
      }
    }
  }

  lemma FlipUnseen(x: Word, k: nat)
    requires k < 8 && !Safe(x[k])
    ensures !Differs(x, x[k := Flip(x[k])])
  {
    var y := x[k := Flip(x[k])];
    LetterWrong(x, k);
    CaseBit(x[k], y[k]);
  }

  /** Main theorem: EqualBytes agrees with the folding table for every second argument exactly
      when no byte of the first one that is read in a word exceeds 0xfa with bit 5 set. */
  lemma FoldExact(a: seq<Byte>)
    ensures SafeWords(a) <==> forall b :: CodeEqual(a, b) <==> FoldEqual(a, b)
  {
    if SafeWords(a) {
      forall b ensures CodeEqual(a, b) <==> FoldEqual(a, b) { CodeIsFold(a, b); }
    } else {
      var i :| 0 <= i < |a| / 8 * 8 && !Safe(a[i]);
      UnsafeFools(a, i);
    }
  }
}
