/** 64-bit words as eight little-endian byte lanes (encoding/binary and math/bits as used by
    swar/swar.go, fold/fold.go and art/node.go). Bitwise operators act lane by lane; subtraction
    carries a borrow from each lane into the next. */
module Bits {
  type Byte = b: int | 0 <= b < 256
  type Word = x: seq<Byte> | |x| == 8 witness [0, 0, 0, 0, 0, 0, 0, 0]

  /** The byte b in every lane: Lo * uint64(b). */
  function Repeat(b: Byte): Word {
    [b, b, b, b, b, b, b, b]
  }

  const Zero: Word := Repeat(0)

  // ---------------------------------------------------------------- bits of one byte

  /** Exclusive or, bit by bit from the lowest. */
  function XorNat(a: nat, b: nat): (r: nat)
    ensures r == 0 <==> a == b
  {
    if a == 0 && b == 0 then 0 else 2 * XorNat(a / 2, b / 2) + (if a % 2 == b % 2 then 0 else 1)
  }

  lemma {:induction false} XorBound(a: nat, b: nat, n: nat, size: nat)
    requires size == Pow2(n) && a < size && b < size
    ensures XorNat(a, b) < size
    decreases n
  {
    if n > 0 && !(a == 0 && b == 0) { XorBound(a / 2, b / 2, n - 1, Pow2(n - 1)); }
  }

  function Pow2(n: nat): nat {
    if n == 0 then 1 else 2 * Pow2(n - 1)
  }

  function XorByte(a: Byte, b: Byte): (r: Byte)
    ensures r == 0 <==> a == b
  {
    assert Pow2(8) == 256 by {
      assert Pow2(4) == 16;
    }
    XorBound(a, b, 8, 256);
    XorNat(a, b)
  }

  // ---------------------------------------------------------------- words

  function Xor(x: Word, y: Word): Word {
    seq(8, k requires 0 <= k < 8 => XorByte(x[k], y[k]))
  }

  /** x & ^y & 0x8080808080808080: the top bit of x where y has none. */
  function TopAndNot(x: Word, y: Word): Word {
    seq(8, k requires 0 <= k < 8 => if x[k] >= 128 && y[k] < 128 then 128 else 0)
  }

  /** The borrow into lane k of x - y. */
  function Borrow(x: Word, y: Word, k: nat): (c: int)
    requires k <= 8
    ensures c == 0 || c == 1
  {
    if k == 0 then 0 else if x[k - 1] < y[k - 1] + Borrow(x, y, k - 1) then 1 else 0
  }

  /** x - y, the borrow out of the top lane dropped. */
  function Sub(x: Word, y: Word): Word {
    seq(8, k requires 0 <= k < 8 => x[k] - y[k] - Borrow(x, y, k) + 256 * Borrow(x, y, k + 1))
  }

  function Pow256(k: nat): nat {
    if k == 0 then 1 else 256 * Pow256(k - 1)
  }

  /** The unsigned value of the lowest k bytes of a word. */
  function Value(x: Word, k: nat): int
    requires k <= 8
  {
    if k == 0 then 0 else Value(x, k - 1) + x[k - 1] * Pow256(k - 1)
  }

  lemma Distribute(a: int, b: int, c: int, u: int, p: int)
    ensures (a - b - c + 256 * u) * p == a * p - b * p - c * p + u * (256 * p)
  {}

  /** Subtracting lane by lane with borrows is subtraction modulo 256^8, the machine's 64-bit `-`. */
  lemma {:induction false} SubIsSubtraction(x: Word, y: Word, k: nat)
    requires k <= 8
    ensures Value(Sub(x, y), k) == Value(x, k) - Value(y, k) + Borrow(x, y, k) * Pow256(k)
  {
    if k > 0 {
      SubIsSubtraction(x, y, k - 1);
      Distribute(x[k - 1], y[k - 1], Borrow(x, y, k - 1), Borrow(x, y, k), Pow256(k - 1));
    }
  }

  lemma ZeroIsZero(x: Word)
    ensures x == Zero <==> forall k :: 0 <= k < 8 ==> x[k] == 0
  {}

  /** `binary.LittleEndian.Uint64(data[i:])` */
  function LoadAt(data: seq<Byte>, i: nat): Word
    requires i + 8 <= |data|
  {
    data[i..i + 8]
  }

  /** Trailing zeros of a non-zero byte. */
  function TrailingZeros8(b: Byte): (r: int)
    requires b != 0
    ensures 0 <= r < 8
  {
    if b % 2 != 0 then 0 else if b % 4 != 0 then 1 else if b % 8 != 0 then 2 else if b % 16 != 0 then 3
    else if b % 32 != 0 then 4 else if b % 64 != 0 then 5 else if b % 128 != 0 then 6 else 7
  }

  /** The lowest non-zero lane from k on, or 8. */
  function LowestLane(x: Word, k: nat): (r: nat)
    requires k <= 8
    ensures k <= r <= 8
    ensures forall j :: k <= j < r ==> x[j] == 0
    ensures r < 8 ==> x[r] != 0
    decreases 8 - k
  {
    if k == 8 || x[k] != 0 then k else LowestLane(x, k + 1)
  }

  /** `bits.TrailingZeros64` */
  function TrailingZeros64(x: Word): (r: int)
    ensures r / 8 == LowestLane(x, 0)
  {
    var k := LowestLane(x, 0);
    if k == 8 then 64 else 8 * k + TrailingZeros8(x[k])
  }
}
