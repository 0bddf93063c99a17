/** The few facts about products, quotients and remainders that the models share. */
module Arith {
  lemma MulMono(a: int, b: int, d: int)
    requires d >= 0
    ensures a <= b ==> a * d <= b * d
  {}

  /** Quotient and remainder are determined by their defining equation. */
  lemma DivModIs(x: int, d: int, q: int, r: int)
    requires d >= 1 && x == q * d + r && 0 <= r < d
    ensures x / d == q && x % d == r
  {
    assert x == x / d * d + x % d;
    MulMono(x / d + 1, q, d);
    MulMono(q + 1, x / d, d);
  }

  lemma DivAtLeast(a: int, q: int, d: int)
    requires d >= 1 && q * d <= a
    ensures q <= a / d
  {
    assert a == a / d * d + a % d;
    MulMono(a / d + 1, q, d);
  }

  /** Different numbers with the same remainder are at least a divisor apart. */
  lemma SameRemainder(i: int, j: int, d: int)
    requires d >= 1 && i % d == j % d && i < j
    ensures i + d <= j
  {
    var q, r := i / d, j / d;
    assert i == q * d + i % d && j == r * d + j % d;
    MulMono(r, q, d);
    MulMono(q + 1, r, d);
  }

  predicate IsPow2(c: nat) {
    c == 1 || (c > 1 && c % 2 == 0 && IsPow2(c / 2))
  }

  lemma Pow2Double(c: nat)
    requires IsPow2(c)
    ensures IsPow2(2 * c)
  {}
}
