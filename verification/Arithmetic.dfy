/** Quotients and remainders by a divisor that is not a literal. */
module Arithmetic {

  lemma SmallMultiple(d: int, k: int)
    requires d > 0
    ensures k == 0 || k * d >= d || k * d <= -d
  {
  }

  lemma Remainder(x: nat, q: int, d: nat, r: nat)
    requires x == q * d + r && r < d
    ensures x % d == r
  {
    assert x == x / d * d + x % d;
    assert (q - x / d) * d == q * d - x / d * d == x % d - r;
    SmallMultiple(d, q - x / d);
  }
}
