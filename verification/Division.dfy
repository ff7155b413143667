/** Quotients and remainders of sums whose low part is known. */
module Division {
  lemma MulBound(x: int, d: nat)
    requires x != 0
    ensures x * d >= d || x * d + d <= 0
  {
    if x > 0 {
      assert (x - 1) * d >= 0;
      assert x * d == (x - 1) * d + d;
    } else {
      assert (-x - 1) * d >= 0;
      assert x * d == -((-x - 1) * d) - d;
    }
  }

  /** A number written as quotient and remainder has no other quotient and remainder. */
  lemma Unique(n: int, d: nat, q: int, r: nat)
    requires d > 0 && n == q * d + r && r < d
    ensures n / d == q && n % d == r
  {
    var k, s := n / d, n % d;
    assert n == d * k + s;
    var x := q - k;
    assert x * d == q * d - k * d;
    if x != 0 {
      MulBound(x, d);
    }
  }
}
