/** Facts about multiplication and Euclidean division on naturals that the
    mask and time proofs share. */
module Arithmetic {

  /** Multiplying by the same natural keeps the order. */
  lemma MulMonotone(x: nat, y: nat, b: nat)
    ensures x <= y ==> x * b <= y * b
  {
    if x <= y {
      assert y * b == x * b + (y - x) * b;
    }
  }

  /** a < k*b implies a / b < k. */
  lemma DivBelow(a: nat, b: nat, k: nat)
    requires b > 0 && a < k * b
    ensures a / b < k
  {
    var q, r := a / b, a % b;
    assert a == q * b + r;
    MulMonotone(k, q, b);
  }

  /** Division by a positive number is monotone. */
  lemma DivMonotone(a: nat, a': nat, b: nat)
    requires b > 0 && a <= a'
    ensures a / b <= a' / b
  {
    var q, r := a / b, a % b;
    var q', r' := a' / b, a' % b;
    assert a == q * b + r && a' == q' * b + r';
    MulMonotone(q' + 1, q, b);
  }

  /** The quotient and remainder of a division are the unique pair that
      rebuilds the dividend with the remainder below the divisor. */
  lemma QuotientRemainder(t: nat, d: nat, q: nat, r: nat)
    requires 0 < d && r < d && t == q * d + r
    ensures t / d == q && t % d == r
  {
    var q', r' := t / d, t % d;
    assert t == q' * d + r';
    MulMonotone(q' + 1, q, d);
    MulMonotone(q + 1, q', d);
  }
}
