/** Facts about truncating division of naturals used throughout the model. */
module Arith {

  /** `a / d` is the floor of the exact quotient. */
  lemma DivFloor(a: nat, d: nat)
    requires d > 0
    ensures (a / d) * d <= a < (a / d + 1) * d
  {
  }

  /** A quotient stays below `m` when the dividend stays below `m * d`. */
  lemma DivBelow(a: nat, d: nat, m: nat)
    requires d > 0 && a < m * d
    ensures a / d < m
  {
    DivFloor(a, d);
  }

  /** A quotient reaches `m` when the dividend reaches `m * d`. */
  lemma DivAtLeast(a: nat, d: nat, m: nat)
    requires d > 0 && m * d <= a
    ensures m <= a / d
  {
    DivFloor(a, d);
  }

  /** A quotient is zero exactly when the dividend is below the divisor. */
  lemma DivZero(a: nat, d: nat)
    requires d > 0
    ensures a / d == 0 <==> a < d
  {
    if a >= d {
      DivAtLeast(a, d, 1);
    }
  }

  /** One more copy of `a` in a product. */
  lemma MulSucc(a: nat, n: nat)
    ensures a * n + a == a * (n + 1)
  {
  }

  /** Quotient and remainder of `q * d + r` for a remainder below `d`. */
  lemma DivModUnique(q: nat, r: nat, d: nat)
    requires r < d
    ensures (q * d + r) / d == q
    ensures (q * d + r) % d == r
  {
    MulSucc(d, q);
    assert (q + 1) * d == q * d + d;
    DivAtLeast(q * d + r, d, q);
    DivBelow(q * d + r, d, q + 1);
  }

  /** Multiplying by a natural keeps order. */
  lemma MulMonotone(a: nat, b: nat, c: nat)
    requires a <= b
    ensures a * c <= b * c
  {
  }

  /** A larger dividend never gives a smaller quotient. */
  lemma DivMonotone(a1: nat, a2: nat, d: nat)
    requires d > 0 && a1 <= a2
    ensures a1 / d <= a2 / d
  {
    DivFloor(a2, d);
    DivBelow(a1, d, a2 / d + 1);
  }

  /** A larger divisor never gives a larger quotient. */
  lemma DivAntitone(a: nat, d1: nat, d2: nat)
    requires 0 < d1 <= d2
    ensures a / d2 <= a / d1
  {
    DivFloor(a, d2);
    MulMonotone(d1, d2, a / d2);
    assert (a / d2) * d1 <= a;
    DivAtLeast(a, d1, a / d2);
  }
}
