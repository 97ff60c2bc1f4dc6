/** Integer facts the index arithmetic needs, each stated once so that the
    proofs using them stay linear. */
module Arith {

  lemma MulLe(a: int, b: int, k: nat)
    requires a <= b
    ensures a * k <= b * k
  {
    assert b * k - a * k == (b - a) * k;
  }

  /** Block i of size k ends where a later block j starts, or before it. */
  lemma BlockBefore(i: int, j: int, k: nat)
    requires i < j
    ensures i * k + k <= j * k
  {
    MulLe(i + 1, j, k);
    assert (i + 1) * k == i * k + k;
  }

  /** A positive product of naturals has positive factors. */
  lemma PositiveFactors(a: nat, b: nat)
    requires a * b > 0
    ensures a >= 1 && b >= 1
  {
  }

  /** A product of naturals is zero exactly when a factor is. */
  lemma ZeroProduct(a: nat, b: nat)
    ensures a * b == 0 <==> a == 0 || b == 0
  {
    if a >= 1 && b >= 1 {
      MulLe(1, a, b);
    }
  }

  /** A product with a positive factor keeps the order of the other one. */
  lemma MulCancelLt(a: int, b: int, s: int)
    requires s > 0 && a * s < b * s
    ensures a < b
  {
    assert (b - a) * s == b * s - a * s;
  }

  /** The quotient is the only q with q*s <= a < q*s + s. */
  lemma DivUnique(a: int, s: int, q: int)
    requires s > 0 && q * s <= a < q * s + s
    ensures a / s == q
    ensures a % s == a - q * s
  {
    var p := a / s;
    assert p * s <= a < p * s + s;
    MulCancelLt(q, p + 1, s);
    MulCancelLt(p, q + 1, s);
  }

  /** Floor division by a positive divisor is monotone. */
  lemma DivMonotone(a: int, b: int, s: int)
    requires s > 0 && a <= b
    ensures a / s <= b / s
  {
    var p, q := a / s, b / s;
    assert p * s <= a && b < q * s + s;
    assert (q + 1) * s == q * s + s;
    MulCancelLt(p, q + 1, s);
  }

  /** ceil(a / s) for a >= 0, written as Dafny computes it. */
  lemma CeilDivUnique(a: int, s: int, c: int)
    requires s > 0 && a >= 0 && (c - 1) * s < a <= c * s
    ensures (a + s - 1) / s == c
  {
    DivUnique(a + s - 1, s, c);
  }
}
