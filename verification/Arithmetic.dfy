/** Division by a variable, as inequalities. */
module Arithmetic {
  lemma MulMono(p: nat, a: int, b: int)
    requires a <= b
    ensures p * a <= p * b
  {
  }

  lemma OneMore(k: int, n: int)
    ensures k * (n + 1) == k * n + k && (n + 1) * k == n * k + k
  {
  }

  lemma Quotient(a: int, d: nat)
    requires d > 0
    ensures a == d * (a / d) + a % d && 0 <= a % d < d
  {
  }

  /** A quotient reaches k exactly when the dividend reaches k times the divisor. */
  lemma QuotientReaches(a: int, d: nat, k: int)
    requires d > 0
    ensures k <= a / d <==> k * d <= a
  {
    Quotient(a, d);
    var q := a / d;
    if k <= q {
      MulMono(d, k, q);
    } else {
      MulMono(d, q + 1, k);
      OneMore(d, q);
    }
  }
}
