/** Division facts with a variable divisor. */
module Arith {

  lemma MulAtLeast(k: int, d: int)
    requires k >= 1 && d >= 1
    ensures k * d >= d
  {
  }

  /** Quotient and remainder are determined by n == q * d + t with t below d. */
  lemma UniqueRemainder(n: int, d: int, q: int, t: int)
    requires 0 <= t < d && n == q * d + t
    ensures n / d == q && n % d == t
  {
    var q', t' := n / d, n % d;
    assert n == d * q' + t';
    assert q * d - q' * d == t' - t;
    Distribute(q, q', d);
    if q > q' {
      MulAtLeast(q - q', d);
    } else if q < q' {
      Distribute(q', q, d);
      MulAtLeast(q' - q, d);
    }
  }

  lemma Distribute(a: int, b: int, d: int)
    ensures (a - b) * d == a * d - b * d
  {
  }

  lemma AddMultiple(n: int, d: int, k: int)
    requires d > 0
    ensures (n + k * d) % d == n % d && (n + k * d) / d == n / d + k
  {
    var q, t := n / d, n % d;
    assert n == d * q + t;
    Distribute(q, -k, d);
    UniqueRemainder(n + k * d, d, q + k, t);
  }
}
