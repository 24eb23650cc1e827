/** The few facts about products, quotients and remainders that the machine proofs share. */
module Arithmetic {
  lemma MulMonotone(a: int, b: int, c: int)
    requires a <= b && c >= 0
    ensures a * c <= b * c
  {
  }

  /** Quotient and remainder are determined by what they satisfy. */
  lemma DivModUnique(n: int, d: int, q: int, r: int)
    requires d > 0 && n == q * d + r && 0 <= r < d
    ensures n / d == q && n % d == r
  {
    var q', r' := n / d, n % d;
    assert n == q' * d + r';
    if q' < q {
      MulMonotone(q' + 1, q, d);
    } else if q < q' {
      MulMonotone(q + 1, q', d);
    }
  }

  lemma DivModSplit(n: int, d: int)
    requires d > 0
    ensures n == n / d * d + n % d && 0 <= n % d < d
  {
  }

  lemma Scaled(q: int, d: int, r: int, f: int)
    ensures (q * d + r) * f == q * (d * f) + r * f
  {
  }

  /** A common factor of dividend and divisor drops out of the quotient. */
  lemma DivCancel(n: int, d: int, f: int)
    requires d > 0 && f > 0
    ensures d * f > 0 && (n * f) / (d * f) == n / d
  {
    DivModSplit(n, d);
    var q, r := n / d, n % d;
    MulMonotone(r + 1, d, f);
    Scaled(q, d, r, f);
    DivModUnique(n * f, d * f, q, r * f);
  }

  /** Adding a multiple of the modulus. */
  lemma ModMultiple(n: int, k: int, d: int)
    requires d > 0
    ensures (n + k * d) % d == n % d
  {
    DivModSplit(n, d);
    SumOfMultiples(n / d, k, d);
    DivModUnique(n + k * d, d, n / d + k, n % d);
  }

  /** Adding remainders. */
  lemma ModSum(a: int, b: int, d: int)
    requires d > 0
    ensures (a % d + b % d) % d == (a + b) % d
  {
    DivModSplit(a, d);
    DivModSplit(b, d);
    ModSumParts(a, a / d, a % d, b, b / d, b % d, d);
  }

  lemma ModSumParts(a: int, qa: int, ra: int, b: int, qb: int, rb: int, d: int)
    requires d > 0 && a == qa * d + ra && b == qb * d + rb
    ensures (ra + rb) % d == (a + b) % d
  {
    SumOfMultiples(qa, qb, d);
    ModMultiple(ra + rb, qa + qb, d);
  }

  lemma SumOfMultiples(x: int, y: int, d: int)
    ensures (x + y) * d == x * d + y * d
  {
  }

  lemma QuotientBelow(n: int, d: int, w: int)
    requires d > 0 && 0 <= n < w * d
    ensures 0 <= n / d < w
  {
    DivModSplit(n, d);
    if n / d >= w {
      MulMonotone(w, n / d, d);
    } else if n / d < 0 {
      MulMonotone(n / d + 1, 0, d);
    }
  }

  lemma QuotientNatural(n: int, d: int)
    requires d > 0 && n >= 0
    ensures n / d >= 0
  {
    MulMonotone(1, d, n + 1);
    QuotientBelow(n, d, n + 1);
  }
}
