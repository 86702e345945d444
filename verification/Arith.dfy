/** Facts of division and concatenation that the solver does not find alone. */
module Arith {

  /** Quotient and remainder are the only pair that recombine. */
  lemma {:induction false} DivModUnique(a: int, d: int, q: int, r: int)
    requires d > 0 && 0 <= r < d && a == q * d + r
    ensures a / d == q && a % d == r
  {
    var q', r' := a / d, a % d;
    assert a == q' * d + r';
    assert (q - q') * d == r' - r;
    if q > q' {
      MulAtLeast(q - q', d);
    } else if q < q' {
      assert (q' - q) * d == r - r';
      MulAtLeast(q' - q, d);
    }
  }

  lemma {:induction false} MulAtLeast(k: int, d: int)
    requires k >= 1 && d > 0
    ensures k * d >= d
  {
  }

  lemma {:induction false} MulMonotone(a: int, b: int, c: int)
    requires a <= b && c >= 0
    ensures a * c <= b * c
  {
  }

  /** A quotient by two or more is smaller. */
  lemma {:induction false} DivShrinks(n: int, d: int)
    requires n >= d >= 2
    ensures 1 <= n / d < n
  {
    var q, r := n / d, n % d;
    assert n == q * d + r;
    if q < 1 {
      MulMonotone(q, 0, d);
    } else {
      MulMonotone(2, d, q);
    }
  }

  lemma {:induction false} DivBound(n: int, d: int, m: int)
    requires d > 0 && 0 <= n < d * m
    ensures 0 <= n / d < m
  {
    var q, r := n / d, n % d;
    assert n == q * d + r;
    if q >= m {
      MulMonotone(m, q, d);
    } else if q < 0 {
      MulMonotone(q, -1, d);
    }
  }

  lemma {:induction false} DivModBack(n: int, d: int)
    requires d > 0
    ensures n == n / d * d + n % d
  {
  }

  lemma {:induction false} MulAssoc(a: int, b: int, c: int)
    ensures a * (b * c) == a * b * c
  {
  }

  lemma {:induction false} Assoc<T>(a: seq<T>, b: seq<T>, c: seq<T>)
    ensures a + b + c == a + (b + c)
  {
  }

  /** Multiples of the divisor do not show in the remainder. */
  lemma {:induction false} ModShift(a: int, q: int, d: int)
    requires d > 0
    ensures (a + q * d) % d == a % d
  {
    DivModBack(a, d);
    DivModUnique(a + q * d, d, a / d + q, a % d);
  }
}
