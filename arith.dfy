/** Facts about integer division and remainder by a positive divisor
    (Dafny's `/` and `%`, which for a positive divisor agree with Python's
    floor division and modulo). */
module Arith {

  /** A product with a factor of at least one is at least the other factor. */
  lemma {:induction false} MulAtLeast(a: int, b: int)
    requires a >= 1 && b > 0
    ensures a * b >= b
    decreases a
  {
    if a > 1 {
      MulAtLeast(a - 1, b);
      assert a * b == (a - 1) * b + b;
    }
  }

  /** Quotient and remainder by a positive divisor are unique. */
  lemma DivModUnique(x: int, m: int, q: int, r: int)
    requires m > 0 && 0 <= r < m && x == q * m + r
    ensures x / m == q && x % m == r
  {
    var q', r' := x / m, x % m;
    assert x == q' * m + r' && 0 <= r' < m;
    assert (q - q') * m == r' - r by {
      assert (q - q') * m == q * m - q' * m;
    }
    if q > q' {
      MulAtLeast(q - q', m);
    } else if q < q' {
      MulAtLeast(q' - q, m);
    }
  }

  /** A whole number of divisor steps that fits in `t` is at most the
      quotient `t / m`. */
  lemma MulLeDiv(x: int, t: int, m: int)
    requires m > 0 && x * m <= t
    ensures x <= t / m
  {
    var q := t / m;
    assert t == q * m + t % m && t % m < m;
    if x > q {
      assert x * m == (x - q) * m + q * m;
      MulAtLeast(x - q, m);
    }
  }

  /** The remainder modulo `2p` is made of the remainder modulo 2 and,
      above it, the remainder of the halved value modulo `p`. */
  lemma ModDouble(a: int, p: int)
    requires p >= 1
    ensures a % (2 * p) == 2 * ((a / 2) % p) + a % 2
  {
    var h, l := a / 2, a % 2;
    var q, lo := h / p, h % p;
    assert a == 2 * h + l;
    assert h == q * p + lo;
    assert a == q * (2 * p) + (2 * lo + l);
    DivModUnique(a, 2 * p, q, 2 * lo + l);
  }
}
