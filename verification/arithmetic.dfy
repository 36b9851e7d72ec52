/*
 * Facts about integer products, quotients and remainders shared by the
 * panel sweep and the label compositor.
 */
module Arithmetic {

  /** Euclidean division has one quotient and one remainder. */
  lemma DivModUnique(i: int, w: int, q: int, r: int)
    requires 0 < w && 0 <= r < w && i == w * q + r
    ensures i / w == q && i % w == r
  {
    var q', r' := i / w, i % w;
    assert i == w * q' + r';
    if q' < q {
      assert w * (q - q') == w * q - w * q';
      MulAtLeast(w, q - q');
    } else if q < q' {
      assert w * (q' - q) == w * q' - w * q;
      MulAtLeast(w, q' - q);
    }
  }

  lemma MulAtLeast(w: int, k: int)
    requires 0 < w && 1 <= k
    ensures w * k >= w
  {
    assert w * k == w * (k - 1) + w;
  }

  /** A product grows with its left factor when the right one is not negative. */
  lemma MulMonotone(a: int, b: int, c: int)
    requires a <= b && 0 <= c
    ensures a * c <= b * c
  {
    assert b * c - a * c == (b - a) * c;
  }

  /** A quotient of a value below k times the divisor is below k. */
  lemma DivBelow(a: int, d: int, k: int)
    requires 0 < d && 0 <= a < k * d
    ensures a / d < k
  {
    assert a == (a / d) * d + a % d;
    if a / d >= k {
      MulMonotone(k, a / d, d);
    }
  }

  /** A quotient of a value at least k times the divisor is at least k. */
  lemma DivAtLeast(a: int, d: int, k: int)
    requires 0 < d && k * d <= a
    ensures k <= a / d
  {
    assert a == (a / d) * d + a % d;
    if a / d < k {
      MulMonotone(a / d + 1, k, d);
    }
  }
}
