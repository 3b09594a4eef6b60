/** Small facts about integer division and flooring that the index
    arithmetic of the sampler, the ditherer and the renderer rests on. */
module Arith {

  /** Euclidean division is determined by any quotient/remainder pair. */
  lemma DivModUnique(n: int, d: int, q: int, r: int)
    requires d > 0 && 0 <= r < d && n == q * d + r
    ensures n / d == q && n % d == r
  {
    var q', r' := n / d, n % d;
    assert n == q' * d + r';
    assert (q' - q) * d == r - r';
    if q' > q {
      MulAtLeast(q' - q, d);
    } else if q' < q {
      MulAtLeast(q - q', d);
    }
  }

  lemma MulAtLeast(a: int, d: int)
    requires a >= 1 && d > 0
    ensures a * d >= d
  {
  }

  /** The floor of n/d taken in the reals is integer division. */
  lemma FloorOfQuotient(n: int, d: int)
    requires d > 0
    ensures (n as real / d as real).Floor == n / d
  {
    var q, r := n / d, n % d;
    assert n == q * d + r;
    assert n as real / d as real == q as real + r as real / d as real;
    assert 0.0 <= r as real / d as real < 1.0;
  }

  /** Row-major coordinates of a flat index name a unique cell. */
  lemma RowMajor(k: int, w: int, x: int, y: int)
    requires w > 0 && 0 <= x < w && k == y * w + x
    ensures k % w == x && k / w == y
  {
    DivModUnique(k, w, y, x);
  }

  /** A flat row-major index of an in-range cell is in range. */
  lemma RowMajorBound(x: int, y: int, w: int, h: int)
    requires 0 <= x < w && 0 <= y < h
    ensures 0 <= y * w + x < w * h
  {
    assert y * w <= (h - 1) * w;
  }

  /** An index below w * h splits into an in-range column and row. */
  lemma RowMajorSplit(k: int, w: int, h: int)
    requires w > 0 && 0 <= k < w * h
    ensures 0 <= k % w < w && 0 <= k / w < h && k == (k / w) * w + k % w
  {
    QuotientBelow(k, w, h);
  }

  /** A row at or past h lies at or past w * h. */
  lemma RowMajorBeyond(x: int, y: int, w: int, h: int)
    requires 0 <= x && w >= 0 && y >= h
    ensures y * w + x >= w * h
  {
    MulMonotone(h, y, w);
  }

  lemma MulMonotone(a: int, b: int, d: int)
    requires a <= b && d >= 0
    ensures a * d <= b * d
  {
    assert b * d - a * d == (b - a) * d;
  }

  /** A quotient is below m when the dividend is below m divisors. */
  lemma QuotientBelow(n: int, d: int, m: int)
    requires d > 0 && n < m * d
    ensures n / d < m
  {
    var q, r := n / d, n % d;
    assert n == q * d + r;
    if q >= m {
      MulMonotone(m, q, d);
    }
  }

  /** A dividend at least one divisor larger has a larger quotient. */
  lemma QuotientGrows(n1: int, n2: int, d: int)
    requires d > 0 && n2 >= n1 + d
    ensures n2 / d > n1 / d
  {
    var q1, r1, q2, r2 := n1 / d, n1 % d, n2 / d, n2 % d;
    assert n1 == q1 * d + r1 && n2 == q2 * d + r2;
    if q2 <= q1 {
      MulMonotone(q2, q1, d);
    }
  }

  /** Squaring is strictly increasing on the non-negative reals, so a
      comparison of two square roots is the comparison of their squares. */
  lemma SquareMonotone(a: real, b: real)
    requires a >= 0.0 && b >= 0.0
    ensures a < b <==> a * a < b * b
  {
    if a < b {
      var d := b - a;
      assert b * b == a * a + 2.0 * a * d + d * d;
      assert d * d > 0.0;
    } else {
      var d := a - b;
      assert a * a == b * b + 2.0 * b * d + d * d;
      assert b * d >= 0.0 && d * d >= 0.0;
    }
  }
}
