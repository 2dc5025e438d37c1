/** A point of the plane. raster_grid.py, plot_2d.py and plot_over_line.py
    each declare a `Point` dataclass with the same two float fields (the one
    of plot_over_line.py also has `distance_to`); the model shares one
    declaration, with coordinates as reals. */
module Geometry {

  datatype Point = Point(x: real, y: real)

  /** Square of the Euclidean distance between two points (no square root). */
  function SqDist(p: Point, q: Point): (d: real)
    ensures d >= 0.0
  {
    var dx := q.x - p.x;
    var dy := q.y - p.y;
    assert dx * dx >= 0.0 && dy * dy >= 0.0;
    dx * dx + dy * dy
  }
}

/** Facts about Euclidean integer division, used by the enumeration proofs. */
module Arith {

  /** Quotient and remainder are determined by any decomposition `k == q * n + r`
      with `0 <= r < n`. */
  lemma DivModUnique(k: int, n: int, q: int, r: int)
    requires n > 0 && 0 <= r < n && k == q * n + r
    ensures k / n == q && k % n == r
  {
    var m := k / n - q;
    assert m * n == r - k % n;
  }

  /** The positions of one column are those below `n`. */
  lemma DivModSmall(k: int, n: int)
    requires 0 <= k < n
    ensures k / n == 0 && k % n == k
  {
    DivModUnique(k, n, 0, k);
  }

  /** Skipping one column of `n` positions lowers the quotient by one and keeps
      the remainder. */
  lemma DivModShift(k: int, n: int)
    requires 0 < n <= k
    ensures (k - n) / n == k / n - 1 && (k - n) % n == k % n
  {
    DivModRebuild(k - n, n);
    DivModUnique(k, n, (k - n) / n + 1, (k - n) % n);
  }

  /** `(a + 1) * n == a * n + n`. */
  lemma MulSucc(a: int, n: int)
    ensures (a + 1) * n == a * n + n
  {
  }

  /** The row-major position `a * m + b` of an in-range pair is below `n * m`. */
  lemma PairIndexInRange(a: int, b: int, n: int, m: int)
    requires 0 <= a < n && 0 <= b < m
    ensures 0 <= a * m + b < n * m
  {
    assert a * m <= (n - 1) * m;
  }

  /** A position below `n * m` has a quotient below `n`. */
  lemma QuotientInRange(k: int, n: int, m: int)
    requires 0 <= k < n * m && m > 0
    ensures 0 <= k / m < n
  {
    DivModRebuild(k, m);
  }

  /** Every `k` is rebuilt from its quotient and remainder. */
  lemma DivModRebuild(k: int, n: int)
    requires n > 0
    ensures k == (k / n) * n + k % n && 0 <= k % n < n
  {
  }
}
