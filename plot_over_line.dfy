/** The discrete parts of plot_over_line.py: a point cloud with brute-force
    nearest-neighbour lookup, a function given by one value per cloud point,
    a line segment parametrised over `[0, 1]`, and the sampling loop that
    produces the data of a plot along the line.

    `Point.distance_to` takes a square root, which the model does not compute:
    every operation that measures distance takes the distance function `dist`
    as a parameter (`dist(a, b)` stands for `a.distance_to(b)`), and
    `IsEuclidean` states what the source's function is. */
module LinePlots {
  import opened Geometry
  import Arith

  /** `dist(a, b)` stands for `a.distance_to(b)`. */
  type Distance = (Point, Point) -> real

  /** `dist` is the Euclidean distance: the non-negative square root of the
      squared distance. */
  ghost predicate IsEuclidean(dist: Distance) {
    forall a, b :: dist(a, b) >= 0.0 && dist(a, b) * dist(a, b) == SqDist(a, b)
  }

  /** `i` is the first index of `pts` whose point is nearest to `p`: no point
      is nearer, and every earlier point is strictly farther. */
  ghost predicate IsFirstNearest(pts: seq<Point>, p: Point, dist: Distance, i: int) {
    && 0 <= i < |pts|
    && (forall j :: 0 <= j < |pts| ==> dist(pts[i], p) <= dist(pts[j], p))
    && (forall j :: 0 <= j < i ==> dist(pts[i], p) < dist(pts[j], p))
  }

  /** `min(pts, key=lambda point: point.distance_to(p))`: a left-to-right scan
      that replaces the candidate only by a strictly nearer point. */
  function MinByDistance(pts: seq<Point>, p: Point, dist: Distance): (q: Point)
    requires |pts| > 0
    ensures q in pts
    ensures forall r :: r in pts ==> dist(q, p) <= dist(r, p)
  {
    if |pts| == 1 then pts[0]
    else
      var best := MinByDistance(pts[..|pts| - 1], p, dist);
      var last := pts[|pts| - 1];
      assert pts == pts[..|pts| - 1] + [last];
      if dist(last, p) < dist(best, p) then last else best
  }

  /** `list.index`: the first position holding `x`. */
  function IndexOf(s: seq<Point>, x: Point): (i: nat)
    requires x in s
    ensures i < |s| && s[i] == x
    ensures forall j :: 0 <= j < i ==> s[j] != x
  {
    if s[0] == x then 0 else 1 + IndexOf(s[1..], x)
  }

  /** The point `min` returns sits at the first index of minimal distance. */
  lemma {:induction false} MinByDistanceIsFirst(pts: seq<Point>, p: Point, dist: Distance)
    requires |pts| > 0
    ensures exists m :: IsFirstNearest(pts, p, dist, m) && pts[m] == MinByDistance(pts, p, dist)
  {
    if |pts| > 1 {
      var init := pts[..|pts| - 1];
      MinByDistanceIsFirst(init, p, dist);
      var m :| IsFirstNearest(init, p, dist, m) && init[m] == MinByDistance(init, p, dist);
      if dist(pts[|pts| - 1], p) < dist(pts[m], p) {
        NearerLastIsFirst(pts, p, dist, m);
        assert MinByDistance(pts, p, dist) == pts[|pts| - 1];
      } else {
        FartherLastKeepsFirst(pts, p, dist, m);
        assert MinByDistance(pts, p, dist) == pts[m];
      }
    } else {
      assert IsFirstNearest(pts, p, dist, 0);
    }
  }

  /** A last point strictly nearer than the first nearest point of the
      others is the first nearest point of all. */
  lemma NearerLastIsFirst(pts: seq<Point>, p: Point, dist: Distance, m: int)
    requires |pts| > 1 && IsFirstNearest(pts[..|pts| - 1], p, dist, m)
    requires dist(pts[|pts| - 1], p) < dist(pts[m], p)
    ensures IsFirstNearest(pts, p, dist, |pts| - 1)
  {
    var init := pts[..|pts| - 1];
    forall j | 0 <= j < |init| ensures dist(pts[m], p) <= dist(pts[j], p) {
      assert init[j] == pts[j];
    }
  }

  /** A last point no nearer than the first nearest point of the others
      leaves that point first nearest. */
  lemma FartherLastKeepsFirst(pts: seq<Point>, p: Point, dist: Distance, m: int)
    requires |pts| > 1 && IsFirstNearest(pts[..|pts| - 1], p, dist, m)
    requires dist(pts[m], p) <= dist(pts[|pts| - 1], p)
    ensures IsFirstNearest(pts, p, dist, m)
  {
    var init := pts[..|pts| - 1];
    forall j | 0 <= j < |init| ensures dist(pts[m], p) <= dist(pts[j], p) {
      assert init[j] == pts[j];
    }
    forall j | 0 <= j < m ensures dist(pts[m], p) < dist(pts[j], p) {
      assert init[j] == pts[j];
    }
  }

  /** At most one index is the first nearest one. */
  lemma FirstNearestUnique(pts: seq<Point>, p: Point, dist: Distance, i: int, i': int)
    requires IsFirstNearest(pts, p, dist, i) && IsFirstNearest(pts, p, dist, i')
    ensures i == i'
  {
    assert dist(pts[i], p) <= dist(pts[i'], p);
    assert dist(pts[i'], p) <= dist(pts[i], p);
  }

  /** The cloud's list `_points`. */
  datatype PointCloud = PointCloud(points: seq<Point>)
  {
    /** `size`. */
    function Size(): (n: nat)
      ensures n == |multiset(points)|
    {
      |points|
    }

    /** `cloud[index]`: Python list indexing, where a negative index counts
        from the end. */
    function Get(index: int): (q: Point)
      requires -(Size() as int) <= index < Size()
      ensures q == points[index % Size()]
    {
      if index >= 0 then
        Arith.DivModSmall(index, Size());
        points[index]
      else
        Arith.DivModUnique(index, Size(), -1, |points| + index);
        points[|points| + index]
    }

    /** `get_nearest(p)`: a stored point no farther from `p` than any other. */
    function GetNearest(p: Point, dist: Distance): (q: Point)
      requires |points| > 0
      ensures q in points
      ensures forall r :: r in points ==> dist(q, p) <= dist(r, p)
    {
      MinByDistance(points, p, dist)
    }

    /** `get_nearest_point_index(p)`: the position of `get_nearest(p)` found
        by `list.index`, which is the first index of minimal distance. */
    function GetNearestPointIndex(p: Point, dist: Distance): (i: nat)
      requires |points| > 0
      ensures i < |points| && IsFirstNearest(points, p, dist, i)
    {
      var q := GetNearest(p, dist);
      var i := IndexOf(points, q);
      assert IsFirstNearest(points, p, dist, i) by {
        MinByDistanceIsFirst(points, p, dist);
        var m :| IsFirstNearest(points, p, dist, m) && points[m] == q;
        assert i <= m;
      }
      i
    }
  }

  /** `size` counts the stored points: each index below it, and each negative
      index down to minus it, reaches one of them, the `k`-th from either end. */
  lemma SizeIndexesCloud(c: PointCloud, k: int)
    requires 0 <= k < c.Size()
    ensures c.Get(k) == c.points[k] && c.Get(k - c.Size() as int) == c.points[k]
    ensures c.Get(-1 - k) == c.points[|c.points| - 1 - k]
  {
  }

  /** A function sampled at the points of a cloud: `point_values[k]` is its
      value at `point_cloud[k]`. */
  datatype DiscreteFunction = DiscreteFunction(cloud: PointCloud, values: seq<real>)
  {
    /** The cloud is not empty (`min` fails on an empty list) and there is a
        value for every cloud point, so every lookup finds its value. */
    predicate Defined() {
      |cloud.points| > 0 && |values| >= |cloud.points|
    }

    /** `function(point)`. */
    function Call(p: Point, dist: Distance): (r: real)
      requires Defined()
      ensures exists i :: IsFirstNearest(cloud.points, p, dist, i) && r == values[i]
    {
      var i := cloud.GetNearestPointIndex(p, dist);
      assert IsFirstNearest(cloud.points, p, dist, i);
      values[i]
    }
  }

  /** `function(point)` is the value at the first nearest cloud point. */
  lemma CallAtFirstNearest(f: DiscreteFunction, p: Point, dist: Distance, i: int)
    requires f.Defined() && IsFirstNearest(f.cloud.points, p, dist, i)
    ensures f.Call(p, dist) == f.values[i]
  {
    FirstNearestUnique(f.cloud.points, p, dist, i, f.cloud.GetNearestPointIndex(p, dist));
  }

  /** Evaluating at a cloud point that occurs nowhere earlier in the cloud
      gives that point's own value, for a distance that is zero exactly on
      equal points. */
  lemma CallAtCloudPoint(f: DiscreteFunction, k: int, dist: Distance)
    requires f.Defined() && 0 <= k < |f.cloud.points|
    requires forall j :: 0 <= j < k ==> f.cloud.points[j] != f.cloud.points[k]
    requires forall a, b :: dist(a, b) >= 0.0 && (dist(a, b) == 0.0 <==> a == b)
    ensures f.Call(f.cloud.points[k], dist) == f.values[k]
  {
    var pts := f.cloud.points;
    assert IsFirstNearest(pts, pts[k], dist, k) by {
      forall j | 0 <= j < k ensures dist(pts[k], pts[k]) < dist(pts[j], pts[k]) {
        assert dist(pts[j], pts[k]) != 0.0;
      }
    }
    CallAtFirstNearest(f, pts[k], dist, k);
  }

  /** A segment from `source` to `target`; `vector` is the difference the
      constructor caches. */
  datatype Line = Line(source: Point, target: Point, vector: (real, real))
  {
    /** `vector` is `target - source`, as every constructed line has it. */
    predicate Valid() {
      vector == (target.x - source.x, target.y - source.y)
    }

    /** `at(fraction)`: the point a `fraction` of the way from `source` to
        `target`; it starts at `source` and ends at `target`. */
    function At(fraction: real): (q: Point)
      requires Valid() && 0.0 <= fraction <= 1.0
      ensures fraction == 0.0 ==> q == source
      ensures fraction == 1.0 ==> q == target
    {
      Point(source.x + fraction * vector.0, source.y + fraction * vector.1)
    }
  }

  /** `Line(source, target)`. */
  function NewLine(source: Point, target: Point): (l: Line)
    ensures l.Valid() && l.source == source && l.target == target
  {
    Line(source, target, (target.x - source.x, target.y - source.y))
  }

  /** `at(f)` divides the segment in the ratio `f : 1 - f`. */
  lemma AtDividesSegment(l: Line, f: real)
    requires l.Valid() && 0.0 <= f <= 1.0
    ensures SqDist(l.source, l.At(f)) == f * f * SqDist(l.source, l.target)
    ensures SqDist(l.At(f), l.target) == (1.0 - f) * (1.0 - f) * SqDist(l.source, l.target)
  {
    var (vx, vy) := l.vector;
    assert (f * vx) * (f * vx) + (f * vy) * (f * vy) == f * f * (vx * vx + vy * vy);
    assert l.target.x - l.At(f).x == (1.0 - f) * vx;
    assert l.target.y - l.At(f).y == (1.0 - f) * vy;
    assert ((1.0 - f) * vx) * ((1.0 - f) * vx) + ((1.0 - f) * vy) * ((1.0 - f) * vy)
      == (1.0 - f) * (1.0 - f) * (vx * vx + vy * vy);
  }

  /** The fraction of sample `i` of `n`: `float(i) * (1.0 / (n - 1))`. */
  function SampleFraction(i: int, n: int): real
    requires n >= 2
  {
    i as real * (1.0 / (n - 1) as real)
  }

  /** Sample fractions run from exactly 0 to exactly 1 and grow with `i`. */
  lemma SampleFractionRange(i: int, n: int)
    requires n >= 2 && 0 <= i < n
    ensures 0.0 <= SampleFraction(i, n) <= 1.0
    ensures i == 0 ==> SampleFraction(i, n) == 0.0
    ensures i == n - 1 ==> SampleFraction(i, n) == 1.0
    ensures i > 0 ==> SampleFraction(i - 1, n) < SampleFraction(i, n)
  {
    var step := 1.0 / (n - 1) as real;
    assert step > 0.0;
    assert (n - 1) as real * step == 1.0;
    assert i as real * step <= (n - 1) as real * step;
  }

  /** The sample point of index `i`. */
  function Sample(l: Line, i: int, n: int): Point
    requires l.Valid() && n >= 2 && 0 <= i < n
  {
    SampleFractionRange(i, n);
    l.At(SampleFraction(i, n))
  }

  /** The `y` value of sample `i`: the function at the sample point. */
  function SampleValue(f: DiscreteFunction, l: Line, i: int, n: int, dist: Distance): real
    requires f.Defined() && l.Valid() && n >= 2 && 0 <= i < n
  {
    f.Call(Sample(l, i, n), dist)
  }

  /** `make_plot_data(function, line, number_of_samples)`: for each of the `n`
      samples along the line, `x` receives the distance of the sample from
      the line's source and `y` the function's value there. The first sample
      is the source and the last one the target. */
  method MakePlotData(f: DiscreteFunction, l: Line, n: int, dist: Distance)
    returns (x: seq<real>, y: seq<real>)
    requires n >= 2 && f.Defined() && l.Valid()
    ensures |x| == n && |y| == n
    ensures forall i :: 0 <= i < n ==> x[i] == dist(l.source, Sample(l, i, n))
    ensures forall i :: 0 <= i < n ==> y[i] == SampleValue(f, l, i, n, dist)
    ensures x[0] == dist(l.source, l.source) && y[0] == f.Call(l.source, dist)
    ensures y[n - 1] == f.Call(l.target, dist)
  {
    x, y := [], [];
    var stepFraction := 1.0 / (n - 1) as real;
    var i := 0;
    while i < n
      invariant 0 <= i <= n
      invariant |x| == i && |y| == i
      invariant forall k :: 0 <= k < i ==> x[k] == dist(l.source, Sample(l, k, n))
      invariant forall k :: 0 <= k < i ==> y[k] == SampleValue(f, l, k, n, dist)
    {
      SampleFractionRange(i, n);
      var current := l.At(i as real * stepFraction);
      PlotDataStep(f, l, n, dist, x, y, current);
      x := x + [dist(l.source, current)];
      y := y + [f.Call(current, dist)];
      i := i + 1;
    }
    SampleEndpoints(l, n);
  }

  /** One iteration of the loop of `make_plot_data`: appending the distance
      and the value at sample `|x|` extends the plot data by that sample. */
  lemma PlotDataStep(f: DiscreteFunction, l: Line, n: int, dist: Distance,
                     x: seq<real>, y: seq<real>, current: Point)
    requires n >= 2 && f.Defined() && l.Valid() && |x| == |y| < n
    requires current == l.At(|x| as real * (1.0 / (n - 1) as real))
    requires forall k :: 0 <= k < |x| ==> x[k] == dist(l.source, Sample(l, k, n))
    requires forall k :: 0 <= k < |y| ==> y[k] == SampleValue(f, l, k, n, dist)
    ensures forall k :: 0 <= k <= |x| ==>
      (x + [dist(l.source, current)])[k] == dist(l.source, Sample(l, k, n))
    ensures forall k :: 0 <= k <= |y| ==>
      (y + [f.Call(current, dist)])[k] == SampleValue(f, l, k, n, dist)
  {
    SampleFractionRange(|x|, n);
    assert current == Sample(l, |x|, n);
  }

  /** The first sample is the source of the line and the last one its target. */
  lemma SampleEndpoints(l: Line, n: int)
    requires l.Valid() && n >= 2
    ensures Sample(l, 0, n) == l.source && Sample(l, n - 1, n) == l.target
  {
    SampleFractionRange(0, n);
    SampleFractionRange(n - 1, n);
  }

  /** For the Euclidean distance the samples are evenly spaced: sample `i`
      lies at `SampleFraction(i, n)` times the length of the line from its
      source, so the `x` values of the plot grow from 0 to that length. */
  lemma SampleDistance(l: Line, i: int, n: int, dist: Distance)
    requires IsEuclidean(dist) && l.Valid() && n >= 2 && 0 <= i < n
    ensures dist(l.source, Sample(l, i, n)) == SampleFraction(i, n) * dist(l.source, l.target)
  {
    var f := SampleFraction(i, n);
    SampleFractionRange(i, n);
    AtDividesSegment(l, f);
    EuclideanScales(dist, l.source, l.At(f), l.target, f);
  }

  /** A point whose squared distance from `s` is `f^2` times that of `t` is
      `f` times as far from `s` as `t`, for a non-negative `f`. */
  lemma EuclideanScales(dist: Distance, s: Point, q: Point, t: Point, f: real)
    requires IsEuclidean(dist) && f >= 0.0
    requires SqDist(s, q) == f * f * SqDist(s, t)
    ensures dist(s, q) == f * dist(s, t)
  {
    var a, d := dist(s, q), dist(s, t);
    assert a >= 0.0 && a * a == SqDist(s, q);
    assert d >= 0.0 && d * d == SqDist(s, t);
    ScaledSquare(f, d);
    NonNegativeRootUnique(a, f * d);
  }

  /** `(f * d)^2 == f^2 * d^2`. */
  lemma ScaledSquare(f: real, d: real)
    ensures (f * d) * (f * d) == f * f * (d * d)
  {
  }

  /** Two non-negative reals with equal squares are equal. */
  lemma NonNegativeRootUnique(a: real, b: real)
    requires a >= 0.0 && b >= 0.0 && a * a == b * b
    ensures a == b
  {
    SquareMonotone(a, b);
    SquareMonotone(b, a);
  }

  /** Under the Euclidean distance, nearest by distance is nearest by squared
      distance: taking the square root does not change which point wins. */
  lemma NearestBySquaredDistance(c: PointCloud, p: Point, dist: Distance)
    requires IsEuclidean(dist) && |c.points| > 0
    ensures c.GetNearestPointIndex(p, dist) == c.GetNearestPointIndex(p, SqDist)
  {
    var pts := c.points;
    var i := c.GetNearestPointIndex(p, dist);
    forall j | 0 <= j < |pts| ensures SqDist(pts[i], p) <= SqDist(pts[j], p) {
      EuclideanOrder(dist, pts[j], pts[i], p);
    }
    forall j | 0 <= j < i ensures SqDist(pts[i], p) < SqDist(pts[j], p) {
      EuclideanOrder(dist, pts[i], pts[j], p);
    }
    assert IsFirstNearest(pts, p, SqDist, i);
    FirstNearestUnique(pts, p, SqDist, i, c.GetNearestPointIndex(p, SqDist));
  }

  /** The Euclidean distance and its square order points alike. */
  lemma EuclideanOrder(dist: Distance, a: Point, b: Point, p: Point)
    requires IsEuclidean(dist)
    ensures dist(a, p) < dist(b, p) <==> SqDist(a, p) < SqDist(b, p)
  {
    SquareMonotone(dist(a, p), dist(b, p));
  }

  /** Squaring preserves the strict order of non-negative reals. */
  lemma SquareMonotone(a: real, b: real)
    requires a >= 0.0 && b >= 0.0
    ensures a < b <==> a * a < b * b
  {
    if a < b {
      assert (b - a) * a >= 0.0 && (b - a) * b > 0.0;
    } else {
      assert (a - b) * b >= 0.0 && (a - b) * a >= 0.0;
    }
  }
}
