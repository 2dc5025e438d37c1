/** `SquareLattice` of plot_2d.py: the same cell-centre formula as the raster
    grid, enumerated row after row (`j` outer, `i` inner). The lattice only
    stores its constructor arguments; `points` computes the spacing each time
    it is called and changes nothing. */
module Lattices {
  import opened Geometry
  import Arith
  import RasterGrids

  /** The fields `_lower_left`, `_size` and `_resolution`. */
  datatype SquareLattice = SquareLattice(lowerLeft: Point, size: (real, real), nx: int, ny: int)
  {
    /** The resolution is positive along both axes. */
    predicate Valid() {
      nx > 0 && ny > 0
    }

    /** The local `dx` of `points`: the spacing along each axis. */
    function Spacing(): (real, real)
      requires Valid()
    {
      (size.0 / nx as real, size.1 / ny as real)
    }

    /** The point of column `i` and row `j`. */
    function PointAt(i: int, j: int): Point
      requires Valid()
    {
      Point(lowerLeft.x + (i as real + 0.5) * Spacing().0,
            lowerLeft.y + (j as real + 0.5) * Spacing().1)
    }

    /** Row `j`: the inner generator, `i` over `range(nx)`. */
    function Row(j: int): seq<Point>
      requires Valid()
    {
      seq(nx, i => PointAt(i, j))
    }

    /** The rows `j`, `j + 1`, ..., `ny - 1`, row after row. */
    function PointsFrom(j: nat): seq<Point>
      requires Valid() && j <= ny
      decreases ny - j
    {
      if j == ny then [] else Row(j) + PointsFrom(j + 1)
    }

    /** `points()`: `nx * ny` points, element `k` in column `k % nx` and row
        `k / nx`. */
    function Points(): (ps: seq<Point>)
      requires Valid()
      ensures |ps| == nx * ny
      ensures forall k :: 0 <= k < |ps| ==> ps[k] == PointAt(k % nx, k / nx)
    {
      PointsFromAt(this, 0);
      PointsFrom(0)
    }
  }

  /** The rows from `j` on hold `(ny - j) * nx` points, row-major. */
  lemma {:induction false} PointsFromAt(l: SquareLattice, j: nat)
    requires l.Valid() && j <= l.ny
    ensures |l.PointsFrom(j)| == (l.ny - j) * l.nx
    ensures forall k :: 0 <= k < |l.PointsFrom(j)| ==>
      l.PointsFrom(j)[k] == l.PointAt(k % l.nx, j + k / l.nx)
    decreases l.ny - j
  {
    if j < l.ny {
      PointsFromAt(l, j + 1);
      var rest := l.PointsFrom(j + 1);
      var ps := l.PointsFrom(j);
      assert ps == l.Row(j) + rest;
      Arith.MulSucc(l.ny - j - 1, l.nx);
      forall k | 0 <= k < |ps| ensures ps[k] == l.PointAt(k % l.nx, j + k / l.nx) {
        if k < l.nx {
          Arith.DivModSmall(k, l.nx);
        } else {
          assert ps[k] == rest[k - l.nx];
          Arith.DivModShift(k, l.nx);
        }
      }
    }
  }

  /** For a positive size, every point lies strictly inside the domain
      rectangle `(lower_left, lower_left + size)`. */
  lemma PointsInsideDomain(l: SquareLattice, k: int)
    requires l.Valid() && l.size.0 > 0.0 && l.size.1 > 0.0
    requires 0 <= k < l.nx * l.ny
    ensures l.lowerLeft.x < l.Points()[k].x < l.lowerLeft.x + l.size.0
    ensures l.lowerLeft.y < l.Points()[k].y < l.lowerLeft.y + l.size.1
  {
    assert l.nx * l.ny == l.ny * l.nx;
    Arith.DivModRebuild(k, l.nx);
    Arith.QuotientInRange(k, l.ny, l.nx);
    PointAtInside(l, k % l.nx, k / l.nx);
  }

  /** The point of an in-range column and row lies inside the domain. */
  lemma PointAtInside(l: SquareLattice, i: int, j: int)
    requires l.Valid() && l.size.0 > 0.0 && l.size.1 > 0.0
    requires 0 <= i < l.nx && 0 <= j < l.ny
    ensures l.lowerLeft.x < l.PointAt(i, j).x < l.lowerLeft.x + l.size.0
    ensures l.lowerLeft.y < l.PointAt(i, j).y < l.lowerLeft.y + l.size.1
  {
    RasterGrids.HalfStepInside(i, l.nx, l.Spacing().0, l.size.0);
    RasterGrids.HalfStepInside(j, l.ny, l.Spacing().1, l.size.1);
  }

  /** The raster grid built from the same arguments as the lattice. */
  function GridOf(l: SquareLattice): (g: RasterGrids.RasterGrid)
    requires l.Valid()
    ensures g.Valid() && g.nx == l.nx && g.ny == l.ny
  {
    RasterGrids.NewRasterGrid(l.lowerLeft, l.size, (l.nx, l.ny))
  }

  /** The point of column `i` and row `j` sits at position `j * nx + i` of
      `points()`. */
  lemma PointPosition(l: SquareLattice, i: int, j: int)
    requires l.Valid() && 0 <= i < l.nx && 0 <= j < l.ny
    ensures j * l.nx + i < |l.Points()|
    ensures l.Points()[j * l.nx + i] == l.PointAt(i, j)
  {
    Arith.PairIndexInRange(j, i, l.ny, l.nx);
    assert l.ny * l.nx == l.nx * l.ny;
    Arith.DivModUnique(j * l.nx + i, l.nx, j, i);
  }

  /** Each lattice point is the grid centre of the transposed cell: the point
      at position `j * nx + i` of `points()` is the centre of the cell at
      position `i * ny + j` of `cells`. Both sequences have `nx * ny` entries,
      so this index map is a bijection and the two are permutations of each
      other. */
  lemma PointsAreTransposedCenters(l: SquareLattice, i: int, j: int)
    requires l.Valid() && 0 <= i < l.nx && 0 <= j < l.ny
    ensures j * l.nx + i < |l.Points()| && i * l.ny + j < |GridOf(l).Centers()|
    ensures l.Points()[j * l.nx + i] == GridOf(l).Centers()[i * l.ny + j]
  {
    var g := GridOf(l);
    PointPosition(l, i, j);
    RasterGrids.CenterPosition(g, RasterGrids.Cell(i, j));
    SameCenter(l, i, j);
  }

  /** The lattice and the grid place a cell's point alike. */
  lemma SameCenter(l: SquareLattice, i: int, j: int)
    requires l.Valid()
    ensures l.PointAt(i, j) == GridOf(l).CellCenter(RasterGrids.Cell(i, j))
  {
  }

  /** The `k`-th lattice point is a grid centre. */
  lemma PointIsCenter(l: SquareLattice, k: int)
    requires l.Valid() && 0 <= k < |l.Points()|
    ensures l.Points()[k] in GridOf(l).Centers()
  {
    assert l.nx * l.ny == l.ny * l.nx;
    Arith.DivModRebuild(k, l.nx);
    Arith.QuotientInRange(k, l.ny, l.nx);
    PointAtIsCenter(l, k % l.nx, k / l.nx);
  }

  /** The point of an in-range column and row is a grid centre. */
  lemma PointAtIsCenter(l: SquareLattice, i: int, j: int)
    requires l.Valid() && 0 <= i < l.nx && 0 <= j < l.ny
    ensures l.PointAt(i, j) in GridOf(l).Centers()
  {
    RasterGrids.CenterPosition(GridOf(l), RasterGrids.Cell(i, j));
    SameCenter(l, i, j);
  }

  /** The `k`-th grid centre is a lattice point. */
  lemma CenterIsPoint(l: SquareLattice, k: int)
    requires l.Valid() && 0 <= k < |GridOf(l).Centers()|
    ensures GridOf(l).Centers()[k] in l.Points()
  {
    Arith.DivModRebuild(k, l.ny);
    Arith.QuotientInRange(k, l.nx, l.ny);
    PointsAreTransposedCenters(l, k / l.ny, k % l.ny);
  }

  /** `points()` and the centres of the grid's `cells` are the same set of
      points. */
  lemma PointsMatchCenters(l: SquareLattice)
    requires l.Valid()
    ensures (set p | p in l.Points()) == (set p | p in GridOf(l).Centers())
  {
    var ps, cs := l.Points(), GridOf(l).Centers();
    forall p | p in ps ensures p in cs {
      var k :| 0 <= k < |ps| && ps[k] == p;
      PointIsCenter(l, k);
    }
    forall p | p in cs ensures p in ps {
      var k :| 0 <= k < |cs| && cs[k] == p;
      CenterIsPoint(l, k);
    }
  }
}
