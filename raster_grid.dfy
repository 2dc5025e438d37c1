/** The uniform raster grid of raster_grid.py: an origin, a resolution (cell
    counts along x and y) and the per-axis cell width cached at construction.
    The grid never changes after construction, so it is a value. */
module RasterGrids {
  import opened Geometry
  import Arith

  /** A cell, addressed by its column `ix` and its row `iy`. */
  datatype Cell = Cell(ix: int, iy: int)

  /** The four fields the constructor assigns: `origin`, the resolution
      `(nx, ny)`, and the cell widths `dx`, `dy`. */
  datatype RasterGrid = RasterGrid(origin: Point, nx: int, ny: int, dx: real, dy: real)
  {
    /** The resolution is positive along both axes. */
    predicate Valid() {
      nx > 0 && ny > 0
    }

    /** The cell lies inside the grid. */
    predicate Contains(c: Cell) {
      0 <= c.ix < nx && 0 <= c.iy < ny
    }

    /** `number_of_cells`: `nx * ny`, the number of cells `cells` yields. */
    function NumberOfCells(): (n: int)
      ensures Valid() ==> n == |CellsFrom(0)|
    {
      if Valid() then CellsFromAt(this, 0); nx * ny else nx * ny
    }

    /** The cells of column `i`: the inner generator, `iy` over `range(ny)`. */
    function Column(i: int): seq<Cell>
      requires Valid()
    {
      seq(ny, j => Cell(i, j))
    }

    /** The cells of columns `i`, `i + 1`, ..., `nx - 1`, column after column. */
    function CellsFrom(i: nat): seq<Cell>
      requires Valid() && i <= nx
      decreases nx - i
    {
      if i == nx then [] else Column(i) + CellsFrom(i + 1)
    }

    /** The lazy enumeration `cells`: `ix` in the outer loop, `iy` in the inner
        one, so element `k` is the cell `(k / ny, k % ny)`. */
    function Cells(): (cs: seq<Cell>)
      requires Valid()
      ensures |cs| == NumberOfCells()
      ensures forall k :: 0 <= k < |cs| ==> cs[k] == Cell(k / ny, k % ny)
    {
      CellsFromAt(this, 0);
      CellsFrom(0)
    }

    /** Lower-left corner of a cell. */
    function CellLow(c: Cell): Point {
      Point(origin.x + c.ix as real * dx, origin.y + c.iy as real * dy)
    }

    /** Upper-right corner of a cell. */
    function CellHigh(c: Cell): Point {
      Point(origin.x + (c.ix + 1) as real * dx, origin.y + (c.iy + 1) as real * dy)
    }

    /** The centre of a cell lies halfway between its lower and upper edges on
        both axes. */
    function CellCenter(c: Cell): (p: Point)
      ensures p.x - CellLow(c).x == CellHigh(c).x - p.x
      ensures p.y - CellLow(c).y == CellHigh(c).y - p.y
    {
      Point(origin.x + (c.ix as real + 0.5) * dx, origin.y + (c.iy as real + 0.5) * dy)
    }

    /** The centres of `Cells()`, in enumeration order. */
    function Centers(): (ps: seq<Point>)
      requires Valid()
      ensures |ps| == NumberOfCells()
    {
      var cs := Cells();
      seq(|cs|, k requires 0 <= k < |cs| => CellCenter(cs[k]))
    }
  }

  /** The constructor: it stores the origin and the resolution and divides
      each size component by the resolution along that axis. */
  function NewRasterGrid(origin: Point, size: (real, real), resolution: (int, int)): (g: RasterGrid)
    requires resolution.0 > 0 && resolution.1 > 0
    ensures g.Valid() && g.origin == origin && g.nx == resolution.0 && g.ny == resolution.1
    ensures g.nx as real * g.dx == size.0 && g.ny as real * g.dy == size.1
  {
    RasterGrid(origin, resolution.0, resolution.1,
               size.0 / resolution.0 as real, size.1 / resolution.1 as real)
  }

  /** The columns from `i` on hold `(nx - i) * ny` cells, column-major. */
  lemma {:induction false} CellsFromAt(g: RasterGrid, i: nat)
    requires g.Valid() && i <= g.nx
    ensures |g.CellsFrom(i)| == (g.nx - i) * g.ny
    ensures forall k :: 0 <= k < |g.CellsFrom(i)| ==> g.CellsFrom(i)[k] == Cell(i + k / g.ny, k % g.ny)
    decreases g.nx - i
  {
    if i < g.nx {
      CellsFromAt(g, i + 1);
      var rest := g.CellsFrom(i + 1);
      var cs := g.CellsFrom(i);
      assert cs == g.Column(i) + rest;
      Arith.MulSucc(g.nx - i - 1, g.ny);
      forall k | 0 <= k < |cs| ensures cs[k] == Cell(i + k / g.ny, k % g.ny) {
        if k < g.ny {
          Arith.DivModSmall(k, g.ny);
        } else {
          assert cs[k] == rest[k - g.ny];
          Arith.DivModShift(k, g.ny);
        }
      }
    }
  }

  /** `cells` enumerates every cell of the grid, and nothing else. */
  lemma CellsCoverGrid(g: RasterGrid, c: Cell)
    requires g.Valid()
    ensures c in g.Cells() <==> g.Contains(c)
  {
    var cs := g.Cells();
    if c in cs {
      var k :| 0 <= k < |cs| && cs[k] == c;
      Arith.DivModRebuild(k, g.ny);
      Arith.QuotientInRange(k, g.nx, g.ny);
    }
    if g.Contains(c) {
      CellPosition(g, c);
    }
  }

  /** `cells` never yields the same cell twice. */
  lemma CellsDistinct(g: RasterGrid, a: int, b: int)
    requires g.Valid()
    requires 0 <= a < b < g.NumberOfCells()
    ensures g.Cells()[a] != g.Cells()[b]
  {
    Arith.DivModRebuild(a, g.ny);
    Arith.DivModRebuild(b, g.ny);
  }

  /** The cell at position `k` of `cells` is the `k`-th cell in column-major
      order, and every in-range cell has its position. */
  lemma CellPosition(g: RasterGrid, c: Cell)
    requires g.Valid() && g.Contains(c)
    ensures c.ix * g.ny + c.iy < g.NumberOfCells()
    ensures g.Cells()[c.ix * g.ny + c.iy] == c
  {
    Arith.PairIndexInRange(c.ix, c.iy, g.nx, g.ny);
    Arith.DivModUnique(c.ix * g.ny + c.iy, g.ny, c.ix, c.iy);
  }

  /** The centre of the in-range cell `(ix, iy)` sits at position
      `ix * ny + iy` of the centres. */
  lemma CenterPosition(g: RasterGrid, c: Cell)
    requires g.Valid() && g.Contains(c)
    ensures c.ix * g.ny + c.iy < |g.Centers()|
    ensures g.Centers()[c.ix * g.ny + c.iy] == g.CellCenter(c)
  {
    CellPosition(g, c);
  }

  /** For a positive size, the centre of an in-range cell lies strictly inside
      the domain `(origin, origin + size)` on both axes. */
  lemma CenterInsideDomain(origin: Point, size: (real, real), resolution: (int, int), c: Cell)
    requires resolution.0 > 0 && resolution.1 > 0
    requires size.0 > 0.0 && size.1 > 0.0
    requires 0 <= c.ix < resolution.0 && 0 <= c.iy < resolution.1
    ensures var p := NewRasterGrid(origin, size, resolution).CellCenter(c);
      origin.x < p.x < origin.x + size.0 && origin.y < p.y < origin.y + size.1
  {
    var g := NewRasterGrid(origin, size, resolution);
    HalfStepInside(c.ix, g.nx, g.dx, size.0);
    HalfStepInside(c.iy, g.ny, g.dy, size.1);
  }

  /** `0 < (i + 1/2) * w < n * w` for `0 <= i < n` and a positive width. */
  lemma HalfStepInside(i: int, n: int, w: real, extent: real)
    requires 0 <= i < n && n as real * w == extent && extent > 0.0
    ensures 0.0 < (i as real + 0.5) * w < extent
  {
    assert w > 0.0;
    var h := i as real + 0.5;
    assert h > 0.0 && n as real - h > 0.0;
    assert h * w > 0.0;
    assert (n as real - h) * w > 0.0;
    assert (n as real - h) * w == n as real * w - h * w;
  }

  /** With non-zero cell widths, two cells share a centre exactly when they
      are the same cell. */
  lemma CentersDistinct(g: RasterGrid, c1: Cell, c2: Cell)
    requires g.dx != 0.0 && g.dy != 0.0
    ensures g.CellCenter(c1) == g.CellCenter(c2) <==> c1 == c2
  {
    if c1.ix != c2.ix {
      assert (c1.ix as real + 0.5) * g.dx - (c2.ix as real + 0.5) * g.dx == (c1.ix - c2.ix) as real * g.dx;
    }
    if c1.iy != c2.iy {
      assert (c1.iy as real + 0.5) * g.dy - (c2.iy as real + 0.5) * g.dy == (c1.iy - c2.iy) as real * g.dy;
    }
  }

  /** The cell counts checked by `test_number_of_cells`. */
  lemma NumberOfCellsExamples()
    ensures NewRasterGrid(Point(0.0, 0.0), (1.0, 1.0), (10, 10)).NumberOfCells() == 100
    ensures NewRasterGrid(Point(0.0, 0.0), (1.0, 1.0), (10, 20)).NumberOfCells() == 200
    ensures NewRasterGrid(Point(0.0, 0.0), (1.0, 1.0), (20, 10)).NumberOfCells() == 200
    ensures NewRasterGrid(Point(0.0, 0.0), (1.0, 1.0), (20, 20)).NumberOfCells() == 400
  {
  }

  /** The scenario of `test_cell_center`: on the 2 x 2 grid of size 2 x 2 the
      centres are exactly the four expected points, in column-major order. */
  lemma CellCenterExample()
    ensures NewRasterGrid(Point(0.0, 0.0), (2.0, 2.0), (2, 2)).Centers()
      == [Point(0.5, 0.5), Point(0.5, 1.5), Point(1.5, 0.5), Point(1.5, 1.5)]
    ensures multiset(NewRasterGrid(Point(0.0, 0.0), (2.0, 2.0), (2, 2)).Centers())
      == multiset{Point(0.5, 0.5), Point(1.5, 0.5), Point(0.5, 1.5), Point(1.5, 1.5)}
  {
    var g := NewRasterGrid(Point(0.0, 0.0), (2.0, 2.0), (2, 2));
    var cs := g.Cells();
    assert cs[0] == Cell(0, 0) && cs[1] == Cell(0, 1) && cs[2] == Cell(1, 0) && cs[3] == Cell(1, 1);
    var expected := [Point(0.5, 0.5), Point(0.5, 1.5), Point(1.5, 0.5), Point(1.5, 1.5)];
    assert g.Centers() == expected;
  }
}
