# Raster grid, lattice, line plot and debtor report — a Dafny model

This project models four small Python modules of a clean-code exercise
repository and proves what they promise.

- **raster_grid.py**: `RasterGrid` is a uniform 2D grid. It keeps an origin,
  a resolution `(nx, ny)` and the cell widths `dx = size[0] / nx`,
  `dy = size[1] / ny`, all fixed at construction. It counts its cells,
  enumerates the cell addresses `(ix, iy)` lazily with `ix` in the outer loop,
  and computes a cell's centre. It is modelled as the datatype
  `RasterGrids.RasterGrid`. Its constructor is the function `NewRasterGrid`.
  The generator `cells` becomes the sequence `Cells()`.
- **plot_2d.py**: `SquareLattice.points` uses the same centre formula but
  enumerates row after row, with `j` outer and `i` inner. It is modelled in
  module `Lattices` and proved to give the grid's centres in transposed order.
- **plot_over_line.py**: a point cloud with brute-force nearest-neighbour
  lookup, a function given by one value per cloud point, a line segment
  parametrised over `[0, 1]`, and `make_plot_data`, whose loop appends to two
  lists. That loop is the method `LinePlots.MakePlotData`.
- **payday.py**: debtors are ordered by descending debt with
  `reversed(sorted(...))`, and a debt above 100 is wrapped in `!!!`. The
  report's printed lines become the sequence that `Payday.ListDebtors` returns.

raster_grid.py, plot_2d.py and plot_over_line.py each declare a `Point`
dataclass with the same two float fields; the one of plot_over_line.py also
has `distance_to`. The model shares one, `Geometry.Point`, with real
coordinates. Module `Arith` holds
facts about integer division that the enumeration proofs use.

The code has no point-location (`locate`) operation and no construction
validation. The model follows the code: there is no `locate`, and a
positive resolution is a precondition of the constructor.

Two parts of the source are not computed by the model, so they are
parameters:

- `Point.distance_to` takes a square root. Every operation that measures
  distance takes a function `dist`, where `dist(a, b)` stands for
  `a.distance_to(b)`. `IsEuclidean(dist)` says that `dist` is the
  non-negative square root of the squared distance.
- The text `str(debt)` of a float is the parameter `show`.

## Model

| member | source | states |
|---|---|---|
| `RasterGrids.NewRasterGrid` | raster_grid.py:42-49 | for a positive resolution, the grid keeps origin and resolution, and `nx` cells of width `dx` exactly span `size[0]` (same for `y`): the cells tile the domain |
| `RasterGrids.RasterGrid.NumberOfCells` | raster_grid.py:51-53 | `number_of_cells` is `nx * ny`, and for a positive resolution that is the number of cells the nested enumeration yields (see also `Cells` and `NumberOfCellsExamples`) |
| `RasterGrids.RasterGrid.Cells` | raster_grid.py:51-61 | `cells` yields exactly `number_of_cells` = `nx * ny` cells, and cell `k` is `(k / ny, k % ny)`: `ix` outer, `iy` inner |
| `RasterGrids.CellsFromAt` | raster_grid.py:57-61 | the columns from `i` on contribute `(nx - i) * ny` cells, column after column (induction over the outer loop) |
| `RasterGrids.CellsCoverGrid` | raster_grid.py:57-61 | a cell is enumerated if and only if `0 <= ix < nx` and `0 <= iy < ny` |
| `RasterGrids.CellsDistinct` | raster_grid.py:57-61 | no cell is enumerated twice |
| `RasterGrids.CellPosition` | raster_grid.py:57-61 | the in-range cell `(ix, iy)` sits at position `ix * ny + iy` of the enumeration |
| `RasterGrids.CenterPosition` | raster_grid.py:57-67 | the centre of the in-range cell `(ix, iy)` is entry `ix * ny + iy` of the centres in enumeration order |
| `RasterGrids.RasterGrid.CellCenter` | raster_grid.py:63-67 | the centre lies halfway between the cell's lower and upper edges on both axes |
| `RasterGrids.CenterInsideDomain` | raster_grid.py:63-67 | for a positive size, the centre of an in-range cell, with the cell widths the constructor computes, lies strictly inside `(origin, origin + size)` on both axes |
| `RasterGrids.CentersDistinct` | raster_grid.py:63-67 | with non-zero cell widths, two cells have the same centre if and only if they are the same cell |
| `RasterGrids.NumberOfCellsExamples` | raster_grid.py:70-77 | the cell counts of the test: 100, 200, 200 and 400 |
| `RasterGrids.CellCenterExample` | raster_grid.py:80-97 | on the 2 x 2 grid of size 2 x 2 the centres are exactly (0.5, 0.5), (0.5, 1.5), (1.5, 0.5), (1.5, 1.5), each once |
| `Lattices.SquareLattice.Points` | plot_2d.py:26-38 | `points()` yields `nx * ny` points, and point `k` is the one of column `k % nx` and row `k / nx`: `i` inner, `j` outer |
| `Lattices.PointPosition` | plot_2d.py:31-38 | the point of column `i` and row `j` is entry `j * nx + i` of `points()` |
| `Lattices.PointsFromAt` | plot_2d.py:31-38 | the rows from `j` on contribute `(ny - j) * nx` points, row after row (induction over the outer loop) |
| `Lattices.PointsInsideDomain` | plot_2d.py:27-34 | for a positive size, every point lies strictly inside `(lower_left, lower_left + size)` |
| `Lattices.PointsAreTransposedCenters` | plot_2d.py:31-38 | the lattice point at position `j * nx + i` is the grid centre at position `i * ny + j`, the same points in transposed order |
| `Lattices.PointsMatchCenters` | plot_2d.py:31-38 | the set of lattice points equals the set of the grid's cell centres for the same arguments |
| `LinePlots.SizeIndexesCloud` | plot_over_line.py:37-50 | every index below `size`, and every negative index down to `-size`, reaches a stored point, the `k`-th from the front or the back |
| `LinePlots.PointCloud.Size` | plot_over_line.py:37-38 | `size` counts the stored points, duplicates included; `SizeIndexesCloud` shows every index it admits reaches a point |
| `LinePlots.PointCloud.Get` | plot_over_line.py:49-50 | `cloud[i]` for `-size <= i < size` is the stored point at position `i` modulo `size`: a negative index counts from the end |
| `LinePlots.MinByDistance` | plot_over_line.py:52-53 | `min` by distance returns a stored point no farther from `p` than any other |
| `LinePlots.MinByDistanceIsFirst` | plot_over_line.py:52-53 | the point `min` returns sits at the first index of minimal distance, because `min` replaces its candidate only by a strictly nearer point |
| `LinePlots.PointCloud.GetNearest` | plot_over_line.py:52-53 | for a non-empty cloud, `get_nearest(p)` is a member of the cloud no farther from `p` than any other |
| `LinePlots.IndexOf` | plot_over_line.py:55-56 | `list.index` returns the first position holding the point |
| `LinePlots.PointCloud.GetNearestPointIndex` | plot_over_line.py:52-56 | the index returned is the first one of minimal distance: no point is nearer and every earlier point is strictly farther |
| `LinePlots.DiscreteFunction.Call` | plot_over_line.py:64-67 | `function(point)` is the value stored at an index whose cloud point is the first one nearest to `point` |
| `LinePlots.CallAtFirstNearest` | plot_over_line.py:64-67 | `function(point)` is the value stored for the first nearest cloud point |
| `LinePlots.CallAtCloudPoint` | plot_over_line.py:64-67 | evaluating at a cloud point that has no earlier duplicate gives that point's own value |
| `LinePlots.NewLine` | plot_over_line.py:71-77 | a constructed line caches `vector == target - source` |
| `LinePlots.Line.At` | plot_over_line.py:87-92 | for `0 <= f <= 1`, `at(0)` is `source` and `at(1)` is `target` |
| `LinePlots.AtDividesSegment` | plot_over_line.py:87-92 | `at(f)` is at squared distance `f^2 * L^2` from the source and `(1 - f)^2 * L^2` from the target, where `L` is the segment's length |
| `LinePlots.SampleFractionRange` | plot_over_line.py:100-102 | the sample fractions `i * (1 / (n - 1))` run from exactly 0 to exactly 1, strictly increasing, so every call of `at` meets its assertion |
| `LinePlots.SampleEndpoints` | plot_over_line.py:100-102 | the first sample is the source and the last one the target |
| `LinePlots.MakePlotData` | plot_over_line.py:95-105 | for `n >= 2`, both lists have `n` entries; `x[i]` is the distance of sample `i` from the source and `y[i]` the function's value there; `x[0]` is the source's distance to itself, and `y` ends with the value at the target |
| `LinePlots.PlotDataStep` | plot_over_line.py:101-104 | one loop iteration: appending the distance and the value at `line.at(i * step_fraction)` extends both lists by sample `i` |
| `LinePlots.SampleDistance` | plot_over_line.py:101-103 | for the Euclidean distance, `x[i]` equals the sample fraction times the line's length: the samples are evenly spaced |
| `LinePlots.NearestBySquaredDistance` | plot_over_line.py:27-30 | taking the square root in `distance_to` does not change which cloud point is nearest |
| `Payday.OrderByDescendingDebt` | payday.py:25-26 | the result is a permutation of the input, its debts are non-increasing, and for every debt the debtors owing it come in the reverse of their input order |
| `Payday.SortPermutes` | payday.py:26 | `sorted` keeps exactly the debtors it is given |
| `Payday.SortAscending` | payday.py:26 | `sorted` by debt gives ascending debts |
| `Payday.SortStable` | payday.py:26 | `sorted` is stable: the debtors of any one debt keep their input order |
| `Payday.ReverseWithDebt` | payday.py:26 | `reversed` reverses the order within each debt |
| `Payday.FormatDebt` | payday.py:29-30 | the entry is the rendering of the debt itself up to and including 100.0, and above 100.0 the rendering with three extra characters on each side (`FormatDebtFlagsLargeDebts` shows those are the `!!!` markers and that the two cases can be told apart) |
| `Payday.FormatDebtFlagsLargeDebts` | payday.py:29-30 | an entry carries the `!!!` markers exactly when the debt is above 100.0 (100.0 itself is plain), and the rendering of the debt reads back from the entry |
| `Payday.ListDebtors` | payday.py:16-18 | one line per debtor, in iteration order, each `name + ": " + _format_debt(debt)` |
| `Payday.PaydayReport` | payday.py:21-22 | `payday` emits the lines of `list_debtors` for the debtors in descending-debt order |
| `Payday.DemoOrder` | payday.py:33-40 | the demo debtors are reported in the order 1250.0, 200.0, 100.0, 50.0, 10.0 |

## Left out

- Resolution: the model requires positive components. The Python code
  rejects only zero, through a division by zero. A negative resolution would
  give an empty `range` while `number_of_cells` still returns the product;
  that case is not modelled.
- `RasterGrid` and `SquareLattice` are immutable values. Their fields cannot
  change after construction, and calling `cells` or `points()` twice gives
  the same sequence, because both are functions of those fields. The lazy
  generators become sequences. Generator objects and their memory behaviour
  are not modelled.
- Floating point: coordinates, sizes, fractions and debts are reals, with no
  IEEE rounding. Examples: the last sample fraction `(n - 1) * (1 / (n - 1))`
  is exactly 1, and the test's `isclose` comparison becomes exact equality.
- `Point.distance_to` and `math.sqrt`: the distance is the parameter `dist`.
  `IsEuclidean` characterises it for `SampleDistance` and
  `NearestBySquaredDistance`.
- LinePlots.DiscreteFunction.Call: requires a non-empty cloud and at least
  one value per cloud point. The Python code fails with `ValueError` on an
  empty cloud, and with `IndexError` when the value list has no entry at the
  nearest index.
- LinePlots.Line.At: requires `0 <= fraction <= 1`. The `assert` in `at`
  raises `AssertionError` outside that range; the model makes it a
  precondition.
- LinePlots.PointCloud.GetNearest: requires a non-empty cloud. `min` on an
  empty cloud raises `ValueError`; the model makes it a precondition.
- LinePlots.PointCloud.GetNearestPointIndex: requires a non-empty cloud, for
  the same `ValueError` of `min`.
- LinePlots.MakePlotData: the default `number_of_samples = 1000` is not
  modelled; the number of samples is always passed.
- LinePlots.MakePlotData: requires `number_of_samples >= 2`. For `n == 1`
  the Python code divides by zero. For `n <= 0` it returns two empty lists,
  which is not modelled.
- LinePlots.PointCloud.Get: an index outside `[-size, size)`, which raises
  `IndexError` in Python, is excluded by its precondition.
- `PointCloud.__iter__` is list iteration over the stored points. It is not a
  separate member.
- `str(debt)` for floats is the parameter `show`. Only the 100.0 threshold
  and the `!!!` wrapping are modelled.
- `sorted` is Python's Timsort. It is modelled as a stable insertion sort,
  which is the unique stable sort by debt, so the result is the same.
- Console output: `print` in `list_debtors` becomes the returned sequence of
  lines.
- Plotting through matplotlib is not modelled: `plot_over_line`, `FieldPlot`,
  `MyFieldPlot` and `show`.
- Not modelled: the test function `_test_function` (sin/cos), the singular
  field `_evaluate_field`, and the `__main__` blocks. The exception is the
  payday demo order, stated by `DemoOrder`.
