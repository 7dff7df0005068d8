# Bresenham line grid: a Dafny model

This project models the core of a small pygame program that draws straight lines on a grid of cells. It covers two source files.

- `bresenham_line.py`:
  - `bresenham_line(x0, y0, x1, y1)`, Bresenham's integer line algorithm. It has a vertical branch, a horizontal branch and the general error-term loop.
  - `BresenhamPoints`, an ordered collection of rasterized lines.
- `draw.py`: the state of class `Grid`:
  - its rows of 0/1 cells;
  - the zoom rule and the conversion from window pixels to grid cells;
  - the cell edits (`edit_array`, `flip_cell`, `edit_array_from_list`);
  - the cell-building loop of `draw_grid`.

Module `Bresenham` (bresenham.dfy) has three parts:

- `Rasterize`, a functional reference definition of the rasterizer. `Trace` is the general loop written as a recursive function, defensive breaks included.
- The method `BresenhamLine`, written like the source: `for` loops for the two axis-aligned branches and a `while true` loop with `break`s for the general case. It is proved equal to `Rasterize`.
- Lemmas that state what the rasterizer promises, and the class `BresenhamPoints`.

Module `Draw` (draw.dfy) models `Grid` as a class. Its `cells` field is a `seq<seq<int>>`, and its methods reassign it. They are specified by the functions `SetCell`, `FlipAt`, `MarkAll` and `GrownAsWritten`, and lemmas relate those functions.

The main results:

- **The defensive breaks never fire** (`NoBreak`). Each iteration of the general loop keeps the error term, `err == dx - dy - dy*X + dx*Y`, where X and Y are the steps already taken. So when x has reached its target and y has not, `2*err <= -2*dy`. When y has reached its target and x has not, `2*err >= 2*dx`.
- **Behaviour of the general case.** The loop terminates and ends exactly at `(x1, y1)`. Every step moves x by 0 or `sx` and y by 0 or `sy`, and at least one of them. No cell is visited twice, and every cell lies in the bounding box.
- **One cell per unit of the longer axis.** The path has `max(|dx|, |dy|) + 1` cells (`TraceLength`). The proof uses an invariant that keeps the error term within half of the longer distance. The same invariant puts every cell within half a cell of the ideal line, measured along the shorter axis (`RasterizeNearLine`).

Points where the code's behaviour differs from what its comments, or common descriptions of Bresenham's algorithm, suggest:

- **The rasterizer is not symmetric.** Swapping the endpoints can change the set of cells (`NotSymmetric`): (0,0)→(2,1) passes (1,0), and (2,1)→(0,0) passes (1,1).
- **The axis-aligned branches always run upwards**, from the lower to the higher coordinate, whatever order the endpoints came in (`VerticalLine`, `ReversedVerticalStartsLow`).
- **The grid conversion ignores the map displacement.** Its comment says it accounts for it, but `x_map_displacement` and `y_map_displacement` are only ever set to 0.
- **The collection has no queries.** `BresenhamPoints` only appends and concatenates. `BresenhamPoints` stores no colour per line, and has no removal by index, no cell hit-testing and no highlight index.

## Model

| member | source | states |
|---|---|---|
| `Bresenham.Rasterize` | bresenham_line.py:17-62 | The cells `bresenham_line` returns, in order. Vertical input (`x0 == x1`) gives `Column(x0, min(y0,y1), max(y0,y1))`. Otherwise horizontal input (`y0 == y1`) gives `Row(min(x0,x1), max(x0,x1), y0)`. Otherwise the result is `Trace` from `(x0, y0)` with `err = dx - dy`. |
| `Bresenham.Stops` | bresenham_line.py:48-58 | The loop ends after emitting the current cell when it is the target (line 48), when `2*err > -dy` and x is on target (lines 51-53), or when `2*err < dx` and y is on target (lines 56-58). |
| `Bresenham.Step` | bresenham_line.py:50-60 | One iteration that does not stop. Both tests read the same `e2 = 2*err`. If `e2 > -dy`, err drops by dy and x moves by sx. If `e2 < dx`, err grows by dx and y moves by sy. |
| `Bresenham.Trace` | bresenham_line.py:46-60 | The cells the `while True` loop appends from a state. It emits the current cell, then stops if `Stops` holds, and otherwise continues from `Step`. The defensive breaks are included. |
| `Bresenham.BresenhamLine` | bresenham_line.py:17-62 | The imperative rasterizer returns exactly `Rasterize(x0, y0, x1, y1)`. Its general loop walks `Trace`, the functional form of the loop with its breaks, and terminates on the decreasing distance `abs(x1-x) + abs(y1-y)`. |
| `Bresenham.VerticalLine` | bresenham_line.py:25-30 | When `x0 == x1`, the result is `(x0, min(y0,y1)+i)` for `i` in `0..abs(y1-y0)`, in increasing y. It starts at the lower and ends at the higher endpoint. |
| `Bresenham.SinglePoint` | bresenham_line.py:25-30 | Equal endpoints give the single cell `[(x, y)]`. |
| `Bresenham.ReversedVerticalStartsLow` | bresenham_line.py:25-30 | A vertical line given downwards, (0,2)→(0,0), is emitted upwards, so it does not start at its start point. |
| `Bresenham.HorizontalLine` | bresenham_line.py:33-38 | When `y0 == y1` and `x0 != x1`, the result is `(min(x0,x1)+i, y0)` for `i` in `0..abs(x1-x0)`, in increasing x. It starts at the lower and ends at the higher endpoint. |
| `Bresenham.StartState` | bresenham_line.py:40-44 | The first state of the general loop (`err = dx - dy`, steps towards the target) satisfies the error-term relation and the band, with distances `dx` and `dy` still to go. |
| `Bresenham.NoBreak` | bresenham_line.py:50-58 | Short of the target and keeping the error term, neither defensive break (lines 52-53 and 57-58) can fire. |
| `Bresenham.StepAdvances` | bresenham_line.py:50-60 | An iteration that does not stop moves x by 0 or `sx` and y by 0 or `sy`, at least one of them. It never passes the target, and the remaining distance strictly decreases. |
| `Bresenham.StepKeepsErrorTerm` | bresenham_line.py:50-60 | An iteration that does not stop keeps `err == dx - dy - dy*X + dx*Y`, where X and Y are the steps taken so far in x and y. |
| `Bresenham.StepKeepsBand` | bresenham_line.py:50-60 | One iteration keeps `2*(err - dx + dy)` within `±max(dx, dy)`. Combined with the error term, this bound is the one `RasterizeNearLine` states about the output. |
| `Bresenham.LongerXMoves` | bresenham_line.py:50-55 | When `dx >= dy`, every iteration short of the target moves x. |
| `Bresenham.LongerYMoves` | bresenham_line.py:56-60 | When `dy >= dx`, every iteration short of the target moves y. |
| `Bresenham.TraceUnfolds` | bresenham_line.py:46-60 | Each pass emits the current cell. The loop then stops (at the target or a break) or continues from the state one iteration produces. |
| `Bresenham.TraceFirst` | bresenham_line.py:46-47 | The loop emits the current cell first. |
| `Bresenham.TraceReachesTarget` | bresenham_line.py:46-60 | From any state that keeps the error term, the last emitted cell is `(x1, y1)`: the loop ends at the target and never at a defensive break. |
| `Bresenham.TraceSteps` | bresenham_line.py:46-60 | Consecutive emitted cells are unit steps. Every emitted cell lies between the current cell and the target. |
| `Bresenham.StepsApproach` | bresenham_line.py:50-60 | Along a chain of unit steps, the distance to the target strictly decreases from any cell to any later one. |
| `Bresenham.StepsArePath` | bresenham_line.py:50-60 | A chain of unit steps is 8-connected and repeats no cell. |
| `Bresenham.BetweenInBox` | bresenham_line.py:40-43 | Cells between the start and the target, with `sx`, `sy` pointing at the target, lie in the endpoints' bounding box. |
| `Bresenham.TraceLength` | bresenham_line.py:46-60 | The loop emits one cell per unit of remaining distance along the longer axis, plus one. |
| `Bresenham.TraceNearLine` | bresenham_line.py:46-60 | From a state that keeps the error term and the band, every emitted cell is near the ideal line, measured in the distances still to go. |
| `Bresenham.TakenFromAhead` | bresenham_line.py:40-41 | A proof helper for `CellNearLine`, not a model of these lines. It is the integer identity `dx*Y - dy*X == dy*ax - dx*ay` for `X = dx - ax` and `Y = dy - ay`, which turns the distances to go into steps taken from the start. |
| `Bresenham.CellNearLine` | bresenham_line.py:40-44 | A cell between the start and the target that is near the line satisfies `abs(2*(dx*Y - dy*X)) <= max(dx, dy)`, where X and Y are its steps from `(x0, y0)`. |
| `Bresenham.CellsNearLine` | bresenham_line.py:40-44 | The same bound for every cell of a sequence of such cells. |
| `Bresenham.RasterizeNearLine` | bresenham_line.py:40-62 | In the general case, every returned cell, X steps along x and Y steps along y from `(x0, y0)`, satisfies `abs(2*(dx*Y - dy*X)) <= max(dx, dy)`. It lies within half a cell of the ideal line through the endpoints, measured along the shorter axis at the cell's coordinate on the longer axis. Since `max(dx, dy) <= sqrt(dx² + dy²)`, its perpendicular distance to the line is also at most half a cell. |
| `Bresenham.RasterizeGeneral` | bresenham_line.py:40-62 | When `x0 != x1` and `y0 != y1`, the result starts at `(x0, y0)` and ends at `(x1, y1)`. It is 8-connected, has no repeated cell, lies in the bounding box, moves monotonically by `sx`/`sy` and has `max(abs(dx), abs(dy)) + 1` cells. |
| `Bresenham.RasterizeIsPath` | bresenham_line.py:17-62 | For all inputs, the result is an 8-connected path with no repeated cell and `max(abs(dx), abs(dy)) + 1` cells, inside the bounding box. Its two ends are the two endpoints. |
| `Bresenham.ShallowLineExample` | bresenham_line.py:40-60 | (0,0)→(3,1) gives `[(0,0), (1,0), (2,1), (3,1)]`. |
| `Bresenham.NotSymmetric` | bresenham_line.py:40-60 | (0,0)→(2,1) gives `[(0,0), (1,0), (2,1)]`, but (2,1)→(0,0) gives `[(2,1), (1,1), (0,0)]`. |
| `Bresenham.BresenhamPoints.constructor` | bresenham_line.py:3-4 | A new collection holds no lines. |
| `Bresenham.BresenhamPoints.AddLine` | bresenham_line.py:6-8 | The given line is appended at the end, and earlier lines are unchanged. |
| `Bresenham.BresenhamPoints.GetAllPoints` | bresenham_line.py:10-15 | Returns the concatenation of all lines in insertion order, and changes nothing. |
| `Bresenham.Concat` | bresenham_line.py:10-15 | The points of all lines, in insertion order. Each line is appended after the points of the lines before it, as the `extend` loop does. |
| `Bresenham.ConcatAppend` | bresenham_line.py:10-15 | The points of two consecutive groups of lines are the points of the first group followed by those of the second. |
| `Bresenham.ConcatLength` | bresenham_line.py:10-15 | The number of points returned is the sum of the line lengths. |
| `Bresenham.ConcatMembers` | bresenham_line.py:10-15 | A point is returned exactly when some stored line holds it. |
| `Draw.Grid.constructor` | draw.py:17-24 | A new grid has empty `cells` and `temp_cells`, zero displacements, the given zoom level, and cell size = base size × zoom level. |
| `Draw.Grid.Zoom` | draw.py:27-29 | Sets `zoom_level = z` and `cell_size = 50 * z`, and nothing else. |
| `Draw.FloorDiv` | draw.py:41-42 | `floor(a / b)` on integers: for `b > 0`, `q*b <= a < q*b + b`, and the mirror image for `b < 0`. |
| `Draw.Grid.WorldToGrid` | draw.py:34-43 | Returns the cell whose span of `cell_size` pixels holds x, and likewise for y, for either sign of the cell size. |
| `Draw.WorldToGridExample` | draw.py:35-42 | With 50-pixel cells, (48, 30) maps to (0, 0), -1 maps to -1 and 100 maps to 2. |
| `Draw.SetCell` | draw.py:86-87 | Setting a cell keeps the shape and changes that one cell and no other. |
| `Draw.Grid.EditArray` | draw.py:86-87 | `cells[x][y] = val`, with every other cell, the row counts and the other fields unchanged. |
| `Draw.Flipped` | draw.py:89-93 | The flip of one value: 1 becomes 0, 0 becomes 1, and any other value is kept. |
| `Draw.FlipAt` | draw.py:89-93 | The grid with cell `(x, y)` replaced by its flip, on an in-range cell. |
| `Draw.Grid.FlipCell` | draw.py:89-93 | Maps 1 to 0 and 0 to 1 at `(x, y)`, leaves any other value, and changes no other cell. |
| `Draw.FlipTwice` | draw.py:89-93 | Flipping a 0/1 cell twice restores the grid. A cell holding another value is left alone, and a flip changes the cell exactly when it holds 0 or 1. |
| `Draw.MarkAll` | draw.py:82-84 | Marking a list of cells keeps the grid's shape. |
| `Draw.Grid.EditArrayFromList` | draw.py:82-84 | The new cells are the old cells with each listed cell set to 1, in list order. |
| `Draw.MarkAllCells` | draw.py:82-84 | After marking, each listed cell is 1 and every unlisted cell keeps its old value. |
| `Draw.MarkAllIdempotent` | draw.py:82-84 | Marking the same list twice gives the same grid as marking it once. |
| `Draw.GrownAsWritten` | draw.py:53-56 | The cells the loop as written leaves behind, for n prior rows. Row i is the old row i (or `[]` when i >= n), followed by ten 0s when i < 10. There are n + 10 rows. |
| `Draw.Grid.DrawGridAsWritten` | draw.py:53-56 | The cell loop as written: ten empty rows are appended, and the ten 0s of pass x go to `cells[x]`. |
| `Draw.AsWrittenAgreesOnlyOnEmpty` | draw.py:53-56 | The loop as written adds ten rows of ten 0s, leaving existing rows unchanged, exactly when the grid had no rows before. |
| `Draw.SecondDrawAsWritten` | draw.py:53-56 | On a drawn 10×10 grid, a second call leaves 20 rows: row 0 has 20 cells and row 10 is empty. |
| `Draw.Grid.DrawGrid` | draw.py:53-56 | The corrected loop appends exactly ten rows of ten 0s and leaves existing rows unchanged. |

## Findings

| source | as written | input that shows it | evidently intended | confidence | as-written member | corrected member |
|---|---|---|---|---|---|---|
| draw.py:53-56 | Each of the ten passes appends an empty row, then appends ten 0s to `cells[x]` rather than to the row just appended. | A second `draw_grid` call, which happens on every mouse click, on the 10×10 grid: rows 0-9 grow to 20 cells and rows 10-19 stay empty. | Each call adds ten rows of ten 0s and leaves existing rows unchanged; on the first call both agree. | medium, not executed | `Draw.SecondDrawAsWritten` | `Draw.Grid.DrawGrid` |

## Left out

- Rendering is not modelled: `draw_cells`, the rectangle drawing inside `draw_grid`, `pygame.display.flip` and the `screen` field are calls into pygame with no checkable result.
- `Grid.select_dot_from_mouse_coordinates` is not modelled. It is a conversion, a flip and a redraw. The redraw is rendering plus a `draw_grid` call, and the effect of that call on `cells` is modelled separately by `Draw.Grid.DrawGridAsWritten`.
- `Grid.move` and `Grid.increase_resolution` are not modelled: their bodies are `pass`.
- main.py (the event loop and clock) and toolbox.py (toolbar drawing and button hit-testing through pygame) are not part of this model.
- line.py is an unused record and is not part of this model. Its `Line.x2` copies `point1.x`, not `point2.x`.
- The module `initial_values` is not part of this model. `ZOOM_LEVEL` and `CELL_SIZE` are parameters of `Draw.Grid.constructor`.
- `Draw.Grid.WorldToGrid`: the source divides in floating point. The model uses exact integer floor division, so float rounding for very large coordinates is not captured. A cell size of 0, which raises a division error in Python, is excluded by the precondition.
- `Draw.Grid.EditArray`, `Draw.Grid.FlipCell` and `Draw.Grid.EditArrayFromList` require indices inside the grid. Python's negative-index wrap-around and its IndexError path are not modelled. For `edit_array_from_list`, that includes the cells already set before the error.
- `Bresenham.BresenhamPoints.AddLine` stores the line as a value. In Python the list is stored by reference, so later changes to the caller's list would show up in the collection. This aliasing is not captured.
- `temp_cells` is only initialised; nothing in the code reads or writes it afterwards.
