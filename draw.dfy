/** Model of the Grid class of draw.py: the occupancy grid of 0/1 cells, its
    cell size and zoom, and the conversion from window to grid coordinates.
    Rendering is not modelled. */
module Draw {

  /** The grid's rows, cells[x][y]; 1 marks a filled cell, 0 an empty one. */
  type Cells = seq<seq<int>>

  /** Rows and columns draw_grid lays out per call. */
  const GRID_EXTENT := 10

  /** The zoom rule's cell size per zoom level. */
  const CELL_SIZE_PER_ZOOM := 50

  predicate InGrid(cells: Cells, x: int, y: int) {
    0 <= x < |cells| && 0 <= y < |cells[x]|
  }

  predicate SameShape(a: Cells, b: Cells) {
    |a| == |b| && forall i | 0 <= i < |a| :: |a[i]| == |b[i]|
  }

  /** cells with cell (x, y) set to v and every other cell as it was. */
  function SetCell(cells: Cells, x: int, y: int, v: int): (r: Cells)
    requires InGrid(cells, x, y)
    ensures SameShape(r, cells)
    ensures forall i, j | InGrid(cells, i, j) :: r[i][j] == if i == x && j == y then v else cells[i][j]
  {
    cells[x := cells[x][y := v]]
  }

  /** The value flip_cell leaves: 1 becomes 0, 0 becomes 1, anything else stays. */
  function Flipped(v: int): int {
    if v == 1 then 0 else if v == 0 then 1 else v
  }

  function FlipAt(cells: Cells, x: int, y: int): Cells
    requires InGrid(cells, x, y)
  {
    SetCell(cells, x, y, Flipped(cells[x][y]))
  }

  /** Every (x, y) of xys is a cell of the grid. */
  predicate AllInGrid(cells: Cells, xys: seq<(int, int)>) {
    forall k | 0 <= k < |xys| :: InGrid(cells, xys[k].0, xys[k].1)
  }

  /** cells with each listed cell set to 1, in list order. */
  function MarkAll(cells: Cells, xys: seq<(int, int)>): (r: Cells)
    requires AllInGrid(cells, xys)
    ensures SameShape(r, cells)
    decreases |xys|
  {
    if xys == [] then cells
    else
      var init := xys[..|xys| - 1];
      var last := xys[|xys| - 1];
      var marked := MarkAll(cells, init);
      SetCell(marked, last.0, last.1, 1)
  }

  /** math.floor(a / b) for a non-zero integer b. */
  function FloorDiv(a: int, b: int): (q: int)
    requires b != 0
    ensures b > 0 ==> q * b <= a < q * b + b
    ensures b < 0 ==> q * b >= a > q * b + b
  {
    if b > 0 then a / b else -a / -b
  }

  /** A row of n empty cells. */
  function Zeros(n: nat): seq<int> {
    seq(n, _ => 0)
  }

  /** The rows one call of draw_grid is meant to add: ten rows of ten 0s. */
  function BlankGrid(): Cells {
    seq(GRID_EXTENT, _ => Zeros(GRID_EXTENT))
  }

  /** The cells one call of draw_grid leaves, as written: a new empty row is
      appended on each of the ten passes, but the ten 0s of pass x go to row x,
      so rows 0 to 9 grow by ten cells and rows 10 onwards stay empty. */
  function GrownAsWritten(cells: Cells): Cells {
    seq(|cells| + GRID_EXTENT, i requires 0 <= i < |cells| + GRID_EXTENT =>
      (if i < |cells| then cells[i] else []) + (if i < GRID_EXTENT then Zeros(GRID_EXTENT) else []))
  }

  class Grid {
    var zoomLevel: int
    var cellSize: int
    var xMapDisplacement: int
    var yMapDisplacement: int
    var cells: Cells
    var tempCells: Cells

    /** The initial zoom level and base cell size are configuration values
        defined outside draw.py; they are parameters here. */
    constructor (initialZoomLevel: int, baseCellSize: int)
      ensures zoomLevel == initialZoomLevel
      ensures cellSize == baseCellSize * initialZoomLevel
      ensures xMapDisplacement == 0 && yMapDisplacement == 0
      ensures cells == [] && tempCells == []
    {
      zoomLevel := initialZoomLevel;
      cellSize := baseCellSize * initialZoomLevel;
      xMapDisplacement, yMapDisplacement := 0, 0;
      cells, tempCells := [], [];
    }

    method Zoom(level: int)
      modifies this`zoomLevel, this`cellSize
      ensures zoomLevel == level && cellSize == CELL_SIZE_PER_ZOOM * level
    {
      zoomLevel := level;
      cellSize := CELL_SIZE_PER_ZOOM * zoomLevel;
    }

    /** The grid cell that window position (x, y) falls in: the cell whose
        span of cellSize pixels holds x, and likewise for y. */
    function WorldToGrid(x: int, y: int): (r: (int, int))
      reads this
      requires cellSize != 0
      ensures cellSize > 0 ==> r.0 * cellSize <= x < (r.0 + 1) * cellSize
      ensures cellSize > 0 ==> r.1 * cellSize <= y < (r.1 + 1) * cellSize
      ensures cellSize < 0 ==> r.0 * cellSize >= x > (r.0 + 1) * cellSize
      ensures cellSize < 0 ==> r.1 * cellSize >= y > (r.1 + 1) * cellSize
    {
      (FloorDiv(x, cellSize), FloorDiv(y, cellSize))
    }

    method EditArray(x: int, y: int, val: int)
      requires InGrid(cells, x, y)
      modifies this`cells
      ensures cells == SetCell(old(cells), x, y, val)
    {
      cells := cells[x := cells[x][y := val]];
    }

    method FlipCell(x: int, y: int)
      requires InGrid(cells, x, y)
      modifies this`cells
      ensures cells == FlipAt(old(cells), x, y)
    {
      if cells[x][y] == 1 {
        EditArray(x, y, 0);
      } else if cells[x][y] == 0 {
        EditArray(x, y, 1);
      } else {
        assert cells[x][y := cells[x][y]] == cells[x];
        assert SetCell(cells, x, y, cells[x][y]) == cells;
      }
    }

    method EditArrayFromList(xys: seq<(int, int)>)
      requires AllInGrid(cells, xys)
      modifies this`cells
      ensures cells == MarkAll(old(cells), xys)
    {
      ghost var start := cells;
      for i := 0 to |xys|
        invariant cells == MarkAll(start, xys[..i])
      {
        assert xys[..i + 1][..i] == xys[..i];
        EditArray(xys[i].0, xys[i].1, 1);
      }
      assert xys[..|xys|] == xys;
    }

    /** The cell-building loop of draw_grid, as written. */
    method DrawGridAsWritten()
      modifies this`cells
      ensures cells == GrownAsWritten(old(cells))
    {
      ghost var start := cells;
      for x := 0 to GRID_EXTENT
        invariant |cells| == |start| + x
        invariant forall i | 0 <= i < |cells| ::
          cells[i] == (if i < |start| then start[i] else []) + (if i < x then Zeros(GRID_EXTENT) else [])
      {
        cells := cells + [[]];
        for y := 0 to GRID_EXTENT
          invariant |cells| == |start| + x + 1
          invariant cells[x] == (if x < |start| then start[x] else []) + Zeros(y)
          invariant forall i | 0 <= i < |cells| && i != x ::
            cells[i] == (if i < |start| then start[i] else []) + (if i < x then Zeros(GRID_EXTENT) else [])
        {
          cells := cells[x := cells[x] + [0]];
        }
      }
    }

    /** The cell-building loop of draw_grid, with each pass filling the row it
        has just appended. */
    method DrawGrid()
      modifies this`cells
      ensures cells == old(cells) + BlankGrid()
    {
      ghost var start := cells;
      for x := 0 to GRID_EXTENT
        invariant cells == start + seq(x, _ => Zeros(GRID_EXTENT))
      {
        cells := cells + [[]];
        var row := |cells| - 1;
        for y := 0 to GRID_EXTENT
          invariant |cells| == row + 1
          invariant cells[..row] == start + seq(x, _ => Zeros(GRID_EXTENT))
          invariant cells[row] == Zeros(y)
        {
          cells := cells[row := cells[row] + [0]];
        }
        assert cells == cells[..row] + [cells[row]];
      }
    }
  }

  // ---------------------------------------------------------------------------
  // Properties
  // ---------------------------------------------------------------------------

  /** Flipping a 0/1 cell twice restores the grid; a cell holding anything
      else is left alone. */
  lemma FlipTwice(cells: Cells, x: int, y: int)
    requires InGrid(cells, x, y)
    ensures cells[x][y] == 0 || cells[x][y] == 1 ==> FlipAt(FlipAt(cells, x, y), x, y) == cells
    ensures cells[x][y] != 0 && cells[x][y] != 1 ==> FlipAt(cells, x, y) == cells
    ensures FlipAt(cells, x, y)[x][y] != cells[x][y] <==> cells[x][y] == 0 || cells[x][y] == 1
  {
    var v := cells[x][y];
    assert cells[x][y := v] == cells[x];
    if v == 0 || v == 1 {
      var once := FlipAt(cells, x, y);
      assert once == cells[x := cells[x][y := Flipped(v)]];
      assert once[x][y := Flipped(Flipped(v))] == cells[x];
    }
  }

  /** After marking, a cell is 1 exactly when it is listed or was already 1;
      every unlisted cell keeps its value. */
  lemma {:induction false} MarkAllCells(cells: Cells, xys: seq<(int, int)>, i: int, j: int)
    requires AllInGrid(cells, xys) && InGrid(cells, i, j)
    ensures MarkAll(cells, xys)[i][j] == if (i, j) in xys then 1 else cells[i][j]
    decreases |xys|
  {
    if xys != [] {
      var init := xys[..|xys| - 1];
      MarkAllCells(cells, init, i, j);
      assert xys == init + [xys[|xys| - 1]];
      assert (i, j) in xys <==> (i, j) in init || (i, j) == xys[|xys| - 1];
    }
  }

  /** Two grids of the same shape that agree on every cell are equal. */
  lemma SameCells(a: Cells, b: Cells)
    requires SameShape(a, b)
    requires forall i, j | InGrid(a, i, j) :: a[i][j] == b[i][j]
    ensures a == b
  {
    forall i | 0 <= i < |a|
      ensures a[i] == b[i]
    {
      assert forall j | 0 <= j < |a[i]| :: a[i][j] == b[i][j] by {
        forall j | 0 <= j < |a[i]| ensures a[i][j] == b[i][j] {
          assert InGrid(a, i, j);
        }
      }
    }
  }

  /** Marking the same list twice is marking it once. */
  lemma MarkAllIdempotent(cells: Cells, xys: seq<(int, int)>)
    requires AllInGrid(cells, xys)
    ensures AllInGrid(MarkAll(cells, xys), xys)
    ensures MarkAll(MarkAll(cells, xys), xys) == MarkAll(cells, xys)
  {
    var once := MarkAll(cells, xys);
    var twice := MarkAll(once, xys);
    forall i, j | InGrid(twice, i, j)
      ensures twice[i][j] == once[i][j]
    {
      MarkAllCells(once, xys, i, j);
      MarkAllCells(cells, xys, i, j);
    }
    SameCells(twice, once);
  }

  /** The written loop agrees with the intended one exactly on the first call,
      when there are no rows yet. */
  lemma {:induction false} AsWrittenAgreesOnlyOnEmpty(cells: Cells)
    ensures GrownAsWritten(cells) == cells + BlankGrid() <==> cells == []
  {
    var g := GrownAsWritten(cells);
    if cells == [] {
      assert [] + Zeros(GRID_EXTENT) == Zeros(GRID_EXTENT);
      assert |g| == |BlankGrid()|;
      assert forall i | 0 <= i < GRID_EXTENT :: g[i] == Zeros(GRID_EXTENT) == BlankGrid()[i];
    } else {
      assert g[0] == cells[0] + Zeros(GRID_EXTENT);
      assert (cells + BlankGrid())[0] == cells[0];
    }
  }

  /** A second call of the written loop on a drawn 10 x 10 grid: row 0 has
      twenty cells and row 10 none. */
  lemma SecondDrawAsWritten()
    ensures var g := GrownAsWritten(BlankGrid());
      |g| == 20 && |g[0]| == 20 && g[10] == []
  {
  }

  /** Window position (48, 30) with 50-pixel cells is cell (0, 0); a negative
      position rounds down, to the cell before 0. */
  lemma WorldToGridExample()
    ensures FloorDiv(48, 50) == 0 && FloorDiv(30, 50) == 0
    ensures FloorDiv(-1, 50) == -1 && FloorDiv(100, 50) == 2
  {
  }
}
