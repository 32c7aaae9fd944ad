/** The Cell of the cell-control draft, with its own adjacency counter, and the
    decision rules of a cell control's left and right clicks. */
module CellControls {
  import opened Grid
  import opened Wrappers

  class Cell {
    var row: int
    var col: int
    var isRevealed: bool
    var isFlagged: bool
    var isMine: bool
    var numberOfSurroundingMines: int

    /** A cell at (row, col): covered, unflagged, no mine, count 0. */
    constructor (row: int, col: int)
      ensures this.row == row && this.col == col
      ensures !isRevealed && !isFlagged && !isMine && numberOfSurroundingMines == 0
    {
      this.row := row;
      this.col := col;
      isRevealed := false;
      isFlagged := false;
      isMine := false;
      numberOfSurroundingMines := 0;
    }

    /** Adds to the count the mines of the grid's clipped 3x3 window around (rows, cols):
        the cell at (rows, cols) itself is in the window, and the count is added onto
        what the field held, not reset first. */
    method AdjacentMines(grid: array2<Cell>, rows: int, cols: int)
      modifies this`numberOfSurroundingMines
      ensures numberOfSurroundingMines == old(numberOfSurroundingMines) + |MinesAround(grid, (rows, cols))|
    {
      ghost var counted: set<Pos> := {};
      var i := Max(0, rows - 1);
      while i <= Min(rows + 1, grid.Length0 - 1)
        invariant i >= 0 && i >= rows - 1
        invariant forall q :: q in counted <==> q in MinesAround(grid, (rows, cols)) && q.0 < i
        invariant numberOfSurroundingMines == old(numberOfSurroundingMines) + |counted|
      {
        counted := AdjacentRow(grid, rows, cols, i, counted);
        i := i + 1;
      }
      forall q | q in MinesAround(grid, (rows, cols)) ensures q.0 < i {
        WindowMembership(grid.Length0, grid.Length1, (rows, cols), q);
      }
      assert counted == MinesAround(grid, (rows, cols));
    }

    /** The inner loop of AdjacentMines: adds the mines of row i of the window. */
    method AdjacentRow(grid: array2<Cell>, rows: int, cols: int, i: int, ghost counted: set<Pos>)
      returns (ghost counted': set<Pos>)
      requires 0 <= i < grid.Length0 && rows - 1 <= i <= rows + 1
      requires forall q :: q in counted <==> q in MinesAround(grid, (rows, cols)) && q.0 < i
      modifies this`numberOfSurroundingMines
      ensures forall q :: q in counted' <==> q in MinesAround(grid, (rows, cols)) && q.0 <= i
      ensures numberOfSurroundingMines == old(numberOfSurroundingMines) + |counted'| - |counted|
    {
      counted' := counted;
      var j := Max(0, cols - 1);
      while j <= Min(cols + 1, grid.Length1 - 1)
        invariant j >= 0 && j >= cols - 1
        invariant forall q :: q in counted' <==>
          q in MinesAround(grid, (rows, cols)) && (q.0 < i || (q.0 == i && q.1 < j))
        invariant numberOfSurroundingMines == old(numberOfSurroundingMines) + |counted'| - |counted|
      {
        WindowMembership(grid.Length0, grid.Length1, (rows, cols), (i, j));
        if grid[i, j].isMine {
          assert (i, j) !in counted';
          counted' := counted' + {(i, j)};
          numberOfSurroundingMines := numberOfSurroundingMines + 1;
        }
        j := j + 1;
      }
      forall q | q in MinesAround(grid, (rows, cols)) && q.0 == i ensures q.1 < j {
        WindowMembership(grid.Length0, grid.Length1, (rows, cols), q);
      }
    }
  }

  function Max(a: int, b: int): int {
    if a < b then b else a
  }

  function Min(a: int, b: int): int {
    if a < b then a else b
  }

  /** The cells of the grid. */
  ghost function Members(grid: array2<Cell>): set<Cell>
    reads grid
  {
    set i, j | 0 <= i < grid.Length0 && 0 <= j < grid.Length1 :: grid[i, j]
  }

  /** The positions in the clipped 3x3 window around p whose cell holds a mine. */
  ghost function MinesAround(grid: array2<Cell>, p: Pos): set<Pos>
    reads grid, Members(grid)`isMine
  {
    set q | q in Window(grid.Length0, grid.Length1, p) && grid[q.0, q.1].isMine
  }

  /** One call adds between 0 and 9: the window never leaves the grid and holds at most nine cells. */
  lemma MinesAroundBounds(grid: array2<Cell>, p: Pos)
    ensures MinesAround(grid, p) <= Window(grid.Length0, grid.Length1, p)
    ensures 0 <= |MinesAround(grid, p)| <= 9
  {
    WindowBounds(grid.Length0, grid.Length1, p);
    SubsetCardinality(MinesAround(grid, p), Window(grid.Length0, grid.Length1, p));
  }

  /** A cell on the grid that holds a mine counts itself. */
  lemma SelfCounted(grid: array2<Cell>, p: Pos)
    requires InBounds(grid.Length0, grid.Length1, p)
    ensures p in MinesAround(grid, p) <==> grid[p.0, p.1].isMine
  {
    WindowMembership(grid.Length0, grid.Length1, p, p);
  }

  /** What a click on a cell control announces. */
  datatype CellEvent = CellRevealed | CellFlagged

  class CellControl {
    const row: int
    const col: int
    const cell: Cell

    /** A control for the cell at (row, col), with a new cell of its own. */
    constructor (row: int, col: int)
      ensures this.row == row && this.col == col && fresh(cell)
      ensures cell.row == row && cell.col == col
      ensures !cell.isRevealed && !cell.isFlagged && !cell.isMine && cell.numberOfSurroundingMines == 0
    {
      this.row := row;
      this.col := col;
      cell := new Cell(row, col);
    }

    /** A left click asks for a reveal when the cell is neither flagged nor revealed,
        and announces a flag otherwise; it changes nothing itself. */
    method OnLeftMouseClick() returns (event: CellEvent)
      ensures event == CellRevealed <==> !cell.isFlagged && !cell.isRevealed
      ensures event == CellFlagged <==> cell.isFlagged || cell.isRevealed
    {
      if !cell.isFlagged && !cell.isRevealed {
        event := CellRevealed;
      } else {
        event := CellFlagged;
      }
    }

    /** A right click flips the flag of a covered cell and announces it; on a revealed
        cell it does nothing. */
    method OnRightMouseClick() returns (event: Option<CellEvent>)
      modifies cell`isFlagged
      ensures cell.isFlagged == (if cell.isRevealed then old(cell.isFlagged) else !old(cell.isFlagged))
      ensures event == (if cell.isRevealed then None else Some(CellFlagged))
    {
      if !cell.isRevealed {
        cell.isFlagged := !cell.isFlagged;
        event := Some(CellFlagged);
      } else {
        event := None;
      }
    }
  }
}
