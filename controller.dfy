/** The GameController draft: a width x height grid of cells indexed (x, y), mines
    placed by a rejection loop, a recursive reveal over the clipped 3x3 window, one-way
    and flipping flags, and a game-over test that counts a flagged cell as done. */
module Controllers {
  import opened Grid
  import opened Flood
  import opened CellStates

  /** What the controller keeps per cell: whether it holds a mine, and whether it is
      revealed or flagged. Its count of adjacent mines is read off the board. */
  datatype CellRecord = CellRecord(isMine: bool, revealed: bool, flagged: bool)

  /** A cell as a new record leaves it: no mine, covered, unflagged. */
  const Blank := CellRecord(false, false, false)

  /** A cell whose reveal cascades: no mine on it and none among its neighbours. */
  ghost predicate Opening(width: int, height: int, mines: set<Pos>, p: Pos) {
    p !in mines && Neighbours(width, height, p) !! mines
  }

  /** The cells of the grid that cascade. */
  ghost function OpenCells(width: int, height: int, mines: set<Pos>): (opens: set<Pos>) {
    set p | p in Cells(width, height) && Opening(width, height, mines, p)
  }

  /** Membership in the cascading cells, one position at a time. */
  lemma OpenCellsAt(width: int, height: int, mines: set<Pos>, p: Pos)
    requires InBounds(width, height, p)
    ensures p in OpenCells(width, height, mines) <==> Opening(width, height, mines, p)
  {
    assert p in Cells(width, height);
  }

  /** Whether a click on an entry ends the game, read literally on the enum. A flagged
      entry, or one at or after Revealed in declaration order (Mine among them), returns
      at the guard. Any other entry is overwritten with Revealed, and the mine test
      then reads the overwritten entry. */
  function HitMineAsWritten(entry: CellState): (hit: bool) {
    if IsFlagged(entry) || IsRevealed(entry) then false
    else
      var overwritten := Revealed;
      IsMine(overwritten)
  }

  /** Read on the enum, a click never ends the game. There are two independent reasons:
      a Mine entry counts as revealed and returns at the guard, and every entry that
      passes the guard is tested after it was overwritten with Revealed. */
  lemma HitMineAsWrittenNeverFires(entry: CellState)
    ensures IsRevealed(Mine) && !HitMineAsWritten(Mine)
    ensures !(IsFlagged(entry) || IsRevealed(entry)) ==> !IsMine(Revealed)
    ensures !HitMineAsWritten(entry)
  {
  }

  /** The cells of the window around p whose offset (dx', dy') from p comes before
      (dx, dy) in the order the reveal's nested loops visit them. */
  ghost function Scanned(width: int, height: int, p: Pos, dx: int, dy: int): set<Pos> {
    set q | q in Window(width, height, p) && (q.0 - p.0 < dx || (q.0 - p.0 == dx && q.1 - p.1 < dy))
  }

  lemma ScannedStart(width: int, height: int, p: Pos)
    ensures Scanned(width, height, p, -1, -1) == {}
  {
    forall q | q in Scanned(width, height, p, -1, -1) ensures false {
      WindowMembership(width, height, p, q);
    }
  }

  /** A finished inner loop moves the scan to the start of the next offset. */
  lemma ScannedNextRow(width: int, height: int, p: Pos, dx: int)
    ensures Scanned(width, height, p, dx, 2) == Scanned(width, height, p, dx + 1, -1)
  {
    forall q | q in Window(width, height, p) ensures q.1 - p.1 < 2 && q.1 - p.1 >= -1 {
      WindowMembership(width, height, p, q);
    }
  }

  /** One pass of the inner loop adds its cell when that cell is on the grid. */
  lemma ScannedStep(width: int, height: int, p: Pos, dx: int, dy: int)
    requires -1 <= dx <= 1 && -1 <= dy <= 1
    ensures InBounds(width, height, (p.0 + dx, p.1 + dy)) ==>
      (p.0 + dx, p.1 + dy) in Window(width, height, p) &&
      Scanned(width, height, p, dx, dy + 1) == Scanned(width, height, p, dx, dy) + {(p.0 + dx, p.1 + dy)}
    ensures !InBounds(width, height, (p.0 + dx, p.1 + dy)) ==>
      Scanned(width, height, p, dx, dy + 1) == Scanned(width, height, p, dx, dy)
  {
    var q := (p.0 + dx, p.1 + dy);
    WindowMembership(width, height, p, q);
    forall r | r in Scanned(width, height, p, dx, dy + 1) && r !in Scanned(width, height, p, dx, dy)
      ensures r == q
    {
      WindowMembership(width, height, p, r);
    }
  }

  /** After the last offset the scan has covered the whole window. */
  lemma ScannedAll(width: int, height: int, p: Pos)
    ensures Window(width, height, p) == Scanned(width, height, p, 2, -1)
  {
    forall q | q in Window(width, height, p) ensures q.0 - p.0 < 2 {
      WindowMembership(width, height, p, q);
    }
  }

  /** While fewer than n distinct cells have been drawn, and the draws hold at least n,
      some draw is left. */
  lemma DrawsLeft(draws: seq<Pos>, i: nat, n: nat)
    requires i <= |draws| && |Elems(draws[..i])| < n <= |Elems(draws)|
    ensures i < |draws|
  {
    assert draws[..|draws|] == draws;
  }

  /** Counting a grid of x + 1 rows counts the first x rows, then the last. */
  lemma CountSplit(marked: set<Pos>, x: nat, height: nat)
    ensures |marked * Cells(x + 1, height)| == |marked * Cells(x, height)| + |marked * Row(x, height)|
  {
    CellsSplit(x + 1, height);
    assert marked * Cells(x + 1, height) == marked * Cells(x, height) + marked * Row(x, height);
  }

  /** The initialising loop of the constructor: a width x height board of blank cells. */
  method NewBoard(width: nat, height: nat) returns (board: array2<CellRecord>)
    ensures fresh(board) && board.Length0 == width && board.Length1 == height
    ensures forall x, y | 0 <= x < width && 0 <= y < height :: board[x, y] == Blank
  {
    board := new CellRecord[width, height];
    for x := 0 to width
      invariant forall i, j | 0 <= i < x && 0 <= j < height :: board[i, j] == Blank
    {
      for y := 0 to height
        invariant forall i, j | 0 <= i < x && 0 <= j < height :: board[i, j] == Blank
        invariant forall j | 0 <= j < y :: board[x, j] == Blank
      {
        board[x, y] := Blank;
      }
    }
  }

  class GameController {
    const boardWidth: nat
    const boardHeight: nat
    const numMines: nat
    const cells: array2<CellRecord>
    var gameOver: bool

    /** The mines, the revealed cells, the flagged cells, and the cells whose reveal
        cascades (no mine and no adjacent mine), as positions. */
    ghost var Mines: set<Pos>
    ghost var Revealed: set<Pos>
    ghost var Flagged: set<Pos>
    ghost var Opens: set<Pos>
    /** How many draws the mine placement consumed. */
    ghost var Used: nat

    ghost predicate Valid()
      reads this, cells
    {
      && cells.Length0 == boardWidth && cells.Length1 == boardHeight
      && Mines <= Cells(boardWidth, boardHeight) && Revealed <= Cells(boardWidth, boardHeight)
      && Flagged <= Cells(boardWidth, boardHeight) && Opens <= Cells(boardWidth, boardHeight)
      && forall x, y | 0 <= x < boardWidth && 0 <= y < boardHeight :: Agrees(cells[x, y], (x, y))
    }

    /** The cascading cells are exactly those without a mine and without an adjacent mine. */
    ghost predicate OpensMatch()
      reads this`Opens, this`Mines
    {
      forall p {:trigger Opening(boardWidth, boardHeight, Mines, p)} | InBounds(boardWidth, boardHeight, p) ::
        p in Opens <==> Opening(boardWidth, boardHeight, Mines, p)
    }

    /** A cell on the grid cascades exactly when neither it nor any neighbour holds a mine. */
    lemma OpenAt(x: int, y: int)
      requires OpensMatch() && InBounds(boardWidth, boardHeight, (x, y))
      ensures (x, y) in Opens <==> (x, y) !in Mines && Neighbours(boardWidth, boardHeight, (x, y)) !! Mines
    {
      assert Opening(boardWidth, boardHeight, Mines, (x, y)) <==> (x, y) in Opens;
    }

    /** The record at p agrees with the position sets. */
    ghost predicate Agrees(cell: CellRecord, p: Pos)
      reads this`Mines, this`Revealed, this`Flagged
    {
      && (cell.isMine <==> p in Mines)
      && (cell.revealed <==> p in Revealed)
      && (cell.flagged <==> p in Flagged)
    }

    /** The cells a reveal may not touch: revealed or flagged. */
    ghost function Blocked(): set<Pos>
      reads this
    {
      Revealed + Flagged
    }

    /** Every cell without a mine is revealed or flagged. */
    ghost predicate Cleared()
      reads this
    {
      Cells(boardWidth, boardHeight) - Mines <= Revealed + Flagged
    }

    /** A width x height board of blank cells on which mines are placed at the drawn
        positions, skipping a draw that hits a mine, until numMines cells hold one. The
        mines are the distinct cells among the first Used draws, and the last of those
        draws added the last mine. */
    constructor (width: nat, height: nat, numMines: nat, draws: seq<Pos>)
      requires forall k | 0 <= k < |draws| :: InBounds(width, height, draws[k])
      requires numMines <= |Elems(draws)|
      ensures Valid() && boardWidth == width && boardHeight == height && this.numMines == numMines
      ensures |Mines| == numMines && Used <= |draws| && Mines == Elems(draws[..Used])
      ensures Used == 0 || |Elems(draws[..Used - 1])| < numMines
      ensures Revealed == {} && Flagged == {} && OpensMatch() && !gameOver
      ensures fresh(cells)
    {
      var board := NewBoard(width, height);
      boardWidth := width;
      boardHeight := height;
      this.numMines := numMines;
      cells := board;
      gameOver := false;
      Mines := {};
      Revealed := {};
      Flagged := {};
      Opens := OpenCells(width, height, {});
      new;
      forall p | InBounds(width, height, p) ensures p in Opens <==> Opening(width, height, Mines, p) {
        OpenCellsAt(width, height, Mines, p);
      }
      PlaceMines(draws);
    }

    /** The mine loop of the constructor: each draw that hits a cell without a mine puts
        one there, until numMines cells hold one. */
    method PlaceMines(draws: seq<Pos>)
      requires Valid() && Mines == {} && OpensMatch()
      requires forall k | 0 <= k < |draws| :: InBounds(boardWidth, boardHeight, draws[k])
      requires numMines <= |Elems(draws)|
      modifies cells, this`Mines, this`Opens, this`Used
      ensures Valid() && OpensMatch()
      ensures |Mines| == numMines && Used <= |draws| && Mines == Elems(draws[..Used])
      ensures Used == 0 || |Elems(draws[..Used - 1])| < numMines
    {
      var minesAdded := 0;
      var i := 0;
      assert draws[..0] == [];
      while minesAdded < numMines
        invariant Valid() && OpensMatch() && i <= |draws| && minesAdded <= numMines
        invariant Mines == Elems(draws[..i]) && minesAdded == |Mines|
        invariant i == 0 || |Elems(draws[..i - 1])| < numMines
        decreases |draws| - i
      {
        DrawsLeft(draws, i, numMines);
        var added := PlaceDraw(draws, i);
        if added {
          minesAdded := minesAdded + 1;
        }
        i := i + 1;
      }
      Used := i;
    }

    /** One pass of the mine loop: a draw that hits a cell without a mine puts one there. */
    method PlaceDraw(draws: seq<Pos>, i: nat) returns (added: bool)
      requires Valid() && OpensMatch() && i < |draws| && InBounds(boardWidth, boardHeight, draws[i])
      requires Mines == Elems(draws[..i])
      modifies cells, this`Mines, this`Opens
      ensures Valid() && OpensMatch()
      ensures Mines == Elems(draws[..i + 1]) && |Mines| == |old(Mines)| + (if added then 1 else 0)
    {
      ElemsSnoc(draws, i);
      var (x, y) := draws[i];
      assert Agrees(cells[x, y], (x, y));
      added := !cells[x, y].isMine;
      if added {
        PlaceMine(x, y);
      }
    }

    /** Puts a mine on a cell without one; nothing else changes. */
    method PlaceMine(x: int, y: int)
      requires Valid() && InBounds(boardWidth, boardHeight, (x, y)) && (x, y) !in Mines
      modifies cells, this`Mines, this`Opens
      ensures Valid() && OpensMatch()
      ensures Mines == old(Mines) + {(x, y)}
    {
      SetCell(x, y, cells[x, y].(isMine := true));
      Mines := Mines + {(x, y)};
      Opens := OpenCells(boardWidth, boardHeight, Mines);
      forall p | InBounds(boardWidth, boardHeight, p) ensures p in Opens <==> Opening(boardWidth, boardHeight, Mines, p) {
        OpenCellsAt(boardWidth, boardHeight, Mines, p);
      }
      forall i, j | 0 <= i < boardWidth && 0 <= j < boardHeight ensures Agrees(cells[i, j], (i, j)) {
        if i != x || j != y {
          assert old(Agrees(cells[i, j], (i, j)));
        }
      }
    }

    /** Writes one cell; the others keep their records. */
    method SetCell(x: int, y: int, cell: CellRecord)
      requires 0 <= x < cells.Length0 && 0 <= y < cells.Length1
      modifies cells
      ensures cells[x, y] == cell
      ensures forall i, j | 0 <= i < cells.Length0 && 0 <= j < cells.Length1 && (i != x || j != y) ::
        cells[i, j] == old(cells[i, j])
    {
      cells[x, y] := cell;
    }

    /** The number of flagged cells. */
    method CountFlags() returns (count: nat)
      requires Valid()
      ensures count == |Flagged|
    {
      count := 0;
      for x := 0 to boardWidth
        invariant count == |Flagged * Cells(x, boardHeight)|
      {
        var n := CountColumn(x);
        CountSplit(Flagged, x, boardHeight);
        count := count + n;
      }
      assert Flagged * Cells(boardWidth, boardHeight) == Flagged;
    }

    /** The inner loop of CountFlags: the number of flagged cells with first index x. */
    method CountColumn(x: int) returns (count: nat)
      requires Valid() && 0 <= x < boardWidth
      ensures count == |Flagged * Row(x, boardHeight)|
    {
      count := 0;
      for y := 0 to boardHeight
        invariant count == |Flagged * Row(x, y)|
      {
        assert Row(x, y + 1) == Row(x, y) + {(x, y)};
        assert Agrees(cells[x, y], (x, y));
        if cells[x, y].flagged {
          assert Flagged * Row(x, y + 1) == Flagged * Row(x, y) + {(x, y)};
          count := count + 1;
        } else {
          assert Flagged * Row(x, y + 1) == Flagged * Row(x, y);
        }
      }
    }

    /** Mines minus flags, not clamped: more flags than mines makes it negative. It never
        exceeds the number of mines and never falls below that number minus the cell count. */
    method FlagsRemaining() returns (remaining: int)
      requires Valid()
      ensures remaining == numMines - |Flagged|
      ensures numMines - boardWidth * boardHeight <= remaining <= numMines
    {
      var count := CountFlags();
      SubsetCardinality(Flagged, Cells(boardWidth, boardHeight));
      CellsCardinality(boardWidth, boardHeight);
      remaining := numMines - count;
    }

    /** The record at (x, y), which agrees with the position sets. */
    method GetCellState(x: int, y: int) returns (cell: CellRecord)
      requires Valid() && InBounds(boardWidth, boardHeight, (x, y))
      ensures cell.isMine <==> (x, y) in Mines
      ensures cell.revealed <==> (x, y) in Revealed
      ensures cell.flagged <==> (x, y) in Flagged
    {
      cell := cells[x, y];
      assert Agrees(cell, (x, y));
    }

    /** The number of mines among the in-bounds 8 neighbours of (x, y), read off the
        records: what the reveal's `AdjacentMines` test asks of a cell. */
    function AdjacentMines(x: int, y: int): (count: nat)
      reads this, cells
      requires Valid() && InBounds(boardWidth, boardHeight, (x, y))
      ensures count == 0 <==> Neighbours(boardWidth, boardHeight, (x, y)) !! Mines
    {
      NeighbourMines(x, y);
      |set p | p in Neighbours(boardWidth, boardHeight, (x, y)) && InBounds(boardWidth, boardHeight, p) && cells[p.0, p.1].isMine|
    }

    /** The count is the number of mines among the in-bounds neighbours, at most 8. */
    lemma AdjacentMinesCount(x: int, y: int)
      requires Valid() && InBounds(boardWidth, boardHeight, (x, y))
      ensures AdjacentMines(x, y) == |Neighbours(boardWidth, boardHeight, (x, y)) * Mines| <= 8
    {
      NeighbourMines(x, y);
      NeighboursBounds(boardWidth, boardHeight, (x, y));
      SubsetCardinality(Neighbours(boardWidth, boardHeight, (x, y)) * Mines, Neighbours(boardWidth, boardHeight, (x, y)));
    }

    lemma NeighbourMines(x: int, y: int)
      requires Valid()
      ensures (set p | p in Neighbours(boardWidth, boardHeight, (x, y)) && InBounds(boardWidth, boardHeight, p) && cells[p.0, p.1].isMine)
        == Neighbours(boardWidth, boardHeight, (x, y)) * Mines
    {
      forall p | p in Neighbours(boardWidth, boardHeight, (x, y))
        ensures InBounds(boardWidth, boardHeight, p) && (cells[p.0, p.1].isMine <==> p in Mines)
      {
        WindowMembership(boardWidth, boardHeight, (x, y), p);
        assert Agrees(cells[p.0, p.1], p);
      }
    }

    /** Reveals (x, y). A flagged or revealed cell is left alone. A mine ends the game
        and nothing else is uncovered. A cell without adjacent mines reveals every cell of its
        clipped 3x3 window, itself included, in turn. The cells uncovered are exactly a
        flood from (x, y) around the cells revealed or flagged before the call, and the
        game ends when one of them holds a mine. */
    method RevealCell(x: int, y: int) returns (ghost order: seq<Pos>)
      requires Valid() && OpensMatch() && InBounds(boardWidth, boardHeight, (x, y))
      modifies this`gameOver, this`Revealed, cells
      ensures Valid()
      ensures Revealed == old(Revealed) + Elems(order)
      ensures IsFlood(boardWidth, boardHeight, Opens, old(Blocked()), (x, y), order)
      ensures gameOver == (old(gameOver) || !(Elems(order) !! Mines))
      ensures (x, y) !in Mines ==> Elems(order) !! Mines && gameOver == old(gameOver)
      decreases Cells(boardWidth, boardHeight) - Blocked(), 0
    {
      ghost var blocked := Blocked();
      var cell := cells[x, y];
      assert Agrees(cell, (x, y));
      if cell.flagged || cell.revealed {
        return [];
      }
      Uncover(x, y);
      OpenAt(x, y);
      if cell.isMine {
        gameOver := true;
        SingleFlood(x, y, blocked);
        order := [(x, y)];
        return;
      }
      var adjacent := AdjacentMines(x, y);
      if adjacent == 0 {
        order := RevealWindow(x, y, blocked);
      } else {
        SingleFlood(x, y, blocked);
        order := [(x, y)];
      }
      FloodAvoidsMines(this, blocked, (x, y), order);
    }

    /** A reveal that uncovers only (x, y): a mine, or a cell next to a mine. */
    lemma SingleFlood(x: int, y: int, blocked: set<Pos>)
      requires InBounds(boardWidth, boardHeight, (x, y))
      requires (x, y) !in Opens && (x, y) !in blocked
      ensures Elems([(x, y)]) == {(x, y)}
      ensures IsFlood(boardWidth, boardHeight, Opens, blocked, (x, y), [(x, y)])
    {
      FloodStart(boardWidth, boardHeight, Opens, blocked, (x, y));
      FloodFinish(boardWidth, boardHeight, Opens, blocked, [(x, y)], {});
    }

    /** The cascade of a reveal: (x, y) is already revealed, and the nested loops over
        the offsets dx, dy in -1..1 reveal each cell of the window that is on the grid. */
    method RevealWindow(x: int, y: int, ghost blocked: set<Pos>) returns (ghost order: seq<Pos>)
      requires Valid() && OpensMatch() && InBounds(boardWidth, boardHeight, (x, y))
      requires (x, y) in Opens && (x, y) in Revealed
      requires (x, y) !in blocked && (x, y) !in Flagged && Blocked() == blocked + {(x, y)}
      modifies this`gameOver, this`Revealed, cells
      ensures Valid()
      ensures Revealed == old(Revealed) + Elems(order)
      ensures IsFlood(boardWidth, boardHeight, Opens, blocked, (x, y), order)
      ensures gameOver == (old(gameOver) || !(Elems(order) !! Mines))
      decreases Cells(boardWidth, boardHeight) - Blocked(), 3
    {
      ghost var before := Revealed - {(x, y)};
      ghost var wasOver := gameOver;
      FloodStart(boardWidth, boardHeight, Opens, blocked, (x, y));
      ScannedStart(boardWidth, boardHeight, (x, y));
      order := [(x, y)];
      assert Elems(order) == {(x, y)};
      OpenAt(x, y);
      for dx := -1 to 2
        invariant Valid()
        invariant PartialFlood(boardWidth, boardHeight, Opens, blocked, order, Scanned(boardWidth, boardHeight, (x, y), dx, -1))
        invariant order[0] == (x, y)
        invariant Revealed == before + Elems(order)
        invariant gameOver == (wasOver || !(Elems(order) !! Mines))
      {
        order := RevealRow(x, y, dx, blocked, before, wasOver, order);
      }
      ScannedAll(boardWidth, boardHeight, (x, y));
      FloodFinish(boardWidth, boardHeight, Opens, blocked, order, Scanned(boardWidth, boardHeight, (x, y), 2, -1));
    }

    /** The inner loop for one offset dx: reveals the on-grid cells (x + dx, y + dy). */
    method RevealRow(x: int, y: int, dx: int, ghost blocked: set<Pos>, ghost before: set<Pos>, ghost wasOver: bool,
                     ghost order: seq<Pos>) returns (ghost order': seq<Pos>)
      requires Valid() && OpensMatch() && -1 <= dx <= 1
      requires PartialFlood(boardWidth, boardHeight, Opens, blocked, order, Scanned(boardWidth, boardHeight, (x, y), dx, -1))
      requires order[0] == (x, y) && (x, y) in Opens
      requires blocked == before + Flagged && Revealed == before + Elems(order)
      requires gameOver == (wasOver || !(Elems(order) !! Mines))
      modifies this`gameOver, this`Revealed, cells
      ensures Valid()
      ensures PartialFlood(boardWidth, boardHeight, Opens, blocked, order', Scanned(boardWidth, boardHeight, (x, y), dx + 1, -1))
      ensures order'[0] == (x, y)
      ensures Revealed == before + Elems(order')
      ensures gameOver == (wasOver || !(Elems(order') !! Mines))
      decreases Cells(boardWidth, boardHeight) - Blocked(), 2
    {
      order' := order;
      for dy := -1 to 2
        invariant Valid()
        invariant PartialFlood(boardWidth, boardHeight, Opens, blocked, order', Scanned(boardWidth, boardHeight, (x, y), dx, dy))
        invariant order'[0] == (x, y)
        invariant Revealed == before + Elems(order')
        invariant old(Revealed) <= Revealed
        invariant gameOver == (wasOver || !(Elems(order') !! Mines))
      {
        order' := RevealStep(x, y, dx, dy, blocked, before, wasOver, order');
      }
      ScannedNextRow(boardWidth, boardHeight, (x, y), dx);
    }

    /** One pass of the inner loop: when (x + dx, y + dy) is on the grid, reveals it and
        appends what it uncovers. */
    method RevealStep(x: int, y: int, dx: int, dy: int, ghost blocked: set<Pos>, ghost before: set<Pos>,
                      ghost wasOver: bool, ghost order: seq<Pos>) returns (ghost order': seq<Pos>)
      requires Valid() && OpensMatch() && -1 <= dx <= 1 && -1 <= dy <= 1
      requires PartialFlood(boardWidth, boardHeight, Opens, blocked, order, Scanned(boardWidth, boardHeight, (x, y), dx, dy))
      requires order[0] == (x, y) && (x, y) in Opens
      requires blocked == before + Flagged && Revealed == before + Elems(order)
      requires gameOver == (wasOver || !(Elems(order) !! Mines))
      modifies this`gameOver, this`Revealed, cells
      ensures Valid()
      ensures PartialFlood(boardWidth, boardHeight, Opens, blocked, order', Scanned(boardWidth, boardHeight, (x, y), dx, dy + 1))
      ensures order'[0] == (x, y)
      ensures Revealed == before + Elems(order') && old(Revealed) <= Revealed
      ensures gameOver == (wasOver || !(Elems(order') !! Mines))
      decreases Cells(boardWidth, boardHeight) - Blocked(), 1
    {
      ScannedStep(boardWidth, boardHeight, (x, y), dx, dy);
      var nx := x + dx;
      var ny := y + dy;
      if nx >= 0 && nx < boardWidth && ny >= 0 && ny < boardHeight {
        assert Blocked() == blocked + Elems(order);
        ghost var sub := RevealCell(nx, ny);
        FloodExtend(boardWidth, boardHeight, Opens, blocked, order,
                    Scanned(boardWidth, boardHeight, (x, y), dx, dy), (nx, ny), sub);
        order' := order + sub;
      } else {
        order' := order;
      }
    }

    /** Marks one cell revealed; nothing else changes. */
    method Uncover(x: int, y: int)
      requires Valid() && InBounds(boardWidth, boardHeight, (x, y))
      modifies cells, this`Revealed
      ensures Valid()
      ensures Revealed == old(Revealed) + {(x, y)}
    {
      SetCell(x, y, cells[x, y].(revealed := true));
      Revealed := Revealed + {(x, y)};
      forall i, j | 0 <= i < boardWidth && 0 <= j < boardHeight ensures Agrees(cells[i, j], (i, j)) {
        if i != x || j != y {
          assert old(Agrees(cells[i, j], (i, j)));
        }
      }
    }

    /** Sets the flag of one cell to `flag`; nothing else changes. */
    method MarkFlag(x: int, y: int, flag: bool)
      requires Valid() && InBounds(boardWidth, boardHeight, (x, y))
      modifies cells, this`Flagged
      ensures Valid()
      ensures Flagged == if flag then old(Flagged) + {(x, y)} else old(Flagged) - {(x, y)}
    {
      SetCell(x, y, cells[x, y].(flagged := flag));
      Flagged := if flag then Flagged + {(x, y)} else Flagged - {(x, y)};
      forall i, j | 0 <= i < boardWidth && 0 <= j < boardHeight ensures Agrees(cells[i, j], (i, j)) {
        if i != x || j != y {
          assert old(Agrees(cells[i, j], (i, j)));
        }
      }
    }

    /** Flags (x, y) unless it is flagged or revealed already; a flag is never cleared. */
    method FlagCell(x: int, y: int)
      requires Valid() && InBounds(boardWidth, boardHeight, (x, y))
      modifies cells, this`Flagged
      ensures Valid()
      ensures Flagged == SetFlag(old(Flagged), Revealed, (x, y))
    {
      var cell := cells[x, y];
      assert Agrees(cell, (x, y));
      if cell.flagged || cell.revealed {
        return;
      }
      MarkFlag(x, y, true);
    }

    /** Flips the flag of (row, col) unless it is revealed. */
    method ToggleFlag(row: int, col: int)
      requires Valid() && InBounds(boardWidth, boardHeight, (row, col))
      modifies cells, this`Flagged
      ensures Valid()
      ensures Flagged == FlipFlag(old(Flagged), Revealed, (row, col))
    {
      var cell := cells[row, col];
      assert Agrees(cell, (row, col));
      if cell.revealed {
        return;
      }
      if cell.flagged {
        MarkFlag(row, col, false);
      } else {
        MarkFlag(row, col, true);
      }
    }

    /** Whether the game is over: once it is, it stays over. Otherwise it is over, and
        stays so, exactly when every cell without a mine is revealed or flagged. */
    method IsGameOver() returns (over: bool)
      requires Valid()
      modifies this`gameOver
      ensures over == gameOver
      ensures over == (old(gameOver) || Cleared())
    {
      if gameOver {
        return true;
      }
      var cleared := AllSafeCellsDone();
      if !cleared {
        return false;
      }
      gameOver := true;
      return true;
    }

    /** The scan of IsGameOver: false at the first cell with no mine that is neither
        revealed nor flagged, true when there is none. */
    method AllSafeCellsDone() returns (cleared: bool)
      requires Valid()
      ensures cleared <==> Cleared()
    {
      for x := 0 to boardWidth
        invariant Cells(x, boardHeight) - Mines <= Revealed + Flagged
      {
        for y := 0 to boardHeight
          invariant Cells(x, boardHeight) + Row(x, y) - Mines <= Revealed + Flagged
        {
          var cell := cells[x, y];
          assert Agrees(cell, (x, y));
          if !cell.isMine && !cell.revealed && !cell.flagged {
            assert (x, y) in Cells(boardWidth, boardHeight) - Mines && (x, y) !in Revealed + Flagged;
            return false;
          }
          assert Row(x, y + 1) == Row(x, y) + {(x, y)};
        }
        CellsSplit(x + 1, boardHeight);
      }
      return true;
    }
  }

  /** A reveal that does not start on a mine uncovers no mine: every later cell borders
      an earlier cell that cascades, and a cascading cell has no mine next to it. */
  lemma FloodAvoidsMines(game: GameController, blocked: set<Pos>, start: Pos, order: seq<Pos>)
    requires game.OpensMatch()
    requires IsFlood(game.boardWidth, game.boardHeight, game.Opens, blocked, start, order)
    requires start !in game.Mines
    ensures Elems(order) !! game.Mines
  {
    forall k | 0 <= k < |order| ensures order[k] !in game.Mines {
      if k > 0 {
        assert ReachedAt(game.boardWidth, game.boardHeight, game.Opens, order, k);
        var m :| 0 <= m < k && order[m] in game.Opens && order[k] in Neighbours(game.boardWidth, game.boardHeight, order[m]);
        assert Opening(game.boardWidth, game.boardHeight, game.Mines, order[m]);
      }
    }
  }
}
