/** The Game of the Board/Tile/Game draft: revealing with a recursive cascade,
    flagging, and the game-over latch. */
module Games {
  import opened Grid
  import opened Flood
  import opened Tiles
  import opened Boards

  class Game {
    const board: Board
    var isOver: bool

    ghost predicate Valid()
      reads this, board, board.tiles, board.TileSet()
    {
      board.Marked()
    }

    /** The positions a reveal may not touch: revealed or flagged. */
    ghost function Blocked(): set<Pos>
      reads this, board
    {
      board.Revealed + board.Flagged
    }

    /** A new game on a board whose bombs sit at the drawn positions. */
    constructor (rows: nat, columns: nat, bombs: nat, draws: seq<Pos>)
      requires |draws| == bombs
      requires forall k | 0 <= k < |draws| :: InBounds(rows, columns, draws[k])
      ensures Valid() && board.Rows() == rows && board.Columns() == columns
      ensures board.Bombs == Elems(draws) && board.bombs == bombs && !isOver
      ensures board.Revealed == {} && board.Flagged == {}
      ensures fresh(board) && fresh(board.tiles) && forall t | t in board.TileSet() :: fresh(t)
    {
      board := new Board(rows, columns, bombs, draws);
      isOver := false;
    }

    /** Reveals (row, col). A revealed or flagged tile is left alone. A bomb ends the
        game and nothing else is uncovered. A tile with no adjacent bomb reveals each
        neighbour in turn. Afterwards the game ends when every non-bomb tile is revealed.
        The tiles uncovered are exactly a flood from (row, col) around the cells that
        were revealed or flagged before the call. */
    method RevealTile(row: int, col: int) returns (ghost order: seq<Pos>)
      requires Valid() && InBounds(board.Rows(), board.Columns(), (row, col))
      modifies this`isOver, board`Revealed, board.TileSet()
      ensures Valid()
      ensures board.Revealed == old(board.Revealed) + Elems(order)
      ensures board.Flagged == old(board.Flagged)
      ensures IsFlood(board.Rows(), board.Columns(), board.Opens, old(Blocked()), (row, col), order)
      ensures isOver == (old(isOver) || (|order| > 0 && ((row, col) in board.Bombs || board.AllNonBombTilesRevealed())))
      decreases Cells(board.Rows(), board.Columns()) - Blocked(), 0
    {
      ghost var blocked := Blocked();
      var tile := board.GetTile(row, col);
      if tile.isRevealed || tile.isFlagged {
        assert (row, col) in blocked;
        return [];
      }
      Uncover(tile, (row, col));
      if tile.isBomb {
        isOver := true;
        SingleFlood(row, col, blocked);
        order := [(row, col)];
        return;
      } else if tile.adjacentBombs == 0 {
        order := Cascade(row, col, blocked);
      } else {
        SingleFlood(row, col, blocked);
        order := [(row, col)];
      }
      CheckAllRevealed();
    }

    /** The last step of a reveal that did not hit a bomb: the game ends when every
        non-bomb tile is revealed. */
    method CheckAllRevealed()
      requires Valid()
      modifies this`isOver
      ensures isOver == (old(isOver) || board.AllNonBombTilesRevealed())
      ensures isOver ==> old(isOver) || Cells(board.Rows(), board.Columns()) - board.Bombs <= board.Revealed
    {
      board.AllNonBombTilesRevealedMeans();
      if board.AllNonBombTilesRevealed() {
        isOver := true;
        return;
      }
    }

    /** A reveal that uncovers only (row, col): a bomb, or a tile next to a bomb. */
    lemma SingleFlood(row: int, col: int, blocked: set<Pos>)
      requires Valid() && InBounds(board.Rows(), board.Columns(), (row, col))
      requires (row, col) !in board.Opens && (row, col) !in blocked
      ensures Elems([(row, col)]) == {(row, col)}
      ensures IsFlood(board.Rows(), board.Columns(), board.Opens, blocked, (row, col), [(row, col)])
    {
      FloodStart(board.Rows(), board.Columns(), board.Opens, blocked, (row, col));
      FloodFinish(board.Rows(), board.Columns(), board.Opens, blocked, [(row, col)], {});
    }

    /** The loop of a reveal that cascades: (row, col) is already revealed, and each of
        its neighbours is revealed in turn. */
    method Cascade(row: int, col: int, ghost blocked: set<Pos>) returns (ghost order: seq<Pos>)
      requires Valid() && InBounds(board.Rows(), board.Columns(), (row, col))
      requires (row, col) in board.Opens && (row, col) in board.Revealed
      requires (row, col) !in blocked && Blocked() == blocked + {(row, col)}
      modifies this`isOver, board`Revealed, board.TileSet()
      ensures Valid()
      ensures board.Revealed == old(board.Revealed) + Elems(order)
      ensures board.Flagged == old(board.Flagged)
      ensures IsFlood(board.Rows(), board.Columns(), board.Opens, blocked, (row, col), order)
      ensures old(isOver) ==> isOver
      ensures isOver ==> old(isOver) || Cells(board.Rows(), board.Columns()) - board.Bombs <= board.Revealed
      decreases Cells(board.Rows(), board.Columns()) - Blocked(), 3
    {
      FloodStart(board.Rows(), board.Columns(), board.Opens, blocked, (row, col));
      var adjacent := board.GetAdjacentTiles(row, col);
      order := CascadeLoop(row, col, blocked, old(board.Revealed) - {(row, col)}, old(isOver), adjacent);
      assert (row, col) in Elems(order);
      FloodFinish(board.Rows(), board.Columns(), board.Opens, blocked, order, Elems(adjacent));
    }

    /** The loop over the neighbours, revealing each in turn. */
    method CascadeLoop(row: int, col: int, ghost blocked: set<Pos>, ghost before: set<Pos>, ghost wasOver: bool,
                       adjacent: seq<Pos>) returns (ghost order: seq<Pos>)
      requires Valid() && Elems(adjacent) == Neighbours(board.Rows(), board.Columns(), (row, col))
      requires PartialFlood(board.Rows(), board.Columns(), board.Opens, blocked, [(row, col)], {})
      requires (row, col) in board.Opens && Blocked() == blocked + {(row, col)}
      requires board.Revealed == before + {(row, col)}
      requires isOver == wasOver
      modifies this`isOver, board`Revealed, board.TileSet()
      ensures Valid()
      ensures PartialFlood(board.Rows(), board.Columns(), board.Opens, blocked, order, Elems(adjacent))
      ensures order[0] == (row, col)
      ensures board.Revealed == before + Elems(order)
      ensures board.Flagged == old(board.Flagged)
      ensures wasOver ==> isOver
      ensures isOver ==> wasOver || Cells(board.Rows(), board.Columns()) - board.Bombs <= board.Revealed
      decreases Cells(board.Rows(), board.Columns()) - Blocked(), 2
    {
      order := [(row, col)];
      assert Elems(order) == {(row, col)};
      for k := 0 to |adjacent|
        invariant Valid()
        invariant PartialFlood(board.Rows(), board.Columns(), board.Opens, blocked, order, Elems(adjacent[..k]))
        invariant order[0] == (row, col)
        invariant board.Revealed == before + Elems(order)
        invariant board.Flagged == old(board.Flagged)
        invariant wasOver ==> isOver
        invariant isOver ==> wasOver || Cells(board.Rows(), board.Columns()) - board.Bombs <= board.Revealed
      {
        order := CascadeStep(row, col, blocked, before, wasOver, adjacent, k, order);
      }
      assert adjacent[..|adjacent|] == adjacent;
    }

    /** One pass of the cascade loop: reveals the k-th neighbour and appends what it uncovers. */
    method CascadeStep(row: int, col: int, ghost blocked: set<Pos>, ghost before: set<Pos>, ghost wasOver: bool,
                       adjacent: seq<Pos>, k: nat, ghost order: seq<Pos>) returns (ghost order': seq<Pos>)
      requires Valid() && k < |adjacent|
      requires Elems(adjacent) == Neighbours(board.Rows(), board.Columns(), (row, col))
      requires PartialFlood(board.Rows(), board.Columns(), board.Opens, blocked, order, Elems(adjacent[..k]))
      requires order[0] == (row, col) && (row, col) in board.Opens
      requires Blocked() == blocked + Elems(order) && board.Revealed == before + Elems(order)
      requires isOver ==> wasOver || Cells(board.Rows(), board.Columns()) - board.Bombs <= board.Revealed
      modifies this`isOver, board`Revealed, board.TileSet()
      ensures Valid()
      ensures PartialFlood(board.Rows(), board.Columns(), board.Opens, blocked, order', Elems(adjacent[..k + 1]))
      ensures order'[0] == (row, col)
      ensures board.Revealed == before + Elems(order')
      ensures board.Flagged == old(board.Flagged)
      ensures old(isOver) ==> isOver
      ensures isOver ==> wasOver || Cells(board.Rows(), board.Columns()) - board.Bombs <= board.Revealed
      decreases Cells(board.Rows(), board.Columns()) - Blocked(), 1
    {
      var (r, c) := adjacent[k];
      assert adjacent[k] in Elems(adjacent);
      board.OpensAvoidBombs();
      ghost var sub := RevealTile(r, c);
      board.AllNonBombTilesRevealedMeans();
      FloodExtend(board.Rows(), board.Columns(), board.Opens, blocked, order, Elems(adjacent[..k]), (r, c), sub);
      order' := order + sub;
      ElemsSnoc(adjacent, k);
    }

    /** Marks one tile revealed; nothing else changes. */
    method Uncover(tile: Tile, p: Pos)
      requires Valid() && InBounds(board.Rows(), board.Columns(), p) && tile == board.GetTile(p.0, p.1)
      modifies tile`isRevealed, board`Revealed
      ensures Valid()
      ensures board.Revealed == old(board.Revealed) + {p}
    {
      tile.isRevealed := true;
      board.Revealed := board.Revealed + {p};
      assert board.Valid();
      assert p == (p.0, p.1);
      forall i, j | 0 <= i < board.Rows() && 0 <= j < board.Columns()
        ensures board.tiles[i, j].isRevealed <==> (i, j) in board.Revealed
      {
        if (i, j) != p {
          assert board.Position[board.tiles[i, j]] == (i, j);
        }
      }
    }

    /** Flips the flag of (row, col) unless its tile is revealed; nothing else changes. */
    method FlagTile(row: int, col: int)
      requires Valid() && InBounds(board.Rows(), board.Columns(), (row, col))
      modifies board`Flagged, board.TileSet()
      ensures Valid()
      ensures board.Flagged == FlipFlag(old(board.Flagged), board.Revealed, (row, col))
      ensures board.Revealed == old(board.Revealed)
    {
      var tile := board.GetTile(row, col);
      if !tile.isRevealed {
        assert (row, col) !in board.Revealed && (tile.isFlagged <==> (row, col) in board.Flagged);
        MarkFlag(tile, (row, col), !tile.isFlagged);
      } else {
        assert (row, col) in board.Revealed;
      }
    }

    /** Sets the flag of one tile to `flag`; nothing else changes. */
    method MarkFlag(tile: Tile, p: Pos, flag: bool)
      requires Valid() && InBounds(board.Rows(), board.Columns(), p) && tile == board.GetTile(p.0, p.1)
      modifies tile`isFlagged, board`Flagged
      ensures Valid()
      ensures board.Flagged == if flag then old(board.Flagged) + {p} else old(board.Flagged) - {p}
    {
      tile.isFlagged := flag;
      board.Flagged := if flag then board.Flagged + {p} else board.Flagged - {p};
      assert board.Valid();
      assert p == (p.0, p.1);
      forall i, j | 0 <= i < board.Rows() && 0 <= j < board.Columns()
        ensures board.tiles[i, j].isFlagged <==> (i, j) in board.Flagged
      {
        if (i, j) != p {
          assert board.Position[board.tiles[i, j]] == (i, j);
        }
      }
    }

    /** A new layout on the same board: the game is not over and nothing is revealed or flagged. */
    method Reset(draws: seq<Pos>)
      requires |draws| == board.bombs
      requires forall k | 0 <= k < |draws| :: InBounds(board.Rows(), board.Columns(), draws[k])
      modifies this`isOver, board`Position, board`Bombs, board`Revealed, board`Flagged, board`Opens, board.tiles
      ensures Valid() && !isOver
      ensures board.Bombs == Elems(draws) && board.Revealed == {} && board.Flagged == {}
      ensures forall t | t in board.TileSet() :: fresh(t)
    {
      isOver := false;
      board.Reset(draws);
    }
  }

  /** A reveal that does not start on a bomb never uncovers one: every later cell of the
      flood is a neighbour of a cell with no adjacent bomb. */
  lemma FloodAvoidsBombs(game: Game, blocked: set<Pos>, start: Pos, order: seq<Pos>)
    requires game.Valid()
    requires IsFlood(game.board.Rows(), game.board.Columns(), game.board.Opens, blocked, start, order)
    requires start !in game.board.Bombs
    ensures Elems(order) !! game.board.Bombs
  {
    game.board.OpensAvoidBombs();
    forall k | 0 <= k < |order| ensures order[k] !in game.board.Bombs {
      if k > 0 {
        assert ReachedAt(game.board.Rows(), game.board.Columns(), game.board.Opens, order, k);
      }
    }
  }
}
