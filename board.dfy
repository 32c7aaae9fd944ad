/** The Board of the Board/Tile/Game draft: a rows x columns array of tiles, bombs
    dropped at drawn positions, and every other tile told how many bombs touch it. */
module Boards {
  import opened Grid
  import opened Tiles

  /** An entry of the board being filled: a bomb tile with count 0 at a bomb position,
      a non-bomb tile with the right count at a position already visited, else null. */
  ghost predicate EntryOk(t: Tile?, bomb: bool, visited: bool, count: int) {
    if bomb then t != null && t.isBomb && t.adjacentBombs == 0
    else if visited then t != null && !t.isBomb && t.adjacentBombs == count
    else t == null
  }

  class Board {
    /** The tiles; an entry is null only while the board is being filled. */
    const tiles: array2<Tile?>
    /** How many positions each layout draws. The source's board does not keep it,
        but the Reset the game calls has to know it. */
    const bombs: nat
    /** The position of each tile of the board, so that no tile sits at two positions. */
    ghost var Position: map<Tile, Pos>
    /** The positions that hold a bomb. */
    ghost var Bombs: set<Pos>
    /** The positions whose tile is revealed, and those whose tile is flagged. */
    ghost var Revealed: set<Pos>
    ghost var Flagged: set<Pos>
    /** The positions whose reveal cascades: no bomb and no adjacent bomb. */
    ghost var Opens: set<Pos>

    function Rows(): nat {
      tiles.Length0
    }

    function Columns(): nat {
      tiles.Length1
    }

    ghost function TileSet(): set<Tile>
      reads this`Position
    {
      Position.Keys
    }

    /** The number of bombs among the in-bounds 8 neighbours of p. */
    ghost function BombsAround(p: Pos): int
      reads this`Bombs
    {
      |Neighbours(Rows(), Columns(), p) * Bombs|
    }

    /** Every position holds its own tile; bomb tiles are exactly the positions in
        Bombs and count 0; every other tile counts the bombs among its in-bounds
        8 neighbours. */
    ghost predicate Valid()
      reads this`Position, this`Bombs, tiles
    {
      && (forall i, j | 0 <= i < Rows() && 0 <= j < Columns() ::
            tiles[i, j] != null && tiles[i, j] in Position && Position[tiles[i, j]] == (i, j))
      && (forall t | t in Position :: InBounds(Rows(), Columns(), Position[t]) && tiles[Position[t].0, Position[t].1] == t)
      && Bombs <= Cells(Rows(), Columns())
      && (forall i, j | 0 <= i < Rows() && 0 <= j < Columns() ::
            (tiles[i, j].isBomb <==> (i, j) in Bombs) &&
            tiles[i, j].adjacentBombs == if (i, j) in Bombs then 0 else BombsAround((i, j)))
    }

    /** The state of the filling loop just before it looks at (row, col): bombs are in
        place, the tiles before (row, col) in row-major order are counted, the rest are null. */
    ghost predicate FilledBefore(row: int, col: int)
      reads this, tiles
    {
      && (forall p | p in Bombs :: InBounds(Rows(), Columns(), p))
      && (forall i, j | 0 <= i < Rows() && 0 <= j < Columns() :: FilledAt(tiles[i, j], (i, j), row, col))
      && (forall i, j | 0 <= i < Rows() && 0 <= j < Columns() && tiles[i, j] != null ::
            tiles[i, j] in Position && Position[tiles[i, j]] == (i, j))
      && (forall t | t in Position :: InBounds(Rows(), Columns(), Position[t]) && tiles[Position[t].0, Position[t].1] == t)
    }

    /** Entry t at position p in that state. */
    ghost predicate FilledAt(t: Tile?, p: Pos, row: int, col: int)
      reads this`Bombs
    {
      EntryOk(t, p in Bombs, p.0 < row || (p.0 == row && p.1 < col), BombsAround(p))
    }

    /** Builds a board whose bombs sit at the drawn positions (the source draws them
        with a random generator, with replacement, so a repeated draw is lost). */
    constructor (rows: nat, columns: nat, bombs: nat, draws: seq<Pos>)
      requires |draws| == bombs
      requires forall k | 0 <= k < |draws| :: InBounds(rows, columns, draws[k])
      ensures Valid() && Rows() == rows && Columns() == columns && this.bombs == bombs
      ensures Bombs == Elems(draws) && Marked() && Revealed == {} && Flagged == {}
      ensures fresh(tiles) && forall t | t in TileSet() :: fresh(t)
    {
      tiles := new Tile?[rows, columns]((i, j) => null);
      this.bombs := bombs;
      new;
      Populate(draws);
      ClearMarks();
    }

    /** A fresh layout: nothing revealed, nothing flagged, and Opens read off the counts. */
    method ClearMarks()
      requires Valid() && forall t | t in TileSet() :: !t.isRevealed && !t.isFlagged
      modifies this`Revealed, this`Flagged, this`Opens
      ensures Marked() && Revealed == {} && Flagged == {}
    {
      Revealed := {};
      assert Valid();
      Flagged := {};
      assert Valid();
      Opens := OpenPositions();
      assert Valid();
      ClearMarked();
    }

    /** The positions of the non-bomb tiles with no adjacent bomb. */
    ghost function OpenPositions(): set<Pos>
      reads this`Position, this`Bombs, tiles
      requires Valid()
    {
      set p | p in Cells(Rows(), Columns()) && InBounds(Rows(), Columns(), p) && !tiles[p.0, p.1].isBomb && tiles[p.0, p.1].adjacentBombs == 0
    }

    lemma ClearMarked()
      requires Valid() && forall t | t in TileSet() :: !t.isRevealed && !t.isFlagged
      requires Revealed == {} && Flagged == {} && Opens == OpenPositions()
      ensures Marked()
    {
      forall i, j | 0 <= i < Rows() && 0 <= j < Columns()
        ensures !tiles[i, j].isRevealed && !tiles[i, j].isFlagged
        ensures (i, j) in Opens <==> !tiles[i, j].isBomb && tiles[i, j].adjacentBombs == 0
      {
        assert tiles[i, j] in TileSet();
        assert (i, j) in Cells(Rows(), Columns());
      }
    }

    /** The body of the constructor: drop the bombs, then count for every other tile. */
    method Populate(draws: seq<Pos>)
      requires forall i, j | 0 <= i < Rows() && 0 <= j < Columns() :: tiles[i, j] == null
      requires forall k | 0 <= k < |draws| :: InBounds(Rows(), Columns(), draws[k])
      modifies this`Position, this`Bombs, tiles
      ensures Valid() && Bombs == Elems(draws)
      ensures forall t | t in TileSet() :: fresh(t) && !t.isRevealed && !t.isFlagged
    {
      DropBombs(draws);
      FillCounts();
    }

    /** The second loop of the constructor: every null entry gets its count, row by row. */
    method FillCounts()
      requires FilledBefore(0, 0)
      modifies this`Position, tiles
      ensures Valid() && Bombs == old(Bombs)
      ensures forall t | t in Position :: t in old(Position) || (fresh(t) && !t.isRevealed && !t.isFlagged)
    {
      for row := 0 to Rows()
        invariant FilledBefore(row, 0) && Bombs == old(Bombs)
        invariant forall t | t in Position :: t in old(Position) || (fresh(t) && !t.isRevealed && !t.isFlagged)
      {
        FillRow(row);
      }
      FilledValid();
    }

    /** The state of the bomb loop: the tiles at the positions in Bombs are bomb tiles,
        all other entries are still null. */
    ghost predicate BombsOnly()
      reads this, tiles
    {
      && (forall p | p in Bombs :: InBounds(Rows(), Columns(), p))
      && (forall i, j | 0 <= i < Rows() && 0 <= j < Columns() ::
            if (i, j) in Bombs then tiles[i, j] != null && tiles[i, j].isBomb && tiles[i, j].adjacentBombs == 0
            else tiles[i, j] == null)
      && (forall i, j | 0 <= i < Rows() && 0 <= j < Columns() && tiles[i, j] != null ::
            tiles[i, j] in Position && Position[tiles[i, j]] == (i, j))
      && (forall t | t in Position :: InBounds(Rows(), Columns(), Position[t]) && tiles[Position[t].0, Position[t].1] == t)
    }

    /** The first loop of the constructor: a bomb tile at every drawn position. A
        repeated draw replaces the bomb tile already there. */
    method DropBombs(draws: seq<Pos>)
      requires forall i, j | 0 <= i < Rows() && 0 <= j < Columns() :: tiles[i, j] == null
      requires forall k | 0 <= k < |draws| :: InBounds(Rows(), Columns(), draws[k])
      modifies this`Position, this`Bombs, tiles
      ensures FilledBefore(0, 0) && Bombs == Elems(draws)
      ensures forall t | t in Position :: fresh(t) && !t.isRevealed && !t.isFlagged
    {
      Position := map[];
      Bombs := {};
      for k := 0 to |draws|
        invariant BombsOnly() && Bombs == Elems(draws[..k])
        invariant forall t | t in Position :: fresh(t) && !t.isRevealed && !t.isFlagged
      {
        var (row, col) := draws[k];
        PlaceBomb(row, col);
        ElemsSnoc(draws, k);
      }
      assert draws[..|draws|] == draws;
      forall i, j | 0 <= i < Rows() && 0 <= j < Columns() ensures FilledAt(tiles[i, j], (i, j), 0, 0) {
      }
    }

    /** One pass of the bomb loop: a new bomb tile at (row, col). */
    method PlaceBomb(row: int, col: int)
      requires InBounds(Rows(), Columns(), (row, col)) && BombsOnly()
      modifies this`Position, this`Bombs, tiles
      ensures BombsOnly() && Bombs == old(Bombs) + {(row, col)}
      ensures forall t | t in Position :: t in old(Position) || (fresh(t) && !t.isRevealed && !t.isFlagged)
    {
      var tile := new Tile(true);
      PutBomb(row, col, tile);
    }

    /** Puts a bomb tile at (row, col), replacing the tile already there. */
    method PutBomb(row: int, col: int, tile: Tile)
      requires InBounds(Rows(), Columns(), (row, col)) && BombsOnly()
      requires tile !in Position && tile.isBomb && tile.adjacentBombs == 0
      modifies this`Position, this`Bombs, tiles
      ensures BombsOnly() && Bombs == old(Bombs) + {(row, col)} && tiles[row, col] == tile
      ensures forall t | t in Position :: t in old(Position) || t == tile
    {
      var previous := tiles[row, col];
      SetEntry(row, col, tile);
      if previous != null {
        Position := Position - {previous};
      }
      Position := Position[tile := (row, col)];
      Bombs := Bombs + {(row, col)};
      forall i, j | 0 <= i < Rows() && 0 <= j < Columns()
        ensures if (i, j) in Bombs then tiles[i, j] != null && tiles[i, j].isBomb && tiles[i, j].adjacentBombs == 0
                else tiles[i, j] == null
        ensures tiles[i, j] != null ==> tiles[i, j] in Position && Position[tiles[i, j]] == (i, j)
      {
        if i != row || j != col {
          assert (i, j) != (row, col) && tiles[i, j] == old(tiles[i, j]);
          assert tiles[i, j] != null ==> tiles[i, j] != previous && tiles[i, j] != tile;
        }
      }
      forall t | t in Position ensures InBounds(Rows(), Columns(), Position[t]) && tiles[Position[t].0, Position[t].1] == t {
        if t != tile {
          assert t in old(Position) && t != previous && old(tiles[Position[t].0, Position[t].1]) == t;
        }
      }
    }

    /** One pass of the constructor's inner loop: counts for every non-bomb tile of the row. */
    method FillRow(row: nat)
      requires row < Rows() && FilledBefore(row, 0)
      modifies this`Position, tiles
      ensures FilledBefore(row + 1, 0) && Bombs == old(Bombs)
      ensures forall t | t in Position :: t in old(Position) || (fresh(t) && !t.isRevealed && !t.isFlagged)
    {
      for col := 0 to Columns()
        invariant FilledBefore(row, col) && Bombs == old(Bombs)
        invariant forall t | t in Position :: t in old(Position) || (fresh(t) && !t.isRevealed && !t.isFlagged)
      {
        FillTile(row, col);
      }
      NextRow(row);
    }

    /** The body of the inner loop: a null entry gets a non-bomb tile with its count. */
    method FillTile(row: int, col: int)
      requires InBounds(Rows(), Columns(), (row, col)) && FilledBefore(row, col)
      modifies this`Position, tiles
      ensures FilledBefore(row, col + 1) && Bombs == old(Bombs)
      ensures forall t | t in Position :: t in old(Position) || (fresh(t) && !t.isRevealed && !t.isFlagged)
    {
      if tiles[row, col] == null {
        CountTile(row, col);
      } else {
        ghost var next := col + 1;
        forall i, j | 0 <= i < Rows() && 0 <= j < Columns() ensures FilledAt(tiles[i, j], (i, j), row, next) {
          assert FilledAt(tiles[i, j], (i, j), row, col);
        }
      }
    }

    /** A null entry at (row, col) gets a new non-bomb tile with its bomb count. */
    method CountTile(row: int, col: int)
      requires InBounds(Rows(), Columns(), (row, col)) && FilledBefore(row, col) && tiles[row, col] == null
      modifies this`Position, tiles
      ensures FilledBefore(row, col + 1) && Bombs == old(Bombs)
      ensures forall t | t in Position :: t in old(Position) || (fresh(t) && !t.isRevealed && !t.isFlagged)
    {
      forall i, j | 0 <= i < Rows() && 0 <= j < Columns()
        ensures (tiles[i, j] != null && tiles[i, j].isBomb) <==> (i, j) in Bombs
      {
        assert FilledAt(tiles[i, j], (i, j), row, col);
      }
      var adjacentBombs := GetAdjacentBombs(row, col);
      var tile := new Tile(false, adjacentBombs);
      StoreTile(row, col, tile);
    }

    /** Stores a counted tile at the first unfilled position. */
    method StoreTile(row: int, col: int, tile: Tile)
      requires InBounds(Rows(), Columns(), (row, col)) && FilledBefore(row, col) && tiles[row, col] == null
      requires tile !in Position && !tile.isBomb && tile.adjacentBombs == BombsAround((row, col))
      modifies this`Position, tiles
      ensures FilledBefore(row, col + 1) && Bombs == old(Bombs)
      ensures Position == old(Position)[tile := (row, col)]
    {
      assert (row, col) !in Bombs by {
        assert FilledAt(tiles[row, col], (row, col), row, col);
      }
      SetEntry(row, col, tile);
      Position := Position[tile := (row, col)];
      ghost var next := col + 1;
      forall i, j | 0 <= i < Rows() && 0 <= j < Columns() ensures FilledAt(tiles[i, j], (i, j), row, next) {
        if (i != row || j != col) {
          assert old(FilledAt(tiles[i, j], (i, j), row, col));
          assert tiles[i, j] == old(tiles[i, j]);
        }
      }
      forall t | t in Position ensures InBounds(Rows(), Columns(), Position[t]) && tiles[Position[t].0, Position[t].1] == t {
        if t != tile {
          assert t in old(Position) && old(tiles[Position[t].0, Position[t].1]) == t;
        }
      }
      forall i, j | 0 <= i < Rows() && 0 <= j < Columns() && tiles[i, j] != null
        ensures tiles[i, j] in Position && Position[tiles[i, j]] == (i, j)
      {
        if (i != row || j != col) {
          assert tiles[i, j] == old(tiles[i, j]) && tiles[i, j] != tile;
        }
      }
    }

    /** Writes one entry of the array; the other entries keep their tiles. */
    method SetEntry(row: int, col: int, tile: Tile)
      requires InBounds(Rows(), Columns(), (row, col))
      modifies tiles
      ensures tiles[row, col] == tile
      ensures forall i, j | 0 <= i < Rows() && 0 <= j < Columns() && (i != row || j != col) :: tiles[i, j] == old(tiles[i, j])
    {
      tiles[row, col] := tile;
    }

    /** A finished row moves the filling state to the start of the next one. */
    lemma NextRow(row: int)
      requires FilledBefore(row, Columns())
      ensures FilledBefore(row + 1, 0)
    {
      ghost var next := row + 1;
      forall i, j | 0 <= i < Rows() && 0 <= j < Columns() ensures FilledAt(tiles[i, j], (i, j), next, 0) {
        assert FilledAt(tiles[i, j], (i, j), row, Columns());
      }
    }

    /** Once every row is filled, the board is valid. */
    lemma FilledValid()
      requires FilledBefore(Rows(), 0)
      ensures Valid()
    {
      forall i, j | 0 <= i < Rows() && 0 <= j < Columns()
        ensures tiles[i, j] != null && (tiles[i, j].isBomb <==> (i, j) in Bombs)
        ensures tiles[i, j].adjacentBombs == if (i, j) in Bombs then 0 else BombsAround((i, j))
      {
        assert FilledAt(tiles[i, j], (i, j), Rows(), 0);
      }
    }

    /** Counts the bomb tiles in the in-bounds 3x3 block around (row, col). The tile at
        (row, col) itself is still null when this runs, so it counts exactly the bombs
        among the 8 neighbours. */
    method GetAdjacentBombs(row: int, col: int) returns (adjacentBombs: int)
      requires InBounds(Rows(), Columns(), (row, col)) && tiles[row, col] == null
      requires forall i, j | 0 <= i < Rows() && 0 <= j < Columns() ::
        (tiles[i, j] != null && tiles[i, j].isBomb) <==> (i, j) in Bombs
      ensures adjacentBombs == BombsAround((row, col))
      ensures 0 <= adjacentBombs <= 8
    {
      adjacentBombs := 0;
      ghost var counted: set<Pos> := {};
      for i := row - 1 to row + 2
        invariant forall p :: p in counted <==>
          p in Bombs && InBounds(Rows(), Columns(), p) && Touches((row, col), p) && p.0 < i
        invariant adjacentBombs == |counted|
      {
        for j := col - 1 to col + 2
          invariant forall p :: p in counted <==>
            p in Bombs && InBounds(Rows(), Columns(), p) && Touches((row, col), p) && (p.0 < i || (p.0 == i && p.1 < j))
          invariant adjacentBombs == |counted|
        {
          if i >= 0 && i < tiles.Length0 && j >= 0 && j < tiles.Length1 && tiles[i, j] != null && tiles[i, j].isBomb {
            adjacentBombs := adjacentBombs + 1;
            counted := counted + {(i, j)};
          }
        }
      }
      forall p ensures p in counted <==> p in Neighbours(Rows(), Columns(), (row, col)) * Bombs {
        WindowMembership(Rows(), Columns(), (row, col), p);
      }
      assert counted == Neighbours(Rows(), Columns(), (row, col)) * Bombs;
      NeighboursBounds(Rows(), Columns(), (row, col));
      SubsetCardinality(counted, Neighbours(Rows(), Columns(), (row, col)));
    }

    /** Redraws the board in place: the same dimensions and bomb count, a new layout
        from the given draws, and every tile new. */
    method Reset(draws: seq<Pos>)
      requires |draws| == bombs
      requires forall k | 0 <= k < |draws| :: InBounds(Rows(), Columns(), draws[k])
      modifies this`Position, this`Bombs, this`Revealed, this`Flagged, this`Opens, tiles
      ensures Bombs == Elems(draws) && Marked() && Revealed == {} && Flagged == {}
      ensures forall t | t in TileSet() :: fresh(t)
    {
      forall i, j | 0 <= i < Rows() && 0 <= j < Columns() {
        tiles[i, j] := null;
      }
      Populate(draws);
      ClearMarks();
    }

    /** The tile at (row, col): the board's own tile for that position. */
    function GetTile(row: int, col: int): (tile: Tile)
      reads this`Position, this`Bombs, tiles
      requires Valid() && InBounds(Rows(), Columns(), (row, col))
      ensures tile in TileSet() && Position[tile] == (row, col)
    {
      tiles[row, col]
    }

    /** The in-bounds 8 neighbours of (row, col). */
    method GetAdjacentTiles(row: int, col: int) returns (adjacent: seq<Pos>)
      ensures Elems(adjacent) == Neighbours(Rows(), Columns(), (row, col))
    {
      adjacent := NeighbourList(Rows(), Columns(), (row, col));
    }

    /** The board is valid and Revealed and Flagged are exactly the positions whose
        tile is revealed, respectively flagged. */
    ghost predicate Marked()
      reads this, tiles, TileSet()
    {
      && Valid()
      && Revealed <= Cells(Rows(), Columns())
      && Flagged <= Cells(Rows(), Columns())
      && Opens <= Cells(Rows(), Columns())
      && (forall i, j | 0 <= i < Rows() && 0 <= j < Columns() ::
            && (tiles[i, j].isRevealed <==> (i, j) in Revealed)
            && (tiles[i, j].isFlagged <==> (i, j) in Flagged)
            && ((i, j) in Opens <==> !tiles[i, j].isBomb && tiles[i, j].adjacentBombs == 0))
    }

    /** A position that opens has no bomb among its neighbours, so a cascade never
        reaches a bomb. */
    lemma OpensAvoidBombs()
      requires Marked()
      ensures forall p | p in Opens :: Neighbours(Rows(), Columns(), p) !! Bombs && p !in Bombs
    {
      forall p | p in Opens ensures Neighbours(Rows(), Columns(), p) !! Bombs {
        assert tiles[p.0, p.1].adjacentBombs == BombsAround((p.0, p.1));
      }
    }

    /** Every tile that is not a bomb is revealed. */
    predicate AllNonBombTilesRevealed()
      reads this, tiles, TileSet()
      requires Valid()
    {
      forall i, j | 0 <= i < Rows() && 0 <= j < Columns() :: tiles[i, j].isBomb || tiles[i, j].isRevealed
    }

    /** The test above holds exactly when the revealed positions cover every position
        without a bomb. */
    lemma AllNonBombTilesRevealedMeans()
      requires Marked()
      ensures AllNonBombTilesRevealed() <==> Cells(Rows(), Columns()) - Bombs <= Revealed
    {
      if AllNonBombTilesRevealed() {
        forall p | p in Cells(Rows(), Columns()) - Bombs ensures p in Revealed {
          assert tiles[p.0, p.1].isBomb || tiles[p.0, p.1].isRevealed;
        }
      } else {
        var i, j :| 0 <= i < Rows() && 0 <= j < Columns() && !tiles[i, j].isBomb && !tiles[i, j].isRevealed;
        assert (i, j) in Cells(Rows(), Columns()) - Bombs && (i, j) !in Revealed;
      }
    }
  }
}
