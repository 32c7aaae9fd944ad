/** The Tile record of the Board draft. */
module Tiles {

  /** One square of the board. Whether it is a bomb and how many bombs touch it are
      fixed when the tile is built; revealed and flagged are plain settable fields
      that callers write directly, and the tile itself does not stop both from
      being true at once. */
  class Tile {
    const isBomb: bool
    const adjacentBombs: int
    var isRevealed: bool
    var isFlagged: bool

    /** A new tile is neither revealed nor flagged; the count defaults to 0. */
    constructor (isBomb: bool, adjacentBombs: int := 0)
      ensures this.isBomb == isBomb && this.adjacentBombs == adjacentBombs
      ensures !isRevealed && !isFlagged
    {
      this.isBomb := isBomb;
      this.adjacentBombs := adjacentBombs;
      isRevealed := false;
      isFlagged := false;
    }
  }
}
