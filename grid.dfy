/** Grid geometry shared by every draft of the game engine: positions,
    bounds, the clipped 3x3 window around a cell and its 8 neighbours. */
module Grid {

  /** A (row, column) position; column-major drafts read it as (x, y). */
  type Pos = (int, int)

  predicate InBounds(rows: int, cols: int, p: Pos) {
    0 <= p.0 < rows && 0 <= p.1 < cols
  }

  /** p and q are at Chebyshev distance at most one. */
  predicate Touches(p: Pos, q: Pos) {
    -1 <= p.0 - q.0 <= 1 && -1 <= p.1 - q.1 <= 1
  }

  /** Every position of a rows x cols grid. */
  function Cells(rows: int, cols: int): (cells: set<Pos>) {
    set i, j | 0 <= i < rows && 0 <= j < cols :: (i, j)
  }

  /** The 3x3 block centred on p, clipped to the grid; p itself is in it when p is in bounds. */
  function Window(rows: int, cols: int, p: Pos): (window: set<Pos>) {
    set q | q in Cells(rows, cols) && Touches(p, q)
  }

  /** The in-bounds 8-neighbourhood of p: the window without p. */
  function Neighbours(rows: int, cols: int, p: Pos): (neighbours: set<Pos>) {
    Window(rows, cols, p) - {p}
  }

  /** The elements of a sequence, as a set. */
  function Elems<T>(s: seq<T>): (elems: set<T>) {
    set x | x in s
  }

  lemma WindowMembership(rows: int, cols: int, p: Pos, q: Pos)
    ensures q in Window(rows, cols, p) <==> InBounds(rows, cols, q) && Touches(p, q)
  {
    if InBounds(rows, cols, q) && Touches(p, q) {
      assert q == (q.0, q.1);
    }
  }

  /** The window never leaves the grid and holds at most nine cells. */
  lemma WindowBounds(rows: int, cols: int, p: Pos)
    ensures Window(rows, cols, p) <= Cells(rows, cols)
    ensures Window(rows, cols, p) <= Block(p) && |Block(p)| == 9 && p in Block(p)
    ensures |Window(rows, cols, p)| <= 9
  {
    assert Window(rows, cols, p) <= Block(p);
    SubsetCardinality(Window(rows, cols, p), Block(p));
  }

  /** The nine positions of the unclipped 3x3 block centred on p. */
  function Block(p: Pos): set<Pos> {
    var (r, c) := p;
    {(r - 1, c - 1), (r - 1, c), (r - 1, c + 1),
     (r, c - 1), (r, c), (r, c + 1),
     (r + 1, c - 1), (r + 1, c), (r + 1, c + 1)}
  }

  /** A cell has at most eight in-bounds neighbours, and is not one of them. */
  lemma NeighboursBounds(rows: int, cols: int, p: Pos)
    ensures p !in Neighbours(rows, cols, p)
    ensures Neighbours(rows, cols, p) <= Cells(rows, cols)
    ensures |Neighbours(rows, cols, p)| <= 8
  {
    WindowBounds(rows, cols, p);
    var block := Block(p);
    assert |block - {p}| == 8;
    assert Neighbours(rows, cols, p) <= block - {p};
    SubsetCardinality(Neighbours(rows, cols, p), block - {p});
  }

  lemma SubsetCardinality<T>(a: set<T>, b: set<T>)
    requires a <= b
    ensures |a| <= |b|
  {
    assert b == a + (b - a);
  }

  /** Row r of a grid with cols columns. */
  function Row(r: int, cols: int): set<Pos> {
    set j | 0 <= j < cols :: (r, j)
  }

  /** A rows x cols grid has rows * cols cells. */
  lemma {:induction false} CellsCardinality(rows: nat, cols: nat)
    ensures |Cells(rows, cols)| == rows * cols
  {
    if rows > 0 {
      CellsSplit(rows, cols);
      CellsCardinality(rows - 1, cols);
      RowCardinality(rows - 1, cols);
      OneMoreRow(rows - 1, cols);
    } else {
      assert Cells(rows, cols) == {};
    }
  }

  lemma OneMoreRow(rows: nat, cols: nat)
    ensures rows * cols + cols == (rows + 1) * cols
  {
  }

  /** The last row splits off a grid. */
  lemma CellsSplit(rows: nat, cols: nat)
    requires rows > 0
    ensures Cells(rows, cols) == Cells(rows - 1, cols) + Row(rows - 1, cols)
    ensures Cells(rows - 1, cols) !! Row(rows - 1, cols)
  {
    forall x | x in Cells(rows, cols) ensures x in Cells(rows - 1, cols) + Row(rows - 1, cols) {
      var (i, j) := x;
      if i < rows - 1 {
        assert (i, j) in Cells(rows - 1, cols);
      } else {
        assert (i, j) in Row(rows - 1, cols);
      }
    }
    forall x | x in Cells(rows - 1, cols) + Row(rows - 1, cols) ensures x in Cells(rows, cols) {
      var (i, j) := x;
      assert (i, j) in Cells(rows, cols);
    }
    forall x | x in Cells(rows - 1, cols) ensures x.0 < rows - 1 {
    }
  }

  lemma {:induction false} RowCardinality(r: int, cols: nat)
    ensures |Row(r, cols)| == cols
  {
    if cols > 0 {
      assert Row(r, cols) == Row(r, cols - 1) + {(r, cols - 1)};
      RowCardinality(r, cols - 1);
    } else {
      assert Row(r, cols) == {};
    }
  }

  /** Distinct draws: n draws hit at most n cells, and at least one when n > 0. */
  lemma {:induction false} DrawnCells(draws: seq<Pos>)
    ensures |Elems(draws)| <= |draws|
    ensures |draws| > 0 ==> |Elems(draws)| >= 1
  {
    if |draws| > 0 {
      var last := draws[|draws| - 1];
      var init := draws[..|draws| - 1];
      assert draws == init + [last];
      assert Elems(draws) == Elems(init) + {last};
      DrawnCells(init);
    } else {
      assert Elems(draws) == {};
    }
  }

  /** A growing prefix of draws adds at most the one new element. */
  lemma ElemsSnoc<T>(s: seq<T>, i: nat)
    requires i < |s|
    ensures Elems(s[..i + 1]) == Elems(s[..i]) + {s[i]}
  {
    assert s[..i + 1] == s[..i] + [s[i]];
  }

  /** The neighbour positions of p, as a list in row-major order. */
  function NeighbourList(rows: int, cols: int, p: Pos): (adjacent: seq<Pos>)
    ensures Elems(adjacent) == Neighbours(rows, cols, p)
  {
    var (r, c) := p;
    var ring := [(r - 1, c - 1), (r - 1, c), (r - 1, c + 1),
                 (r, c - 1), (r, c + 1),
                 (r + 1, c - 1), (r + 1, c), (r + 1, c + 1)];
    forall q ensures q in Neighbours(rows, cols, p) <==> q in ring && InBounds(rows, cols, q) {
      WindowMembership(rows, cols, p, q);
    }
    InBoundsOnly(rows, cols, ring)
  }

  function InBoundsOnly(rows: int, cols: int, s: seq<Pos>): (r: seq<Pos>)
    ensures forall q :: q in r <==> q in s && InBounds(rows, cols, q)
  {
    if s == [] then []
    else if InBounds(rows, cols, s[0]) then [s[0]] + InBoundsOnly(rows, cols, s[1..])
    else InBoundsOnly(rows, cols, s[1..])
  }

  /** The flag set after flipping the flag of p, which only an unrevealed cell allows. */
  function FlipFlag(flags: set<Pos>, revealed: set<Pos>, p: Pos): (flags': set<Pos>) {
    if p in revealed then flags
    else if p in flags then flags - {p}
    else flags + {p}
  }

  /** The flag set after setting the flag of p, which only an unrevealed, unflagged cell allows. */
  function SetFlag(flags: set<Pos>, revealed: set<Pos>, p: Pos): (flags': set<Pos>) {
    if p in revealed || p in flags then flags else flags + {p}
  }

  /** Flipping twice restores the flags; flipping never flags a revealed cell. */
  lemma FlipFlagInvolutive(flags: set<Pos>, revealed: set<Pos>, p: Pos)
    ensures FlipFlag(FlipFlag(flags, revealed, p), revealed, p) == flags
    ensures flags !! revealed ==> FlipFlag(flags, revealed, p) !! revealed
  {
  }

  /** Setting a flag is idempotent, never clears a flag and never flags a revealed cell. */
  lemma SetFlagIdempotent(flags: set<Pos>, revealed: set<Pos>, p: Pos)
    ensures SetFlag(SetFlag(flags, revealed, p), revealed, p) == SetFlag(flags, revealed, p)
    ensures flags <= SetFlag(flags, revealed, p)
    ensures flags !! revealed ==> SetFlag(flags, revealed, p) !! revealed
  {
  }
}
