# Minesweeper game engine in Dafny

This project models the game engine of a WinForms Minesweeper. The engine exists
in three overlapping drafts, and each is modelled as written, without reconciling
them:

- **Board / Tile / Game** (`board.dfy`, `tile.dfy`, `game.dfy`):
  - A rows x columns array of tiles. Bombs are dropped at drawn positions, with
    replacement, and every other tile counts the bombs among its in-bounds 8
    neighbours.
  - A game reveals a tile with a recursive cascade, flips flags and latches
    `IsOver`.
- **GameController** (`controller.dfy`, with the cell-state enum in
  `cell_state.dfy`):
  - A width x height grid of per-cell records. A rejection loop places exactly
    `numMines` distinct mines.
  - A recursive `RevealCell` scans the clipped 3x3 window. `FlagCell` only sets
    flags; `ToggleFlag` flips them.
  - `FlagsRemaining` is not clamped. `IsGameOver` counts a safe cell as done when
    it is revealed *or flagged*.
- **Cell / CellControl** (`cell_control.dfy`):
  - A cell that adds the mines of its clipped 3x3 window, itself included, onto
    its counter.
  - The decision rules of a cell control's left and right clicks.
- **Difficulty presets** (`difficulty.dfy`) and the **high-score table**
  (`highscore.dfy`):
  - A dictionary from name to time, saved as `name:time` lines and loaded back
    with `Split(':')` and `int.Parse`.
  - The file is a sequence of lines.

The two reveal procedures share one specification, `Flood.IsFlood` (`flood.dfy`).
It describes the sequence of cells a reveal uncovers:
- every cell is on the grid and was neither revealed nor flagged before;
- no cell is uncovered twice;
- every cell after the first borders an earlier cell that cascades;
- every cascading cell has each neighbour blocked or uncovered.

`Flood.FloodUnique` shows that this determines the set of uncovered cells. Both
`Game.RevealTile` and `GameController.RevealCell` are proved to uncover exactly
such a flood.

How the models stand in for things:
- **Randomness**: a sequence of drawn positions replaces `System.Random`.
- **Board state**: the ghost sets (`Bombs`, `Revealed`, `Flagged`, `Opens`, and
  the controller's `Mines`) are tied to the array entries by each class's
  validity predicate. Contracts are stated on those sets.
- **Shared pieces**: `grid.dfy` holds the grid geometry and the flag updates.
  `wrappers.dfy` holds the `Option`, `Result` and `Outcome` types.

## Model

| member | source | states |
|---|---|---|
| Tiles.Tile.constructor | Tile.cs:3-9 | A new tile keeps the given bomb flag and count (the count defaults to 0) and is neither revealed nor flagged. |
| Boards.Board.constructor | Board.cs:7-35 | The board has the given dimensions and a tile at every position. The bomb positions are exactly the drawn ones. Bomb tiles count 0, and every other tile counts the bombs among its in-bounds 8 neighbours. Nothing is revealed or flagged. |
| Boards.Board.DropBombs | Board.cs:14-21 | After the bomb loop the bomb positions are the set of drawn positions (a repeated draw collapses) and every other entry is still empty. |
| Grid.DrawnCells | Board.cs:14-21 | n draws with replacement hit at most n distinct positions, and at least one when n > 0. |
| Boards.Board.PlaceBomb | Board.cs:16-20 | One pass of the bomb loop puts a new bomb tile at the drawn position; the bomb set gains exactly that position. |
| Boards.Board.PutBomb | Board.cs:20 | Storing a bomb tile replaces whatever tile was at that position and adds the position to the bombs. |
| Boards.Board.FillCounts | Board.cs:24-34 | After the counting loop every position holds a tile; the bombs are unchanged and each non-bomb tile carries its neighbour bomb count. |
| Boards.Board.FillRow | Board.cs:26-33 | One pass of the outer counting loop fills every empty entry of the row and moves the filling state to the next row. |
| Boards.Board.FillTile | Board.cs:28-32 | An empty entry gets its counted tile; an entry that already holds a bomb is left as it is. |
| Boards.Board.CountTile | Board.cs:30-31 | An empty entry gets a new non-bomb tile whose count is the bombs among its in-bounds neighbours. |
| Boards.Board.StoreTile | Board.cs:31 | The counted tile is stored at the position and the filling state moves one entry on. |
| Boards.Board.GetAdjacentBombs | Board.cs:37-55 | The scan returns the number of bombs among the in-bounds 8 neighbours (the cell itself is still empty and not counted), a number between 0 and 8. |
| Grid.NeighboursBounds | Board.cs:41-48 | The in-bounds neighbours of a cell lie on the grid, exclude the cell itself and number at most 8. |
| Boards.Board.GetTile | Board.cs:61-64 | The tile returned is the board's own tile for that position. |
| Boards.Board.GetAdjacentTiles | Game.cs:30 | The positions listed are exactly the in-bounds 8 neighbours. |
| Boards.Board.AllNonBombTilesRevealedMeans | Game.cs:36 | The all-revealed test holds exactly when every position without a bomb is revealed. |
| Boards.Board.Reset | Game.cs:56 | The board is redrawn with new tiles: the bombs sit at the new draws and nothing is revealed or flagged. |
| Games.Game.constructor | Game.cs:5-8 | A new game is not over. Its board has the given dimensions, the given bomb count and the drawn bombs, with nothing revealed or flagged, so it can be reset at once. |
| Games.Game.RevealTile | Game.cs:12-41 | The revealed set only grows, by exactly a flood from the tile around the previously revealed or flagged tiles. So a revealed or flagged tile changes nothing and a flag is never uncovered. The game is over afterwards iff it was before, or the tile was uncovered and was a bomb or left every non-bomb tile revealed. |
| Games.Game.Cascade | Game.cs:28-34 | A tile with no adjacent bomb, once revealed, reveals each neighbour in turn; together they uncover a flood from the tile. |
| Games.Game.CascadeLoop | Game.cs:30-33 | The loop over the listed neighbours keeps a partial flood and ends with every neighbour handed to the recursion. |
| Games.Game.CascadeStep | Game.cs:32 | Revealing one neighbour extends the partial flood by what that reveal uncovers. |
| Games.Game.Uncover | Game.cs:21 | Revealing a tile adds exactly its position to the revealed set. |
| Games.Game.CheckAllRevealed | Game.cs:36-40 | The game ends exactly when it was over or every non-bomb tile is revealed. |
| Games.FloodAvoidsBombs | Game.cs:23-34 | A reveal that does not start on a bomb never uncovers a bomb. |
| Flood.FloodUnique | Game.cs:28-34 | Any two floods from the same start over the same board uncover the same set of cells. |
| Flood.FloodAvoidsBlocked | Game.cs:16-19 | A flood never uncovers a revealed or flagged cell, and uncovers its start exactly when the start is neither. |
| Games.Game.FlagTile | Game.cs:43-51 | The flag of the tile flips unless the tile is revealed; nothing is revealed. |
| Grid.FlipFlagInvolutive | Game.cs:43-51 | Flipping a flag twice restores the flags, and flipping never flags a revealed cell. |
| Games.Game.MarkFlag | Game.cs:49 | Writing a tile's flag adds or removes exactly its position in the flagged set. |
| Games.Game.Reset | Game.cs:53-57 | After a reset the game is not over, the bombs are the new draws and nothing is revealed or flagged. |
| CellStates.Classification | GameController.cs:8-21 | By declaration order, a state counts as revealed iff it is Revealed, QuestionMark or Mine. A mine counts as revealed, and no state is both flagged and revealed. |
| Controllers.NewBoard | GameController.cs:74-81 | The initialising loop yields a width x height board of blank records. |
| Controllers.GameController.constructor | GameController.cs:67-99 | The controller has the given dimensions and exactly numMines distinct mines. The mines are the draws up to the one that completed the count. Nothing is revealed or flagged and the game is not over. |
| Controllers.GameController.PlaceMines | GameController.cs:84-97 | The rejection loop stops with exactly numMines distinct mines, placed at the first draws that reach that many distinct cells. |
| Controllers.GameController.PlaceDraw | GameController.cs:89-96 | A draw on a cell without a mine adds that mine and counts one more; a draw on a mine changes nothing. |
| Controllers.GameController.PlaceMine | GameController.cs:92-96 | The drawn cell becomes a mine: the mine set gains exactly that cell, and it no longer cascades. |
| Controllers.GameController.CountFlags | GameController.cs:43-57 | The count is the number of flagged cells. |
| Controllers.GameController.CountColumn | GameController.cs:48-54 | The inner loop counts the flagged cells with the current first index. |
| Controllers.GameController.FlagsRemaining | GameController.cs:63 | The result is numMines minus the number of flagged cells, unclamped: it lies between numMines - width*height and numMines. |
| Controllers.GameController.GetCellState | GameController.cs:101-104 | The record returned holds a mine, is revealed or is flagged exactly when its cell is. |
| Controllers.GameController.RevealCell | GameController.cs:106-142 | The revealed set grows by exactly a flood from (x, y) around the cells revealed or flagged before, so a flagged or revealed cell changes nothing. The game becomes over iff it was, or the flood uncovered a mine. A click on a cell without a mine uncovers no mine and never ends the game. |
| Controllers.GameController.AdjacentMines | GameController.cs:126 | The count read off the board is 0 exactly when no in-bounds neighbour holds a mine, which decides whether the reveal cascades. |
| Controllers.GameController.AdjacentMinesCount | GameController.cs:126 | The count is the number of mines among the in-bounds 8 neighbours, at most 8. |
| Controllers.FloodAvoidsMines | GameController.cs:116-139 | A reveal that does not start on a mine uncovers no mine: the cascade only spreads from cells with no adjacent mine. |
| Controllers.GameController.RevealWindow | GameController.cs:126-141 | The nested scan of the clipped window, recursing into each on-grid cell, completes a flood from the already revealed cell. |
| Controllers.GameController.RevealRow | GameController.cs:131-139 | The inner loop for one offset dx reveals the on-grid cells of that column of the window. The partial flood then covers the window up to dx, and the game is over iff it was or that flood holds a mine. |
| Controllers.GameController.RevealStep | GameController.cs:133-138 | An on-grid neighbour is revealed and what it uncovers extends the partial flood. An off-grid offset changes nothing. The game is over iff it was or the partial flood holds a mine. |
| Controllers.GameController.Uncover | GameController.cs:116 | Revealing a cell adds exactly that cell to the revealed set. |
| Controllers.GameController.MarkFlag | GameController.cs:156 | Writing a cell's flag adds or removes exactly that cell in the flagged set. |
| Controllers.HitMineAsWrittenNeverFires | GameController.cs:108-124 | Read on the enum, a click never ends the game. A Mine entry counts as revealed and returns at the guard. Every entry that passes the guard is overwritten with Revealed before the mine test reads it. |
| Controllers.GameController.FlagCell | GameController.cs:145-157 | A cell that is neither flagged nor revealed becomes flagged; otherwise nothing changes. |
| Grid.SetFlagIdempotent | GameController.cs:145-157 | Setting a flag twice is setting it once. It never clears a flag and never flags a revealed cell. |
| Controllers.GameController.ToggleFlag | GameController.cs:184-202 | The flag of an unrevealed cell flips; a revealed cell is left unchanged. |
| Controllers.GameController.IsGameOver | GameController.cs:159-183 | Once over, the game stays over. Otherwise the result is true, and is latched, iff every cell without a mine is revealed or flagged. |
| Controllers.GameController.AllSafeCellsDone | GameController.cs:167-177 | The scan finds no cell that is neither a mine, revealed nor flagged exactly when every cell without a mine is revealed or flagged. |
| CellControls.Cell.constructor | CellControl.cs:26-30 | A new cell records its row and column; it is covered, unflagged, without a mine, with count 0. |
| CellControls.Cell.AdjacentMines | CellControl.cs:32-47 | The counter grows by the number of mines in the grid's clipped 3x3 window around (rows, cols), the cell itself included. It is not reset first. |
| CellControls.Cell.AdjacentRow | CellControl.cs:37-43 | The inner loop adds the mines of one row of the clipped window. |
| CellControls.MinesAroundBounds | CellControl.cs:35-44 | The counted positions lie in the clipped window, so one call adds between 0 and 9. |
| CellControls.SelfCounted | CellControl.cs:35-41 | A cell on the grid is among its own counted mines exactly when it holds a mine. |
| CellControls.CellControl.constructor | CellControl.cs:116-123 | A control records its row and column and owns a new covered, unflagged cell at that position. |
| CellControls.CellControl.OnLeftMouseClick | CellControl.cs:201-211 | A left click announces a reveal iff the cell is neither flagged nor revealed, and a flag otherwise. |
| CellControls.CellControl.OnRightMouseClick | CellControl.cs:213-222 | A right click flips the flag and announces it iff the cell is not revealed; on a revealed cell nothing changes and nothing is announced. |
| Difficulties.GetRows | Difficulty.cs:12-25 | The rows are defined exactly for the three levels; any other value fails with that value. |
| Difficulties.GetColumns | Difficulty.cs:27-40 | The columns are defined exactly for the three levels; any other value fails with that value. |
| Difficulties.GetBombs | Difficulty.cs:42-55 | The bomb count is defined exactly for the three levels; any other value fails with that value. |
| Difficulties.Presets | Difficulty.cs:14-21 | Easy is 8 x 8 with 10 bombs, Medium 16 x 16 with 40, Hard 24 x 24 with 99. |
| Difficulties.Square | Difficulty.cs:12-40 | Rows and columns agree for every value, failing alike. |
| Difficulties.RoomForBombs | Difficulty.cs:42-55 | Every level has at least one bomb and fewer bombs than cells, so a mine loop drawing distinct cells can finish. |
| HighScores.ParseInt | Highscore.cs:33 | Parsing fails only as a malformed number or as a value outside 32 bits, naming the text. |
| HighScores.FormatParseRoundTrip | Highscore.cs:33-45 | Every 32-bit score written in decimal parses back to itself. |
| HighScores.Split | Highscore.cs:32 | A line without ':' is one part; a line with one has at least two, and the first is the text before the first ':'. |
| HighScores.SplitJoin | Highscore.cs:32 | Splitting at ':' loses nothing: joining the parts with ':' gives the line back. |
| HighScores.SplitTwo | Highscore.cs:32 | Two ':'-free texts joined by ':' split into exactly those two. |
| HighScores.FormatLineShape | Highscore.cs:45 | A saved line starts with its name. For a name without ':', the first ':' of the line is the one right after the name. |
| HighScores.ParseLine | Highscore.cs:32-33 | A line fails with a missing score exactly when it has no ':'. A parsed entry's name is the text before the first ':'. |
| HighScores.LineRoundTrip | Highscore.cs:32-45 | The line written for a name without ':' is read back as the same name and score. |
| HighScores.Put | Highscore.cs:19 | After `Scores[name] = score` the names are the old ones plus name, name has that score, and the old names keep their enumeration order as a prefix. |
| HighScores.PutEntry | Highscore.cs:19 | Setting a score keeps the table well formed and sets that entry, even over a better score. Every other entry stays as it was. |
| HighScores.LinesEntries | Highscore.cs:43-46 | Saving gives one line per entry: line k is `name:score` for the k-th name. |
| HighScores.Load | Highscore.cs:30-34 | Loading lines never drops a name already in the table, and the names already there keep their enumeration order as a prefix. |
| HighScores.LaterLineWins | Highscore.cs:30-34 | Of two loaded lines for the same name, the later score is kept. |
| HighScores.SaveLoadRoundTrip | Highscore.cs:23-48 | When no name holds ':' or a line break, loading the saved lines into an empty table rebuilds the table, entries and order alike. |
| HighScores.HighScore.Empty | Highscore.cs:13 | The table starts empty. |
| HighScores.HighScore.Open | Highscore.cs:11-15 | Without a file the table is empty. With one, it holds what loading the file's lines gives, or construction fails with the first line's error. |
| HighScores.HighScore.AddScore | Highscore.cs:17-21 | The score of the name is set, whatever it was, and the saved lines are the new table's lines. |
| HighScores.HighScore.Store | Highscore.cs:19 | The table becomes the old one with that one entry set, still well formed. |
| HighScores.HighScore.LoadScores | Highscore.cs:23-37 | Without a file nothing changes. With one, the lines are put in turn, later ones winning, and loading stops with an error at the first line that does not parse. |
| HighScores.HighScore.SaveScores | Highscore.cs:39-48 | The lines written are one `name:score` line per entry, in enumeration order. |
| HighScores.WriteLines | Highscore.cs:43-46 | The writing loop produces exactly the table's lines. |

Members without a row are helpers of the rows above:
- Specification functions whose properties the rows state:
  - `Boards.Board.Rows` and `Columns` (Board.cs:57-59) are covered by the constructor row.
  - `AllNonBombTilesRevealed` (Game.cs:36) is covered by `AllNonBombTilesRevealedMeans`.
  - `CellStates.IsRevealed`, `IsMine` and `IsFlagged` (GameController.cs:8-21) are covered by `Classification`.
  - `Controllers.HitMineAsWritten` (GameController.cs:108-118) is covered by `HitMineAsWrittenNeverFires`.
  - `HighScores.FormatLine` (Highscore.cs:45) is covered by `FormatLineShape`, `LineRoundTrip` and `LinesEntries`.
- Parts of a constructor's body:
  - `Boards.Board.Populate` runs the two loops of Board.cs:14-34, for the constructor and for `Reset`.
  - `Boards.Board.ClearMarks` then starts the ghost sets of the new layout: nothing revealed or flagged.
- Setters of one array entry: `Boards.Board.SetEntry` and `Controllers.GameController.SetCell`.
- Lemmas that are steps of the proofs above:
  - for the boards: `Boards.Board.ClearMarked`, `NextRow`, `FilledValid` and `OpensAvoidBombs`, plus `Games.Game.SingleFlood` and `Controllers.GameController.SingleFlood`;
  - for the controller: `Controllers.ScannedStart`, `ScannedNextRow`, `ScannedStep`, `ScannedAll`, `DrawsLeft`, `CountSplit` and `OpenCellsAt`, plus `Controllers.GameController.OpenAt` and `NeighbourMines`;
  - for the flood: `Flood.FloodStart`, `FloodExtend`, `ExtendBounds`, `ExtendDistinct`, `ExtendReached`, `ExtendClosed`, `FloodFinish` and `FloodIncluded`;
  - for the grid: `Grid.WindowMembership`, `WindowBounds`, `SubsetCardinality`, `CellsCardinality`, `RowCardinality`, `OneMoreRow`, `CellsSplit` and `ElemsSnoc`;
  - for the high scores: `HighScores.DigitsRoundTrip`, `JoinCons`, `LineAt`, `LinesNext`, `LoadNext`, `LoadRest`, `RestrictNext`, `FreshName` and `RestrictSnoc`.

## Left out

- Random placement: `System.Random` becomes a sequence of drawn positions. The distribution is not modelled. The controller's constructor requires the draws to hold at least `numMines` distinct cells; with fewer, the source's loop never ends.
- Events, sound and display: `GameOver`, `CellRevealed` and `CellFlagged` are not modelled as notifications. The click rules return the event they would raise instead. `GameWon`, images, painting, `Invalidate` and mouse tracking are display only. `BoardControl` and the designer file are not part of this model.
- Boards.Board.constructor: rows, columns and the bomb count are natural numbers. Negative dimensions make the source throw when it allocates the array. A negative bomb count runs the loop zero times. A zero-size board with bombs makes `Random.Next(0)` give 0 and the store at that index throw. None of these is modelled; the difficulty presets are all positive.
- Games.Game.constructor: the same natural-number dimensions and bomb count as the board it builds.
- Controllers.GameController.constructor: the dimensions and `numMines` are natural numbers. A negative `numMines` would skip the mine loop and make `FlagsRemaining` negative from the start; that is not modelled.
- Out-of-range coordinates: the source throws on them. Every model operation requires its position on the grid.
- Compile errors in the drafts are modelled by their evident meaning, as follows.
- Controllers.GameController.constructor: the mine loop is written against `board` and sets `IsMine` on an enum (GameController.cs:92-94). It is modelled on the per-cell record as "mark the drawn cell as a mine unless it is one".
- Controllers.GameController.RevealCell: `AdjacentMines` does not exist on `CellState` (GameController.cs:126), and the controller never stores a count. It is read by its evident meaning: the number of mines among the cell's in-bounds 8 neighbours, counted off the board when the test runs (`Controllers.GameController.AdjacentMines`). So a cell cascades exactly when neither it nor a neighbour holds a mine.
- Controllers.GameController.FlagCell: the record-style `IsFlagged` reads and write are taken as reads and writes of the record's flag (GameController.cs:149 and 156). `ToggleFlag`'s `_board(row, col)` and `Isrevealed()` are taken the same way (GameController.cs:186-187).
- Boards.Board.GetAdjacentTiles: `GetAdjacentTiles`, `AllNonBombTilesRevealed` and `Reset` do not exist on `Board` (Game.cs:30, 36, 56). They are written as the in-bounds 8 neighbours, "every non-bomb tile revealed", and a fresh layout of the same size. The board keeps its bomb count so that `Reset` can redraw.
- Games.Game.Reset: takes the new layout's draws as a parameter, because the redraw is random.
- CellControls.Cell.AdjacentMines: the property that two calls add twice the window's count follows from this one-call contract. There is no separate lemma for it.
- CellControls.Cell.AdjacentMines: the grid's elements are non-null cells. An empty entry of the source's `Cell[,]` makes the mine test throw a `NullReferenceException` (CellControl.cs:39); that is not modelled.
- Controllers.GameController.RevealCell: on the enum, a `Mine` entry counts as revealed, so a click on it returns at the guard (GameController.cs:110). Every other entry is overwritten with `Revealed` before the mine test (GameController.cs:116-118). The record model keeps the mine flag apart from the revealed flag, so the corrected test reads whether the cell holds a mine (see Findings).
- HighScores.ParseInt: `int.Parse` is modelled with its default style (white space, one sign, decimal digits, 32-bit range). Culture-specific signs, trailing NUL characters and non-ASCII digits are not modelled.
- HighScores.SaveLoadRoundTrip: requires that no name holds ':' or a line break. `AddScore` accepts any name. `WriteLine` writes a name holding a line break as two physical lines, and `ReadLine` then returns a line without ':', on which `scoreParts[1]` throws. So after such a name is added, the saved file no longer loads. `Lines` keeps each entry as one line and does not model that splitting into physical lines.
- HighScores.Table: the dictionary's enumeration order is modelled as insertion order. That is what `Dictionary` gives when entries are only added, but the .NET documentation does not promise it.
- HighScores.HighScore.Open: file access (`File.Exists`, `StreamReader`, `StreamWriter`) becomes an optional sequence of lines passed in, and the saved lines are returned. An exception while loading becomes a failed `Open` that carries the error.

## Findings

| source | as written | input that shows it | evidently intended | confidence | as-written member | corrected member |
|---|---|---|---|---|---|---|
| GameController.cs:110-118 | Read on the enum, a `Mine` entry counts as revealed and returns at the guard (line 110). Any entry that passes the guard is overwritten with `Revealed` before the mine test reads it (lines 116-118). So the test never fires, and clicking a mine never ends the game | a cell that holds a mine, whether its state is `Mine` or a covered cell with the mine recorded apart | test whether the revealed cell holds a mine, and if so end the game; a click on a cell without a mine never ends it | high (not executed) | Controllers.HitMineAsWrittenNeverFires | Controllers.GameController.RevealCell |
