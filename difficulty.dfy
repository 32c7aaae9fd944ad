/** The difficulty presets: board size and bomb count for each level. A level is
    an enum value, and like any enum value it may hold a number no member names,
    so each getter either gives its constant or fails. */
module Difficulties {
  import opened Wrappers

  /** The underlying value of a Difficulty; Easy, Medium and Hard are 0, 1 and 2. */
  type Difficulty = int

  const Easy: Difficulty := 0
  const Medium: Difficulty := 1
  const Hard: Difficulty := 2

  /** The error a getter raises for a value no level names. */
  datatype InvalidDifficulty = InvalidDifficulty(difficulty: Difficulty)

  predicate IsLevel(d: Difficulty) {
    d == Easy || d == Medium || d == Hard
  }

  function GetRows(difficulty: Difficulty): (r: Result<int, InvalidDifficulty>)
    ensures r.Success? <==> IsLevel(difficulty)
    ensures r.Failure? ==> r.error == InvalidDifficulty(difficulty)
  {
    if difficulty == Easy then Success(8)
    else if difficulty == Medium then Success(16)
    else if difficulty == Hard then Success(24)
    else Failure(InvalidDifficulty(difficulty))
  }

  function GetColumns(difficulty: Difficulty): (r: Result<int, InvalidDifficulty>)
    ensures r.Success? <==> IsLevel(difficulty)
    ensures r.Failure? ==> r.error == InvalidDifficulty(difficulty)
  {
    if difficulty == Easy then Success(8)
    else if difficulty == Medium then Success(16)
    else if difficulty == Hard then Success(24)
    else Failure(InvalidDifficulty(difficulty))
  }

  function GetBombs(difficulty: Difficulty): (r: Result<int, InvalidDifficulty>)
    ensures r.Success? <==> IsLevel(difficulty)
    ensures r.Failure? ==> r.error == InvalidDifficulty(difficulty)
  {
    if difficulty == Easy then Success(10)
    else if difficulty == Medium then Success(40)
    else if difficulty == Hard then Success(99)
    else Failure(InvalidDifficulty(difficulty))
  }

  /** The three presets: 8 x 8 with 10 bombs, 16 x 16 with 40, 24 x 24 with 99. */
  lemma Presets()
    ensures GetRows(Easy) == GetColumns(Easy) == Success(8) && GetBombs(Easy) == Success(10)
    ensures GetRows(Medium) == GetColumns(Medium) == Success(16) && GetBombs(Medium) == Success(40)
    ensures GetRows(Hard) == GetColumns(Hard) == Success(24) && GetBombs(Hard) == Success(99)
  {
  }

  /** Every board is square: rows and columns agree for every value, failing alike. */
  lemma Square(difficulty: Difficulty)
    ensures GetRows(difficulty) == GetColumns(difficulty)
  {
  }

  /** Every level leaves at least one cell free of bombs, so a placement loop that
      draws until it has that many distinct mines can finish. */
  lemma RoomForBombs(difficulty: Difficulty)
    requires IsLevel(difficulty)
    ensures 0 < GetBombs(difficulty).value < GetRows(difficulty).value * GetColumns(difficulty).value
  {
  }
}
