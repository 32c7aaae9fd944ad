/** The five display states of a cell and the three tests the controller draft
    applies to them. The tests go by declaration order, as comparisons on the
    enum's underlying values do. */
module CellStates {

  datatype CellState = Covered | Flagged | Revealed | QuestionMark | Mine

  /** The underlying value of each state: its position in the declaration. */
  function Ordinal(state: CellState): (n: nat)
    ensures n < 5
  {
    match state
    case Covered => 0
    case Flagged => 1
    case Revealed => 2
    case QuestionMark => 3
    case Mine => 4
  }

  /** A state at or after Revealed in declaration order. */
  predicate IsRevealed(state: CellState) {
    Ordinal(state) >= Ordinal(Revealed)
  }

  predicate IsMine(state: CellState) {
    state == Mine
  }

  predicate IsFlagged(state: CellState) {
    state == Flagged
  }

  /** Revealed, QuestionMark and Mine count as revealed, and nothing else does; a
      mine is revealed, and no state is both flagged and revealed. */
  lemma Classification(state: CellState)
    ensures IsRevealed(state) <==> state in {Revealed, QuestionMark, Mine}
    ensures IsMine(state) ==> IsRevealed(state)
    ensures !(IsFlagged(state) && IsRevealed(state))
  {
  }
}
