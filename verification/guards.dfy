/** The input check of `result`. The engine raises only when BOTH coordinates
    are outside 0..2, lets Python's list indexing handle the rest, and never
    looks at whether the target cell is already marked. `ResultAsWritten` is
    that behaviour; `ResultChecked` is the evident intent, which rejects every
    action that is not a legal move. */
module Guards {
  import opened Wrappers
  import opened BoardState

  /** The two ways `result` can fail: its own "Not valid action." exception,
      and the IndexError Python raises for an index outside the list. */
  datatype Exception = InvalidAction | IndexError

  /** The outcome of a move: the new board, or the exception raised. */
  datatype Move = Placed(board: Board) | Raised(error: Exception)

  /** Python's `i in [0, 1, 2]`. */
  predicate InCoordinates(i: int) {
    i == 0 || i == 1 || i == 2
  }

  /** Python's indexing of a three-element list: indices -3..2 reach an
      element, the negative ones counting from the end; any other index fails. */
  function PyIndex(i: int): (k: Option<int>)
    ensures k.Some? <==> -3 <= i < 3
    ensures k.Some? ==> 0 <= k.value < 3 && (k.value - i) % 3 == 0
  {
    if 0 <= i < 3 then Some(i)
    else if -3 <= i < 0 then Some(i + 3)
    else None
  }

  /** `result` as written: the guard raises only when neither coordinate is in
      0..2; otherwise a coordinate outside -3..2 raises an IndexError, a
      negative coordinate wraps around to the end of the row or column, and an
      occupied cell is overwritten. */
  function ResultAsWritten(b: Board, a: Action): (m: Move)
    ensures m == Raised(InvalidAction) <==> !InCoordinates(a.row) && !InCoordinates(a.col)
    ensures m == Raised(IndexError)
        <==> (InCoordinates(a.row) || InCoordinates(a.col)) && !(-3 <= a.row < 3 && -3 <= a.col < 3)
    ensures m.Placed? ==> m.board == Result(b, Action(a.row % 3, a.col % 3))
    ensures InRange(a) ==> m == Placed(Result(b, a))
  {
    if !InCoordinates(a.row) && !InCoordinates(a.col) then Raised(InvalidAction)
    else
      var row := PyIndex(a.row);
      var col := PyIndex(a.col);
      if row.None? || col.None? then Raised(IndexError)
      else Placed(Result(b, Action(row.value, col.value)))
  }

  /** `result` as evidently intended: it succeeds exactly on the legal actions
      of the board, producing the successor board, and raises the
      "Not valid action." exception on every other action. */
  function ResultChecked(b: Board, a: Action): (m: Move)
    ensures m.Placed? <==> a in Actions(b)
    ensures m.Placed? ==> InRange(a) && m.board == Result(b, a)
    ensures m.Raised? ==> m.error == InvalidAction
  {
    if !InRange(a) || b[a.row][a.col] != Empty then Raised(InvalidAction)
    else Placed(Result(b, a))
  }

  /** On a legal action the two versions agree, so the search, which only
      passes actions it took from the board's own action list, sees no
      difference. */
  lemma CheckedAgreesOnLegalMoves(b: Board, a: Action)
    requires a in Actions(b)
    ensures ResultAsWritten(b, a) == ResultChecked(b, a)
  {
  }

  /** The guard lets a single bad coordinate through: row 3 with column 0 is
      not reported as an invalid action but fails with an IndexError. */
  lemma RowOutOfRangeSlipsPastGuard(b: Board)
    ensures ResultAsWritten(b, Action(3, 0)) == Raised(IndexError)
    ensures ResultChecked(b, Action(3, 0)) == Raised(InvalidAction)
  {
  }

  /** Row -1 passes the guard and Python's negative indexing writes into row 2. */
  lemma NegativeRowWrapsAround(b: Board)
    ensures ResultAsWritten(b, Action(-1, 0)) == Placed(Result(b, Action(2, 0)))
    ensures ResultChecked(b, Action(-1, 0)) == Raised(InvalidAction)
  {
  }

  /** An occupied cell is not rejected: the mover's mark replaces the one
      there and the number of empty cells does not shrink. */
  lemma OccupiedCellOverwritten(b: Board, a: Action)
    requires InRange(a) && b[a.row][a.col] != Empty
    ensures ResultAsWritten(b, a).Placed?
    ensures ResultAsWritten(b, a).board[a.row][a.col] == Player(b)
    ensures Marks(ResultAsWritten(b, a).board, Empty) == Marks(b, Empty)
    ensures ResultChecked(b, a) == Raised(InvalidAction)
  {
    MarksAfterResult(b, a, Empty);
  }
}
