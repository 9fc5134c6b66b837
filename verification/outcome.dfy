/** Detecting and scoring finished games: the winner of a board, whether the
    game is over, and its utility for X. */
module Outcome {
  import opened BoardState

  /** Three cells of a line, in the order the engine compares them; the line's
      mark is read from its first cell. */
  datatype Triple = Triple(first: Action, middle: Action, last: Action)

  type Line = t: Triple | InRange(t.first) && InRange(t.middle) && InRange(t.last)
    witness Triple(Action(0, 0), Action(0, 1), Action(0, 2))

  /** The eight lines in the order `winner` examines them: rows 0 to 2,
      columns 0 to 2, the main diagonal, then the anti-diagonal. */
  const Lines: seq<Line> := [
    Triple(Action(0, 0), Action(0, 1), Action(0, 2)),
    Triple(Action(1, 0), Action(1, 1), Action(1, 2)),
    Triple(Action(2, 0), Action(2, 1), Action(2, 2)),
    Triple(Action(0, 0), Action(1, 0), Action(2, 0)),
    Triple(Action(0, 1), Action(1, 1), Action(2, 1)),
    Triple(Action(0, 2), Action(1, 2), Action(2, 2)),
    Triple(Action(0, 0), Action(1, 1), Action(2, 2)),
    Triple(Action(0, 2), Action(1, 1), Action(2, 0))
  ]

  function At(b: Board, a: Action): Cell
    requires InRange(a)
  {
    b[a.row][a.col]
  }

  /** All three cells of the line hold the same value, which may be empty. */
  predicate Uniform(b: Board, l: Line) {
    At(b, l.first) == At(b, l.middle) && At(b, l.middle) == At(b, l.last)
  }

  /** A line held by one player: uniform and not empty. */
  predicate Completed(b: Board, l: Line) {
    Uniform(b, l) && At(b, l.first) != Empty
  }

  /** Line `i` is the first uniform line of the table. */
  predicate FirstUniform(b: Board, i: int) {
    0 <= i < |Lines| && Uniform(b, Lines[i]) && forall j | 0 <= j < i :: !Uniform(b, Lines[j])
  }

  /** The line table scanned from line `i` on: the value of the first uniform
      line, or nothing if no remaining line is uniform. */
  function ScanLines(b: Board, i: nat): (w: Cell)
    requires i <= |Lines|
    ensures (forall j | i <= j < |Lines| :: !Uniform(b, Lines[j])) ==> w == Empty
    ensures forall j | i <= j < |Lines| && Uniform(b, Lines[j]) && (forall k | i <= k < j :: !Uniform(b, Lines[k]))
              :: w == At(b, Lines[j].first)
    decreases |Lines| - i
  {
    if i == |Lines| then Empty
    else if Uniform(b, Lines[i]) then At(b, Lines[i].first)
    else ScanLines(b, i + 1)
  }

  /** The engine's `winner`, comparison for comparison. It does not check that
      a uniform line is marked, so a line of three empty cells ends the scan
      and reports no winner, hiding any later completed line. */
  function Winner(b: Board): (w: Cell)
    ensures w == ScanLines(b, 0)
  {
    ScanRows(b);
    ScanColumns(b);
    ScanDiagonals(b);
    // rows
    if b[0][0] == b[0][1] && b[0][1] == b[0][2] then b[0][0]
    else if b[1][0] == b[1][1] && b[1][1] == b[1][2] then b[1][0]
    else if b[2][0] == b[2][1] && b[2][1] == b[2][2] then b[2][0]
    // columns
    else if b[0][0] == b[1][0] && b[1][0] == b[2][0] then b[0][0]
    else if b[0][1] == b[1][1] && b[1][1] == b[2][1] then b[0][1]
    else if b[0][2] == b[1][2] && b[1][2] == b[2][2] then b[0][2]
    // diagonals
    else if b[0][0] == b[1][1] && b[1][1] == b[2][2] then b[0][0]
    else if b[0][2] == b[1][1] && b[1][1] == b[2][0] then b[0][2]
    else Empty
  }

  /** `winner` reports the value of the first uniform line in the fixed order
      rows, columns, diagonals, and nothing when no line is uniform. */
  lemma WinnerFirstUniform(b: Board)
    ensures (forall i | 0 <= i < |Lines| :: !Uniform(b, Lines[i])) ==> Winner(b) == Empty
    ensures forall i | FirstUniform(b, i) :: Winner(b) == At(b, Lines[i].first)
  {
  }

  /** The table scan unrolled: the three rows, then the three columns, then
      the two diagonals. */
  lemma ScanRows(b: Board)
    ensures ScanLines(b, 0)
         == if b[0][0] == b[0][1] && b[0][1] == b[0][2] then b[0][0]
            else if b[1][0] == b[1][1] && b[1][1] == b[1][2] then b[1][0]
            else if b[2][0] == b[2][1] && b[2][1] == b[2][2] then b[2][0]
            else ScanLines(b, 3)
  {
    assert ScanLines(b, 2) == if b[2][0] == b[2][1] && b[2][1] == b[2][2] then b[2][0] else ScanLines(b, 3);
    assert ScanLines(b, 1) == if b[1][0] == b[1][1] && b[1][1] == b[1][2] then b[1][0] else ScanLines(b, 2);
  }

  lemma ScanColumns(b: Board)
    ensures ScanLines(b, 3)
         == if b[0][0] == b[1][0] && b[1][0] == b[2][0] then b[0][0]
            else if b[0][1] == b[1][1] && b[1][1] == b[2][1] then b[0][1]
            else if b[0][2] == b[1][2] && b[1][2] == b[2][2] then b[0][2]
            else ScanLines(b, 6)
  {
    assert ScanLines(b, 5) == if b[0][2] == b[1][2] && b[1][2] == b[2][2] then b[0][2] else ScanLines(b, 6);
    assert ScanLines(b, 4) == if b[0][1] == b[1][1] && b[1][1] == b[2][1] then b[0][1] else ScanLines(b, 5);
  }

  lemma ScanDiagonals(b: Board)
    ensures ScanLines(b, 6)
         == if b[0][0] == b[1][1] && b[1][1] == b[2][2] then b[0][0]
            else if b[0][2] == b[1][1] && b[1][1] == b[2][0] then b[0][2]
            else Empty
  {
    assert ScanLines(b, 7) == if b[0][2] == b[1][1] && b[1][1] == b[2][0] then b[0][2] else ScanLines(b, 8);
  }

  /** The game is over once `winner` reports a mark or no legal action is left. */
  function Terminal(b: Board): (t: bool)
    ensures t <==> Winner(b) != Empty || Marks(b, Empty) == 0
  {
    Winner(b) != Empty || Actions(b) == {}
  }

  /** A game still in progress always has a legal move. */
  lemma NonTerminalHasAction(b: Board)
    requires !Terminal(b)
    ensures Actions(b) != {}
    ensures |ActionList(b)| > 0
  {
  }

  /** The score for X: 1 when `winner` reports X, -1 when it reports O, and 0
      otherwise, including for a game still in progress. */
  function Utility(b: Board): (u: int)
    ensures -1 <= u <= 1
    ensures u == 1 <==> Winner(b) == X
    ensures u == -1 <==> Winner(b) == O
    ensures u == 0 <==> Winner(b) == Empty
  {
    if Winner(b) == X then 1
    else if Winner(b) == O then -1
    else 0
  }

  // ------------------------------------------------ the intended winner

  /** The line table scanned from line `i` on, skipping lines of empty cells:
      the mark of the first completed line, or nothing. */
  function ScanCompleted(b: Board, i: nat): (w: Cell)
    requires i <= |Lines|
    ensures w != Empty <==> exists j | i <= j < |Lines| :: Completed(b, Lines[j])
    ensures w != Empty ==> exists j | i <= j < |Lines| :: Completed(b, Lines[j]) && At(b, Lines[j].first) == w
    decreases |Lines| - i
  {
    if i == |Lines| then Empty
    else if Completed(b, Lines[i]) then At(b, Lines[i].first)
    else ScanCompleted(b, i + 1)
  }

  /** The winner as evidently intended: the mark of the first line three of
      whose cells hold the same mark, and nothing exactly when no player holds
      a whole line. */
  function CorrectedWinner(b: Board): (w: Cell)
    ensures w != Empty <==> exists i | 0 <= i < |Lines| :: Completed(b, Lines[i])
    ensures w != Empty ==> exists i | 0 <= i < |Lines| :: Completed(b, Lines[i]) && At(b, Lines[i].first) == w
  {
    ScanCompleted(b, 0)
  }

  lemma {:induction false} ScanAgrees(b: Board, i: nat)
    requires i <= |Lines|
    requires ScanLines(b, i) != Empty
    ensures ScanCompleted(b, i) == ScanLines(b, i)
    decreases |Lines| - i
  {
    if i < |Lines| && !Uniform(b, Lines[i]) {
      ScanAgrees(b, i + 1);
    }
  }

  /** Whenever the engine's `winner` reports a mark, the intended winner reports
      the same mark: the two differ only where an empty line hides a win. */
  lemma WinnerAgreesWhenMarked(b: Board)
    requires Winner(b) != Empty
    ensures CorrectedWinner(b) == Winner(b)
  {
    ScanAgrees(b, 0);
  }
}
