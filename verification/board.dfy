/** The board state of the tic-tac-toe engine: cells, the 3x3 grid, whose turn
    it is, the legal actions on a board and the board a move produces. */
module BoardState {
  import opened Wrappers

  /** A cell holds X, O, or nothing; the engine spells the empty cell as `None`. */
  datatype Cell = X | O | Empty

  predicate IsGrid(b: seq<seq<Cell>>) {
    |b| == 3 && forall r | 0 <= r < 3 :: |b[r]| == 3
  }

  /** A board is three rows of three cells, indexed `b[row][column]`. Boards are
      values: a move builds a new board and never alters the one it started from. */
  type Board = b: seq<seq<Cell>> | IsGrid(b)
    witness [[Empty, Empty, Empty], [Empty, Empty, Empty], [Empty, Empty, Empty]]

  /** An action is a (row, column) pair; the engine accepts any integers here. */
  datatype Action = Action(row: int, col: int)

  predicate InRange(a: Action) {
    0 <= a.row < 3 && 0 <= a.col < 3
  }

  /** The cell `a` names exists on the board and holds no mark. */
  predicate Open(b: Board, a: Action) {
    InRange(a) && b[a.row][a.col] == Empty
  }

  predicate Distinct<T(==)>(s: seq<T>) {
    forall i, j | 0 <= i < j < |s| :: s[i] != s[j]
  }

  // ---------------------------------------------------------------- counting

  /** Occurrences of `c` in `s`, as Python's `list.count`. */
  function Count(s: seq<Cell>, c: Cell): (n: nat)
    ensures n <= |s|
  {
    if |s| == 0 then 0 else (if s[0] == c then 1 else 0) + Count(s[1..], c)
  }

  /** The cells of the board holding `c`, counted row by row. */
  function Marks(b: Board, c: Cell): nat {
    Count(b[0], c) + Count(b[1], c) + Count(b[2], c)
  }

  /** Every cell is X, O or empty, so the three counts of a row cover it. */
  lemma {:induction false} CountPartition(s: seq<Cell>)
    ensures Count(s, X) + Count(s, O) + Count(s, Empty) == |s|
  {
    if |s| > 0 {
      CountPartition(s[1..]);
    }
  }

  lemma MarksPartition(b: Board)
    ensures Marks(b, X) + Marks(b, O) + Marks(b, Empty) == 9
  {
    CountPartition(b[0]);
    CountPartition(b[1]);
    CountPartition(b[2]);
  }

  /** Overwriting one element changes a count by what left and what arrived. */
  lemma {:induction false} CountUpdate(s: seq<Cell>, i: nat, y: Cell, c: Cell)
    requires i < |s|
    ensures Count(s[i := y], c)
         == Count(s, c) - (if s[i] == c then 1 else 0) + (if y == c then 1 else 0)
  {
    if i > 0 {
      assert s[i := y][1..] == s[1..][i - 1 := y];
      CountUpdate(s[1..], i - 1, y, c);
    } else {
      assert s[i := y][1..] == s[1..];
    }
  }

  lemma {:induction false} CountAllEmpty(s: seq<Cell>)
    requires forall k | 0 <= k < |s| :: s[k] == Empty
    ensures Count(s, Empty) == |s|
  {
    if |s| > 0 {
      CountAllEmpty(s[1..]);
    }
  }

  // ---------------------------------------------------------------- state

  /** The starting board: nine empty cells. */
  function InitialState(): (b: Board)
    ensures forall r, c | 0 <= r < 3 && 0 <= c < 3 :: b[r][c] == Empty
  {
    [[Empty, Empty, Empty], [Empty, Empty, Empty], [Empty, Empty, Empty]]
  }

  /** The player to move: O once X has placed more marks than O, X otherwise. */
  function Player(b: Board): (p: Cell)
    ensures p != Empty
    ensures p == O <==> Marks(b, X) > Marks(b, O)
  {
    if Marks(b, X) > Marks(b, O) then O else X
  }

  /** The mark the player `p` does not use. */
  function Opponent(p: Cell): Cell {
    match p
    case X => O
    case O => X
    case Empty => Empty
  }

  /** A board reached by alternating play from the start: X has placed as many
      marks as O, or one more. */
  predicate WellFormed(b: Board) {
    Marks(b, X) == Marks(b, O) || Marks(b, X) == Marks(b, O) + 1
  }

  // ---------------------------------------------------------------- actions

  /** The empty cells of `row` (row number `r`) from column `c` on, left to right. */
  function RowActions(row: seq<Cell>, r: int, c: nat): (acts: seq<Action>)
    requires c <= |row|
    ensures |acts| == Count(row[c..], Empty)
    ensures forall a :: a in acts <==> a.row == r && c <= a.col < |row| && row[a.col] == Empty
    ensures Distinct(acts)
    decreases |row| - c
  {
    if c == |row| then []
    else
      assert row[c..][1..] == row[c + 1..];
      (if row[c] == Empty then [Action(r, c)] else []) + RowActions(row, r, c + 1)
  }

  /** The empty cells of the board in the order the engine's nested loops visit
      them: row 0 to 2, and within a row column 0 to 2. */
  function ActionList(b: Board): (acts: seq<Action>)
    ensures forall a :: a in acts <==> Open(b, a)
    ensures |acts| == Marks(b, Empty)
    ensures Distinct(acts)
  {
    assert b[0][0..] == b[0] && b[1][0..] == b[1] && b[2][0..] == b[2];
    RowActions(b[0], 0, 0) + RowActions(b[1], 1, 0) + RowActions(b[2], 2, 0)
  }

  /** A sequence without repetitions has as many distinct elements as entries. */
  lemma {:induction false} DistinctCard<T>(s: seq<T>)
    requires Distinct(s)
    ensures |set x | x in s| == |s|
  {
    if |s| > 0 {
      DistinctCard(s[1..]);
      assert (set x | x in s) == {s[0]} + (set x | x in s[1..]);
      assert s[0] !in (set x | x in s[1..]);
    }
  }

  /** The legal actions: exactly the in-range cells that are empty; together
      with the marked cells they account for all nine cells, so there are none
      exactly when the board is full. */
  function Actions(b: Board): (acts: set<Action>)
    ensures forall a :: a in acts <==> Open(b, a)
    ensures |acts| == Marks(b, Empty)
    ensures |acts| + Marks(b, X) + Marks(b, O) == 9
    ensures acts == {} <==> Marks(b, Empty) == 0
  {
    DistinctCard(ActionList(b));
    MarksPartition(b);
    set a | a in ActionList(b)
  }

  // ---------------------------------------------------------------- moves

  /** The board after the player to move marks the cell `a`: that cell holds
      the mover's mark and every other cell is as before. */
  function Result(b: Board, a: Action): (r: Board)
    requires InRange(a)
    ensures r[a.row][a.col] == Player(b)
    ensures forall i, j | 0 <= i < 3 && 0 <= j < 3 && (i != a.row || j != a.col) :: r[i][j] == b[i][j]
  {
    b[a.row := b[a.row][a.col := Player(b)]]
  }

  /** Marking one cell moves that cell's count from its old mark to the new one. */
  lemma MarksAfterResult(b: Board, a: Action, c: Cell)
    requires InRange(a)
    ensures Marks(Result(b, a), c)
         == Marks(b, c) - (if b[a.row][a.col] == c then 1 else 0) + (if Player(b) == c then 1 else 0)
  {
    var p := Player(b);
    var r := b[a.row := b[a.row][a.col := p]];
    CountUpdate(b[a.row], a.col, p, c);
    if a.row == 0 {
      assert r == [b[0][a.col := p], b[1], b[2]];
    } else if a.row == 1 {
      assert r == [b[0], b[1][a.col := p], b[2]];
    } else {
      assert r == [b[0], b[1], b[2][a.col := p]];
    }
  }

  /** Marking an empty cell leaves one empty cell fewer. */
  lemma ResultDecreasesEmpty(b: Board, a: Action)
    requires Open(b, a)
    ensures Marks(Result(b, a), Empty) == Marks(b, Empty) - 1
  {
    MarksAfterResult(b, a, Empty);
  }

  /** A legal move fills exactly one empty cell: one empty cell fewer, one more
      mark for the mover and the other player's marks untouched. This is the
      measure that makes the search terminate. */
  lemma ResultFillsOneCell(b: Board, a: Action)
    requires a in Actions(b)
    ensures Marks(Result(b, a), Empty) == Marks(b, Empty) - 1
    ensures Marks(Result(b, a), Player(b)) == Marks(b, Player(b)) + 1
    ensures Marks(Result(b, a), Opponent(Player(b))) == Marks(b, Opponent(Player(b)))
  {
    MarksAfterResult(b, a, Empty);
    MarksAfterResult(b, a, Player(b));
    MarksAfterResult(b, a, Opponent(Player(b)));
  }

  /** A legal move removes exactly that action from the legal actions. */
  lemma ActionsAfterResult(b: Board, a: Action)
    requires a in Actions(b)
    ensures Actions(Result(b, a)) == Actions(b) - {a}
  {
    var r := Result(b, a);
    forall a' | a' in Actions(r)
      ensures a' in Actions(b) - {a}
    {
      assert Open(r, a');
      assert a' != a;
    }
    forall a' | a' in Actions(b) - {a}
      ensures a' in Actions(r)
    {
      assert Open(b, a') && a' != a;
    }
  }

  /** On a board reached by alternating play, a legal move hands the turn to
      the other player and keeps the board reachable by alternating play. */
  lemma PlayerAlternates(b: Board, a: Action)
    requires WellFormed(b)
    requires a in Actions(b)
    ensures WellFormed(Result(b, a))
    ensures Player(Result(b, a)) == Opponent(Player(b))
  {
    ResultFillsOneCell(b, a);
  }

  /** The game starts with X to move on a board with nine legal actions. */
  lemma InitialStateFacts()
    ensures Player(InitialState()) == X
    ensures WellFormed(InitialState())
    ensures |Actions(InitialState())| == 9
  {
    var b := InitialState();
    CountAllEmpty(b[0]);
    CountAllEmpty(b[1]);
    CountAllEmpty(b[2]);
    MarksPartition(b);
  }
}
