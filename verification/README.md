# Tic-tac-toe engine in Dafny

This project models the tic-tac-toe player engine `tictactoe.py`. The engine
is a set of pure functions over a 3x3 board whose cells hold `X`, `O` or `None`
(`EMPTY`). The model covers all of it:

- `initial_state` builds the empty board.
- `player` says whose turn it is by counting marks.
- `actions` lists the empty cells.
- `result` builds the successor board.
- `winner`, `terminal` and `utility` recognise and score finished games.
- `minimax`, `max_value` and `min_value` do the exhaustive game-tree search,
  which stops early once a forced win (value 1 for X, -1 for O) is found.

Modules, leaves first:

- `Wrappers` (`wrappers.dfy`): the `Option` type. `None` plays Python's `None`.
- `BoardState` (`board.dfy`): cells, the board, mark counting, `player`,
  `actions` and `result`.
- `Outcome` (`outcome.dfy`): the table of the eight lines, `winner`,
  `terminal`, `utility`, and the corrected winner described under Findings.
- `Search` (`search.dfy`): `max_value`, `min_value` and `minimax`, plus the
  optimality lemmas.
- `Guards` (`guards.dfy`): the input check of `result` as written, and as
  evidently intended.
- `Scenarios` (`scenarios.dfy`): concrete positions.

Modelling choices:

- A board is an immutable `seq<seq<Cell>>` of three rows of three cells, so
  `result` returning a deep copy is structural. The input board can never change.
- `EMPTY` is `None` in the engine, so `winner` returning `None` is modelled as
  `winner` returning the `Empty` cell.
- `actions` returns a set, as in the engine. The search iterates the actions in
  row-major order (`ActionList`: row 0 to 2, column 0 to 2). That order is a
  modelling choice standing in for Python's set iteration order, which the
  engine does not fix. No property depends on it: the search lemmas speak of
  values and of membership in `actions`, never of which of several equally good
  moves is chosen.
- The `-math.inf` and `math.inf` seeds of the search loops become the integers
  -2 and 2, which lie below and above every utility.
- The loops of `max_value` and `min_value` are the recursive functions
  `MaxLoop` and `MinLoop`. They carry the best value and move so far, and return
  as soon as the best value reaches 1 (respectively -1).
- The search uses `winner` exactly as written, including its quirk, so the
  search lemmas describe the engine as it is.
- Where the engine's evident intent and its code differ (see Findings), the
  model follows the code. The intended behaviour appears only as separate
  members: `CorrectedWinner` and `ResultChecked`.
- `result` is modelled with an in-range precondition (`Result`). It never checks
  the target cell, as in the engine. The engine's own check is modelled
  separately by `ResultAsWritten`, and the intended check by `ResultChecked`.

## Model

| member | source | states |
|---|---|---|
| BoardState.InitialState | tictactoe.py:15-19 | Every cell of the starting board is empty |
| BoardState.InitialStateFacts | tictactoe.py:15-40 | On the starting board X is to move, the mark counts are balanced, and all nine cells are legal actions |
| BoardState.Player | tictactoe.py:22-40 | The player to move is never empty; it is O exactly when X has more marks than O, and X otherwise |
| BoardState.PlayerAlternates | tictactoe.py:22-40 | On a board reached by alternating play, a legal move passes the turn to the other player, and the result is again reachable by alternating play |
| BoardState.RowActions | tictactoe.py:50-52 | The inner loop over one row yields exactly the empty columns of that row, each once, as many as the row's empty cells |
| BoardState.ActionList | tictactoe.py:43-54 | The row-major enumeration holds exactly the in-range empty cells, without repetition; its length is the number of empty cells |
| BoardState.Actions | tictactoe.py:43-54 | An action is legal iff it is in range and its cell is empty; the number of legal actions plus the marked cells is 9; there are none iff the board is full |
| BoardState.Result | tictactoe.py:57-72 | For an in-range action, the new board holds the mover's mark at the action and agrees with the old board on every other cell |
| BoardState.MarksAfterResult | tictactoe.py:68-70 | Placing a mark shifts one cell from its old value's count to the mover's count; every other count is unchanged |
| BoardState.ResultDecreasesEmpty | tictactoe.py:68-70 | Marking an empty cell leaves exactly one empty cell fewer |
| BoardState.ResultFillsOneCell | tictactoe.py:68-70 | A legal move has exactly one empty cell fewer, one more mark for the mover, and the same number of marks for the opponent |
| BoardState.ActionsAfterResult | tictactoe.py:57-72 | After a legal move the legal actions are the old ones minus the action just played |
| Outcome.ScanLines | tictactoe.py:75-103 | Scanning the line table returns the value of the first uniform line, or nothing when no remaining line is uniform |
| Outcome.Winner | tictactoe.py:75-103 | The hand-written chain of eight comparisons equals the scan of the line table in the order rows, columns, diagonals |
| Outcome.WinnerFirstUniform | tictactoe.py:75-103 | The winner is the shared value of the first uniform line, which may be empty, and nothing when no line is uniform |
| Outcome.Terminal | tictactoe.py:106-113 | The game is over iff the winner is a mark or no cell is empty |
| Outcome.NonTerminalHasAction | tictactoe.py:106-113 | A game in progress has at least one legal action |
| Outcome.Utility | tictactoe.py:116-125 | The utility lies in -1..1; it is 1 iff the winner is X, -1 iff it is O, and 0 iff there is none |
| Outcome.ScanCompleted | tictactoe.py:80-103 | Scanning the line table while skipping empty lines finds a mark iff some line is held by one player, and the mark it finds holds a whole line |
| Outcome.CorrectedWinner | tictactoe.py:80-103 | The intended winner is a mark iff some line is held by one player, and that mark holds a whole line |
| Outcome.WinnerAgreesWhenMarked | tictactoe.py:80-103 | Whenever the engine's winner reports a mark, the intended winner reports the same mark |
| Search.MaxValue | tictactoe.py:144-159 | The value is always between -1 and 1, and any returned move is an empty in-range cell |
| Search.MaxLoop | tictactoe.py:148-159 | The loop never lowers the best value and stays at most 1; it reaches at least -1 once an action is tried; the move changes only when the value strictly improves, and then it is one of the tried actions |
| Search.MinValue | tictactoe.py:162-177 | The value is always between -1 and 1, and any returned move is an empty in-range cell |
| Search.MinLoop | tictactoe.py:166-177 | The loop never raises the best value and stays at least -1; it reaches at most 1 once an action is tried; the move changes only when the value strictly improves, and then it is one of the tried actions |
| Search.SearchOnTerminal | tictactoe.py:144-146 | On a finished game both searches return the utility and no move |
| Search.MaxLoopBounds | tictactoe.py:148-159 | The value the max loop returns is at least the value of every action it was given, including the ones the early exit skipped |
| Search.MaxLoopAchieves | tictactoe.py:148-159 | Unless it is still the seed, the max loop's value is the value of the move it returns, which is one of its actions |
| Search.MinLoopBounds | tictactoe.py:166-177 | The value the min loop returns is at most the value of every action it was given, including the ones the early exit skipped |
| Search.MinLoopAchieves | tictactoe.py:166-177 | Unless it is still the seed, the min loop's value is the value of the move it returns, which is one of its actions |
| Search.MaxValueIsMaximum | tictactoe.py:144-159 | On a game in progress, max_value returns a legal move together with the maximum over all legal moves of min_value of the successor, and that move reaches it |
| Search.MinValueIsMinimum | tictactoe.py:162-177 | On a game in progress, min_value returns a legal move together with the minimum over all legal moves of max_value of the successor, and that move reaches it |
| Search.Minimax | tictactoe.py:129-141 | minimax returns no move iff the game is over, and otherwise a legal action |
| Search.MinimaxOptimal | tictactoe.py:129-141 | The move minimax returns is optimal for the player to move: no legal move scores better for X when X moves, or for O when O moves, and it achieves the search's value |
| Guards.PyIndex | tictactoe.py:70 | Indexing a three-element list succeeds iff the index is in -3..2, and reaches the element congruent to it modulo 3 |
| Guards.ResultAsWritten | tictactoe.py:57-72 | The engine raises its own exception iff neither coordinate is in 0..2; otherwise a coordinate outside -3..2 raises an IndexError, a negative one wraps around, and in-range actions give the modelled successor |
| Guards.ResultChecked | tictactoe.py:64-65 | The intended check succeeds iff the action is legal, then gives the successor, and otherwise raises the engine's exception |
| Guards.CheckedAgreesOnLegalMoves | tictactoe.py:64-70 | On legal actions the engine's check and the intended check give the same board |
| Guards.RowOutOfRangeSlipsPastGuard | tictactoe.py:64 | Row 3 with column 0 passes the engine's check and fails with an IndexError, while the intended check rejects it |
| Guards.NegativeRowWrapsAround | tictactoe.py:64-70 | Row -1 with column 0 passes the engine's check and writes into row 2, while the intended check rejects it |
| Guards.OccupiedCellOverwritten | tictactoe.py:64-70 | An occupied in-range cell is overwritten with the mover's mark, and the empty cells do not shrink; the intended check rejects it |
| Scenarios.OpeningIsInProgress | tictactoe.py:15-19 | The starting board has no winner, is not finished, and minimax offers a move |
| Scenarios.CompletingTheTopRow | tictactoe.py:144-159 | With X,X,_ on top, O,O,_ below and X to move, completing the top row scores 1, and max_value finds that X can force a win |
| Scenarios.FullBoardIsDraw | tictactoe.py:106-125 | A full board without a completed line is finished, scores 0, and minimax offers no move |
| Scenarios.EmptyRowHidesWin | tictactoe.py:80-85 | On a reachable board with an empty top row and X holding the bottom row, the engine reports no winner, the game in progress and a move to play, while the intended winner is X |

## Left out

- The module-level `move = None` (tictactoe.py:12) is dead state: the loops'
  own `move` shadows it. The chosen action is only ever a return value here.
- `copy.deepcopy` is not modelled as a mechanism. Boards are immutable values,
  so every call yields a new board and leaves its input alone. Calling any
  function twice on the same board gives the same answer.
- The `math.inf` floating-point seeds are replaced by the integers -2 and 2.
  Both compare with every utility exactly as the infinities do.
- Python's set iteration order is replaced by the row-major order, as explained
  above. No lemma states which of several equally valued moves is returned.
- Boards of other shapes are not modelled. The engine's loops assume a 3x3
  list of lists, and cells hold only `X`, `O` or `None`.
- Exceptions are not modelled as control flow. `Result` takes an in-range
  precondition, and `ResultAsWritten` and `ResultChecked` return the raised
  exception as a value.
- Whole-game theorems, such as optimal play from the opening being a draw, are
  not stated. They need the full game tree unfolded, which the verifier cannot
  do. The winner quirk below also makes such claims unreliable for this code.
- No user interface or runner is modelled; none belongs to the engine.

## Findings

| source | as written | input that shows it | evidently intended | confidence | as-written member | corrected member |
|---|---|---|---|---|---|---|
| tictactoe.py:80-103 | A line whose three cells are equal is accepted without checking that it is marked, so an all-empty line returns `None` and ends the scan | `[[EMPTY, EMPTY, EMPTY], [O, O, EMPTY], [X, X, X]]`, reachable by alternating play: no winner is reported and the game goes on | Report the mark of the first line held by one player | high, not executed | Scenarios.EmptyRowHidesWin | Outcome.CorrectedWinner |
| tictactoe.py:64 | `row not in [0, 1, 2] and column not in [0, 1, 2]` raises only when both coordinates are bad | action `(3, 0)` raises an IndexError; action `(-1, 0)` writes into row 2 | Raise "Not valid action." when either coordinate is outside 0..2 | high, not executed | Guards.RowOutOfRangeSlipsPastGuard | Guards.ResultChecked |
| tictactoe.py:64-70 | The target cell is never checked, so a move onto an occupied cell overwrites the mark there | X at `(0, 0)` and action `(0, 0)`: the X is replaced by the mover's mark | Reject an action whose cell is already marked | medium, not executed | Guards.OccupiedCellOverwritten | Guards.ResultChecked |

The search keeps the engine's `winner`, so its lemmas describe the program as
it is. `Outcome.WinnerAgreesWhenMarked` bounds the difference: the two winners
differ only on boards where the engine reports no winner. The search only ever
plays legal actions, and on those `Guards.CheckedAgreesOnLegalMoves` shows the
corrected check changes nothing.
