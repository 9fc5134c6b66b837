/** Concrete positions: the opening, a winning move, a drawn full board, and
    the position in which the engine's `winner` misses a completed row. */
module Scenarios {
  import opened Wrappers
  import opened BoardState
  import opened Outcome
  import opened Search

  /** The opening position is not finished and the search offers X a move. */
  lemma OpeningIsInProgress()
    ensures Winner(InitialState()) == Empty
    ensures !Terminal(InitialState())
    ensures Minimax(InitialState()).Some?
  {
    InitialStateFacts();
  }

  /** X to move with two in the top row: the search finds that X can force a
      win, and completing the row at (0, 2) wins at once. */
  lemma CompletingTheTopRow()
    ensures var b := [[X, X, Empty], [O, O, Empty], [Empty, Empty, Empty]];
            && Player(b) == X
            && !Terminal(b)
            && Utility(Result(b, Action(0, 2))) == 1
            && MaxValue(b).value == 1
  {
    var b: Board := [[X, X, Empty], [O, O, Empty], [Empty, Empty, Empty]];
    assert Marks(b, X) == 2 && Marks(b, O) == 2;
    var won := Result(b, Action(0, 2));
    assert Player(b) == X;
    assert won[0] == [X, X, X] && won[1] == b[1] && won[2] == b[2];
    assert won == [[X, X, X], [O, O, Empty], [Empty, Empty, Empty]];
    assert Open(b, Action(0, 2));
    NonTerminalHasAction(b);
    MaxValueIsMaximum(b);
    assert MinValue(won).value == 1;
  }

  /** A full board without a completed line is finished and scored as a draw. */
  lemma FullBoardIsDraw()
    ensures var b := [[X, O, X], [X, O, O], [O, X, X]];
            && Marks(b, Empty) == 0
            && Terminal(b)
            && Utility(b) == 0
            && Minimax(b) == None
  {
  }

  /** The engine's `winner` stops at the empty top row and misses X's
      completed bottom row, so a game X has won on a board reachable by
      alternating play is reported as still in progress. */
  lemma EmptyRowHidesWin()
    ensures var b := [[Empty, Empty, Empty], [O, O, Empty], [X, X, X]];
            && WellFormed(b)
            && Winner(b) == Empty
            && CorrectedWinner(b) == X
            && !Terminal(b)
            && Minimax(b).Some?
  {
    var b: Board := [[Empty, Empty, Empty], [O, O, Empty], [X, X, X]];
    assert Completed(b, Lines[2]);
  }
}
