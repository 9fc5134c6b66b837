/** The exhaustive minimax search: X maximises the utility, O minimises it, and
    each side stops scanning its moves as soon as it has found a forced win. */
module Search {
  import opened Wrappers
  import opened BoardState
  import opened Outcome

  /** A search answer: the value of the board for X and the move that reaches
      it, with no move on a finished game. */
  datatype Scored = Scored(value: int, move: Option<Action>)

  /** Integer stand-ins for the engine's -inf and +inf seeds: strictly below
      and above every utility. */
  const Below := -2
  const Above := 2

  /** Every action in `acts` marks an empty cell of `b`. */
  predicate AllOpen(b: Board, acts: seq<Action>) {
    forall i | 0 <= i < |acts| :: Open(b, acts[i])
  }

  /** `max_value`: on a finished game the utility and no move; otherwise the
      best value X can force, with a legal move that forces it. */
  function MaxValue(b: Board): (r: Scored)
    ensures -1 <= r.value <= 1
    ensures r.move.Some? ==> Open(b, r.move.value)
    decreases Marks(b, Empty), 1, 0
  {
    if Terminal(b) then Scored(Utility(b), None)
    else
      NonTerminalHasAction(b);
      MaxLoop(b, ActionList(b), Below, None)
  }

  /** The loop of `max_value` over the actions `acts` still to try, with `v`
      and `move` the best value and move so far. A move replaces the best one
      only when its value is strictly greater, and the loop returns as soon as
      the best value is 1. */
  function MaxLoop(b: Board, acts: seq<Action>, v: int, move: Option<Action>): (r: Scored)
    requires AllOpen(b, acts)
    requires Below <= v <= 1
    ensures v <= r.value <= 1
    ensures |acts| > 0 ==> -1 <= r.value
    ensures (r.value == v && r.move == move) || (r.value > v && r.move.Some? && r.move.value in acts)
    decreases Marks(b, Empty), 0, |acts|
  {
    if |acts| == 0 then Scored(v, move)
    else
      ResultDecreasesEmpty(b, acts[0]);
      var x := MinValue(Result(b, acts[0])).value;
      var v' := if x > v then x else v;
      var move' := if x > v then Some(acts[0]) else move;
      if v' == 1 then Scored(v', move')
      else MaxLoop(b, acts[1..], v', move')
  }

  /** `min_value`: on a finished game the utility and no move; otherwise the
      best value O can force, with a legal move that forces it. */
  function MinValue(b: Board): (r: Scored)
    ensures -1 <= r.value <= 1
    ensures r.move.Some? ==> Open(b, r.move.value)
    decreases Marks(b, Empty), 1, 0
  {
    if Terminal(b) then Scored(Utility(b), None)
    else
      NonTerminalHasAction(b);
      MinLoop(b, ActionList(b), Above, None)
  }

  /** The loop of `min_value`: a move replaces the best one only when its value
      is strictly smaller, and the loop returns as soon as the best value is -1. */
  function MinLoop(b: Board, acts: seq<Action>, v: int, move: Option<Action>): (r: Scored)
    requires AllOpen(b, acts)
    requires -1 <= v <= Above
    ensures -1 <= r.value <= v
    ensures |acts| > 0 ==> r.value <= 1
    ensures (r.value == v && r.move == move) || (r.value < v && r.move.Some? && r.move.value in acts)
    decreases Marks(b, Empty), 0, |acts|
  {
    if |acts| == 0 then Scored(v, move)
    else
      ResultDecreasesEmpty(b, acts[0]);
      var x := MaxValue(Result(b, acts[0])).value;
      var v' := if x < v then x else v;
      var move' := if x < v then Some(acts[0]) else move;
      if v' == -1 then Scored(v', move')
      else MinLoop(b, acts[1..], v', move')
  }

  /** On a finished game both searches return its utility and no move. */
  lemma SearchOnTerminal(b: Board)
    requires Terminal(b)
    ensures MaxValue(b) == Scored(Utility(b), None)
    ensures MinValue(b) == Scored(Utility(b), None)
  {
  }

  /** The value `max_value`'s loop returns bounds the value of every action it
      was given, including those the early exit skipped. */
  lemma {:induction false} MaxLoopBounds(b: Board, acts: seq<Action>, v: int, move: Option<Action>)
    requires AllOpen(b, acts)
    requires Below <= v <= 1
    ensures forall a | a in acts :: MinValue(Result(b, a)).value <= MaxLoop(b, acts, v, move).value
    decreases |acts|
  {
    if |acts| > 0 {
      var x := MinValue(Result(b, acts[0])).value;
      var v' := if x > v then x else v;
      var move' := if x > v then Some(acts[0]) else move;
      if v' != 1 {
        MaxLoopBounds(b, acts[1..], v', move');
      }
    }
  }

  /** Unless it is still the seed, the value `max_value`'s loop returns is the
      value of the move it returns. */
  lemma {:induction false} MaxLoopAchieves(b: Board, acts: seq<Action>, v: int, move: Option<Action>)
    requires AllOpen(b, acts)
    requires Below <= v <= 1
    ensures var r := MaxLoop(b, acts, v, move);
            r.value == v || (r.move.Some? && r.move.value in acts && MinValue(Result(b, r.move.value)).value == r.value)
    decreases |acts|
  {
    if |acts| > 0 {
      var x := MinValue(Result(b, acts[0])).value;
      var v' := if x > v then x else v;
      var move' := if x > v then Some(acts[0]) else move;
      if v' != 1 {
        MaxLoopAchieves(b, acts[1..], v', move');
      }
    }
  }

  /** The mirror of `MaxLoopBounds` for `min_value`'s loop. */
  lemma {:induction false} MinLoopBounds(b: Board, acts: seq<Action>, v: int, move: Option<Action>)
    requires AllOpen(b, acts)
    requires -1 <= v <= Above
    ensures forall a | a in acts :: MinLoop(b, acts, v, move).value <= MaxValue(Result(b, a)).value
    decreases |acts|
  {
    if |acts| > 0 {
      var x := MaxValue(Result(b, acts[0])).value;
      var v' := if x < v then x else v;
      var move' := if x < v then Some(acts[0]) else move;
      if v' != -1 {
        MinLoopBounds(b, acts[1..], v', move');
      }
    }
  }

  /** The mirror of `MaxLoopAchieves` for `min_value`'s loop. */
  lemma {:induction false} MinLoopAchieves(b: Board, acts: seq<Action>, v: int, move: Option<Action>)
    requires AllOpen(b, acts)
    requires -1 <= v <= Above
    ensures var r := MinLoop(b, acts, v, move);
            r.value == v || (r.move.Some? && r.move.value in acts && MaxValue(Result(b, r.move.value)).value == r.value)
    decreases |acts|
  {
    if |acts| > 0 {
      var x := MaxValue(Result(b, acts[0])).value;
      var v' := if x < v then x else v;
      var move' := if x < v then Some(acts[0]) else move;
      if v' != -1 {
        MinLoopAchieves(b, acts[1..], v', move');
      }
    }
  }

  /** On a game in progress `max_value` returns the largest value O's reply
      search gives to any legal move, together with a legal move of that value.
      The early exit at 1 therefore never changes the answer. */
  lemma MaxValueIsMaximum(b: Board)
    requires !Terminal(b)
    ensures MaxValue(b).move.Some? && MaxValue(b).move.value in Actions(b)
    ensures MinValue(Result(b, MaxValue(b).move.value)).value == MaxValue(b).value
    ensures forall a | a in Actions(b) :: MinValue(Result(b, a)).value <= MaxValue(b).value
  {
    var acts := ActionList(b);
    NonTerminalHasAction(b);
    MaxLoopBounds(b, acts, Below, None);
    MaxLoopAchieves(b, acts, Below, None);
  }

  /** On a game in progress `min_value` returns the smallest value X's reply
      search gives to any legal move, together with a legal move of that value.
      The early exit at -1 therefore never changes the answer. */
  lemma MinValueIsMinimum(b: Board)
    requires !Terminal(b)
    ensures MinValue(b).move.Some? && MinValue(b).move.value in Actions(b)
    ensures MaxValue(Result(b, MinValue(b).move.value)).value == MinValue(b).value
    ensures forall a | a in Actions(b) :: MinValue(b).value <= MaxValue(Result(b, a)).value
  {
    var acts := ActionList(b);
    NonTerminalHasAction(b);
    MinLoopBounds(b, acts, Above, None);
    MinLoopAchieves(b, acts, Above, None);
  }

  /** `minimax`: no move on a finished game; otherwise the move `max_value`
      picks when X is to move and the one `min_value` picks when O is. */
  function Minimax(b: Board): (a: Option<Action>)
    ensures a.None? <==> Terminal(b)
    ensures a.Some? ==> a.value in Actions(b)
  {
    if Terminal(b) then None
    else if Player(b) == X then MaxValueIsMaximum(b); MaxValue(b).move
    else MinValueIsMinimum(b); MinValue(b).move
  }

  /** The move `minimax` returns is optimal for the player to move: no other
      legal move leads to a better value for X when X moves, or to a better
      value for O when O moves, and it achieves the search's value of the board. */
  lemma MinimaxOptimal(b: Board)
    requires !Terminal(b)
    ensures Minimax(b).Some?
    ensures Player(b) == X ==>
              MinValue(Result(b, Minimax(b).value)).value == MaxValue(b).value
              && forall a | a in Actions(b) :: MinValue(Result(b, a)).value <= MinValue(Result(b, Minimax(b).value)).value
    ensures Player(b) == O ==>
              MaxValue(Result(b, Minimax(b).value)).value == MinValue(b).value
              && forall a | a in Actions(b) :: MaxValue(Result(b, Minimax(b).value)).value <= MaxValue(Result(b, a)).value
  {
    MaxValueIsMaximum(b);
    MinValueIsMinimum(b);
  }
}
