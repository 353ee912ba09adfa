/** The search engine: exhaustive minimax with alpha-beta pruning over the
    board layer. X is the maximising side, O the minimising one. */
module Search {
  import opened Game

  /** Stand-ins for the infinite bounds: every utility lies in [-1, 1]. */
  const NegInf: int := -2
  const PosInf: int := 2

  /** `x` is at least as good as `y` for the maximiser (when `maxNode`)
      or for the minimiser. */
  predicate AtLeastAsGood(maxNode: bool, x: int, y: int) {
    if maxNode then y <= x else x <= y
  }

  /** Every non-empty finite set of values has a best element for either
      side. */
  lemma {:induction false} OptimumExists(s: set<int>, maxNode: bool)
    requires s != {}
    ensures exists r :: r in s && forall y | y in s :: AtLeastAsGood(maxNode, r, y)
    decreases |s|
  {
    var x :| x in s;
    if s == {x} {
      assert forall y | y in s :: AtLeastAsGood(maxNode, x, y);
      return;
    }
    var rest := s - {x};
    OptimumExists(rest, maxNode);
    var r :| r in rest && forall y | y in rest :: AtLeastAsGood(maxNode, r, y);
    var best := if AtLeastAsGood(maxNode, r, x) then r else x;
    forall y | y in s ensures AtLeastAsGood(maxNode, best, y) {
      if y != x {
        assert AtLeastAsGood(maxNode, r, y);
      }
    }
    assert best in s;
  }

  /** The largest (maxNode) or smallest element of a finite set. */
  ghost function Optimum(s: set<int>, maxNode: bool): (r: int)
    requires s != {}
    ensures r in s
    ensures forall y | y in s :: AtLeastAsGood(maxNode, r, y)
  {
    OptimumExists(s, maxNode);
    var r :| r in s && forall y | y in s :: AtLeastAsGood(maxNode, r, y); r
  }

  /** The unpruned minimax value of a board: the utility of a finished
      game, else the best value over all legal moves for the side that
      maximises (maxNode) or minimises, the opponent taking the other role
      on every child. It does not depend on any order of the moves. */
  ghost function Value(b: Board, maxNode: bool): (v: int)
    ensures -1 <= v <= 1
    decreases Count(b, Empty), 1
  {
    if IsTerminal(b) then Utility(b)
    else
      TerminalIffNoMoves(b);
      Optimum(Outcomes(b, maxNode), maxNode)
  }

  /** The values of the children of a board still in play. */
  ghost function Outcomes(b: Board, maxNode: bool): (s: set<int>)
    requires !IsTerminal(b)
    ensures s != {}
    ensures forall y | y in s :: -1 <= y <= 1
    decreases Count(b, Empty), 0
  {
    TerminalIffNoMoves(b);
    var m0 :| m0 in EmptyCells(b);
    var s := set m | m in EmptyCells(b) :: Value(Child(b, m), !maxNode);
    assert Value(Child(b, m0), !maxNode) in s;
    s
  }

  /** The minimax recurrence in the terms of single moves: the value of a
      board in play is at least as good as every child's for the side to
      move, and some legal move attains it. */
  lemma ValueOfMoves(b: Board, maxNode: bool)
    requires !IsTerminal(b)
    ensures forall m | m in EmptyCells(b) ::
      AtLeastAsGood(maxNode, Value(b, maxNode), Value(Child(b, m), !maxNode))
    ensures exists m | m in EmptyCells(b) :: Value(Child(b, m), !maxNode) == Value(b, maxNode)
  {
    var s := Outcomes(b, maxNode);
    forall m | m in EmptyCells(b)
      ensures AtLeastAsGood(maxNode, Value(b, maxNode), Value(Child(b, m), !maxNode))
    {
      assert Value(Child(b, m), !maxNode) in s;
    }
  }

  /** The fail-soft alpha-beta contract: a result `v` at or below `alpha`
      is an upper bound on the exact value, one at or above `beta` a lower
      bound, and one strictly inside the window is the exact value. */
  predicate FailSoft(v: int, exact: int, alpha: int, beta: int) {
    && (v <= alpha ==> exact <= v)
    && (alpha < v < beta ==> exact == v)
    && (beta <= v ==> v <= exact)
  }

  /** A cut-off: a child worth at least `v` makes the board worth at least
      `v` to the maximiser (at most `v` to the minimiser). */
  lemma CutOff(b: Board, maxNode: bool, m: Move, v: int)
    requires !IsTerminal(b) && m in EmptyCells(b)
    requires AtLeastAsGood(maxNode, Value(Child(b, m), !maxNode), v)
    ensures AtLeastAsGood(maxNode, Value(b, maxNode), v)
  {
    ValueOfMoves(b, maxNode);
  }

  /** A completed scan: a running best `v` that is at least as good as
      every child's value is at least as good as the board's value. */
  lemma Exhausted(b: Board, maxNode: bool, v: int)
    requires !IsTerminal(b)
    requires forall k | k in EmptyCells(b) :: AtLeastAsGood(maxNode, v, Value(Child(b, k), !maxNode))
    ensures AtLeastAsGood(maxNode, v, Value(b, maxNode))
  {
    ValueOfMoves(b, maxNode);
  }

  /** `max_value`: the maximiser's node of the alpha-beta search. Moves are
      taken from the set of legal moves in an arbitrary order. */
  method MaxValue(b: Board, alpha: int, beta: int) returns (action: Option<Move>, v: int)
    requires alpha < beta
    ensures IsTerminal(b) ==> action == None && v == Utility(b)
    ensures !IsTerminal(b) ==> action.Some? && action.value in EmptyCells(b)
    ensures -1 <= v <= 1
    ensures FailSoft(v, Value(b, true), alpha, beta)
    ensures alpha == NegInf && beta == PosInf ==> v == Value(b, true)
    ensures action.Some? && alpha < v < beta ==> Value(Child(b, action.value), false) == v
    decreases Count(b, Empty)
  {
    var t := Terminal(b);
    if t {
      return None, Utility(b);
    }
    action, v := None, NegInf;
    var a := alpha;
    TerminalIffNoMoves(b);
    var todo := Actions(b);
    ghost var moves, done: set<Move> := todo, {};
    while todo != {}
      invariant todo + done == moves && todo !! done
      invariant done == {} ==> action == None && v == NegInf && a == alpha
      invariant done != {} ==> action.Some? && action.value in done && -1 <= v <= 1
      invariant done != {} ==> a == (if v > alpha then v else alpha)
      invariant alpha <= a < beta
      invariant forall k | k in done :: Value(Child(b, k), false) <= v
      invariant done != {} && v > alpha ==> Value(Child(b, action.value), false) == v
      decreases todo
    {
      var m :| m in todo;
      assert (todo - {m}) + (done + {m}) == todo + done;
      todo, done := todo - {m}, done + {m};
      var child := Child(b, m);
      var _, value := MinValue(child, a, beta);
      if value > v {
        action, v := Some(m), value;
      }
      if v >= beta {
        CutOff(b, true, m, v);
        break;
      }
      if v > a {
        a := v;
      }
    }
    if v < beta {
      // the scan ran to the end without a cut-off
      Exhausted(b, true, v);
      if v > alpha {
        CutOff(b, true, action.value, v);
      }
    }
  }

  /** `min_value`: the minimiser's node, dual to MaxValue. */
  method MinValue(b: Board, alpha: int, beta: int) returns (action: Option<Move>, v: int)
    requires alpha < beta
    ensures IsTerminal(b) ==> action == None && v == Utility(b)
    ensures !IsTerminal(b) ==> action.Some? && action.value in EmptyCells(b)
    ensures -1 <= v <= 1
    ensures FailSoft(v, Value(b, false), alpha, beta)
    ensures alpha == NegInf && beta == PosInf ==> v == Value(b, false)
    ensures action.Some? && alpha < v < beta ==> Value(Child(b, action.value), true) == v
    decreases Count(b, Empty)
  {
    var t := Terminal(b);
    if t {
      return None, Utility(b);
    }
    action, v := None, PosInf;
    var bt := beta;
    TerminalIffNoMoves(b);
    var todo := Actions(b);
    ghost var moves, done: set<Move> := todo, {};
    while todo != {}
      invariant todo + done == moves && todo !! done
      invariant done == {} ==> action == None && v == PosInf && bt == beta
      invariant done != {} ==> action.Some? && action.value in done && -1 <= v <= 1
      invariant done != {} ==> bt == (if v < beta then v else beta)
      invariant alpha < bt <= beta
      invariant forall k | k in done :: v <= Value(Child(b, k), true)
      invariant done != {} && v < beta ==> Value(Child(b, action.value), true) == v
      decreases todo
    {
      var m :| m in todo;
      assert (todo - {m}) + (done + {m}) == todo + done;
      todo, done := todo - {m}, done + {m};
      var child := Child(b, m);
      var _, value := MaxValue(child, alpha, bt);
      if value < v {
        action, v := Some(m), value;
      }
      if v <= alpha {
        CutOff(b, false, m, v);
        break;
      }
      if v < bt {
        bt := v;
      }
    }
    if v > alpha {
      // the scan ran to the end without a cut-off
      Exhausted(b, false, v);
      if v < beta {
        CutOff(b, false, action.value, v);
      }
    }
  }

  /** `minimax`: no move on a finished board; otherwise a legal move whose
      child has the value of the board for the side to move, X maximising
      and O minimising, so that no other legal move is better. */
  method Minimax(b: Board) returns (action: Option<Move>)
    ensures action == None <==> IsTerminal(b)
    ensures action.Some? ==> action.value in EmptyCells(b)
    ensures action.Some? ==>
      Value(Child(b, action.value), Turn(b) == O) == Value(b, Turn(b) == X)
    ensures action.Some? ==> forall m | m in EmptyCells(b) ::
      AtLeastAsGood(Turn(b) == X,
                    Value(Child(b, action.value), Turn(b) == O),
                    Value(Child(b, m), Turn(b) == O))
  {
    var t := Terminal(b);
    if t {
      return None;
    }
    var p := Player(b);
    var value;
    if p == X {
      action, value := MaxValue(b, NegInf, PosInf);
    } else {
      action, value := MinValue(b, NegInf, PosInf);
    }
    ValueOfMoves(b, p == X);
  }

  /** A move that completes a line for the side to move wins at once, so
      the board is worth that win; with Minimax's contract, the search then
      picks a move whose child is worth it too. */
  lemma ImmediateWin(b: Board, maxNode: bool, m: Move)
    requires !IsTerminal(b) && m in EmptyCells(b)
    requires Utility(Child(b, m)) == (if maxNode then 1 else -1)
    ensures Value(b, maxNode) == Utility(Child(b, m))
  {
    var c := Child(b, m);
    assert IsTerminal(c);
    CutOff(b, maxNode, m, Value(c, !maxNode));
  }
}
