/**
 * The depth-bounded alpha-beta search of `AIController::minimax`, and the
 * unpruned minimax value it is proved against. The move generator and the
 * board's `move`/`undo` are not part of this model: they are the
 * function-valued fields of `Rules`, and the only thing assumed of them is
 * that `undo` reverses `move` (`Reversible`).
 */
module AlphaBeta {
  import opened Chess
  import opened Evaluator

  datatype Rules = Rules(
    generate: (Board, Color) -> seq<seq<Move>>,
    move: (Board, Move) -> Board,
    undo: Board -> Board,
    params: Params)

  /** `undo` after `move` restores the board exactly. */
  ghost predicate Reversible(g: Rules) {
    forall b: Board, m: Move :: g.undo(g.move(b, m)) == b
  }

  function Max(a: int, b: int): int { if a >= b then a else b }

  function Min(a: int, b: int): int { if a <= b then a else b }

  /** The side to move: White maximises, Black minimises. */
  function Side(maximizing: bool): Color {
    if maximizing then White else Black
  }

  /** The generated moves in the order the nested loops visit them. */
  function Flatten(all: seq<seq<Move>>): (ms: seq<Move>)
    ensures |ms| == 0 <==> forall i :: 0 <= i < |all| ==> |all[i]| == 0
  {
    if all == [] then [] else all[0] + Flatten(all[1..])
  }

  /** `isGameOver`: no inner move list has an entry (an empty outer list included). */
  function IsGameOver(all: seq<seq<Move>>): (over: bool)
    ensures over <==> forall i :: 0 <= i < |all| ==> all[i] == []
  {
    if all == [] then true
    else if all[0] != [] then false
    else IsGameOver(all[1..])
  }

  // ----- The unpruned reference -----

  /**
   * Plain minimax over the same generator and evaluator, with the same
   * seeds (`IntMin` for a maximising node, `IntMax` for a minimising one)
   * and no pruning and no undo: each child is `move` applied to the parent.
   */
  function GameValue(g: Rules, b: Board, depth: nat, maximizing: bool): int
    decreases depth, 0, 0
  {
    if depth == 0 then Evaluate(g.params, b.squares)
    else
      var ms := Flatten(g.generate(b, Side(maximizing)));
      if maximizing then MaxOf(g, b, ms, depth - 1, IntMin)
      else MinOf(g, b, ms, depth - 1, IntMax)
  }

  /** `best` maximised with the values of the children reached by `ms`. */
  function MaxOf(g: Rules, b: Board, ms: seq<Move>, child: nat, best: int): int
    decreases child, 1, |ms|
  {
    if ms == [] then best
    else MaxOf(g, b, ms[1..], child, Max(best, GameValue(g, g.move(b, ms[0]), child, false)))
  }

  /** `best` minimised with the values of the children reached by `ms`. */
  function MinOf(g: Rules, b: Board, ms: seq<Move>, child: nat, best: int): int
    decreases child, 1, |ms|
  {
    if ms == [] then best
    else MinOf(g, b, ms[1..], child, Min(best, GameValue(g, g.move(b, ms[0]), child, true)))
  }

  // ----- The search as written -----

  /** A search result: the value and the board as the search leaves it. */
  datatype Outcome = Outcome(value: int, board: Board)

  /**
   * `minimax(depth, alpha, beta, maximizingPlayer, ins)`. When the side to
   * move has no moves, `depth` is set to 1 as in the source; the loops then
   * do not run and the seed comes back.
   */
  function Minimax(g: Rules, b: Board, depth: nat, alpha: int, beta: int, maximizing: bool): (r: Outcome)
    ensures depth == 0 ==> r.value == Evaluate(g.params, b.squares) && r.board == b
    ensures depth > 0 && IsGameOver(g.generate(b, Side(maximizing))) ==>
      r.value == (if maximizing then IntMin else IntMax) && r.board == b
    decreases depth, 0, 0
  {
    if depth == 0 then Outcome(Evaluate(g.params, b.squares), b)
    else
      var all := g.generate(b, Side(maximizing));
      var d := if IsGameOver(all) then 1 else depth;
      if maximizing then MaxLoop(g, b, Flatten(all), d - 1, alpha, beta, IntMin)
      else MinLoop(g, b, Flatten(all), d - 1, alpha, beta, IntMax)
  }

  /** The maximising loop: raise `maxEval` and `alpha`, stop once `beta <= alpha`. */
  function MaxLoop(g: Rules, b: Board, ms: seq<Move>, child: nat, alpha: int, beta: int, maxEval: int): Outcome
    decreases child, 1, |ms|
  {
    if ms == [] then Outcome(maxEval, b)
    else
      var o := Minimax(g, g.move(b, ms[0]), child, alpha, beta, false);
      var restored := g.undo(o.board);
      var maxEval' := Max(maxEval, o.value);
      var alpha' := Max(alpha, o.value);
      if beta <= alpha' then Outcome(maxEval', restored)
      else MaxLoop(g, restored, ms[1..], child, alpha', beta, maxEval')
  }

  /** The minimising loop: lower `minEval` and `beta`, stop once `beta <= alpha`. */
  function MinLoop(g: Rules, b: Board, ms: seq<Move>, child: nat, alpha: int, beta: int, minEval: int): Outcome
    decreases child, 1, |ms|
  {
    if ms == [] then Outcome(minEval, b)
    else
      var o := Minimax(g, g.move(b, ms[0]), child, alpha, beta, true);
      var restored := g.undo(o.board);
      var minEval' := Min(minEval, o.value);
      var beta' := Min(beta, o.value);
      if beta' <= alpha then Outcome(minEval', restored)
      else MinLoop(g, restored, ms[1..], child, alpha, beta', minEval')
  }

  // ----- Alpha-beta agrees with plain minimax -----

  /**
   * The fail-soft contract of alpha-beta: a true value `v` at or below the
   * window is reported as some `r` in `[v, alpha]`, one at or above it as
   * some `r` in `[beta, v]`, and one strictly inside it exactly.
   */
  ghost predicate FailSoft(r: int, v: int, alpha: int, beta: int) {
    && (v <= alpha ==> v <= r <= alpha)
    && (beta <= v ==> beta <= r <= v)
    && (alpha < v < beta ==> r == v)
  }

  lemma {:induction false} MaxOfShift(g: Rules, b: Board, ms: seq<Move>, child: nat, a: int, x: int)
    ensures MaxOf(g, b, ms, child, Max(a, x)) == Max(MaxOf(g, b, ms, child, a), x)
    decreases |ms|
  {
    if ms != [] {
      var v := GameValue(g, g.move(b, ms[0]), child, false);
      assert Max(Max(a, x), v) == Max(Max(a, v), x);
      MaxOfShift(g, b, ms[1..], child, Max(a, v), x);
    }
  }

  lemma {:induction false} MinOfShift(g: Rules, b: Board, ms: seq<Move>, child: nat, a: int, x: int)
    ensures MinOf(g, b, ms, child, Min(a, x)) == Min(MinOf(g, b, ms, child, a), x)
    decreases |ms|
  {
    if ms != [] {
      var v := GameValue(g, g.move(b, ms[0]), child, true);
      assert Min(Min(a, x), v) == Min(Min(a, v), x);
      MinOfShift(g, b, ms[1..], child, Min(a, v), x);
    }
  }

  lemma {:induction false} MaxOfAtLeast(g: Rules, b: Board, ms: seq<Move>, child: nat, a: int)
    ensures MaxOf(g, b, ms, child, a) >= a
    decreases |ms|
  {
    if ms != [] {
      MaxOfAtLeast(g, b, ms[1..], child, Max(a, GameValue(g, g.move(b, ms[0]), child, false)));
    }
  }

  lemma {:induction false} MinOfAtMost(g: Rules, b: Board, ms: seq<Move>, child: nat, a: int)
    ensures MinOf(g, b, ms, child, a) <= a
    decreases |ms|
  {
    if ms != [] {
      MinOfAtMost(g, b, ms[1..], child, Min(a, GameValue(g, g.move(b, ms[0]), child, true)));
    }
  }

  /**
   * For any window inside the int range, `minimax` satisfies the fail-soft
   * contract against the unpruned value, and every `move` it makes is undone:
   * the board comes back exactly as it was.
   */
  lemma {:induction false} MinimaxFailSoft(g: Rules, b: Board, depth: nat, alpha: int, beta: int, maximizing: bool)
    requires Reversible(g)
    requires IntMin <= alpha < beta <= IntMax
    ensures Minimax(g, b, depth, alpha, beta, maximizing).board == b
    ensures FailSoft(Minimax(g, b, depth, alpha, beta, maximizing).value, GameValue(g, b, depth, maximizing), alpha, beta)
    decreases depth, 0, 0
  {
    if depth > 0 {
      var all := g.generate(b, Side(maximizing));
      var ms := Flatten(all);
      var d := if IsGameOver(all) then 1 else depth;
      if IsGameOver(all) {
        assert ms == [];
      }
      assert ms != [] ==> d == depth;
      if maximizing {
        MaxLoopFailSoft(g, b, ms, d - 1, alpha, beta, IntMin);
      } else {
        MinLoopFailSoft(g, b, ms, d - 1, alpha, beta, IntMax);
      }
    }
  }

  lemma {:induction false} MaxLoopFailSoft(g: Rules, b: Board, ms: seq<Move>, child: nat, alpha: int, beta: int, best: int)
    requires Reversible(g)
    requires IntMin <= alpha < beta <= IntMax
    requires best <= alpha
    ensures MaxLoop(g, b, ms, child, alpha, beta, best).board == b
    ensures FailSoft(MaxLoop(g, b, ms, child, alpha, beta, best).value, MaxOf(g, b, ms, child, best), alpha, beta)
    decreases child, 1, |ms|
  {
    if ms != [] {
      var next := g.move(b, ms[0]);
      var o := Minimax(g, next, child, alpha, beta, false);
      var v1 := GameValue(g, next, child, false);
      MinimaxFailSoft(g, next, child, alpha, beta, false);
      assert g.undo(o.board) == b;
      var e := o.value;
      var rest := ms[1..];
      MaxOfShift(g, b, rest, child, best, v1);
      MaxOfShift(g, b, rest, child, best, e);
      MaxOfAtLeast(g, b, rest, child, best);
      if beta > Max(alpha, e) {
        MaxLoopFailSoft(g, b, rest, child, Max(alpha, e), beta, Max(best, e));
      }
    }
  }

  lemma {:induction false} MinLoopFailSoft(g: Rules, b: Board, ms: seq<Move>, child: nat, alpha: int, beta: int, best: int)
    requires Reversible(g)
    requires IntMin <= alpha < beta <= IntMax
    requires best >= beta
    ensures MinLoop(g, b, ms, child, alpha, beta, best).board == b
    ensures FailSoft(MinLoop(g, b, ms, child, alpha, beta, best).value, MinOf(g, b, ms, child, best), alpha, beta)
    decreases child, 1, |ms|
  {
    if ms != [] {
      var next := g.move(b, ms[0]);
      var o := Minimax(g, next, child, alpha, beta, true);
      var v1 := GameValue(g, next, child, true);
      MinimaxFailSoft(g, next, child, alpha, beta, true);
      assert g.undo(o.board) == b;
      var e := o.value;
      var rest := ms[1..];
      MinOfShift(g, b, rest, child, best, v1);
      MinOfShift(g, b, rest, child, best, e);
      MinOfAtMost(g, b, rest, child, best);
      if Min(beta, e) > alpha {
        MinLoopFailSoft(g, b, rest, child, alpha, Min(beta, e), Min(best, e));
      }
    }
  }

  // ----- The full window yields the exact value -----

  lemma {:induction false} GameValueInRange(g: Rules, b: Board, depth: nat, maximizing: bool)
    requires Bounded(g.params.tables)
    ensures IntMin <= GameValue(g, b, depth, maximizing) <= IntMax
    decreases depth, 0, 0
  {
    if depth == 0 {
      EvaluateInRange(g.params, b.squares);
    } else {
      var ms := Flatten(g.generate(b, Side(maximizing)));
      if maximizing {
        MaxOfInRange(g, b, ms, depth - 1, IntMin);
      } else {
        MinOfInRange(g, b, ms, depth - 1, IntMax);
      }
    }
  }

  lemma {:induction false} MaxOfInRange(g: Rules, b: Board, ms: seq<Move>, child: nat, best: int)
    requires Bounded(g.params.tables)
    requires IntMin <= best <= IntMax
    ensures IntMin <= MaxOf(g, b, ms, child, best) <= IntMax
    decreases child, 1, |ms|
  {
    if ms != [] {
      GameValueInRange(g, g.move(b, ms[0]), child, false);
      MaxOfInRange(g, b, ms[1..], child, Max(best, GameValue(g, g.move(b, ms[0]), child, false)));
    }
  }

  lemma {:induction false} MinOfInRange(g: Rules, b: Board, ms: seq<Move>, child: nat, best: int)
    requires Bounded(g.params.tables)
    requires IntMin <= best <= IntMax
    ensures IntMin <= MinOf(g, b, ms, child, best) <= IntMax
    decreases child, 1, |ms|
  {
    if ms != [] {
      GameValueInRange(g, g.move(b, ms[0]), child, true);
      MinOfInRange(g, b, ms[1..], child, Min(best, GameValue(g, g.move(b, ms[0]), child, true)));
    }
  }

  /**
   * With the full window `(IntMin, IntMax)` that `playTurn` passes, the
   * search returns exactly the unpruned minimax value and restores the board.
   */
  lemma FullWindowIsExact(g: Rules, b: Board, depth: nat, maximizing: bool)
    requires Reversible(g)
    requires Bounded(g.params.tables)
    ensures Minimax(g, b, depth, IntMin, IntMax, maximizing) == Outcome(GameValue(g, b, depth, maximizing), b)
  {
    MinimaxFailSoft(g, b, depth, IntMin, IntMax, maximizing);
    GameValueInRange(g, b, depth, maximizing);
  }
}
