/**
 * `Bot.minimax` with its two defects repaired: bot.py:102 raises `alpha`
 * itself, and the `return` of bot.py:105 follows the loop, as the
 * minimizing branch already does at bot.py:120. This is fail-soft alpha-beta
 * search; its correctness is the window property of `AlphaBetaWindow`, and
 * from the root window (−∞, +∞) it replies exactly what plain minimax does,
 * move included, which is the claim of bot.py:85.
 */
module Pruning {
  import opened Wrappers
  import opened Scores
  import opened ChessGame
  import opened Search

  function AlphaBeta<P, M>(g: Game<P, M>, p: P, depth: nat, alpha: Score, beta: Score, isMax: bool): Reply<M>
    decreases depth, 1, 0
  {
    if depth == 0 || GameOver(g, p) then Reply(None, Fin(Evaluate(g, p)))
    else if isMax then MaxFrom(g, p, depth - 1, 0, alpha, beta, NegInf, None)
    else MinFrom(g, p, depth - 1, 0, alpha, beta, PosInf, None)
  }

  /** The maximizing loop from the i-th move on, with the running `max_eval`, `best_move` and `alpha`. */
  function MaxFrom<P, M>(g: Game<P, M>, p: P, depth: nat, i: nat, alpha: Score, beta: Score,
                         maxEval: Score, bestMove: Option<M>): Reply<M>
    decreases depth, 2, |g.moves(p)| - i
  {
    var ms := g.moves(p);
    if i >= |ms| then Reply(bestMove, maxEval)
    else
      var cur := AlphaBeta(g, g.apply(p, ms[i]), depth, alpha, beta, false).score;
      var maxEval' := if Lt(maxEval, cur) then cur else maxEval;
      var bestMove' := if Lt(maxEval, cur) then Some(ms[i]) else bestMove;
      var alpha' := Max(alpha, cur);
      if Le(beta, alpha') then Reply(bestMove', maxEval')
      else MaxFrom(g, p, depth, i + 1, alpha', beta, maxEval', bestMove')
  }

  /** The minimizing loop from the i-th move on, with the running `min_eval`, `best_move` and `beta`. */
  function MinFrom<P, M>(g: Game<P, M>, p: P, depth: nat, i: nat, alpha: Score, beta: Score,
                         minEval: Score, bestMove: Option<M>): Reply<M>
    decreases depth, 2, |g.moves(p)| - i
  {
    var ms := g.moves(p);
    if i >= |ms| then Reply(bestMove, minEval)
    else
      var cur := AlphaBeta(g, g.apply(p, ms[i]), depth, alpha, beta, true).score;
      var minEval' := if Lt(cur, minEval) then cur else minEval;
      var bestMove' := if Lt(cur, minEval) then Some(ms[i]) else bestMove;
      var beta' := Min(beta, cur);
      if Le(beta', alpha) then Reply(bestMove', minEval')
      else MinFrom(g, p, depth, i + 1, alpha, beta', minEval', bestMove')
  }

  /**
   * The window property. For alpha < beta, let v be the minimax score:
   * inside the window the search replies exactly as minimax does (move and
   * score); at or below alpha it reports a score at or below alpha; at or
   * above beta a score at or above beta.
   */
  lemma {:induction false} AlphaBetaWindow<P, M>(g: Game<P, M>, p: P, depth: nat, alpha: Score, beta: Score, isMax: bool)
    requires Lt(alpha, beta)
    ensures var v, r := Minimax(g, p, depth, isMax), AlphaBeta(g, p, depth, alpha, beta, isMax);
      (Lt(alpha, v.score) && Lt(v.score, beta) ==> r == v) &&
      (Le(v.score, alpha) ==> Le(r.score, alpha)) &&
      (Le(beta, v.score) ==> Le(beta, r.score))
    decreases depth, 1, 0
  {
    if depth > 0 && !GameOver(g, p) {
      if isMax {
        MaxWindow(g, p, depth - 1, alpha, 0, alpha, beta, NegInf, None, NegInf, None);
      } else {
        MinWindow(g, p, depth - 1, beta, 0, alpha, beta, PosInf, None, PosInf, None);
      }
    }
  }

  /**
   * The maximizing loop against the reference loop, for a node entered with
   * bound `alpha0`. Once the reference best has risen above `alpha0`, the
   * two loops agree and alpha is that best; before that, the pruned loop's
   * best stays at or below `alpha0` and alpha is still `alpha0`.
   */
  lemma {:induction false} MaxWindow<P, M>(g: Game<P, M>, p: P, depth: nat, alpha0: Score, i: nat,
                                          alpha: Score, beta: Score, best: Score, move: Option<M>,
                                          refBest: Score, refMove: Option<M>)
    requires i <= |g.moves(p)| && Lt(alpha, beta)
    requires if Lt(alpha0, refBest) then best == refBest && move == refMove && alpha == refBest
             else Le(best, alpha0) && alpha == alpha0
    ensures var v := BestFrom(true, g.moves(p), ChildScores(g, p, depth, false), i, refBest, refMove);
      var r := MaxFrom(g, p, depth, i, alpha, beta, best, move);
      (Lt(alpha0, v.score) && Lt(v.score, beta) ==> r == v) &&
      (Le(v.score, alpha0) ==> Le(r.score, alpha0)) &&
      (Le(beta, v.score) ==> Le(beta, r.score))
    decreases depth, 2, |g.moves(p)| - i
  {
    var ms, vals := g.moves(p), ChildScores(g, p, depth, false);
    if i < |ms| {
      AlphaBetaWindow(g, g.apply(p, ms[i]), depth, alpha, beta, false);
      var cur := AlphaBeta(g, g.apply(p, ms[i]), depth, alpha, beta, false).score;
      var best' := if Lt(best, cur) then cur else best;
      var move' := if Lt(best, cur) then Some(ms[i]) else move;
      var refBest' := if Lt(refBest, vals[i]) then vals[i] else refBest;
      var refMove' := if Lt(refBest, vals[i]) then Some(ms[i]) else refMove;
      var alpha' := Max(alpha, cur);
      if Le(beta, alpha') {
        BestFromBound(true, ms, vals, i + 1, refBest', refMove');
      } else {
        MaxWindow(g, p, depth, alpha0, i + 1, alpha', beta, best', move', refBest', refMove');
      }
    }
  }

  /** The minimizing loop against the reference loop, for a node entered with bound `beta0`. */
  lemma {:induction false} MinWindow<P, M>(g: Game<P, M>, p: P, depth: nat, beta0: Score, i: nat,
                                          alpha: Score, beta: Score, best: Score, move: Option<M>,
                                          refBest: Score, refMove: Option<M>)
    requires i <= |g.moves(p)| && Lt(alpha, beta)
    requires if Lt(refBest, beta0) then best == refBest && move == refMove && beta == refBest
             else Le(beta0, best) && beta == beta0
    ensures var v := BestFrom(false, g.moves(p), ChildScores(g, p, depth, true), i, refBest, refMove);
      var r := MinFrom(g, p, depth, i, alpha, beta, best, move);
      (Lt(alpha, v.score) && Lt(v.score, beta0) ==> r == v) &&
      (Le(v.score, alpha) ==> Le(r.score, alpha)) &&
      (Le(beta0, v.score) ==> Le(beta0, r.score))
    decreases depth, 2, |g.moves(p)| - i
  {
    var ms, vals := g.moves(p), ChildScores(g, p, depth, true);
    if i < |ms| {
      AlphaBetaWindow(g, g.apply(p, ms[i]), depth, alpha, beta, true);
      var cur := AlphaBeta(g, g.apply(p, ms[i]), depth, alpha, beta, true).score;
      var best' := if Lt(cur, best) then cur else best;
      var move' := if Lt(cur, best) then Some(ms[i]) else move;
      var refBest' := if Lt(vals[i], refBest) then vals[i] else refBest;
      var refMove' := if Lt(vals[i], refBest) then Some(ms[i]) else refMove;
      var beta' := Min(beta, cur);
      if Le(beta', alpha) {
        BestFromBound(false, ms, vals, i + 1, refBest', refMove');
      } else {
        MinWindow(g, p, depth, beta0, i + 1, alpha, beta', best', move', refBest', refMove');
      }
    }
  }

  /**
   * From the root window the corrected search replies exactly what plain
   * minimax does: the same score and the same first-seen best move.
   */
  lemma AlphaBetaIsMinimax<P, M>(g: Game<P, M>, p: P, depth: nat, isMax: bool)
    ensures AlphaBeta(g, p, depth, NegInf, PosInf, isMax) == Minimax(g, p, depth, isMax)
  {
    MinimaxFinite(g, p, depth, isMax);
    AlphaBetaWindow(g, p, depth, NegInf, PosInf, isMax);
  }
}
