/**
 * Plain minimax without pruning: the reference the search of bot.py:85-120
 * is meant to compute. Scores are backed up from the evaluator at the leaves
 * (depth exhausted or game over); an inner node keeps the first move whose
 * child score is strictly better than everything seen before, so ties go to
 * the move enumerated first (the strict `>` of bot.py:99 and `<` of bot.py:114).
 */
module Search {
  import opened Wrappers
  import opened Material
  import opened Scores
  import opened ChessGame

  /** What `minimax` returns: the tuple `(best_move, score)`. */
  datatype Reply<M> = Reply(move: Option<M>, score: Score)

  /** `Bot.evaluate_board` on a position. */
  function Evaluate<P, M>(g: Game<P, M>, p: P): int {
    MaterialScore(g.pieces(p))
  }

  /**
   * The loop over moves `ms[i..]` with child scores `vals`, starting from the
   * running best `best` reached by move `bm`.
   */
  function BestFrom<M>(isMax: bool, ms: seq<M>, vals: seq<Score>, i: nat, best: Score, bm: Option<M>): Reply<M>
    requires |vals| == |ms|
    decreases |ms| - i
  {
    if i >= |ms| then Reply(bm, best)
    else if Better(isMax, vals[i], best) then BestFrom(isMax, ms, vals, i + 1, vals[i], Some(ms[i]))
    else BestFrom(isMax, ms, vals, i + 1, best, bm)
  }

  /** The whole loop, from the sentinel and no move. */
  function Best<M>(isMax: bool, ms: seq<M>, vals: seq<Score>): Reply<M>
    requires |vals| == |ms|
  {
    BestFrom(isMax, ms, vals, 0, Worst(isMax), None)
  }

  function Minimax<P, M>(g: Game<P, M>, p: P, depth: nat, isMax: bool): Reply<M>
    decreases depth, 1
  {
    if depth == 0 || GameOver(g, p) then Reply(None, Fin(Evaluate(g, p)))
    else Best(isMax, g.moves(p), ChildScores(g, p, depth - 1, !isMax))
  }

  /** The minimax score of every child of `p`, in move order. */
  function ChildScores<P, M>(g: Game<P, M>, p: P, depth: nat, isMax: bool): (r: seq<Score>)
    ensures |r| == |g.moves(p)|
    decreases depth, 2
  {
    var ms := g.moves(p);
    seq(|ms|, j requires 0 <= j < |ms| => Minimax(g, g.apply(p, ms[j]), depth, isMax).score)
  }

  /** The loop never ends worse than where it started, nor worse than any move it examines. */
  lemma {:induction false} BestFromBound<M>(isMax: bool, ms: seq<M>, vals: seq<Score>, i: nat, best: Score, bm: Option<M>)
    requires |vals| == |ms| && i <= |ms|
    ensures !Better(isMax, best, BestFrom(isMax, ms, vals, i, best, bm).score)
    ensures forall j :: i <= j < |ms| ==> !Better(isMax, vals[j], BestFrom(isMax, ms, vals, i, best, bm).score)
    decreases |ms| - i
  {
    if i < |ms| {
      if Better(isMax, vals[i], best) {
        BestFromBound(isMax, ms, vals, i + 1, vals[i], Some(ms[i]));
      } else {
        BestFromBound(isMax, ms, vals, i + 1, best, bm);
      }
    }
  }

  /**
   * The loop either keeps its starting state, when no move beats `best`, or
   * ends on some move k that beats `best` and every move examined before it.
   */
  lemma {:induction false} BestFromChosen<M>(isMax: bool, ms: seq<M>, vals: seq<Score>, i: nat, best: Score, bm: Option<M>)
    returns (k: int)
    requires |vals| == |ms| && i <= |ms|
    ensures k == -1 ==>
      BestFrom(isMax, ms, vals, i, best, bm) == Reply(bm, best) &&
      forall j :: i <= j < |ms| ==> !Better(isMax, vals[j], best)
    ensures k != -1 ==>
      i <= k < |ms| &&
      BestFrom(isMax, ms, vals, i, best, bm) == Reply(Some(ms[k]), vals[k]) &&
      Better(isMax, vals[k], best) &&
      forall j :: i <= j < k ==> Better(isMax, vals[k], vals[j])
    decreases |ms| - i
  {
    if i == |ms| {
      k := -1;
    } else if Better(isMax, vals[i], best) {
      var k' := BestFromChosen(isMax, ms, vals, i + 1, vals[i], Some(ms[i]));
      k := if k' == -1 then i else k';
    } else {
      k := BestFromChosen(isMax, ms, vals, i + 1, best, bm);
    }
  }

  /**
   * Over a non-empty list of finite child scores the loop returns the first
   * move reaching the optimum: index k is optimal, and strictly better than
   * every move before it.
   */
  lemma BestIsFirstOptimum<M>(isMax: bool, ms: seq<M>, vals: seq<Score>) returns (k: nat)
    requires |vals| == |ms| > 0
    requires forall j :: 0 <= j < |vals| ==> vals[j].Fin?
    ensures k < |ms| && Best(isMax, ms, vals) == Reply(Some(ms[k]), vals[k])
    ensures forall j :: 0 <= j < |ms| ==> !Better(isMax, vals[j], vals[k])
    ensures forall j :: 0 <= j < k ==> Better(isMax, vals[k], vals[j])
  {
    var c := BestFromChosen(isMax, ms, vals, 0, Worst(isMax), None);
    assert Better(isMax, vals[0], Worst(isMax));
    k := c;
    BestFromBound(isMax, ms, vals, 0, Worst(isMax), None);
  }

  /** Every minimax score is a finite evaluation: the sentinels never survive. */
  lemma {:induction false} MinimaxFinite<P, M>(g: Game<P, M>, p: P, depth: nat, isMax: bool)
    ensures Minimax(g, p, depth, isMax).score.Fin?
    decreases depth
  {
    if depth > 0 && !GameOver(g, p) {
      var ms, vals := g.moves(p), ChildScores(g, p, depth - 1, !isMax);
      forall j | 0 <= j < |vals| ensures vals[j].Fin? {
        MinimaxFinite(g, g.apply(p, ms[j]), depth - 1, !isMax);
      }
      var k := BestIsFirstOptimum(isMax, ms, vals);
    }
  }

  /**
   * An inner node's reply: the first legal move whose child score is optimal
   * for the side to move (maximal at a maximizing node, minimal at a
   * minimizing one), together with that score.
   */
  lemma MinimaxNode<P, M>(g: Game<P, M>, p: P, depth: nat, isMax: bool) returns (k: nat)
    requires depth > 0 && !GameOver(g, p)
    ensures var ms, vals := g.moves(p), ChildScores(g, p, depth - 1, !isMax);
      k < |ms| &&
      Minimax(g, p, depth, isMax) == Reply(Some(ms[k]), vals[k]) &&
      (forall j :: 0 <= j < |ms| ==> !Better(isMax, vals[j], vals[k])) &&
      (forall j :: 0 <= j < k ==> Better(isMax, vals[k], vals[j]))
  {
    var ms, vals := g.moves(p), ChildScores(g, p, depth - 1, !isMax);
    forall j | 0 <= j < |vals| ensures vals[j].Fin? {
      MinimaxFinite(g, g.apply(p, ms[j]), depth - 1, !isMax);
    }
    k := BestIsFirstOptimum(isMax, ms, vals);
  }
}
