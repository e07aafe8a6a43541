/**
 * `Bot.minimax` exactly as bot.py:88-120 writes it. Two things differ from a
 * textbook alpha-beta search:
 *  - the `return` of bot.py:105 sits inside the `for` loop, so a maximizing
 *    node returns after its first child;
 *  - bot.py:102 assigns the raised bound to `alph`, so `alpha` never changes.
 * A Python function that runs off its end returns `None`; the caller's
 * `[1]` on that value raises `TypeError`. Both are part of the model.
 */
module AsWrittenSearch {
  import opened Wrappers
  import opened Material
  import opened Scores
  import opened ChessGame
  import opened Search

  /** How a call of `minimax` ends. */
  datatype Outcome<M> =
    | Returned(reply: Reply<M>)   // the tuple `(best_move, score)`
    | ReturnedNone                // ran off the end of the function
    | Raised                      // an exception escaped from a nested call

  function AsWritten<P, M>(g: Game<P, M>, p: P, depth: nat, alpha: Score, beta: Score, isMax: bool): Outcome<M>
    decreases depth, 1, 0
  {
    if depth == 0 || GameOver(g, p) then Returned(Reply(None, Fin(Evaluate(g, p))))
    else if isMax then AsWrittenMax(g, p, depth - 1, alpha, beta)
    else AsWrittenMinFrom(g, p, depth - 1, alpha, beta, 0, PosInf, None)
  }

  /** bot.py:92-105: the loop body runs for the first move and always leaves the loop. */
  function AsWrittenMax<P, M>(g: Game<P, M>, p: P, depth: nat, alpha: Score, beta: Score): Outcome<M>
    decreases depth, 2, 0
  {
    var ms := g.moves(p);
    if |ms| == 0 then ReturnedNone
    else
      var child := AsWritten(g, g.apply(p, ms[0]), depth, alpha, beta, false);
      if !child.Returned? then Raised
      else
        var cur := child.reply.score;
        var maxEval := if Lt(NegInf, cur) then cur else NegInf;
        var bestMove := if Lt(NegInf, cur) then Some(ms[0]) else None;
        // `alph = max(alpha, cur_eval)` is never read
        if Le(beta, alpha) then ReturnedNone
        else Returned(Reply(bestMove, maxEval))
  }

  /** bot.py:108-120 from the i-th move on, with the running `min_eval`, `best_move` and `beta`. */
  function AsWrittenMinFrom<P, M>(g: Game<P, M>, p: P, depth: nat, alpha: Score, beta: Score,
                                  i: nat, minEval: Score, bestMove: Option<M>): Outcome<M>
    decreases depth, 2, |g.moves(p)| - i
  {
    var ms := g.moves(p);
    if i >= |ms| then Returned(Reply(bestMove, minEval))
    else
      var child := AsWritten(g, g.apply(p, ms[i]), depth, alpha, beta, true);
      if !child.Returned? then Raised
      else
        var cur := child.reply.score;
        var minEval' := if Lt(cur, minEval) then cur else minEval;
        var bestMove' := if Lt(cur, minEval) then Some(ms[i]) else bestMove;
        var beta' := Min(beta, cur);
        if Le(beta', alpha) then Returned(Reply(bestMove', minEval'))
        else AsWrittenMinFrom(g, p, depth, alpha, beta', i + 1, minEval', bestMove')
  }

  /**
   * What the code computes when alpha is −∞: a maximizing node plays its
   * first legal move and takes that child's score; a minimizing node takes
   * the first minimum over all its children.
   */
  function FirstLine<P, M>(g: Game<P, M>, p: P, depth: nat, isMax: bool): Reply<M>
    decreases depth, 1
  {
    if depth == 0 || GameOver(g, p) then Reply(None, Fin(Evaluate(g, p)))
    else if isMax then
      var m := g.moves(p)[0];
      Reply(Some(m), FirstLine(g, g.apply(p, m), depth - 1, false).score)
    else Best(false, g.moves(p), FirstLineScores(g, p, depth - 1))
  }

  /** The `FirstLine` score of every child of a minimizing node, in move order. */
  function FirstLineScores<P, M>(g: Game<P, M>, p: P, depth: nat): (r: seq<Score>)
    ensures |r| == |g.moves(p)|
    decreases depth, 2
  {
    var ms := g.moves(p);
    seq(|ms|, j requires 0 <= j < |ms| => FirstLine(g, g.apply(p, ms[j]), depth, true).score)
  }

  /** `FirstLine` scores are finite evaluations. */
  lemma {:induction false} FirstLineFinite<P, M>(g: Game<P, M>, p: P, depth: nat, isMax: bool)
    ensures FirstLine(g, p, depth, isMax).score.Fin?
    decreases depth
  {
    if depth > 0 && !GameOver(g, p) {
      var ms := g.moves(p);
      if isMax {
        FirstLineFinite(g, g.apply(p, ms[0]), depth - 1, false);
      } else {
        var vals := FirstLineScores(g, p, depth - 1);
        forall j | 0 <= j < |vals| ensures vals[j].Fin? {
          FirstLineFinite(g, g.apply(p, ms[j]), depth - 1, true);
        }
        var k := BestIsFirstOptimum(false, ms, vals);
      }
    }
  }

  /**
   * From alpha = −∞ (the root call of bot.py:81-82 passes it down unchanged,
   * since alpha is never assigned) and any beta above −∞, the search always
   * returns a tuple, never cuts off, and computes `FirstLine`.
   */
  lemma {:induction false} AsWrittenIsFirstLine<P, M>(g: Game<P, M>, p: P, depth: nat, beta: Score, isMax: bool)
    requires beta != NegInf
    ensures AsWritten(g, p, depth, NegInf, beta, isMax) == Returned(FirstLine(g, p, depth, isMax))
    decreases depth, 1, 0
  {
    if depth > 0 && !GameOver(g, p) {
      var ms := g.moves(p);
      if isMax {
        AsWrittenIsFirstLine(g, g.apply(p, ms[0]), depth - 1, beta, false);
        FirstLineFinite(g, g.apply(p, ms[0]), depth - 1, false);
      } else {
        AsWrittenMinExhausts(g, p, depth - 1, beta, 0, PosInf, None);
      }
    }
  }

  /**
   * The minimizing loop, entered with alpha = −∞ and beta above −∞, examines
   * every remaining legal move: `beta <= alpha` (bot.py:118) never holds.
   */
  lemma {:induction false} AsWrittenMinExhausts<P, M>(g: Game<P, M>, p: P, depth: nat, beta: Score,
                                                     i: nat, minEval: Score, bestMove: Option<M>)
    requires beta != NegInf && i <= |g.moves(p)|
    ensures AsWrittenMinFrom(g, p, depth, NegInf, beta, i, minEval, bestMove) ==
            Returned(BestFrom(false, g.moves(p), FirstLineScores(g, p, depth), i, minEval, bestMove))
    decreases depth, 2, |g.moves(p)| - i
  {
    var ms := g.moves(p);
    if i < |ms| {
      var child := g.apply(p, ms[i]);
      AsWrittenIsFirstLine(g, child, depth, beta, true);
      FirstLineFinite(g, child, depth, true);
      var cur := FirstLine(g, child, depth, true).score;
      var minEval' := if Lt(cur, minEval) then cur else minEval;
      var bestMove' := if Lt(cur, minEval) then Some(ms[i]) else bestMove;
      AsWrittenMinExhausts(g, p, depth, Min(beta, cur), i + 1, minEval', bestMove');
    }
  }

  /**
   * A maximizing node as written: from alpha = −∞ it returns its first legal
   * move, with that child's score, whatever the other moves are worth.
   */
  lemma AsWrittenMaxPlaysFirstMove<P, M>(g: Game<P, M>, p: P, depth: nat, beta: Score)
    requires depth > 0 && !GameOver(g, p) && beta != NegInf
    ensures var m := g.moves(p)[0];
      AsWritten(g, p, depth, NegInf, beta, true) ==
      Returned(Reply(Some(m), FirstLine(g, g.apply(p, m), depth - 1, false).score))
  {
    AsWrittenIsFirstLine(g, p, depth, beta, true);
  }

  /**
   * A minimizing node as written: from alpha = −∞ it returns the first move
   * whose child score is the minimum over all legal moves, and that minimum.
   */
  lemma AsWrittenMinIsFirstMinimum<P, M>(g: Game<P, M>, p: P, depth: nat, beta: Score) returns (k: nat)
    requires depth > 0 && !GameOver(g, p) && beta != NegInf
    ensures var ms, vals := g.moves(p), FirstLineScores(g, p, depth - 1);
      k < |ms| &&
      AsWritten(g, p, depth, NegInf, beta, false) == Returned(Reply(Some(ms[k]), vals[k])) &&
      (forall j :: 0 <= j < |ms| ==> Le(vals[k], vals[j])) &&
      (forall j :: 0 <= j < k ==> Lt(vals[k], vals[j]))
  {
    var ms, vals := g.moves(p), FirstLineScores(g, p, depth - 1);
    AsWrittenIsFirstLine(g, p, depth, beta, false);
    forall j | 0 <= j < |vals| ensures vals[j].Fin? {
      FirstLineFinite(g, g.apply(p, ms[j]), depth - 1, true);
    }
    k := BestIsFirstOptimum(false, ms, vals);
  }

  /** A one-ply game: from position 0 the legal moves are 1 and 2, and each leads to the position of the same number. */
  function TwoMoveGame(): Game<int, int> {
    Game(
      p => if p == 0 then [1, 2] else [],
      (p, m) => m,
      p => false,
      p => if p == 1 then [Piece(Black, Queen)] else if p == 2 then [Piece(White, Queen)] else [])
  }

  /**
   * The return at bot.py:105: White can win a queen with move 2 but the
   * search plays move 1, which loses one, while minimax picks move 2.
   */
  lemma FirstMoveCounterexample()
    ensures AsWritten(TwoMoveGame(), 0, 1, NegInf, PosInf, true) == Returned(Reply(Some(1), Fin(-9)))
    ensures Minimax(TwoMoveGame(), 0, 1, true) == Reply(Some(2), Fin(9))
  {
    var g := TwoMoveGame();
    assert g.moves(0) == [1, 2];
    assert Evaluate(g, 1) == -9 by { MaterialIsPieceSum([Piece(Black, Queen)]); }
    assert Evaluate(g, 2) == 9 by { MaterialIsPieceSum([Piece(White, Queen)]); }
    var vals := ChildScores(g, 0, 0, false);
    assert vals[0] == Minimax(g, 1, 0, false).score == Fin(-9);
    assert vals[1] == Minimax(g, 2, 0, false).score == Fin(9);
    assert BestFrom(true, [1, 2], vals, 1, Fin(-9), Some(1)) == Reply(Some(2), Fin(9));
  }
}
