/**
 * The class `Bot` of bot.py:45-134: the searching methods run on a mutable
 * `Board`, playing each move with `Push` and taking it back with `Pop`, and
 * are proved against the functions of `Search`, `AsWritten` and `Pruning`.
 */
module Engine {
  import opened Wrappers
  import opened Material
  import opened Scores
  import opened ChessGame
  import opened Search
  import opened AsWrittenSearch
  import opened Pruning

  /** The exceptions `next_move` can raise at bot.py:81-83. */
  datatype PyError =
    | AttributeError   // `move.uci()` on a `None` move
    | TypeError        // unpacking or subscripting a `None` result

  /** The search depth of bot.py:80. */
  const MaxDepth: nat := 4

  class Bot<P, M> {
    const board: Board<P, M>

    /** `Bot(fen)`: a bot owning a fresh board at `start`. */
    constructor (game: Game<P, M>, start: P)
      ensures board.Valid() && board.game == game && board.pos == start && board.stack == []
      ensures fresh(board)
    {
      board := new Board(game, start);
    }

    /** `evaluate_board` (bot.py:122-134): one pass over the value table. */
    method EvaluateBoard(board: Board<P, M>) returns (value: int)
      ensures value == MaterialScore(board.game.pieces(board.pos))
    {
      ghost var ps := board.game.pieces(board.pos);
      value := 0;
      for k := 0 to |PieceTypes|
        invariant value == TypeSum(ps, PieceTypes[..k])
      {
        var piece := PieceTypes[k];
        var pieceValue := Value(piece);
        value := value + board.PieceCount(piece, White) * pieceValue;
        value := value - board.PieceCount(piece, Black) * pieceValue;
        assert PieceTypes[..k + 1][..k] == PieceTypes[..k];
      }
      assert PieceTypes[..|PieceTypes|] == PieceTypes;
    }

    /**
     * `minimax` as bot.py:88-120 writes it. Every child is searched between a
     * `Push` and a `Pop`, so the board is back at its entry state on return,
     * unless a nested call raised: Python then skips the `pop()`.
     */
    method MinimaxAsWritten(board: Board<P, M>, depth: nat, alpha: Score, beta: Score, isMaximizing: bool)
      returns (out: Outcome<M>)
      requires board.Valid()
      modifies board
      ensures board.Valid()
      ensures !out.Raised? ==> board.pos == old(board.pos) && board.stack == old(board.stack)
      ensures depth == 0 || GameOver(board.game, old(board.pos)) ==>
        out == Returned(Reply(None, Fin(Evaluate(board.game, old(board.pos)))))
      ensures out == AsWritten(board.game, old(board.pos), depth, alpha, beta, isMaximizing)
      decreases depth, 1
    {
      if depth == 0 || board.IsGameOver() {
        var v := EvaluateBoard(board);
        return Returned(Reply(None, Fin(v)));
      }
      if isMaximizing {
        out := MaximizeAsWritten(board, depth, alpha, beta);
      } else {
        out := MinimizeAsWritten(board, depth, alpha, beta);
      }
    }

    /** The maximizing branch as written (bot.py:91-105): its loop leaves after the first move. */
    method MaximizeAsWritten(board: Board<P, M>, depth: nat, alpha: Score, beta: Score) returns (out: Outcome<M>)
      requires board.Valid() && depth > 0
      modifies board
      ensures board.Valid()
      ensures !out.Raised? ==> board.pos == old(board.pos) && board.stack == old(board.stack)
      ensures out == AsWrittenMax(board.game, old(board.pos), depth - 1, alpha, beta)
      decreases depth, 0
    {
      ghost var p := board.pos;
      var moves := board.LegalMoves();
      var maxEval := NegInf;
      var bestMove: Option<M> := None;
      for i := 0 to |moves|
        invariant i == 0 && board.pos == p && board.stack == old(board.stack) && board.Valid()
      {
        board.Push(moves[i]);
        var child := MinimaxAsWritten(board, depth - 1, alpha, beta, false);
        if !child.Returned? {
          return Raised;
        }
        var _ := board.Pop();
        var curEval := child.reply.score;
        if Lt(maxEval, curEval) {
          maxEval := curEval;
          bestMove := Some(moves[i]);
        }
        var alph := Max(alpha, curEval);
        if Le(beta, alpha) {
          break;
        }
        return Returned(Reply(bestMove, maxEval));
      }
      return ReturnedNone;
    }

    /** The minimizing branch as written (bot.py:106-120): beta only falls and alpha never changes. */
    method MinimizeAsWritten(board: Board<P, M>, depth: nat, alpha: Score, beta: Score) returns (out: Outcome<M>)
      requires board.Valid() && depth > 0
      modifies board
      ensures board.Valid()
      ensures !out.Raised? ==> board.pos == old(board.pos) && board.stack == old(board.stack)
      ensures out == AsWrittenMinFrom(board.game, old(board.pos), depth - 1, alpha, beta, 0, PosInf, None)
      decreases depth, 0
    {
      ghost var p := board.pos;
      var moves := board.LegalMoves();
      var minEval := PosInf;
      var bestMove: Option<M> := None;
      ghost var beta0 := beta;
      var beta := beta;
      for i := 0 to |moves|
        invariant board.pos == p && board.stack == old(board.stack) && board.Valid()
        invariant Le(beta, beta0)
        invariant AsWrittenMinFrom(board.game, p, depth - 1, alpha, beta0, 0, PosInf, None) ==
                  AsWrittenMinFrom(board.game, p, depth - 1, alpha, beta, i, minEval, bestMove)
      {
        board.Push(moves[i]);
        var child := MinimaxAsWritten(board, depth - 1, alpha, beta, true);
        if !child.Returned? {
          return Raised;
        }
        var _ := board.Pop();
        var curEval := child.reply.score;
        if Lt(curEval, minEval) {
          minEval := curEval;
          bestMove := Some(moves[i]);
        }
        beta := Min(beta, curEval);
        if Le(beta, alpha) {
          break;
        }
      }
      return Returned(Reply(bestMove, minEval));
    }

    /**
     * The corrected search: alpha is raised from the running best and the
     * maximizing return follows the loop. The board is always restored.
     */
    method MinimaxCorrected(board: Board<P, M>, depth: nat, alpha: Score, beta: Score, isMaximizing: bool)
      returns (bestMove: Option<M>, score: Score)
      requires board.Valid()
      modifies board
      ensures board.Valid() && board.pos == old(board.pos) && board.stack == old(board.stack)
      ensures depth == 0 || GameOver(board.game, old(board.pos)) ==>
        bestMove == None && score == Fin(Evaluate(board.game, old(board.pos)))
      ensures Reply(bestMove, score) == AlphaBeta(board.game, old(board.pos), depth, alpha, beta, isMaximizing)
      decreases depth, 1
    {
      if depth == 0 || board.IsGameOver() {
        var v := EvaluateBoard(board);
        return None, Fin(v);
      }
      if isMaximizing {
        bestMove, score := MaximizeCorrected(board, depth, alpha, beta);
      } else {
        bestMove, score := MinimizeCorrected(board, depth, alpha, beta);
      }
    }

    /** The corrected maximizing branch: alpha rises with every child, the return follows the loop. */
    method MaximizeCorrected(board: Board<P, M>, depth: nat, alpha: Score, beta: Score)
      returns (bestMove: Option<M>, maxEval: Score)
      requires board.Valid() && depth > 0
      modifies board
      ensures board.Valid() && board.pos == old(board.pos) && board.stack == old(board.stack)
      ensures Reply(bestMove, maxEval) == MaxFrom(board.game, old(board.pos), depth - 1, 0, alpha, beta, NegInf, None)
      decreases depth, 0
    {
      ghost var p := board.pos;
      var moves := board.LegalMoves();
      maxEval := NegInf;
      bestMove := None;
      ghost var alpha0 := alpha;
      var alpha := alpha;
      for i := 0 to |moves|
        invariant board.pos == p && board.stack == old(board.stack) && board.Valid()
        invariant Le(alpha0, alpha)
        invariant MaxFrom(board.game, p, depth - 1, 0, alpha0, beta, NegInf, None) ==
                  MaxFrom(board.game, p, depth - 1, i, alpha, beta, maxEval, bestMove)
      {
        board.Push(moves[i]);
        var _, curEval := MinimaxCorrected(board, depth - 1, alpha, beta, false);
        var _ := board.Pop();
        if Lt(maxEval, curEval) {
          maxEval := curEval;
          bestMove := Some(moves[i]);
        }
        alpha := Max(alpha, curEval);
        if Le(beta, alpha) {
          break;
        }
      }
    }

    /** The corrected minimizing branch (bot.py:106-120 unchanged): beta falls with every child. */
    method MinimizeCorrected(board: Board<P, M>, depth: nat, alpha: Score, beta: Score)
      returns (bestMove: Option<M>, minEval: Score)
      requires board.Valid() && depth > 0
      modifies board
      ensures board.Valid() && board.pos == old(board.pos) && board.stack == old(board.stack)
      ensures Reply(bestMove, minEval) == MinFrom(board.game, old(board.pos), depth - 1, 0, alpha, beta, PosInf, None)
      decreases depth, 0
    {
      ghost var p := board.pos;
      var moves := board.LegalMoves();
      minEval := PosInf;
      bestMove := None;
      ghost var beta0 := beta;
      var beta := beta;
      for i := 0 to |moves|
        invariant board.pos == p && board.stack == old(board.stack) && board.Valid()
        invariant Le(beta, beta0)
        invariant MinFrom(board.game, p, depth - 1, 0, alpha, beta0, PosInf, None) ==
                  MinFrom(board.game, p, depth - 1, i, alpha, beta, minEval, bestMove)
      {
        board.Push(moves[i]);
        var _, curEval := MinimaxCorrected(board, depth - 1, alpha, beta, true);
        var _ := board.Pop();
        if Lt(curEval, minEval) {
          minEval := curEval;
          bestMove := Some(moves[i]);
        }
        beta := Min(beta, curEval);
        if Le(beta, alpha) {
          break;
        }
      }
    }

    /**
     * `next_move` as written (bot.py:64-83): a depth-4 search for the
     * maximizing side, whichever side is to move. Because of bot.py:105 it
     * plays the first legal move; on a finished game `move` is `None` and
     * `move.uci()` raises.
     */
    method NextMoveAsWritten() returns (r: Result<M, PyError>)
      requires board.Valid()
      modifies board
      ensures board.Valid() && board.pos == old(board.pos) && board.stack == old(board.stack)
      ensures r == if GameOver(board.game, board.pos) then Failure(AttributeError)
                   else Success(board.game.moves(board.pos)[0])
    {
      var maxDepth := MaxDepth;
      AsWrittenIsFirstLine(board.game, board.pos, maxDepth, PosInf, true);
      var out := MinimaxAsWritten(board, maxDepth, NegInf, PosInf, true);
      match out
      case Returned(Reply(Some(move), _)) => r := Success(move);
      case Returned(Reply(None, _)) => r := Failure(AttributeError);
      case ReturnedNone => r := Failure(TypeError);
      case Raised => r := Failure(TypeError);
    }

    /** `next_move` over the corrected search: the minimax move at depth 4 for the maximizing side. */
    method NextMove() returns (r: Result<M, PyError>)
      requires board.Valid()
      modifies board
      ensures board.Valid() && board.pos == old(board.pos) && board.stack == old(board.stack)
      ensures GameOver(board.game, board.pos) ==> r == Failure(AttributeError)
      ensures !GameOver(board.game, board.pos) ==>
        Minimax(board.game, board.pos, MaxDepth, true).move.Some? &&
        r == Success(Minimax(board.game, board.pos, MaxDepth, true).move.value)
    {
      var maxDepth := MaxDepth;
      AlphaBetaIsMinimax(board.game, board.pos, maxDepth, true);
      if !board.IsGameOver() {
        var k := MinimaxNode(board.game, board.pos, maxDepth, true);
      }
      var move, _ := MinimaxCorrected(board, maxDepth, NegInf, PosInf, true);
      match move
      case Some(m) => r := Success(m);
      case None => r := Failure(AttributeError);
    }
  }
}
