/**
 * The narrow interface the search uses from the chess library: a position
 * type `P` and a move type `M`, both opaque, with legal-move enumeration,
 * move application, the end-of-game test and the piece list. `Board` models
 * the library's mutable board with its move stack (`push`/`pop`).
 */
module ChessGame {
  import opened Material

  /**
   * `moves(p)`: the legal moves of `p` in the library's enumeration order.
   * `apply(p, m)`: the position after playing `m`.
   * `ends(p)`: the game ended for a reason other than the side to move having
   * no legal move (insufficient material, the 75-move rule, fivefold repetition).
   * `pieces(p)`: the piece on each occupied square.
   */
  datatype Game<!P, !M> = Game(
    moves: P -> seq<M>,
    apply: (P, M) -> P,
    ends: P -> bool,
    pieces: P -> seq<Piece>)

  /** `board.is_game_over()`: checkmate and stalemate are exactly "no legal move". */
  predicate GameOver<P, M>(g: Game<P, M>, p: P) {
    |g.moves(p)| == 0 || g.ends(p)
  }

  /** One frame of the move stack: the position a move was played from, and the move. */
  datatype Entry<P, M> = Entry(before: P, move: M)

  /** Replaying the stack from its first frame's position leads to `pos`. */
  ghost predicate Replays<P, M>(g: Game<P, M>, stack: seq<Entry<P, M>>, pos: P)
    decreases |stack|
  {
    |stack| == 0 ||
    (var e := stack[|stack| - 1];
     pos == g.apply(e.before, e.move) && Replays(g, stack[..|stack| - 1], e.before))
  }

  class Board<P, M> {
    const game: Game<P, M>
    var pos: P
    var stack: seq<Entry<P, M>>

    ghost predicate Valid()
      reads this
    {
      Replays(game, stack, pos)
    }

    /** `chess.Board(fen)`: a board at the given position with an empty move stack. */
    constructor (game: Game<P, M>, start: P)
      ensures Valid() && this.game == game && pos == start && stack == []
    {
      this.game := game;
      pos := start;
      stack := [];
    }

    /** `board.legal_moves`. */
    function LegalMoves(): seq<M>
      reads this
    {
      game.moves(pos)
    }

    /** `board.is_game_over()`. */
    predicate IsGameOver()
      reads this
    {
      GameOver(game, pos)
    }

    /** `len(board.pieces(t, c))`. */
    function PieceCount(t: PieceType, c: Colour): nat
      reads this
    {
      Count(game.pieces(pos), c, t)
    }

    /** `board.push(m)`: play `m` and remember where it was played from. */
    method Push(m: M)
      requires Valid()
      modifies this
      ensures Valid()
      ensures pos == game.apply(old(pos), m)
      ensures stack == old(stack) + [Entry(old(pos), m)]
    {
      stack := stack + [Entry(pos, m)];
      pos := game.apply(pos, m);
      assert stack[..|stack| - 1] == old(stack);
    }

    /** `board.pop()`: take back the last move played and return it. */
    method Pop() returns (m: M)
      requires Valid() && |stack| > 0
      modifies this
      ensures Valid()
      ensures m == old(stack)[|old(stack)| - 1].move
      ensures pos == old(stack)[|old(stack)| - 1].before
      ensures stack == old(stack)[..|old(stack)| - 1]
    {
      var e := stack[|stack| - 1];
      m := e.move;
      pos := e.before;
      stack := stack[..|stack| - 1];
    }
  }
}
