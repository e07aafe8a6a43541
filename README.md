# Move search of the Brandeis Quant Club chess bot, modelled in Dafny

The bot of `bot.py` picks a chess move with a depth-limited minimax search
with alpha-beta bounds (`Bot.minimax`), scoring leaf positions by a material
count (`Bot.evaluate_board`), behind the entry point `Bot.next_move`, which
searches four plies deep for the maximizing side. The search runs on one
mutable board: each move is played with `push`, searched, and taken back with
`pop`.

The project models:

- the chess library as an abstract game (`ChessGame.Game`): opaque positions
  and moves, a deterministic list of legal moves, move application, the
  end-of-game test and the piece list. `GameOver` is "no legal move" (mate or
  stalemate) or the opaque `ends` (insufficient material, the 75-move rule,
  fivefold repetition), as the library's `is_game_over` does;
- the library board as a class (`ChessGame.Board`) with a position and a move
  stack; its invariant is that replaying the stack yields the position;
- scores as integers with the two sentinels −∞ and +∞ (`Scores.Score`), with
  Python's `<`, `<=`, `max` and `min` on them;
- the evaluator (`Material`) and its method (`Engine.Bot.EvaluateBoard`);
- plain minimax with first-seen tie-breaking (`Search.Minimax`), the reference
  the search is meant to compute;
- the search exactly as written (`AsWrittenSearch.AsWritten`, method
  `Engine.Bot.MinimaxAsWritten`), including Python's implicit `None` when the
  function runs off its end and the `TypeError` a caller then raises;
- the search with its two defects repaired (`Pruning.AlphaBeta`, method
  `Engine.Bot.MinimaxCorrected`), proved equal to plain minimax from the root;
- `next_move` over both searches (`Engine.Bot.NextMoveAsWritten`,
  `Engine.Bot.NextMove`).

What the code as written does, proved: the maximizing branch returns inside
its loop, so a maximizing node plays its first legal move; `alpha` is never
raised, so from the root call no cutoff ever fires and minimizing nodes
examine every move. As a consequence `next_move` always returns the first
legal move of a position that is not over. The root search always
maximizes, whichever side is to move (bot.py:81-82; the bot plays Black at
bot.py:158-159), and game-over leaves are scored by material only, with no
separate mate score.

## Model

The functions `Search.Minimax`, `AsWrittenSearch.AsWritten` (with
`AsWrittenMax` and `AsWrittenMinFrom`) and `Pruning.AlphaBeta` (with `MaxFrom`
and `MinFrom`) are the functional models of bot.py:88-120 that the
`Engine.Bot` search methods are proved equal to. `Minimax` is characterized by
`MinimaxNode` and `MinimaxFinite`; `AsWritten` by `AsWrittenIsFirstLine`,
`AsWrittenMaxPlaysFirstMove`, `AsWrittenMinExhausts` and
`AsWrittenMinIsFirstMinimum`; `AlphaBeta` by `AlphaBetaWindow` and
`AlphaBetaIsMinimax`, with `MaxFrom` and `MinFrom` by `MaxWindow` and
`MinWindow`.

| member | source | states |
|---|---|---|
| `Material.MaterialClosedForm` | bot.py:128-134 | the evaluation equals Σ over piece types of value × (#white − #black), with pawn 1, knight 3, bishop 3, rook 5, queen 9, king 0 |
| `Material.MaterialIsPieceSum` | bot.py:128-134 | the evaluation equals the sum, over the pieces on the board, of +value for a white piece and −value for a black one |
| `Material.MaterialNegatesUnderSwap` | bot.py:126-134 | exchanging the colours of all pieces negates the evaluation |
| `Material.StartPositionIsLevel` | bot.py:46-48 | the default starting position evaluates to 0 |
| `Scores.Max` | bot.py:102 | `max` returns one of its arguments, at least as large as both |
| `Scores.Min` | bot.py:117 | `min` returns one of its arguments, at most as large as both |
| `ChessGame.Board.constructor` | bot.py:46-48 | a new board stands at the given position with an empty move stack |
| `ChessGame.Board.Push` | bot.py:95 | `push` moves to the position after the move and records the move and the position it was played from; the stack still replays to the position |
| `ChessGame.Board.Pop` | bot.py:98 | `pop` returns the last move, restores the position it was played from and shortens the stack by one |
| `Search.BestFromBound` | bot.py:94-120 | the running best of the move loop never ends worse than its start or than any child examined |
| `Search.BestFromChosen` | bot.py:99-101 | the loop keeps its start state when no child strictly improves on it, and otherwise ends on a child that strictly beats the start and every child before it |
| `Search.BestIsFirstOptimum` | bot.py:99-116 | over finite child scores the loop returns the first move reaching the optimum, and that optimum |
| `Search.MinimaxFinite` | bot.py:89-120 | every minimax score is a finite evaluation: the ±∞ sentinels never reach a result |
| `Search.MinimaxNode` | bot.py:91-120 | an inner node replies with the first legal move whose child score is maximal (maximizing) or minimal (minimizing), and that score |
| `AsWrittenSearch.FirstLineFinite` | bot.py:89-120 | the scores the search as written computes from alpha = −∞ are finite |
| `AsWrittenSearch.AsWrittenIsFirstLine` | bot.py:88-120 | from alpha = −∞ and any beta above −∞, the search as written always returns a tuple and computes `FirstLine`: first move at maximizing nodes, first minimum over all moves at minimizing nodes |
| `AsWrittenSearch.AsWrittenMinExhausts` | bot.py:108-120 | with alpha = −∞ the minimizing loop never cuts off: it examines every remaining legal move and backs up the first minimum |
| `AsWrittenSearch.AsWrittenMaxPlaysFirstMove` | bot.py:91-105 | a maximizing node as written returns its first legal move with that child's score, because the `>` test against −∞ always fires and the loop returns after one child |
| `AsWrittenSearch.AsWrittenMinIsFirstMinimum` | bot.py:106-120 | a minimizing node as written returns the first move whose child score is the minimum over all legal moves, and that minimum |
| `AsWrittenSearch.FirstMoveCounterexample` | bot.py:99-105 | in a one-ply game where the second move wins a queen and the first loses one, the search as written plays the first (score −9) while minimax plays the second (score +9) |
| `Pruning.AlphaBetaWindow` | bot.py:88-120 | corrected search, window alpha < beta: inside the window it replies exactly as minimax (move and score); at or below alpha it reports at most alpha; at or above beta at least beta |
| `Pruning.MaxWindow` | bot.py:91-105 | the corrected maximizing loop agrees with the reference loop once the best exceeds the entry alpha, and otherwise stays at or below it |
| `Pruning.MinWindow` | bot.py:106-120 | the corrected minimizing loop agrees with the reference loop once the best falls below the entry beta, and otherwise stays at or above it |
| `Pruning.AlphaBetaIsMinimax` | bot.py:85 | from the root window (−∞, +∞) the corrected search replies exactly what plain minimax does, move and score, with first-seen tie-breaking |
| `Engine.Bot.constructor` | bot.py:46-48 | the bot owns a fresh board at the given starting position |
| `Engine.Bot.EvaluateBoard` | bot.py:122-134 | the loop over the value table returns the material score of the board's position |
| `Engine.Bot.MinimaxAsWritten` | bot.py:88-120 | returns what `AsWritten` specifies; at depth 0 or game over, no move and the evaluation; the board is restored on return unless a nested call raised |
| `Engine.Bot.MaximizeAsWritten` | bot.py:91-105 | the maximizing loop as written returns what `AsWrittenMax` specifies: after the first child, or `None` when that child broke the loop; the board is restored unless the child raised |
| `Engine.Bot.MinimizeAsWritten` | bot.py:106-120 | the minimizing loop as written returns what `AsWrittenMinFrom` specifies from the first move (loop invariant: beta only decreases); the board is restored unless a child raised |
| `Engine.Bot.MinimaxCorrected` | bot.py:88-120 | returns what `AlphaBeta` specifies; at depth 0 or game over, no move and the evaluation; the board is always restored |
| `Engine.Bot.MaximizeCorrected` | bot.py:91-105 | the repaired maximizing loop returns what `MaxFrom` specifies from the first move (loop invariant: alpha only rises); the board is restored |
| `Engine.Bot.MinimizeCorrected` | bot.py:106-120 | the minimizing loop over the corrected search returns what `MinFrom` specifies from the first move (loop invariant: beta only falls); the board is restored |
| `Engine.Bot.NextMoveAsWritten` | bot.py:64-83 | searches at depth 4 for the maximizing side, leaves the board unchanged, and returns the first legal move; on a finished game it fails with the `AttributeError` of `None.uci()` |
| `Engine.Bot.NextMove` | bot.py:64-83 | over the corrected search, returns the minimax move at depth 4 for the maximizing side, leaving the board unchanged; on a finished game it fails with `AttributeError` |

## Left out

- `game_manager` (bot.py:29-42): wall-clock timing and printing, which is I/O.
- The `__main__` game loop (bot.py:138-171): an interactive loop that takes the opponent's moves from the external `test_bot.get_move` and prints the outcome.
- `check_move_is_legal` (bot.py:50-62): a wrapper over `chess.Move.from_uci` and `board.legal_moves`, both foreign calls.
- `move.uci()` (bot.py:83): the notation conversion belongs to the chess library; `next_move` returns the move value itself.
- FEN parsing in `chess.Board(...)` (bot.py:47-48): the starting position is a parameter of the constructors; the default position's pieces are written out as `Material.StartPieces`.
- The rules of chess: legal-move generation, `is_game_over` beyond "no legal move", and `board.pieces` are the uninterpreted fields of `ChessGame.Game`.
- `ChessGame.Board.Pop`: requires a non-empty stack, where the library raises `IndexError`; the search only pops after a push.
- `ChessGame.Board.PieceCount`: gives the number of squares `board.pieces` returns, not the square set.
- The legal-move generator is lazy in the library; the model takes the list once per node, which is the same list because the board is restored before the next move is drawn.
- Floating point: the only floats in the search are the two infinities, modelled as `Scores.NegInf` and `Scores.PosInf`.
- The unused `random` import.

## Findings

| source | as written | input that shows it | evidently intended | confidence | as-written member | corrected member |
|---|---|---|---|---|---|---|
| bot.py:105 | `return best_move, max_eval` is indented inside the `for` loop, so a maximizing node returns after its first child | `TwoMoveGame` at depth 1: move 1 loses a queen (−9), move 2 wins one (+9); the search returns move 1 | return after the loop, as the minimizing branch does at bot.py:120 | high; not executed | `AsWrittenSearch.FirstMoveCounterexample` | `Pruning.AlphaBetaIsMinimax` |
| bot.py:102 | the raised bound is assigned to `alph`, so `alpha` keeps its entry value | the root call of bot.py:81-82 passes alpha = −∞; `beta <= alpha` (bot.py:103, 118) then never holds and no subtree is pruned | `alpha = max(alpha, cur_eval)` | high; not executed | `AsWrittenSearch.AsWrittenMinExhausts` | `Pruning.AlphaBetaWindow` |
