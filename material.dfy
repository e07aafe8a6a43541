/**
 * The static evaluator `Bot.evaluate_board` (bot.py:122-134): a pure material
 * count, positive when White is ahead. A position is seen through the pieces
 * standing on it, one `Piece` per occupied square, in square order.
 */
module Material {
  datatype Colour = White | Black
  datatype PieceType = Pawn | Knight | Bishop | Rook | Queen | King
  datatype Piece = Piece(colour: Colour, kind: PieceType)

  /** The `piece_values` table of bot.py:128-129; the king counts for nothing. */
  function Value(t: PieceType): int {
    match t
    case Pawn => 1
    case Knight => 3
    case Bishop => 3
    case Rook => 5
    case Queen => 9
    case King => 0
  }

  /** The keys of `piece_values` in the order the dictionary yields them. */
  const PieceTypes: seq<PieceType> := [Pawn, Knight, Bishop, Rook, Queen, King]

  /** `len(board.pieces(t, c))`: how many pieces of colour `c` and type `t` stand on the board. */
  function Count(ps: seq<Piece>, c: Colour, t: PieceType): nat {
    if ps == [] then 0
    else (if ps[0] == Piece(c, t) then 1 else 0) + Count(ps[1..], c, t)
  }

  /** Value(t) * (#white t - #black t), summed over the piece types in `ts`. */
  function TypeSum(ps: seq<Piece>, ts: seq<PieceType>): int {
    if ts == [] then 0
    else
      var t := ts[|ts| - 1];
      TypeSum(ps, ts[..|ts| - 1]) + Value(t) * Count(ps, White, t) - Value(t) * Count(ps, Black, t)
  }

  /** The score `evaluate_board` computes: the type sum over the whole table. */
  function MaterialScore(ps: seq<Piece>): int {
    TypeSum(ps, PieceTypes)
  }

  /** What one piece contributes: its value for White, minus its value for Black. */
  function Signed(x: Piece): int {
    if x.colour == White then Value(x.kind) else -Value(x.kind)
  }

  /** An independent reading of the material count: piece by piece. */
  function PieceSum(ps: seq<Piece>): int {
    if ps == [] then 0 else Signed(ps[0]) + PieceSum(ps[1..])
  }

  function Opponent(c: Colour): Colour {
    if c == White then Black else White
  }

  /** The same board with every piece's colour exchanged. */
  function SwapColours(ps: seq<Piece>): (r: seq<Piece>)
    ensures |r| == |ps|
    ensures forall i :: 0 <= i < |ps| ==> r[i] == Piece(Opponent(ps[i].colour), ps[i].kind)
  {
    if ps == [] then [] else [Piece(Opponent(ps[0].colour), ps[0].kind)] + SwapColours(ps[1..])
  }

  /** The table sum written out: Σ over piece types of value × (#white − #black). */
  lemma MaterialClosedForm(ps: seq<Piece>)
    ensures MaterialScore(ps) ==
      1 * (Count(ps, White, Pawn) - Count(ps, Black, Pawn)) +
      3 * (Count(ps, White, Knight) - Count(ps, Black, Knight)) +
      3 * (Count(ps, White, Bishop) - Count(ps, Black, Bishop)) +
      5 * (Count(ps, White, Rook) - Count(ps, Black, Rook)) +
      9 * (Count(ps, White, Queen) - Count(ps, Black, Queen)) +
      0 * (Count(ps, White, King) - Count(ps, Black, King))
  {
    var ts := PieceTypes;
    assert TypeSum(ps, ts[..1]) == Count(ps, White, Pawn) - Count(ps, Black, Pawn) by {
      assert ts[..1][..0] == [];
    }
    assert TypeSum(ps, ts[..2]) == TypeSum(ps, ts[..1]) + 3 * (Count(ps, White, Knight) - Count(ps, Black, Knight)) by {
      assert ts[..2][..1] == ts[..1];
    }
    assert TypeSum(ps, ts[..3]) == TypeSum(ps, ts[..2]) + 3 * (Count(ps, White, Bishop) - Count(ps, Black, Bishop)) by {
      assert ts[..3][..2] == ts[..2];
    }
    assert TypeSum(ps, ts[..4]) == TypeSum(ps, ts[..3]) + 5 * (Count(ps, White, Rook) - Count(ps, Black, Rook)) by {
      assert ts[..4][..3] == ts[..3];
    }
    assert TypeSum(ps, ts[..5]) == TypeSum(ps, ts[..4]) + 9 * (Count(ps, White, Queen) - Count(ps, Black, Queen)) by {
      assert ts[..5][..4] == ts[..4];
    }
    assert TypeSum(ps, ts) == TypeSum(ps, ts[..5]) by {
      assert ts[..5] == ts[..|ts| - 1];
    }
  }

  /** Adding one piece in front changes the evaluation by exactly that piece's signed value. */
  lemma MaterialCons(x: Piece, ps: seq<Piece>)
    ensures MaterialScore([x] + ps) == MaterialScore(ps) + Signed(x)
  {
    MaterialClosedForm([x] + ps);
    MaterialClosedForm(ps);
    assert ([x] + ps)[0] == x && ([x] + ps)[1..] == ps;
  }

  /** Evaluation counts every piece exactly once at its table value (bot.py:130-134). */
  lemma {:induction false} MaterialIsPieceSum(ps: seq<Piece>)
    ensures MaterialScore(ps) == PieceSum(ps)
  {
    if ps == [] {
      MaterialClosedForm(ps);
    } else {
      MaterialIsPieceSum(ps[1..]);
      MaterialCons(ps[0], ps[1..]);
      assert [ps[0]] + ps[1..] == ps;
    }
  }

  /** Exchanging the colours of all pieces negates the evaluation. */
  lemma {:induction false} MaterialNegatesUnderSwap(ps: seq<Piece>)
    ensures MaterialScore(SwapColours(ps)) == -MaterialScore(ps)
  {
    SwapPieceSum(ps);
    MaterialIsPieceSum(ps);
    MaterialIsPieceSum(SwapColours(ps));
  }

  lemma {:induction false} SwapPieceSum(ps: seq<Piece>)
    ensures PieceSum(SwapColours(ps)) == -PieceSum(ps)
  {
    if ps != [] {
      SwapPieceSum(ps[1..]);
      assert SwapColours(ps)[1..] == SwapColours(ps[1..]);
    }
  }

  /** The back rank of the starting position from a player's side, a-file to h-file. */
  function BackRank(c: Colour): seq<Piece> {
    [Piece(c, Rook), Piece(c, Knight), Piece(c, Bishop), Piece(c, Queen),
     Piece(c, King), Piece(c, Bishop), Piece(c, Knight), Piece(c, Rook)]
  }

  function PawnRank(c: Colour): seq<Piece> {
    [Piece(c, Pawn), Piece(c, Pawn), Piece(c, Pawn), Piece(c, Pawn),
     Piece(c, Pawn), Piece(c, Pawn), Piece(c, Pawn), Piece(c, Pawn)]
  }

  /**
   * The pieces of the default position "rnbqkbnr/pppppppp/8/8/8/8/PPPPPPPP/RNBQKBNR"
   * of bot.py:48, rank 8 first.
   */
  function StartPieces(): seq<Piece> {
    BackRank(Black) + PawnRank(Black) + PawnRank(White) + BackRank(White)
  }

  lemma {:induction false} PieceSumAppend(a: seq<Piece>, b: seq<Piece>)
    ensures PieceSum(a + b) == PieceSum(a) + PieceSum(b)
  {
    if a == [] {
      assert a + b == b;
    } else {
      PieceSumAppend(a[1..], b);
      assert (a + b)[0] == a[0];
      assert (a + b)[1..] == a[1..] + b;
    }
  }

  /** The starting position is materially level: it evaluates to 0. */
  lemma StartPositionIsLevel()
    ensures MaterialScore(StartPieces()) == 0
  {
    var bb, bp, wp, wb := BackRank(Black), PawnRank(Black), PawnRank(White), BackRank(White);
    assert PieceSum(bb) == -31 && PieceSum(wb) == 31;
    assert PieceSum(bp) == -8 && PieceSum(wp) == 8;
    PieceSumAppend(bb, bp);
    PieceSumAppend(bb + bp, wp);
    PieceSumAppend(bb + bp + wp, wb);
    MaterialIsPieceSum(StartPieces());
  }
}
