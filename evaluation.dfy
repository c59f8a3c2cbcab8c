/** The static evaluator: a checkmate scores a fixed sentinel chosen by the
    side to move, any other finished game scores 0, and every other position
    scores its weighted material balance, White minus Black. */
module Evaluation {
  import opened GameTree
  import opened Scores
  import opened Chessboard

  /** The piece table, in the order its entries are summed. */
  const PieceOrder: seq<PieceType> := [Pawn, Knight, Bishop, Rook, Queen, King]

  function Weight(t: PieceType): nat
  {
    match t
    case Pawn => 100
    case Knight => 320
    case Bishop => 330
    case Rook => 500
    case Queen => 900
    case King => 20000
  }

  /** The material balance contributed by the first `n` entries of the table. */
  function MaterialUpTo(p: Position, n: nat): int
    requires n <= |PieceOrder|
  {
    if n == 0 then 0
    else
      var t := PieceOrder[n - 1];
      MaterialUpTo(p, n - 1) + Pieces(p, t, White) * Weight(t) - Pieces(p, t, Black) * Weight(t)
  }

  function Material(p: Position): int
  {
    MaterialUpTo(p, |PieceOrder|)
  }

  /** The score of `p` from White's point of view. */
  function Evaluate(p: Position): int
  {
    if p.isCheckmate then
      if p.whiteToMove then WhiteMatedScore else BlackMatedScore
    else if p.isGameOver then 0
    else Material(p)
  }

  /** Scores the position on the board, summing the table entry by entry. */
  method EvaluateBoard(board: Board) returns (score: int)
    requires board.Valid()
    ensures score == Evaluate(board.Current())
  {
    var p := board.Current();
    if p.isCheckmate {
      if p.whiteToMove {
        return WhiteMatedScore;
      } else {
        return BlackMatedScore;
      }
    }
    if p.isGameOver {
      return 0;
    }
    score := 0;
    var i := 0;
    while i < |PieceOrder|
      invariant 0 <= i <= |PieceOrder|
      invariant score == MaterialUpTo(p, i)
    {
      var t := PieceOrder[i];
      score := score + Pieces(p, t, White) * Weight(t);
      score := score - Pieces(p, t, Black) * Weight(t);
      i := i + 1;
    }
  }

  /** A checkmate scores the 52-digit loss when White is to move and the
      46-digit win when Black is to move; the loss lies below -Infinity. */
  lemma CheckmateScores(p: Position)
    requires p.isCheckmate
    ensures p.whiteToMove ==> Evaluate(p) == WhiteMatedScore && Evaluate(p) < -Infinity
    ensures !p.whiteToMove ==> Evaluate(p) == BlackMatedScore == Infinity
  {
  }

  /** A finished game that is not checkmate (stalemate, a draw) scores 0. */
  lemma DrawScoresZero(p: Position)
    requires p.isGameOver && !p.isCheckmate
    ensures Evaluate(p) == 0
  {
  }

  /** On a position that is not over, the score is the weighted difference of
      the two sides' piece counts. */
  lemma {:induction false} MaterialBalance(p: Position)
    requires !p.isCheckmate && !p.isGameOver
    ensures Evaluate(p) ==
      100 * (p.white.pawns - p.black.pawns) + 320 * (p.white.knights - p.black.knights)
      + 330 * (p.white.bishops - p.black.bishops) + 500 * (p.white.rooks - p.black.rooks)
      + 900 * (p.white.queens - p.black.queens) + 20000 * (p.white.kings - p.black.kings)
  {
    assert MaterialUpTo(p, 1) == 100 * (p.white.pawns - p.black.pawns);
    assert MaterialUpTo(p, 2) == MaterialUpTo(p, 1) + 320 * (p.white.knights - p.black.knights);
    assert MaterialUpTo(p, 3) == MaterialUpTo(p, 2) + 330 * (p.white.bishops - p.black.bishops);
    assert MaterialUpTo(p, 4) == MaterialUpTo(p, 3) + 500 * (p.white.rooks - p.black.rooks);
    assert MaterialUpTo(p, 5) == MaterialUpTo(p, 4) + 900 * (p.white.queens - p.black.queens);
    assert MaterialUpTo(p, 6) == MaterialUpTo(p, 5) + 20000 * (p.white.kings - p.black.kings);
  }

  /** Outside checkmate, the score does not depend on whose turn it is. */
  lemma EvaluateIgnoresTurn(p: Position)
    requires !p.isCheckmate
    ensures Evaluate(p.(whiteToMove := !p.whiteToMove)) == Evaluate(p)
  {
    if !p.isGameOver {
      MaterialBalance(p);
      MaterialBalance(p.(whiteToMove := !p.whiteToMove));
    }
  }

  /** Two lone kings score 0: as a finished game (insufficient material) or,
      if the game goes on, because their material balances out. */
  lemma LoneKingsScoreZero(p: Position)
    requires !p.isCheckmate
    requires p.white == p.black == PieceCounts(0, 0, 0, 0, 0, 1)
    ensures Evaluate(p) == 0
  {
    if !p.isGameOver {
      MaterialBalance(p);
    }
  }

  /** Exchanging the two sides' material negates the score of a position that
      is not over. */
  lemma SwapColoursNegates(p: Position)
    requires !p.isCheckmate && !p.isGameOver
    ensures Evaluate(SwapColours(p)) == -Evaluate(p)
  {
    MaterialBalance(p);
    MaterialBalance(SwapColours(p));
  }
}
