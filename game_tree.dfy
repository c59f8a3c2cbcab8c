/** The rules engine's view of a chess position, as an abstract finite game
    tree.  The search engine only ever asks a position whether it is
    checkmate or otherwise over, whose turn it is, how many pieces of each
    colour and type it holds, and which positions its legal moves lead to;
    a Position carries exactly those answers.  Real chess rules (move
    generation, check detection) are not modelled. */
module GameTree {

  datatype Colour = White | Black

  datatype PieceType = Pawn | Knight | Bishop | Rook | Queen | King

  /** How many pieces of each type one colour has on the board. */
  datatype PieceCounts = PieceCounts(
    pawns: nat, knights: nat, bishops: nat, rooks: nat, queens: nat, kings: nat)

  /** A position.  `children` lists the positions reached by the legal moves,
      in the order the rules engine enumerates them; the i-th legal move is
      identified with the index i. */
  datatype Position = Position(
    isCheckmate: bool,
    isGameOver: bool,
    whiteToMove: bool,
    white: PieceCounts,
    black: PieceCounts,
    children: seq<Position>)

  function CountOf(counts: PieceCounts, t: PieceType): nat
  {
    match t
    case Pawn => counts.pawns
    case Knight => counts.knights
    case Bishop => counts.bishops
    case Rook => counts.rooks
    case Queen => counts.queens
    case King => counts.kings
  }

  /** The number of pieces of type `t` and colour `c` in `p`. */
  function Pieces(p: Position, t: PieceType, c: Colour): nat
  {
    match c
    case White => CountOf(p.white, t)
    case Black => CountOf(p.black, t)
  }

  /** The same position with the two sides' material and the side to move
      exchanged. */
  function SwapColours(p: Position): Position
  {
    p.(white := p.black, black := p.white, whiteToMove := !p.whiteToMove)
  }
}
