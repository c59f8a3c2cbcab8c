/** The score scale shared by the evaluator and the search.  Scores are from
    White's point of view.  The two sentinel magnitudes differ: the score for
    White being checkmated has 52 digits, while the "infinity" that starts
    every search and the score for Black being checkmated have 46. */
module Scores {

  /** The search's +infinity; also the score of Black being checkmated. */
  const Infinity: int := 6969696969696969696969696969696969696969696969

  /** The score of a checkmate with White to move (White has lost). */
  const WhiteMatedScore: int := -6969696969696969696969696969696969696969696969696969

  /** The score of a checkmate with Black to move (White has won). */
  const BlackMatedScore: int := 6969696969696969696969696969696969696969696969

  /** Python's two-argument max and min on integers. */
  function Max(a: int, b: int): (r: int)
    ensures r >= a && r >= b && (r == a || r == b)
  {
    if a >= b then a else b
  }

  function Min(a: int, b: int): (r: int)
    ensures r <= a && r <= b && (r == a || r == b)
  {
    if a <= b then a else b
  }
}
