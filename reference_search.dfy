/** Plain depth-limited minimax without pruning: the reference the pruned
    search is measured against.  A maximising node takes the maximum of
    -Infinity and its children's values, a minimising node the minimum of
    +Infinity and its children's values, over every child in order. */
module ReferenceSearch {
  import opened GameTree
  import opened Scores
  import opened Evaluation

  function Minimax(p: Position, depth: nat, maximizing: bool): int
    decreases depth, 1
  {
    if depth == 0 || p.isGameOver then Evaluate(p)
    else if maximizing then MaxOver(p.children, 0, depth)
    else MinOver(p.children, 0, depth)
  }

  /** The maximum of -Infinity and the minimising values of cs[i..]. */
  function MaxOver(cs: seq<Position>, i: nat, depth: nat): (r: int)
    requires 1 <= depth && i <= |cs|
    decreases depth, 0, |cs| - i
    ensures r >= -Infinity
    ensures forall k :: i <= k < |cs| ==> Minimax(cs[k], depth - 1, false) <= r
    ensures r == -Infinity || exists k :: i <= k < |cs| && r == Minimax(cs[k], depth - 1, false)
  {
    if i == |cs| then -Infinity
    else Max(Minimax(cs[i], depth - 1, false), MaxOver(cs, i + 1, depth))
  }

  /** The minimum of +Infinity and the maximising values of cs[i..]. */
  function MinOver(cs: seq<Position>, i: nat, depth: nat): (r: int)
    requires 1 <= depth && i <= |cs|
    decreases depth, 0, |cs| - i
    ensures r <= Infinity
    ensures forall k :: i <= k < |cs| ==> Minimax(cs[k], depth - 1, true) >= r
    ensures r == Infinity || exists k :: i <= k < |cs| && r == Minimax(cs[k], depth - 1, true)
  {
    if i == |cs| then Infinity
    else Min(Minimax(cs[i], depth - 1, true), MinOver(cs, i + 1, depth))
  }
}
