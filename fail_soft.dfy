/** Pruning never changes the answer: the pruned search agrees with plain
    minimax in the classic fail-soft sense.  A result at or below alpha is an
    upper bound on the minimax value, a result at or above beta is a lower
    bound, and a result strictly inside the window is the minimax value. */
module FailSoft {
  import opened GameTree
  import opened Scores
  import opened Evaluation
  import opened ReferenceSearch
  import opened AlphaBetaSpec

  /** The fail-soft bounds relating a pruned result r to the minimax value v. */
  ghost predicate FailSoftBounds(r: int, v: int, alpha: int, beta: int)
  {
    (r <= alpha ==> v <= r) && (r >= beta ==> v >= r) && (alpha < r < beta ==> r == v)
  }

  lemma {:induction false} SearchABFailSoft(p: Position, depth: nat, alpha: int, beta: int, maximizing: bool)
    requires alpha < beta
    decreases depth, 1
    ensures FailSoftBounds(SearchAB(p, depth, alpha, beta, maximizing), Minimax(p, depth, maximizing), alpha, beta)
  {
    if depth == 0 || p.isGameOver {
    } else if maximizing {
      MaxLoopFailSoft(p.children, 0, depth, alpha, beta, -Infinity);
    } else {
      MinLoopFailSoft(p.children, 0, depth, alpha, beta, Infinity);
    }
  }

  /** The maximising loop from child i on, compared with the maximum of the
      best value so far and the minimax values of the remaining children. */
  lemma {:induction false} MaxLoopFailSoft(cs: seq<Position>, i: nat, depth: nat, alpha: int, beta: int, best: int)
    requires 1 <= depth && i <= |cs| && alpha < beta && best >= -Infinity
    decreases depth, 0, |cs| - i
    ensures FailSoftBounds(MaxLoop(cs, i, depth, alpha, beta, best), Max(best, MaxOver(cs, i, depth)), alpha, beta)
  {
    if i < |cs| {
      var v := SearchAB(cs[i], depth - 1, alpha, beta, false);
      var mv := Minimax(cs[i], depth - 1, false);
      SearchABFailSoft(cs[i], depth - 1, alpha, beta, false);
      if v < beta {
        MaxLoopFailSoft(cs, i + 1, depth, Max(alpha, v), beta, Max(best, v));
      }
    }
  }

  /** The dual statement for the minimising loop. */
  lemma {:induction false} MinLoopFailSoft(cs: seq<Position>, i: nat, depth: nat, alpha: int, beta: int, best: int)
    requires 1 <= depth && i <= |cs| && alpha < beta && best <= Infinity
    decreases depth, 0, |cs| - i
    ensures FailSoftBounds(MinLoop(cs, i, depth, alpha, beta, best), Min(best, MinOver(cs, i, depth)), alpha, beta)
  {
    if i < |cs| {
      var v := SearchAB(cs[i], depth - 1, alpha, beta, true);
      var mv := Minimax(cs[i], depth - 1, true);
      SearchABFailSoft(cs[i], depth - 1, alpha, beta, true);
      if v > alpha {
        MinLoopFailSoft(cs, i + 1, depth, alpha, Min(beta, v), Min(best, v));
      }
    }
  }

  /** The same agreement stated from the minimax value's side: inside the
      window the pruned search returns it exactly, and outside it the result
      lies on the same side of the window. */
  lemma PruningAgreesWithMinimax(p: Position, depth: nat, alpha: int, beta: int, maximizing: bool)
    requires alpha < beta
    ensures var r := SearchAB(p, depth, alpha, beta, maximizing);
            var v := Minimax(p, depth, maximizing);
            (alpha < v < beta ==> r == v) && (v <= alpha ==> r <= alpha) && (v >= beta ==> r >= beta)
  {
    SearchABFailSoft(p, depth, alpha, beta, maximizing);
  }
}
