/** The pruned search as functions.  SearchAB is what minimax_ab computes;
    MaxLoop and MinLoop are its two child loops written as tail recursion,
    with the window (alpha, beta) passed by value and updated with each
    child's value; a loop stops as soon as beta <= alpha.  Visits lists,
    in order, the move stacks the search pushes. */
module AlphaBetaSpec {
  import opened GameTree
  import opened Scores
  import opened Evaluation

  function SearchAB(p: Position, depth: nat, alpha: int, beta: int, maximizing: bool): (r: int)
    decreases depth, 1
    ensures depth > 0 && !p.isGameOver && maximizing ==> r >= -Infinity
    ensures depth > 0 && !p.isGameOver && !maximizing ==> r <= Infinity
  {
    if depth == 0 || p.isGameOver then Evaluate(p)
    else if maximizing then MaxLoop(p.children, 0, depth, alpha, beta, -Infinity)
    else MinLoop(p.children, 0, depth, alpha, beta, Infinity)
  }

  /** The maximising loop from child i on, with the current window and the
      best value found so far. */
  function MaxLoop(cs: seq<Position>, i: nat, depth: nat, alpha: int, beta: int, best: int): (r: int)
    requires 1 <= depth && i <= |cs|
    decreases depth, 0, |cs| - i
    ensures r >= best
  {
    if i == |cs| then best
    else
      var v := SearchAB(cs[i], depth - 1, alpha, beta, false);
      var alpha' := Max(alpha, v);
      if beta <= alpha' then Max(best, v)
      else MaxLoop(cs, i + 1, depth, alpha', beta, Max(best, v))
  }

  /** The minimising loop from child i on. */
  function MinLoop(cs: seq<Position>, i: nat, depth: nat, alpha: int, beta: int, best: int): (r: int)
    requires 1 <= depth && i <= |cs|
    decreases depth, 0, |cs| - i
    ensures r <= best
  {
    if i == |cs| then best
    else
      var v := SearchAB(cs[i], depth - 1, alpha, beta, true);
      var beta' := Min(beta, v);
      if beta' <= alpha then Min(best, v)
      else MinLoop(cs, i + 1, depth, alpha, beta', Min(best, v))
  }

  /** The move stacks pushed by a search of p started with move stack
      `path`: each visited child contributes its own stack, then those of
      its subtree. */
  function Visits(p: Position, depth: nat, alpha: int, beta: int, maximizing: bool, path: seq<nat>): seq<seq<nat>>
    decreases depth, 1
  {
    if depth == 0 || p.isGameOver then []
    else if maximizing then MaxLoopVisits(p.children, 0, depth, alpha, beta, path)
    else MinLoopVisits(p.children, 0, depth, alpha, beta, path)
  }

  function MaxLoopVisits(cs: seq<Position>, i: nat, depth: nat, alpha: int, beta: int, path: seq<nat>): seq<seq<nat>>
    requires 1 <= depth && i <= |cs|
    decreases depth, 0, |cs| - i
  {
    if i == |cs| then []
    else
      var v := SearchAB(cs[i], depth - 1, alpha, beta, false);
      var here := [path + [i]] + Visits(cs[i], depth - 1, alpha, beta, false, path + [i]);
      var alpha' := Max(alpha, v);
      if beta <= alpha' then here
      else here + MaxLoopVisits(cs, i + 1, depth, alpha', beta, path)
  }

  function MinLoopVisits(cs: seq<Position>, i: nat, depth: nat, alpha: int, beta: int, path: seq<nat>): seq<seq<nat>>
    requires 1 <= depth && i <= |cs|
    decreases depth, 0, |cs| - i
  {
    if i == |cs| then []
    else
      var v := SearchAB(cs[i], depth - 1, alpha, beta, true);
      var here := [path + [i]] + Visits(cs[i], depth - 1, alpha, beta, true, path + [i]);
      var beta' := Min(beta, v);
      if beta' <= alpha then here
      else here + MinLoopVisits(cs, i + 1, depth, alpha, beta', path)
  }

  /** One step of the maximising loop, in the shape the search method uses. */
  lemma MaxLoopStep(cs: seq<Position>, i: nat, depth: nat, alpha: int, beta: int, best: int, path: seq<nat>)
    requires 1 <= depth && i < |cs|
    ensures var v := SearchAB(cs[i], depth - 1, alpha, beta, false);
            var here := [path + [i]] + Visits(cs[i], depth - 1, alpha, beta, false, path + [i]);
            if beta <= Max(alpha, v) then
              MaxLoop(cs, i, depth, alpha, beta, best) == Max(best, v) &&
              MaxLoopVisits(cs, i, depth, alpha, beta, path) == here
            else
              MaxLoop(cs, i, depth, alpha, beta, best) == MaxLoop(cs, i + 1, depth, Max(alpha, v), beta, Max(best, v)) &&
              MaxLoopVisits(cs, i, depth, alpha, beta, path) == here + MaxLoopVisits(cs, i + 1, depth, Max(alpha, v), beta, path)
  {
  }

  /** One step of the minimising loop. */
  lemma MinLoopStep(cs: seq<Position>, i: nat, depth: nat, alpha: int, beta: int, best: int, path: seq<nat>)
    requires 1 <= depth && i < |cs|
    ensures var v := SearchAB(cs[i], depth - 1, alpha, beta, true);
            var here := [path + [i]] + Visits(cs[i], depth - 1, alpha, beta, true, path + [i]);
            if Min(beta, v) <= alpha then
              MinLoop(cs, i, depth, alpha, beta, best) == Min(best, v) &&
              MinLoopVisits(cs, i, depth, alpha, beta, path) == here
            else
              MinLoop(cs, i, depth, alpha, beta, best) == MinLoop(cs, i + 1, depth, alpha, Min(beta, v), Min(best, v)) &&
              MinLoopVisits(cs, i, depth, alpha, beta, path) == here + MinLoopVisits(cs, i + 1, depth, alpha, Min(beta, v), path)
  {
  }

  /** Every move stack a search pushes extends the one it started from. */
  lemma {:induction false} VisitsExtendPath(p: Position, depth: nat, alpha: int, beta: int, maximizing: bool, path: seq<nat>)
    decreases depth, 1
    ensures forall q :: q in Visits(p, depth, alpha, beta, maximizing, path) ==> |q| > |path| && q[..|path|] == path
  {
    if depth == 0 || p.isGameOver {
    } else if maximizing {
      MaxLoopVisitsExtendPath(p.children, 0, depth, alpha, beta, path);
    } else {
      MinLoopVisitsExtendPath(p.children, 0, depth, alpha, beta, path);
    }
  }

  /** The loops push only below the children they reach, from child i on. */
  lemma {:induction false} MaxLoopVisitsExtendPath(cs: seq<Position>, i: nat, depth: nat, alpha: int, beta: int, path: seq<nat>)
    requires 1 <= depth && i <= |cs|
    decreases depth, 0, |cs| - i
    ensures forall q :: q in MaxLoopVisits(cs, i, depth, alpha, beta, path) ==>
      |q| > |path| && q[..|path|] == path && i <= q[|path|] < |cs|
  {
    if i < |cs| {
      var v := SearchAB(cs[i], depth - 1, alpha, beta, false);
      ChildVisitsExtendPath(cs[i], depth - 1, alpha, beta, false, path, i);
      if beta > Max(alpha, v) {
        MaxLoopVisitsExtendPath(cs, i + 1, depth, Max(alpha, v), beta, path);
      }
    }
  }

  lemma {:induction false} MinLoopVisitsExtendPath(cs: seq<Position>, i: nat, depth: nat, alpha: int, beta: int, path: seq<nat>)
    requires 1 <= depth && i <= |cs|
    decreases depth, 0, |cs| - i
    ensures forall q :: q in MinLoopVisits(cs, i, depth, alpha, beta, path) ==>
      |q| > |path| && q[..|path|] == path && i <= q[|path|] < |cs|
  {
    if i < |cs| {
      var v := SearchAB(cs[i], depth - 1, alpha, beta, true);
      ChildVisitsExtendPath(cs[i], depth - 1, alpha, beta, true, path, i);
      if Min(beta, v) > alpha {
        MinLoopVisitsExtendPath(cs, i + 1, depth, alpha, Min(beta, v), path);
      }
    }
  }

  /** The stacks pushed for child i all start with path + [i]. */
  lemma {:induction false} ChildVisitsExtendPath(c: Position, depth: nat, alpha: int, beta: int, maximizing: bool, path: seq<nat>, i: nat)
    decreases depth + 1, 0, 0
    ensures forall q :: q in [path + [i]] + Visits(c, depth, alpha, beta, maximizing, path + [i]) ==>
      |q| > |path| && q[..|path|] == path && q[|path|] == i
  {
    VisitsExtendPath(c, depth, alpha, beta, maximizing, path + [i]);
    forall q | q in [path + [i]] + Visits(c, depth, alpha, beta, maximizing, path + [i])
      ensures |q| > |path| && q[..|path|] == path && q[|path|] == i
    {
      assert q[..|path| + 1] == path + [i];
      assert q[..|path|] == q[..|path| + 1][..|path|];
      assert q[|path|] == q[..|path| + 1][|path|];
    }
  }
}
