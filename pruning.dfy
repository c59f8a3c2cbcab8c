/** What the cutoff saves and what it costs.  Once the window has closed
    after a child, no later sibling is ever pushed; leaves are scored by the
    evaluator whatever the window; with the full window a maximising search
    returns the minimax value exactly, while a minimising one may not. */
module Pruning {
  import opened GameTree
  import opened Scores
  import opened Evaluation
  import opened ReferenceSearch
  import opened AlphaBetaSpec
  import opened FailSoft

  /** alpha at a maximising node after its first n children have been searched. */
  function AlphaAfter(cs: seq<Position>, depth: nat, alpha: int, beta: int, n: nat): int
    requires 1 <= depth && n <= |cs|
  {
    if n == 0 then alpha
    else
      var a := AlphaAfter(cs, depth, alpha, beta, n - 1);
      Max(a, SearchAB(cs[n - 1], depth - 1, a, beta, false))
  }

  /** beta at a minimising node after its first n children have been searched. */
  function BetaAfter(cs: seq<Position>, depth: nat, alpha: int, beta: int, n: nat): int
    requires 1 <= depth && n <= |cs|
  {
    if n == 0 then beta
    else
      var b := BetaAfter(cs, depth, alpha, beta, n - 1);
      Min(b, SearchAB(cs[n - 1], depth - 1, alpha, b, true))
  }

  /** At a maximising node, if beta <= alpha once child j has been searched,
      every node the search visits below it lies under a child 0..j. */
  lemma MaxCutoffStopsSiblings(p: Position, depth: nat, alpha: int, beta: int, path: seq<nat>, j: nat)
    requires depth >= 1 && !p.isGameOver && j < |p.children|
    requires beta <= AlphaAfter(p.children, depth, alpha, beta, j + 1)
    ensures forall q :: q in Visits(p, depth, alpha, beta, true, path) ==> |q| > |path| && q[|path|] <= j
  {
    MaxLoopVisitsBounded(p.children, 0, depth, alpha, beta, path, j);
  }

  lemma {:induction false} MaxLoopVisitsBounded(cs: seq<Position>, i: nat, depth: nat, alpha: int, beta: int, path: seq<nat>, j: nat)
    requires 1 <= depth && i <= j < |cs|
    requires beta <= AlphaAfter(cs, depth, alpha, beta, j + 1)
    decreases j - i
    ensures forall q :: q in MaxLoopVisits(cs, i, depth, AlphaAfter(cs, depth, alpha, beta, i), beta, path) ==> |q| > |path| && q[|path|] <= j
  {
    var a := AlphaAfter(cs, depth, alpha, beta, i);
    var v := SearchAB(cs[i], depth - 1, a, beta, false);
    assert AlphaAfter(cs, depth, alpha, beta, i + 1) == Max(a, v);
    MaxLoopStep(cs, i, depth, a, beta, 0, path);
    ChildVisitsExtendPath(cs[i], depth - 1, a, beta, false, path, i);
    if beta > Max(a, v) {
      MaxLoopVisitsBounded(cs, i + 1, depth, alpha, beta, path, j);
    }
  }

  /** The dual for a minimising node: once beta <= alpha after child j, no
      child after j is visited. */
  lemma MinCutoffStopsSiblings(p: Position, depth: nat, alpha: int, beta: int, path: seq<nat>, j: nat)
    requires depth >= 1 && !p.isGameOver && j < |p.children|
    requires BetaAfter(p.children, depth, alpha, beta, j + 1) <= alpha
    ensures forall q :: q in Visits(p, depth, alpha, beta, false, path) ==> |q| > |path| && q[|path|] <= j
  {
    MinLoopVisitsBounded(p.children, 0, depth, alpha, beta, path, j);
  }

  lemma {:induction false} MinLoopVisitsBounded(cs: seq<Position>, i: nat, depth: nat, alpha: int, beta: int, path: seq<nat>, j: nat)
    requires 1 <= depth && i <= j < |cs|
    requires BetaAfter(cs, depth, alpha, beta, j + 1) <= alpha
    decreases j - i
    ensures forall q :: q in MinLoopVisits(cs, i, depth, alpha, BetaAfter(cs, depth, alpha, beta, i), path) ==> |q| > |path| && q[|path|] <= j
  {
    var b := BetaAfter(cs, depth, alpha, beta, i);
    var v := SearchAB(cs[i], depth - 1, alpha, b, true);
    assert BetaAfter(cs, depth, alpha, beta, i + 1) == Min(b, v);
    MinLoopStep(cs, i, depth, alpha, b, 0, path);
    ChildVisitsExtendPath(cs[i], depth - 1, alpha, b, true, path, i);
    if Min(b, v) > alpha {
      MinLoopVisitsBounded(cs, i + 1, depth, alpha, beta, path, j);
    }
  }

  /** A search that stops at once returns the evaluation, whatever the window
      and whichever side maximises. */
  lemma LeafSearchIsEvaluation(p: Position, depth: nat, alpha: int, beta: int, maximizing: bool, path: seq<nat>)
    requires depth == 0 || p.isGameOver
    ensures SearchAB(p, depth, alpha, beta, maximizing) == Evaluate(p)
    ensures Visits(p, depth, alpha, beta, maximizing, path) == []
  {
  }

  /** With the full window (-Infinity, +Infinity) a maximising search returns
      the minimax value whenever that value is at most +Infinity, which every
      position whose material stays below +Infinity satisfies. */
  lemma FullWindowMaximizingExact(p: Position, depth: nat)
    requires Minimax(p, depth, true) <= Infinity
    ensures SearchAB(p, depth, -Infinity, Infinity, true) == Minimax(p, depth, true)
  {
    SearchABFailSoft(p, depth, -Infinity, Infinity, true);
  }

  /** At a minimising node the full window does not give the minimax value:
      a maximising child worth -Infinity closes the window, so a later reply
      that mates White (worth less than -Infinity) is never seen. */
  lemma FullWindowMinimizingMissesMate()
    ensures var m := Position(true, true, true, PieceCounts(0, 0, 0, 0, 0, 1), PieceCounts(0, 0, 0, 0, 1, 1), []);
            var b1 := Position(false, false, false, PieceCounts(0, 0, 0, 0, 0, 1), PieceCounts(0, 0, 0, 0, 1, 1), [m]);
            var w1 := Position(false, false, true, PieceCounts(0, 0, 0, 0, 0, 1), PieceCounts(0, 0, 0, 0, 1, 1), [b1]);
            var root := Position(false, false, false, PieceCounts(0, 0, 0, 0, 0, 1), PieceCounts(0, 0, 0, 0, 1, 1), [w1, m]);
            SearchAB(root, 4, -Infinity, Infinity, false) == -Infinity &&
            Minimax(root, 4, false) == WhiteMatedScore
  {
    var m := Position(true, true, true, PieceCounts(0, 0, 0, 0, 0, 1), PieceCounts(0, 0, 0, 0, 1, 1), []);
    var b1 := Position(false, false, false, PieceCounts(0, 0, 0, 0, 0, 1), PieceCounts(0, 0, 0, 0, 1, 1), [m]);
    var w1 := Position(false, false, true, PieceCounts(0, 0, 0, 0, 0, 1), PieceCounts(0, 0, 0, 0, 1, 1), [b1]);
    var root := Position(false, false, false, PieceCounts(0, 0, 0, 0, 0, 1), PieceCounts(0, 0, 0, 0, 1, 1), [w1, m]);
    assert Minimax(b1, 2, false) == WhiteMatedScore;
    assert Minimax(w1, 3, true) == -Infinity;
    assert Minimax(root, 4, false) == WhiteMatedScore;
    assert SearchAB(b1, 2, -Infinity, Infinity, false) == WhiteMatedScore;
    assert SearchAB(w1, 3, -Infinity, Infinity, true) == -Infinity;
  }
}
