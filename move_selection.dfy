/** find_best_move: the root driver.  White maximises; each legal root move
    is searched as a minimising node one ply shallower, alpha is raised after
    every move while beta stays at +Infinity, and the first move whose score
    strictly beats the best so far (which starts at -Infinity) is kept. */
module MoveSelection {
  import opened GameTree
  import opened Scores
  import opened Chessboard
  import opened ReferenceSearch
  import opened AlphaBetaSpec
  import opened FailSoft
  import opened AlphaBetaSearch

  /** Python's None, or a move given by its index in the legal-move list. */
  datatype Option<T> = None | Some(value: T)

  /** The unpruned score of root move k. */
  function RootScore(p: Position, depth: nat, k: nat): int
    requires 1 <= depth && k < |p.children|
  {
    Minimax(p.children[k], depth - 1, false)
  }

  /** The no-pruning selection from move i on: a move replaces the current
      choice only when its score strictly exceeds the best so far. */
  function FirstBestFrom(p: Position, depth: nat, i: nat, maxEval: int, best: Option<nat>): Option<nat>
    requires 1 <= depth && i <= |p.children|
    decreases |p.children| - i
  {
    if i == |p.children| then best
    else
      var v := RootScore(p, depth, i);
      if v > maxEval then FirstBestFrom(p, depth, i + 1, v, Some(i))
      else FirstBestFrom(p, depth, i + 1, maxEval, best)
  }

  /** The move a plain minimax search would pick from p. */
  function BestMove(p: Position, depth: nat): Option<nat>
    requires 1 <= depth
  {
    FirstBestFrom(p, depth, 0, -Infinity, None)
  }

  /** What a choice among moves 0..n-1 promises: no move if every one of
      them scored at most -Infinity, otherwise a move scoring above
      -Infinity that beats every earlier move strictly and every later one
      up to n weakly. */
  ghost predicate FirstBestAmong(p: Position, depth: nat, n: nat, best: Option<nat>)
    requires 1 <= depth && n <= |p.children|
  {
    match best
    case None =>
      forall k :: 0 <= k < n ==> RootScore(p, depth, k) <= -Infinity
    case Some(m) =>
      m < n && RootScore(p, depth, m) > -Infinity &&
      (forall k :: 0 <= k < m ==> RootScore(p, depth, k) < RootScore(p, depth, m)) &&
      (forall k :: m < k < n ==> RootScore(p, depth, k) <= RootScore(p, depth, m))
  }

  /** The best score so far that goes with a choice. */
  function ChosenScore(p: Position, depth: nat, best: Option<nat>): int
    requires 1 <= depth
    requires best.Some? ==> best.value < |p.children|
  {
    match best
    case None => -Infinity
    case Some(m) => RootScore(p, depth, m)
  }

  /** Considering move i keeps the choice a first best one. */
  lemma FirstBestAmongStep(p: Position, depth: nat, i: nat, best: Option<nat>)
    requires 1 <= depth && i < |p.children|
    requires FirstBestAmong(p, depth, i, best)
    ensures RootScore(p, depth, i) > ChosenScore(p, depth, best) ==> FirstBestAmong(p, depth, i + 1, Some(i))
    ensures RootScore(p, depth, i) <= ChosenScore(p, depth, best) ==> FirstBestAmong(p, depth, i + 1, best)
  {
    var v := RootScore(p, depth, i);
    var c := ChosenScore(p, depth, best);
    if v > c {
      forall k | 0 <= k < i
        ensures RootScore(p, depth, k) < v
      {
        if best.Some? && k != best.value {
          assert RootScore(p, depth, k) <= c;
        }
      }
    }
  }

  lemma {:induction false} FirstBestFromCorrect(p: Position, depth: nat, i: nat, best: Option<nat>)
    requires 1 <= depth && i <= |p.children|
    requires FirstBestAmong(p, depth, i, best)
    decreases |p.children| - i
    ensures FirstBestAmong(p, depth, |p.children|, FirstBestFrom(p, depth, i, ChosenScore(p, depth, best), best))
  {
    if i < |p.children| {
      var v := RootScore(p, depth, i);
      var c := ChosenScore(p, depth, best);
      FirstBestAmongStep(p, depth, i, best);
      if v > c {
        assert FirstBestFrom(p, depth, i, c, best) == FirstBestFrom(p, depth, i + 1, v, Some(i));
        assert ChosenScore(p, depth, Some(i)) == v;
        FirstBestFromCorrect(p, depth, i + 1, Some(i));
      } else {
        assert FirstBestFrom(p, depth, i, c, best) == FirstBestFrom(p, depth, i + 1, c, best);
        FirstBestFromCorrect(p, depth, i + 1, best);
      }
    }
  }

  /** The reference choice: no move exactly when every root move scores at
      most -Infinity (in particular when there is no legal move); otherwise
      the first legal move of maximal score, and that score beats -Infinity. */
  lemma BestMoveIsFirstBest(p: Position, depth: nat)
    requires 1 <= depth
    ensures BestMove(p, depth) == None <==>
      forall k :: 0 <= k < |p.children| ==> RootScore(p, depth, k) <= -Infinity
    ensures forall m :: BestMove(p, depth) == Some(m) ==>
      m < |p.children| && RootScore(p, depth, m) > -Infinity &&
      (forall k :: 0 <= k < m ==> RootScore(p, depth, k) < RootScore(p, depth, m)) &&
      (forall k :: m < k < |p.children| ==> RootScore(p, depth, k) <= RootScore(p, depth, m))
  {
    FirstBestFromCorrect(p, depth, 0, None);
  }

  /** A move that checkmates Black at once scores +Infinity, so it is chosen
      when it is the first such move and no other move scores higher. */
  lemma MateInOneIsChosen(p: Position, depth: nat, k: nat)
    requires 1 <= depth && k < |p.children|
    requires p.children[k].isCheckmate && p.children[k].isGameOver && !p.children[k].whiteToMove
    requires forall j :: 0 <= j < k ==> RootScore(p, depth, j) < Infinity
    requires forall j :: k < j < |p.children| ==> RootScore(p, depth, j) <= Infinity
    ensures BestMove(p, depth) == Some(k)
  {
    assert RootScore(p, depth, k) == Infinity;
    BestMoveIsFirstBest(p, depth);
  }

  /** With legal moves available the selector may still return no move: here
      White's only move allows a mate in one, which scores below -Infinity. */
  lemma NoMoveDespiteLegalMove()
    ensures var kings := PieceCounts(0, 0, 0, 0, 0, 1);
            var mated := Position(true, true, true, kings, kings, []);
            var reply := Position(false, false, false, kings, kings, [mated]);
            var root := Position(false, false, true, kings, kings, [reply]);
            |root.children| == 1 && BestMove(root, 2) == None
  {
    var kings := PieceCounts(0, 0, 0, 0, 0, 1);
    var mated := Position(true, true, true, kings, kings, []);
    var reply := Position(false, false, false, kings, kings, [mated]);
    var root := Position(false, false, true, kings, kings, [reply]);
    assert RootScore(root, 2, 0) == WhiteMatedScore;
  }

  /** A root move searched with window (alpha, +Infinity) beats alpha exactly
      when its unpruned score does, and then the two scores are equal. */
  lemma RootScoreDecides(c: Position, depth: nat, alpha: int)
    ensures var r := SearchAB(c, depth, alpha, Infinity, false);
            var v := Minimax(c, depth, false);
            (r > alpha <==> v > alpha) && (v > alpha ==> r == v)
  {
    if depth > 0 && !c.isGameOver && alpha < Infinity {
      SearchABFailSoft(c, depth, alpha, Infinity, false);
    }
  }

  /** find_best_move: returns the move a no-pruning search would choose, and
      leaves the board as it found it. */
  method FindBestMove(board: Board, depth: int) returns (bestMove: Option<nat>)
    requires board.Valid() && depth >= 1
    modifies board
    ensures board.Valid()
    ensures board.stack == old(board.stack) && board.moveStack == old(board.moveStack)
    ensures bestMove == BestMove(old(board.Current()), depth)
  {
    var pos := board.Current();
    bestMove := None;
    var maxEval := -Infinity;
    var alpha := -Infinity;
    var beta := Infinity;
    var i := 0;
    while i < |pos.children|
      invariant 0 <= i <= |pos.children|
      invariant board.Valid() && board.stack == old(board.stack) && board.moveStack == old(board.moveStack)
      invariant alpha == maxEval && beta == Infinity
      invariant BestMove(pos, depth) == FirstBestFrom(pos, depth, i, maxEval, bestMove)
    {
      board.Push(i);
      var eval := MinimaxAB(board, depth - 1, alpha, beta, false);
      var _ := board.Pop();
      RootScoreDecides(pos.children[i], depth - 1, alpha);
      if eval > maxEval {
        maxEval := eval;
        bestMove := Some(i);
      }
      alpha := Max(alpha, eval);
      i := i + 1;
    }
  }
}
