/** minimax_ab as it runs: a recursive method that walks the shared board by
    pushing each legal move, searching the resulting position and popping
    the move again, updating its best value and window after every child and
    breaking out of the loop once beta <= alpha.  The maximising and the
    minimising branch are the two methods MaximizingNode and MinimizingNode. */
module AlphaBetaSearch {
  import opened GameTree
  import opened Scores
  import opened Evaluation
  import opened Chessboard
  import opened AlphaBetaSpec

  method MinimaxAB(board: Board, depth: int, alpha: int, beta: int, maximizing: bool) returns (value: int)
    requires board.Valid() && depth >= 0
    modifies board
    decreases depth, 1
    ensures board.Valid()
    ensures board.stack == old(board.stack) && board.moveStack == old(board.moveStack)
    ensures value == SearchAB(old(board.Current()), depth, alpha, beta, maximizing)
    ensures board.visited == old(board.visited) + Visits(old(board.Current()), depth, alpha, beta, maximizing, old(board.moveStack))
  {
    if depth == 0 || board.Current().isGameOver {
      value := EvaluateBoard(board);
    } else if maximizing {
      value := MaximizingNode(board, depth, alpha, beta);
    } else {
      value := MinimizingNode(board, depth, alpha, beta);
    }
  }

  /** The maximising branch: max_eval starts at -Infinity, alpha is raised by
      each child's value, and the loop breaks once beta <= alpha. */
  method MaximizingNode(board: Board, depth: int, alpha: int, beta: int) returns (value: int)
    requires board.Valid() && depth >= 1 && !board.Current().isGameOver
    modifies board
    decreases depth, 0
    ensures board.Valid()
    ensures board.stack == old(board.stack) && board.moveStack == old(board.moveStack)
    ensures value == SearchAB(old(board.Current()), depth, alpha, beta, true)
    ensures board.visited == old(board.visited) + Visits(old(board.Current()), depth, alpha, beta, true, old(board.moveStack))
  {
    var pos := board.Current();
    ghost var path := board.moveStack;
    ghost var done: seq<seq<nat>> := [];
    var maxEval := -Infinity;
    var a := alpha;
    var i := 0;
    while i < |pos.children|
      invariant 0 <= i <= |pos.children|
      invariant board.Valid() && board.stack == old(board.stack) && board.moveStack == path
      invariant SearchAB(pos, depth, alpha, beta, true) == MaxLoop(pos.children, i, depth, a, beta, maxEval)
      invariant board.visited == old(board.visited) + done
      invariant Visits(pos, depth, alpha, beta, true, path) == done + MaxLoopVisits(pos.children, i, depth, a, beta, path)
    {
      ghost var here := [path + [i]] + Visits(pos.children[i], depth - 1, a, beta, false, path + [i]);
      MaxLoopStep(pos.children, i, depth, a, beta, maxEval, path);
      ghost var before := board.visited;
      board.Push(i);
      var eval := MinimaxAB(board, depth - 1, a, beta, false);
      var _ := board.Pop();
      ConcatAssoc(before, [path + [i]], Visits(pos.children[i], depth - 1, a, beta, false, path + [i]));
      ConcatAssoc(old(board.visited), done, here);
      ConcatAssoc(done, here, MaxLoopVisits(pos.children, i + 1, depth, Max(a, eval), beta, path));
      done := done + here;
      maxEval := Max(maxEval, eval);
      a := Max(a, eval);
      if beta <= a {
        break;
      }
      i := i + 1;
    }
    value := maxEval;
  }

  /** The minimising branch: min_eval starts at +Infinity, beta is lowered by
      each child's value, and the loop breaks once beta <= alpha. */
  method MinimizingNode(board: Board, depth: int, alpha: int, beta: int) returns (value: int)
    requires board.Valid() && depth >= 1 && !board.Current().isGameOver
    modifies board
    decreases depth, 0
    ensures board.Valid()
    ensures board.stack == old(board.stack) && board.moveStack == old(board.moveStack)
    ensures value == SearchAB(old(board.Current()), depth, alpha, beta, false)
    ensures board.visited == old(board.visited) + Visits(old(board.Current()), depth, alpha, beta, false, old(board.moveStack))
  {
    var pos := board.Current();
    ghost var path := board.moveStack;
    ghost var done: seq<seq<nat>> := [];
    var minEval := Infinity;
    var b := beta;
    var i := 0;
    while i < |pos.children|
      invariant 0 <= i <= |pos.children|
      invariant board.Valid() && board.stack == old(board.stack) && board.moveStack == path
      invariant SearchAB(pos, depth, alpha, beta, false) == MinLoop(pos.children, i, depth, alpha, b, minEval)
      invariant board.visited == old(board.visited) + done
      invariant Visits(pos, depth, alpha, beta, false, path) == done + MinLoopVisits(pos.children, i, depth, alpha, b, path)
    {
      ghost var here := [path + [i]] + Visits(pos.children[i], depth - 1, alpha, b, true, path + [i]);
      MinLoopStep(pos.children, i, depth, alpha, b, minEval, path);
      ghost var before := board.visited;
      board.Push(i);
      var eval := MinimaxAB(board, depth - 1, alpha, b, true);
      var _ := board.Pop();
      ConcatAssoc(before, [path + [i]], Visits(pos.children[i], depth - 1, alpha, b, true, path + [i]));
      ConcatAssoc(old(board.visited), done, here);
      ConcatAssoc(done, here, MinLoopVisits(pos.children, i + 1, depth, alpha, Min(b, eval), path));
      done := done + here;
      minEval := Min(minEval, eval);
      b := Min(b, eval);
      if b <= alpha {
        break;
      }
      i := i + 1;
    }
    value := minEval;
  }

  lemma ConcatAssoc<T>(a: seq<T>, b: seq<T>, c: seq<T>)
    ensures (a + b) + c == a + (b + c)
  {
  }
}
