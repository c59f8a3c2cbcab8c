# Move search of the cheese chess program, in Dafny

This project models the move-search engine of `png.py`. The engine has three
parts:

- **`evaluate_board`** scores a position from White's point of view.
- **`minimax_ab`** is depth-limited minimax with fail-soft alpha-beta pruning.
  It walks one shared board by pushing and popping moves.
- **`find_best_move`** is the root driver that picks White's move.

The proofs show four things:

- Pruning never changes the answer, in the classic fail-soft sense.
- The cutoff really stops the search of later siblings.
- The board is restored after every search.
- `find_best_move` returns exactly the move a search without pruning would
  choose: the first move of maximal score if that score beats −S, otherwise
  no move.

## Structure

| file | module | contents |
|---|---|---|
| `game_tree.dfy` | `GameTree` | `Position`: checkmate and game-over flags, side to move, piece counts per colour and type, and the ordered list of positions reached by the legal moves |
| `board.dfy` | `Chessboard` | class `Board`: a stack of positions with `Push`/`Pop` and a ghost log of every pushed move stack |
| `scores.dfy` | `Scores` | the sentinels and Python's `max`/`min` |
| `evaluation.dfy` | `Evaluation` | `Evaluate` (a function), `EvaluateBoard` (the loop over the piece table), and its properties |
| `reference_search.dfy` | `ReferenceSearch` | plain minimax without pruning, used as the reference |
| `alpha_beta_spec.dfy` | `AlphaBetaSpec` | `SearchAB`, `MaxLoop` and `MinLoop`: the pruned search as functions, with the child loops as tail recursion; `Visits` gives the order in which move stacks are pushed |
| `fail_soft.dfy` | `FailSoft` | the pruned search agrees with the reference |
| `pruning.dfy` | `Pruning` | a cutoff stops later siblings; leaves; the full window |
| `alpha_beta_search.dfy` | `AlphaBetaSearch` | `MinimaxAB`, an imperative method on the board, proved equal to `SearchAB` |
| `move_selection.dfy` | `MoveSelection` | `FindBestMove`, an imperative method proved equal to the no-pruning choice `BestMove` |

### Constants

The two sentinels differ in size, as in the source.

- Checkmate with White to move scores −L. L is the 52-digit constant of
  `png.py:7`.
- The search's ±infinity (`Infinity`, S) has 46 digits. It is also the score of
  checkmate with Black to move.
- So −L < −S. A minimising node can return −L. A maximising node that is
  searched (depth above 0, game not over) starts from −S, so it never returns
  less than −S; at depth 0 or on a finished game the search returns the
  evaluation, which is −L when White is mated.

### Moves and the board

- A move is identified by its index in the position's legal-move list.
  `find_best_move` returns `Option<nat>`, where `None` stands for Python's `None`.
- `Board.visited` is ghost bookkeeping. Each `Push` appends the new move stack to
  it. This is how the model states which nodes the search visits.
- The maximising and minimising branches of `minimax_ab` are two methods,
  `MaximizingNode` and `MinimizingNode`. `MinimaxAB` handles the base case and
  chooses between them. Each method has the loop of its branch, with the same
  updates and the same `break`.

### Where the written design and the code differ

The model follows the code in each case.

- **No legal moves, game not over.** The code then returns the starting value
  (−S at a maximising node, +S at a minimising one). It does not call the
  evaluator.
- **Depth.** The code's depth test is `depth == 0`, so a negative depth never
  stops the recursion; only a finished game would. The model requires
  `depth >= 0` for the search and `depth >= 1` for the selector.
- **Full window.** A search with the full window (−S, +S) returns the minimax
  value at a maximising root (`FullWindowMaximizingExact`). At a minimising root
  it may not (`FullWindowMinimizingMissesMate`): a maximising child worth −S
  closes the window before a later reply that mates White, worth −L, is seen.
  `find_best_move` is not affected, because every such score is ≤ −S there
  (`RootScoreDecides`).

## Model

| member | source | states |
|---|---|---|
| `Scores.Max` | png.py:28-29 | the result is at least both arguments and is one of them |
| `Scores.Min` | png.py:38-39 | the result is at most both arguments and is one of them |
| `Chessboard.Board.Push` | png.py:25 | the chosen legal move's position goes on top of the stack and the move onto the move stack; the new move stack is logged as visited |
| `Chessboard.Board.Pop` | png.py:27 | the most recent move is taken back and returned; both stacks lose their top |
| `Evaluation.EvaluateBoard` | png.py:5-18 | the table loop computes `Evaluate` of the current position: the checkmate sentinel, 0, or the weighted material |
| `Evaluation.CheckmateScores` | png.py:6-8 | checkmate scores −L (below −S) with White to move and +S with Black to move |
| `Evaluation.DrawScoresZero` | png.py:9 | a finished game that is not checkmate scores 0 |
| `Evaluation.MaterialBalance` | png.py:10-18 | otherwise the score is the sum over the six types of weight × (White count − Black count), with weights 100, 320, 330, 500, 900 and 20000 |
| `Evaluation.EvaluateIgnoresTurn` | png.py:9-18 | outside checkmate, the score does not depend on the side to move |
| `Evaluation.LoneKingsScoreZero` | png.py:9-18 | two lone kings score 0, whether or not the game counts as over (python-chess ends it for insufficient material) |
| `Evaluation.SwapColoursNegates` | png.py:14-17 | exchanging the colours' material negates the score of a position that is not over |
| `ReferenceSearch.MaxOver` | png.py:22-31 | the unpruned maximising value is at least −S, at least every child's value, and equal to −S or to one of them |
| `ReferenceSearch.MinOver` | png.py:32-41 | the unpruned minimising value is at most +S, at most every child's value, and equal to +S or to one of them |
| `AlphaBetaSpec.SearchAB` | png.py:19-41 | a maximising node that is searched never returns less than −S; a minimising one never returns more than +S |
| `AlphaBetaSpec.MaxLoop` | png.py:23-31 | the maximising loop never returns less than its running best |
| `AlphaBetaSpec.MinLoop` | png.py:33-41 | the minimising loop never returns more than its running best |
| `AlphaBetaSpec.VisitsExtendPath` | png.py:24-27 | every move stack a search pushes extends the one it started from |
| `AlphaBetaSpec.MaxLoopVisitsExtendPath` | png.py:24-30 | the maximising loop pushes only below children from the current one on |
| `AlphaBetaSpec.MinLoopVisitsExtendPath` | png.py:34-40 | the minimising loop pushes only below children from the current one on |
| `FailSoft.SearchABFailSoft` | png.py:19-41 | for alpha < beta: a result ≤ alpha bounds the minimax value from above; a result ≥ beta bounds it from below; a result strictly inside the window equals it |
| `FailSoft.MaxLoopFailSoft` | png.py:22-31 | the same bounds for the maximising loop, against the maximum of its running best and the remaining children's values |
| `FailSoft.MinLoopFailSoft` | png.py:32-41 | the same bounds for the minimising loop |
| `FailSoft.PruningAgreesWithMinimax` | png.py:19-41 | for alpha < beta: a minimax value strictly inside the window is returned exactly; one ≤ alpha gives a result ≤ alpha; one ≥ beta gives a result ≥ beta |
| `Pruning.MaxCutoffStopsSiblings` | png.py:29-30 | at a maximising node, once beta ≤ alpha after child j, nothing below a later child is pushed |
| `Pruning.MinCutoffStopsSiblings` | png.py:39-40 | at a minimising node, once beta ≤ alpha after child j, nothing below a later child is pushed |
| `Pruning.LeafSearchIsEvaluation` | png.py:20-21 | at depth 0 or a finished game the search returns the evaluation, whatever alpha, beta and the side, and pushes nothing from any starting move stack |
| `Pruning.FullWindowMaximizingExact` | png.py:22-31 | with the window (−S, +S), a maximising search returns the minimax value whenever that value is at most +S |
| `Pruning.FullWindowMinimizingMissesMate` | png.py:32-41 | a concrete tree where a minimising search with window (−S, +S) returns −S while the minimax value is −L |
| `AlphaBetaSearch.MinimaxAB` | png.py:19-41 | the search returns `SearchAB` of the current position, leaves both stacks as they were, and pushes exactly the stacks `Visits` lists |
| `AlphaBetaSearch.MaximizingNode` | png.py:22-31 | the maximising loop with push/pop, the updates of max_eval and alpha, and the break: returns `SearchAB` and restores the board |
| `AlphaBetaSearch.MinimizingNode` | png.py:32-41 | the minimising loop with push/pop, the updates of min_eval and beta, and the break: returns `SearchAB` and restores the board |
| `MoveSelection.FindBestMove` | png.py:42-55 | returns the move a search without pruning would choose (`BestMove`) and leaves both stacks as they were |
| `MoveSelection.BestMoveIsFirstBest` | png.py:43-55 | no move exactly when every root score is ≤ −S, which includes having no legal move; otherwise a legal move scoring above −S that beats every earlier move strictly and every later one weakly |
| `MoveSelection.FirstBestAmongStep` | png.py:51-53 | looking at one more move keeps the choice the first best one |
| `MoveSelection.FirstBestFromCorrect` | png.py:47-55 | the selection loop over the remaining moves ends with a first best choice |
| `MoveSelection.RootScoreDecides` | png.py:44-54 | searched with window (alpha, +S), a root move beats alpha exactly when its unpruned score does, and then the two scores are equal |
| `MoveSelection.MateInOneIsChosen` | png.py:51-53 | the first move that checkmates Black is chosen, provided no move scores above +S |
| `MoveSelection.NoMoveDespiteLegalMove` | png.py:43-55 | a position with one legal move where that move allows mate in one scores −L; so no move is returned |

## Left out

- The user interface, everything from `png.py:56` on. This covers pygame set-up,
  image loading, drawing, and the event loop with mouse-to-move conversion and
  auto-queen promotion. It is I/O.
- The UI's handling of a `None` result: White's turn never advances and the
  search runs again every frame. This is UI behaviour. The model only shows when
  `None` happens (`BestMoveIsFirstBest`, `NoMoveDespiteLegalMove`).
- python-chess internals: move generation, check, checkmate and stalemate
  detection, `board.pieces` and `result()`. These are foreign code. They are
  replaced by the abstract game tree, whose flags and children are given. The
  tree does not force python-chess's consistency rules, such as "checkmate
  implies game over" or "no legal moves implies game over". No proof needs them.
- Search with a negative depth. A negative depth never reaches 0, so only a
  finished game stops the recursion. The preconditions exclude it.
- Move objects. A move is its index in the legal-move list, so two moves never
  compare equal.
