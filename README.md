# connect4-rs in Dafny

A model of the game core of connect4-rs, a terminal Connect Four player:

- the 6x7 `Board` of `src/board.rs`, with its counters (`Piece`, `as_int`, `!`), outcomes (`GameOutcome`), insertion errors (`InsertionError`), the gravity drop of `insert_at`, the outcome update of `update_outcome`, the centre-first move list of `get_valid_moves` and the static evaluator `score` / `get_total_score` with its `MAX_GAME_SCORE` sentinel;
- the depth-limited negamax search with alpha-beta pruning of `src/main.rs` (`negamax`).

Layout:

- `pieces.dfy` (module `Pieces`): pieces, outcomes, errors, `AsInt`, `Flip`, `MAX_GAME_SCORE`.
- `evaluation.dfy` (module `Evaluation`): the board as a value (`State`: grid, outcome, turn). It defines the 69 four-cell lines in the order `get_total_score` visits them, the line score, and the total score as a sweep that stops at the first sentinel.
- `rules.dfy` (module `Rules`): `Insert`, `UpdateOutcome` and `ValidMoves` as functions on `State`. It also holds what they promise: errors, gravity, the turn rule, outcome precedence and the move order.
- `board.dfy` (module `Boards`): `Board` as a class over a 6x7 `array2`. `InsertAt` updates the array, the outcome and the turn in place. Every method is proved to compute the function of `Rules` or `Evaluation` on the board's snapshot. `InsertAt`, the one update the source offers, keeps `Valid()`: gravity holds, and an open game always has an open column and no complete line. So does `Land`, its success branch. `Put` and `UpdateOutcome` are steps inside `Land` and keep only the array in step with the grid.
- `search.dfy` (module `Search`):
  - `GameTree` is the tree of positions the search visits, and `AlphaBeta` is the pruned search on that tree. `NegamaxValue` is the plain negamax value.
  - Pruning is proved sound. With the window the program uses at the root, the value is exact and the move returned is a valid move.
  - `Negamax` is the recursive method over copies of a `Board`, proved to return what `AlphaBeta` gives for its board's tree.

The best move of a node is not simply the first move explored when nothing beats it. In `src/main.rs:77` the default is column 1. The first child replaces it only if its value beats `alpha` (lines 89-92). At an inner node with a raised `alpha`, column 1 can therefore be returned even though it was never tried. `Search.AlphaBetaBranchesBest` states that the move is column 1 or a move tried, and a move tried once `value` has passed `alpha`. At the root the window starts at `-MAX_GAME_SCORE`, so the first child always beats it (`Search.RootFirst`). After that a later move replaces the best one only when it is strictly better. So the root returns the first valid move, in centre-first order, whose branch reaches the negamax value (`Search.RootBestMove`, `Search.RootMove`).

## Model

| member | source | states |
|---|---|---|
| Pieces.AsInt | src/board.rs:12-17 | The sign of a piece is 1 or -1, and it is 1 exactly for Yellow. |
| Pieces.Flip | src/board.rs:32-37 | `!` gives the other piece. |
| Pieces.FlipInvolution | src/board.rs:29-38 | `!` is an involution, and `as_int(!p) == -as_int(p)`. |
| Pieces.AsIntInjective | src/board.rs:12-17 | Two pieces with the same sign are the same piece. |
| Evaluation.CellAt | src/board.rs:169-179 | The i-th cell `score` reads is (x + i·dx, y + i·dy). It is on the grid for every in-bounds line. |
| Evaluation.LineScore | src/board.rs:156-194 | The score of a line lies within ±MAX_GAME_SCORE. With no recorded winner, any score other than a sentinel is the count of Yellow cells minus the count of Red cells. |
| Evaluation.LineScoreMeaning | src/board.rs:156-194 | With a recorded winner, every line scores that winner's sentinel. Otherwise a line scores +MAX iff it is four Yellow, -MAX iff it is four Red, and a line complete for neither colour scores within [-3, 3]. |
| Evaluation.LineAt | src/board.rs:197-244 | Each of the 69 lines, numbered in the order `get_total_score` visits them, lies on the grid. |
| Evaluation.Lines | src/board.rs:197-244 | There are 69 lines, and every one lies on the grid. |
| Evaluation.SweepFrom | src/board.rs:204-241 | The scan stops early only at a sentinel line score. With a recorded winner it stops at the first line with that winner's sentinel. |
| Evaluation.TotalScore | src/board.rs:197-244 | With a recorded winner the total is that winner's sentinel. |
| Evaluation.BlockInBounds | src/board.rs:204-241 | Every line a loop nest of `get_total_score` scores lies on the grid. |
| Evaluation.LinesByBlocks | src/board.rs:197-244 | The 69 lines are the four loop nests (24 horizontal, 21 vertical, 12 and 12 diagonal), in the order the source visits them. |
| Evaluation.TotalScoreByBlocks | src/board.rs:197-244 | The total is the four nests chained: a sentinel from an earlier nest ends the evaluation, otherwise the sums add up. |
| Evaluation.SweepAppend | src/board.rs:197-244 | Evaluating two runs of lines is the first run, then the second unless the first stopped at a sentinel. |
| Evaluation.SweepBlock | src/board.rs:204-211 | One loop nest scans its rows of line scores in order and stops at the first sentinel. |
| Evaluation.TotalScoreMeaning | src/board.rs:197-244 | With a recorded winner, the total is its sentinel. Otherwise the total is a sentinel iff some line is complete, and lies within [-207, 207] when none is. It always lies within ±MAX. |
| Evaluation.TotalScoreBounds | src/board.rs:197-244 | The total lies within ±MAX_GAME_SCORE. |
| Evaluation.TotalScoreWinner | src/board.rs:197-244 | A complete line of one colour and none of the other makes the total that colour's sentinel. |
| Evaluation.TotalScoreIgnoresDraw | src/board.rs:157-161 | A recorded `Draw` does not change the evaluation; only a recorded winner does. |
| Rules.Initial | src/board.rs:79-85 | `new` gives an all-empty 6x7 grid, no outcome and Yellow to move. |
| Rules.Place | src/board.rs:104-105 | The mover's piece goes into cell (y, c); every other cell, the outcome and the turn are unchanged. |
| Rules.DropRow | src/board.rs:97-101 | The drop loop stops at or below its start, on the floor or above an occupied cell. Every cell it passes is empty. |
| Rules.Insert | src/board.rs:87-119 | In an open game a column with an empty top cell is always accepted. |
| Rules.UpdateOutcome | src/board.rs:121-136 | The outcome update never touches the grid or the turn. |
| Rules.InsertAfterGameEnd | src/board.rs:91-93 | Once an outcome is set, every column is refused with `GameFinished`. |
| Rules.InsertFilled | src/board.rs:114-116 | In an open game, a column whose drop row is occupied is refused with `FilledSlot`. |
| Rules.InsertFullColumn | src/board.rs:97-116 | Under gravity, an occupied top cell means the whole column is full and the insertion reports `FilledSlot`. |
| Rules.InsertPlaces | src/board.rs:103-113 | With room at the drop row, the insertion places the mover's piece, updates the outcome and flips the turn only if the game is still open. |
| Rules.InsertOkNeedsOpenGame | src/board.rs:91-118 | An insertion succeeds iff the game is open and the drop row of the column is empty. |
| Rules.InsertDropsToLowestEmpty | src/board.rs:97-105 | On success exactly one cell changes: the lowest empty cell of the column (occupied below, empty above), which now holds the mover's piece. |
| Rules.InsertKeepsGravity | src/board.rs:97-105 | A successful insertion keeps gravity. |
| Rules.InsertTurn | src/board.rs:110-113 | After a successful insertion the turn flips iff the outcome is still unset; otherwise it stays with the last mover. |
| Rules.UpdateOutcomeMeaning | src/board.rs:125-135 | After a placement: a line of one colour alone makes that colour the winner, even on a full board. The result is a draw iff the top row is full and no line is complete. The game stays open iff some column is open and no line is complete. |
| Rules.UpdateOutcomeKeepsOutcome | src/board.rs:121-124 | An outcome once set is never cleared or replaced. |
| Rules.CellOfPlace | src/board.rs:104-105 | Reading any position after the placement gives the mover's piece at (c, y) and the old content elsewhere. |
| Rules.PlaceKeepsIncomplete | src/board.rs:104-105 | Placing the mover's piece cannot complete a line of the opponent. |
| Rules.PlaceGivesNoLine | src/board.rs:104-105 | If the opponent had no complete line before the placement, it has none after. |
| Rules.InsertRecordsWinner | src/board.rs:103-113 | On a reachable open board, a successful insertion never gives the opponent a line or records the opponent as winner, and it records the mover as winner iff the mover now has a complete line. |
| Rules.InsertKeepsReachable | src/board.rs:87-119 | Insertion keeps gravity and the rules that an open game has an open column and no complete line of either colour. |
| Rules.InitialReachable | src/board.rs:79-85 | The new board satisfies that invariant (gravity, an open column, no complete line while open) and has no complete line. |
| Rules.CentreOrder | src/board.rs:144 | The order lists seven column indices, each within 0..6. |
| Rules.CentreOrderIs | src/board.rs:144 | The column order is 3, 2, 4, 1, 5, 0, 6. |
| Rules.MovesOf | src/board.rs:144-148 | Filtering a list of columns gives no more moves than columns, each a 1-based column 1..7. |
| Rules.MovesOfSnoc | src/board.rs:144-148 | Looking at one more column appends it, 1-based, exactly when its top cell is empty. |
| Rules.MovesOfOrdered | src/board.rs:144-148 | Skipping full columns keeps the centre-first order of the columns tried. |
| Rules.CentreOrderFacts | src/board.rs:144 | The order names every column exactly once, centre first. |
| Rules.ValidMoves | src/board.rs:142-150 | `get_valid_moves` gives at most seven moves, each a 1-based column 1..7. |
| Rules.ValidMovesMeaning | src/board.rs:142-150 | m is a valid move iff 1 ≤ m ≤ 7 and column m-1 has an empty top cell. The moves are strictly centre-first, with no duplicates. There are none iff every column is full. |
| Rules.ValidMovesOfEmptyBoard | src/board.rs:142-150 | On the empty board the moves are [4, 3, 5, 2, 6, 1, 7]. |
| Boards.Board.constructor | src/board.rs:79-85 | `new` builds the empty board with Yellow to move and no outcome, and it is valid. |
| Boards.Board.Copy | src/board.rs:52 | The derived `clone` gives any board a copy with its own array holding the same position; the copy of a valid board is valid. |
| Boards.Board.IsSlotEmpty | src/board.rs:138-140 | True iff the top cell of the column is empty; under gravity, iff the column has room. |
| Boards.Board.InsertAt | src/board.rs:87-119 | The board becomes the successful result of `Insert`, with `Ok`. On an error it stays unchanged and returns that error. A valid board (gravity, and while the game is open an open column and no complete line) stays valid either way. |
| Boards.Board.Land | src/board.rs:103-113 | Placing at the drop row, updating the outcome and passing the turn leave the board equal to the successful result of `Insert`. A valid board stays valid. |
| Boards.Board.Put | src/board.rs:104-105 | Exactly the drop cell takes the mover's piece. |
| Boards.Board.UpdateOutcome | src/board.rs:121-136 | The board's outcome becomes the one `Rules.UpdateOutcome` gives. |
| Boards.Board.GetValidMoves | src/board.rs:142-150 | The loop returns `ValidMoves` of the board's grid. |
| Boards.Board.Score | src/board.rs:156-194 | The loop over four cells returns `LineScore` of that line. |
| Boards.Board.ScoreBlock | src/board.rs:204-211 | One loop nest returns where the sweep over its lines ends: the sentinel met, or the block's sum. |
| Boards.Board.GetTotalScore | src/board.rs:197-244 | The four loop nests return `TotalScore` of the board. |
| Search.ValidMovesPlayable | src/main.rs:79-81 | Every move `get_valid_moves` lists has room, so the `insert_at` on the clone is legal. |
| Search.Child | src/main.rs:80-81 | Playing a move on the clone passes the turn iff the game stays open. |
| Search.GameTree | src/main.rs:71-82 | A node is a leaf iff no depth is left or an outcome is set, and every leaf score lies within ±MAX_GAME_SCORE. |
| Search.BranchesOf | src/main.rs:79-82 | One branch per valid move, in the order of the moves. |
| Search.AlphaBeta | src/main.rs:67-100 | At an inner node the pruned value is at least the loop's start value -MAX+1. |
| Search.AlphaBetaBranches | src/main.rs:76-97 | The loop never lowers `value`. |
| Search.NegamaxValue | src/main.rs:67-100 | At an inner node the unpruned negamax value is at least -MAX+1. |
| Search.BestFrom | src/main.rs:84 | The running maximum over the branches never falls below its start. |
| Search.GameTreeBranches | src/main.rs:79-82 | An open node with depth left has one branch per valid move, in order, each leading to the tree of the child position with one less depth. |
| Search.GameTreeBounded | src/main.rs:71-74 | Every leaf score of the searched tree lies within ±MAX_GAME_SCORE. |
| Search.BranchBounded | src/main.rs:79-82 | Every leaf under each branch of an open node lies within ±MAX_GAME_SCORE. |
| Search.NegamaxValueBounds | src/main.rs:76-84 | The unpruned value lies within ±MAX, and at a node it is at least -MAX+1. |
| Search.AlphaBetaBounds | src/main.rs:67-100 | For colour ±1 the pruned value stays within ±MAX at every depth. |
| Search.AlphaBetaBranchesBounds | src/main.rs:76-97 | The loop keeps `value` within [-MAX+1, MAX]. |
| Search.AlphaBetaSound | src/main.rs:67-100 | For every non-empty window the pruned result is a fail-soft bound on the negamax value: an upper bound at or below alpha, a lower bound at or above beta, and exact strictly inside. |
| Search.AlphaBetaBranchesSound | src/main.rs:79-97 | The loop with its cutoff keeps that relation between `value`, `alpha` and the unpruned maximum. |
| Search.RootValueExact | src/main.rs:46-52 | With the root window (-MAX, MAX) the pruned value equals the negamax value. |
| Search.AlphaBetaBranchesBest | src/main.rs:77-92 | The move returned is column 1 or one of the moves tried. Once `value` has passed `alpha`, it is one of the moves tried. |
| Search.BranchValue | src/main.rs:82-84 | What a branch adds to its parent's `value`: the child's negated value, never below -MAX+1. |
| Search.RootChildStep | src/main.rs:79-91 | A root child searched with the window (-MAX, -value) beats `value` only with its exact branch value; otherwise its branch value does not beat `value` either. |
| Search.RootFirst | src/main.rs:76-97 | The first turn at the root: the first child is searched exactly, its value becomes `value` and `alpha`, and its move becomes the best move. |
| Search.RootStepLoop | src/main.rs:82-96 | A later turn at the root, with `alpha` equal to `value`: the loop goes on from the new maximum and the move taken only on strict improvement, or stops at MAX. |
| Search.RootStepValue | src/main.rs:83-91 | That turn keeps the running maximum and the first branch reaching it in step with the unpruned maximum. |
| Search.RootStep | src/main.rs:82-96 | One later turn at the root moves the pruned loop and the unpruned maximum on together. |
| Search.RootLoop | src/main.rs:79-97 | From any later turn on, the root loop ends with the maximum of all branches and the move of the first branch reaching it. |
| Search.RootCutoff | src/main.rs:94-96 | A break at the root comes only at MAX, which no later branch can exceed. |
| Search.RootBestMove | src/main.rs:67-100 | With the root window, the move is that of the first branch, in the order tried, whose value equals the node's negamax value; no branch is worth more. |
| Search.RootSearch | src/main.rs:46-59 | At the root call the value is the exact negamax value. With depth left in an open game, the move is a valid move that `insert_at(best).unwrap()` accepts. |
| Search.RootMove | src/main.rs:46-59 | With depth left in an open valid game, the move the root call returns is the j-th valid move, centre first, for the first j whose branch reaches the position's negamax value. |
| Search.SearchValueBounds | src/main.rs:67-100 | For colour ±1 the search value lies within ±MAX; at an open node with depth left it is at least -MAX+1. |
| Search.DecidedIsLeaf | src/main.rs:71-74 | A won position is scored at once as the winner's sentinel times the colour, with move 1. |
| Search.LeafSearch | src/main.rs:71-74 | With no depth left or a set outcome, the search gives `(get_total_score * color, 1)`. |
| Search.NodeSearch | src/main.rs:76-99 | Otherwise it is the loop over the branches, starting from value -MAX+1 and move 1. |
| Search.GameTreeShape | src/main.rs:79 | An open node with depth left has one branch per valid move, each playable. |
| Search.ChildBranch | src/main.rs:79-82 | Branch i is the i-th valid move and the tree of the position it makes, one level shallower. |
| Search.TreeStep | src/main.rs:82-96 | One turn of the loop takes the max, raises alpha and the move together on strict improvement, and stops once alpha ≥ beta. |
| Search.Negamax | src/main.rs:67-100 | The recursive method returns the value and move of the pruned search of its board's tree. It terminates on `depth` and leaves the board untouched. |
| Search.TryMove | src/main.rs:80-83 | Searching the i-th child with the swapped, negated window and colour gives the negated value of branch i. |
| Search.PlayOnCopy | src/main.rs:80-81 | The clone accepts the move (the `unwrap` never fails) and holds the child position. |

## Left out

- `main`, `get_user_input`, `update`, `clear_term` and the `Display` impls: terminal input, printing, screen clearing and `thread::sleep` are I/O.
- The static `COUNTER` node counter: it is diagnostics only and no result depends on it.
- Integer widths: `isize` and `usize` are modelled as unbounded `int`. Every value the model computes stays within ±100000, and depth only decreases, so nothing wraps. The `usize` wrap of the coordinates after the fourth step in `score` is never read, so the model reads exactly four cells.
- The `assert!` range checks on the column in `insert_at` are preconditions (`1 <= col <= 7`), not a modelled panic.
- `CellOf` reads an off-grid position as empty. Only in-bounds lines are ever scored (`Evaluation.BlockInBounds`), so no read ever goes off the grid.
- Boards.Board.ScoreBlock: the four loop nests of `get_total_score` are modelled as one method called four times with each nest's ranges and step, not as four copies of the loop.
- Search.Negamax: its contract is stated through the pure `GameTree` and `AlphaBeta` functions. The board's `grid` is a ghost copy of the array kept in step with it (`Coherent`), which is how the method's result is tied to the tree.
- The search is stated for any integer colour. The bound lemmas need colour ±1, which the root call and the negation at each level guarantee.
