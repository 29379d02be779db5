# Connect383 board and adversarial search, in Dafny

This project models the core of a Connect-4-style game ("Connect383"). A
game is played on a grid of `num_rows × num_cols` cells. Each cell holds `1`
(Player 1), `-1` (Player 2) or `0` (empty), and row 0 is the bottom row.
Tokens fall to the lowest empty cell of a column. The player to move is
derived from the sum of all cells: Player 1 moves when that sum is 0. The
game always runs until the board is full. A board's `score()` adds `length²`
for every run of at least 3 equal tokens in a row, a column or a diagonal
(positive for Player 1, negative for Player 2).

Three agents search the game tree:
- exact minimax (`MinimaxAgent`);
- depth-limited minimax with a static evaluator at the cut-off (`HeuristicAgent`);
- fail-hard alpha-beta pruning (`PruneAgent`).

All three choose their move with the same root loop, `get_move`.

Modules:

- `Options`, `Extended` (extended.dfy): Python's `None`, and the extended
  integers `-inf | n | +inf` that the searches compute with. This file
  also holds `max`/`min` and the running-maximum/minimum loops as folds.
- `Grid` (grid.dfy): the list-of-lists board, `sum(board, [])`, `zip(*board)`
  and the skew-and-zip construction of all diagonals. It also gives a
  reference definition of the diagonals by cell coordinates, and proves that
  the construction matches it.
- `Streaks` (streaks.dfy): the run-length function `streaks` and its round trip.
- `Board` (board.dfy): `GameState`. A state is a value: the source never
  changes a state after `copy`/`create_successor` have built it. The
  step-by-step operations (`copy`, `create_successor`, `successors`,
  `is_full`, `get_diags`, `score`) are methods with loops. Each is proved
  equal to a specification function, and the properties are proved about
  those functions.
- `Heuristic` (heuristic.dfy): the integer parts of the evaluator. These are
  the relaxed scanners `streaksX2`/`streaksO2`, the relaxed tallies
  `p1_score`/`p2_score` of `evaluation`, and `half_empty`.
- `Search` (search.dfy): the three searches as recursive functions folding
  over the successor sequence, the node counts, and `get_move`. The static
  evaluator (`evaluation`/`evaluation2`, whose bodies are identical) is a
  parameter `eval: State -> int` shared by the depth-limited and pruning
  searches. Every theorem holds for every evaluator.

The headline theorem is `Search.PruneIsMinimaxDepth`. For every state, depth
and evaluator, alpha-beta started from the window `(-inf, +inf)` returns
exactly the value of depth-limited minimax. It follows from the window lemma
`Search.PruneWindow`: for any window `alpha < beta`, the pruned value and the
true value are equal once both are clamped into `[alpha, beta]`. Every
recursion terminates on the number of empty cells, which each move lowers by
one (`Board.ChildEmpties`).

Three behaviours of the code worth knowing, all modelled as the code has
them:
- `create_successor` on a full column raises no error. Its row scan stops
  at the top row and overwrites the token there (`Board.ChildOverwrites`).
  `successors()` never asks for a full column.
- `half_empty` is true when at most half the cells are occupied. In that
  case `evaluation` takes the `5*score` formula, so that formula applies to
  boards that are at most half filled.
- `get_move` on an alpha-beta agent searches every child with
  `minimax_prune` from the full window `(-inf, +inf)`; it does not reuse one
  windowed pass. `get_move` returns `(None, None)` when no child strictly
  beats the start value `∓inf`, and in particular when there are no children.

## Model

| member | source | states |
|---|---|---|
| `Extended.Max` | agents.py:68 | `max(v, x)` is an upper bound of both arguments and is one of them |
| `Extended.Min` | agents.py:76 | `min(v, x)` is a lower bound of both arguments and is one of them |
| `Extended.FoldMax` | agents.py:65-69 | the running maximum `v = max(v, x)` over a list bounds every element and the start value, and is the start value or one of the elements |
| `Extended.FoldMin` | agents.py:73-77 | the running minimum is below every element and the start value, and is the start value or one of the elements |
| `Extended.FoldMaxSnoc` | agents.py:40-43 | helper for `Search.ChosenStep`: one more iteration of the `get_move` loop takes the max of the best value so far and the new `util` |
| `Extended.FoldMaxStart` | agents.py:328-335 | helper for `Search.PruneWindow`: folding `alpha = max(v, alpha)` into the running `max` loop is the same as taking `max(alpha, ·)` of its result |
| `Streaks.ComputeStreaks` | connect383.py:165-178 | the one-pass scan of `streaks` returns `Runs(lst)`; expanding its runs reproduces `lst`, and the runs are canonical (every length ≥ 1, neighbouring elements differ) |
| `Streaks.RunsRoundTrip` | connect383.py:165-178 | concatenating `length` copies of each `elt` of `streaks(lst)` gives back `lst`, and the result is canonical |
| `Streaks.ExpandRoundTrip` | connect383.py:165-178 | the other direction: any canonical run list is exactly what `streaks` returns on its expansion, so the encoding is unique |
| `Streaks.RunsLength` | connect383.py:165-178 | the lengths of `streaks(lst)` sum to `len(lst)`, and a non-empty line has at least one run |
| `Streaks.RunsUniform` | connect383.py:165-178 | a line holding one value throughout is one run as long as the line |
| `Streaks.RunsNeg` | connect383.py:165-178 | negating every cell of a line negates each run's element and keeps its length |
| `Grid.Zip` | connect383.py:109-111 | `zip(*g)` has as many tuples as the shortest row, and tuple `k` holds cell `k` of every row |
| `Grid.ForwardAt` | connect383.py:113-117 | the `forwards` lists number `rows + cols - 1`, and list `k` holds exactly the cells with `c - r == k - (rows - 1)`, by increasing row |
| `Grid.BackAt` | connect383.py:113-119 | the `backs` lists number `rows + cols - 1`, and list `k` holds exactly the cells with `r + c == k`, by increasing row |
| `Grid.ForwardCover` | connect383.py:113-117 | every cell lies on exactly one forward diagonal, at exactly one position |
| `Grid.BackCover` | connect383.py:113-119 | every cell lies on exactly one backward diagonal, at exactly one position |
| `Grid.DiagCells` | connect383.py:113-120 | each position of a diagonal holds the board cell its coordinates name, and that cell is on the board |
| `Grid.FlattenNoZeros` | connect383.py:48 | `sum(board, [])` has no zero exactly when no cell of the board is zero |
| `Grid.FlattenUpdate` | connect383.py:48 | setting one cell of the board sets exactly one entry of `sum(board, [])` |
| `Board.Init` | connect383.py:23-33 | `GameState(nrows, ncols)` is a `nrows × ncols` board of zeros |
| `Board.Copy` | connect383.py:35-41 | the cell-by-cell copy equals the original state |
| `Board.NextPlayer` | connect383.py:43-48 | `next_player()` is 1 exactly when the cells sum to 0, and -1 otherwise |
| `Board.DropRow` | connect383.py:54-56 | the row scan stops below the top row only at an empty cell, and every cell below that row is occupied |
| `Board.CreateSuccessor` | connect383.py:50-59 | `create_successor(col)` copies the state, scans column `col` up to its lowest empty cell (or the top row) and puts the mover's token there; it returns `Child(s, col)` |
| `Board.ChildDiffers` | connect383.py:50-59 | on an open column the child differs from the parent in exactly one cell: the lowest empty cell of `col`, which now holds the parent's `next_player()` |
| `Board.ChildOverwrites` | connect383.py:54-57 | on a full column of a gravity-consistent board the scan stops at the top row and overwrites that token, so no empty cell is filled |
| `Board.ChildEmpties` | connect383.py:50-59 | each move on an open column fills exactly one empty cell |
| `Board.ChildrenEmpties` | connect383.py:61-70 | every successor has one empty cell fewer than its parent, which makes every search terminate |
| `Board.ChildBalanced` | connect383.py:43-59 | a move adds the mover's token to the cell sum, so from a sum in {0, 1} the sum stays in {0, 1} and `next_player()` flips |
| `Board.ChildKeepsShape` | connect383.py:50-59 | a move keeps every cell in {-1, 0, 1} and keeps gravity |
| `Board.Children` | connect383.py:61-70 | the `(col, state)` pairs are in strictly ascending `col`, cover exactly the columns whose top cell is 0, and each state is `create_successor(col)` |
| `Board.Successors` | connect383.py:61-70 | the loop over the columns returns `Children(s)` |
| `Board.IsFull` | connect383.py:138-144 | `is_full()` is true exactly when no cell is 0 |
| `Board.FullIffNoEmpties` | connect383.py:138-144 | a board is full exactly when it has no empty cell to count |
| `Board.NoChildrenIffFull` | connect383.py:61-70 | on a gravity-consistent board `successors()` is empty exactly when `is_full()` holds |
| `Board.GetCol` | connect383.py:78-80 | `get_col(c)` lists column `c` bottom row first |
| `Board.RowsAndCols` | connect383.py:74-111 | `get_all_rows` gives row `r` as `get_row(r)`; `get_all_cols` gives `num_cols` columns, column `c` being `get_col(c)`; both agree with `get_cell(r, c)` |
| `Board.DiagonalsAre` | connect383.py:113-120 | `get_all_diags` returns `2*(rows + cols - 1)` lists: first the lists of equal `c - r`, then those of equal `r + c` |
| `Grid.DiagonalsForward` | connect383.py:113-120 | list `k < rows + cols - 1` of `get_all_diags` holds the cells with `c - r == k - (rows - 1)`, by increasing row |
| `Grid.DiagonalsBack` | connect383.py:113-120 | list `rows + cols - 1 + k` of `get_all_diags` holds the cells with `r + c == k`, by increasing row |
| `Board.LinesCount` | connect383.py:130 | `score()` looks at `rows + cols + 2*(rows + cols - 1)` lines |
| `Board.LinesAre` | connect383.py:130-131 | no line that `score()` passes to `streaks` is empty |
| `Board.GetDiags` | connect383.py:86-100 | `get_diags(r, c)` returns the diagonal of equal `c - r` and the diagonal of equal `r + c` through the cell, both read by increasing column |
| `Board.LineScores` | connect383.py:131-135 | the inner loop of `score` adds `length²` for each run of length ≥ 3 to its player's total |
| `Board.LinesScores` | connect383.py:128-135 | the outer loop of `score` sums those points over every line for each player |
| `Board.Score` | connect383.py:122-136 | `score()` is Player 1's points minus Player 2's over all rows, columns and diagonals |
| `Board.UniformLinePoints` | connect383.py:122-136 | a line of one player's token earns that player `length²` when it is at least 3 long (16 for four in a row) and earns the other player nothing |
| `Board.ScoreNegation` | connect383.py:122-136 | negating every cell negates `score()` |
| `Heuristic.RelaxedStreaks` | agents.py:148-198 | `streaksX2` (`tok` = 1) and `streaksO2` (`tok` = -1), run as written, return `Relaxed(lst, tok)` |
| `Heuristic.RelaxedShape` | agents.py:148-198 | the scanners return a non-empty list whose lengths lie in `[1, len(lst)]`; when `lst[0]` is not the player's token the result is exactly `[(lst[0], 1)]` |
| `Heuristic.RelaxedAllTokens` | agents.py:174-198 | on a line of the player's token alone the relaxed scanner agrees with `streaks`: one run as long as the line |
| `Heuristic.RelaxedNeg` | agents.py:148-198 | `streaksO2` is `streaksX2` with the colours swapped: on the negated line it negates each element and keeps each length |
| `Heuristic.TallyRuns` | agents.py:217-223 | the per-line tally adds the length of every relaxed run at least 3 long |
| `Heuristic.LineRelaxed` | agents.py:217-223 | one iteration of the tally loop adds each player's relaxed points for that line |
| `Heuristic.RelaxedScores` | agents.py:210-223 | `evaluation`'s first loop computes `p1_score` from `streaksX2` and `p2_score` from `streaksO2` over every line |
| `Heuristic.RelaxedTalliesSwap` | agents.py:216-223 | negating every cell of the board swaps `p1_score` and `p2_score` |
| `Heuristic.HalfEmpty` | agents.py:257-269 | `half_empty` is true exactly when occupied cells are no more than empty ones |
| `Heuristic.CellsSplit` | agents.py:260-265 | the counters `x` and `z` together cover every cell |
| `Heuristic.HalfEmptyMonotone` | agents.py:257-269 | a move occupies one more cell, so a board that is no longer half empty never becomes half empty again |
| `Heuristic.HalfEmptyEnds` | agents.py:225-228 | a full board is not half empty, and the empty board is |
| `Search.MinimaxValues` | agents.py:66-68 | one minimax value per successor, in `successors()` order |
| `Search.MinimaxFull` | agents.py:58-61 | `minimax` on a full board returns `score()` |
| `Search.MinimaxMaxNode` | agents.py:63-69 | at a non-full Player 1 node, `minimax` is a successor value that no successor value exceeds, or `-inf` when there are no successors |
| `Search.MinimaxMinNode` | agents.py:71-77 | at a non-full Player 2 node, `minimax` is a successor value below every other, or `+inf` when there are no successors |
| `Search.DepthValues` | agents.py:119-129 | one depth-limited value per successor, in `successors()` order |
| `Search.DepthCutoffs` | agents.py:103-126 | `minimax_depth` returns `score()` on a full board whatever the depth, and `evaluation` on a non-full board at depth 0; `None` behaves as -1; below a non-full node with a positive depth each successor is searched at depth one less, and with a negative depth at the same depth |
| `Search.DepthUnbounded` | agents.py:107-130 | with a negative depth, or one at least the number of empty cells, `minimax_depth` equals exact `minimax` for every evaluator |
| `Search.NoDepthIsExact` | agents.py:103-130 | `minimax_depth(s, None)` equals `minimax(s)` |
| `Search.PruneMaxWindow` | agents.py:325-335 | the Player 1 loop with `break` on `beta <= alpha` returns at least `alpha`, and clamped into `[alpha, beta]` it equals the running maximum of the true child values |
| `Search.PruneMinWindow` | agents.py:339-349 | the Player 2 loop returns at most `beta`, and clamped into `[alpha, beta]` it equals the running minimum of the true child values |
| `Search.PruneWindow` | agents.py:310-349 | for any window `alpha < beta`, clamping `minimax_prune_helper` into `[alpha, beta]` equals clamping `minimax_depth` into it |
| `Search.PruneIsMinimaxDepth` | agents.py:288-308 | `minimax_prune` from `(-inf, +inf)` returns the same value as `minimax_depth` at the same depth, for every evaluator |
| `Search.PruneNoDepthIsExact` | agents.py:288-308 | without a depth, `minimax_prune` returns the exact minimax value |
| `Search.PruneFewer` | agents.py:291-299 | alpha-beta never makes more states (`create_successor` calls) than depth-limited minimax at the same depth, for any window and evaluator |
| `Search.PruneMaxFewer` | agents.py:329-333 | the Player 1 pruning loop makes no more states than searching every remaining child |
| `Search.PruneMinFewer` | agents.py:343-347 | the Player 2 pruning loop makes no more states than searching every remaining child |
| `Search.Utils` | agents.py:40-41 | `get_move` evaluates one value per successor, each with the depth it was given |
| `Search.ChosenStep` | agents.py:42-43 | one iteration of `get_move`'s loop keeps the first strictly best value seen so far |
| `Search.ChosenEnd` | agents.py:33-44 | at the end of the loop, the kept index holds the first best value, and nothing was kept exactly when no value beats `∓inf` |
| `Search.GetMove` | agents.py:33-44 | `get_move` returns the first successor in column order whose value is best for the mover, or `(None, None)` exactly when no successor's value beats the start value |
| `Search.RootValue` | agents.py:33-44 | the best value `get_move` sees is the agent's own value of the root searched one ply deeper, so the chosen move is minimax-optimal for every agent |

## Left out

- `RandomAgent` and `HumanAgent`: randomness and interactive input (agents.py:8-27).
- `play_game`, the command-line block, `__str__` and `winner`: printing and the driver loop. `winner` also divides by zero on a tie.
- `empty()` and its `print("yes")` calls: debug output only.
- `convulations`, and the final formulas of `evaluation`/`evaluation2`: they
  compute in floating point (`1.1`, `c**2`). The searches take the evaluator
  as an integer-valued parameter instead. Only its integer parts are
  modelled: the relaxed tallies and `half_empty`.
- `HeuristicAgent.streaks` and `HeuristicAgent.score` (and `PruneAgent`'s
  copies of `streaksX2`, `streaksO2` and `score`) have the same bodies as
  `streaks`, `GameState.score`, `streaksX2` and `streaksO2`. They are modelled
  once, by `Streaks.Runs`, `Board.Points` and `Heuristic.Relaxed`.
- `GameState.state_count` is not a mutable counter here. The number of states
  a search creates is the function `Search.DepthCount` / `Search.PruneCount`.
- Search.PruneFewer: proves that pruning never creates more states, not that
  it creates strictly fewer on some board. That needs a concrete game tree
  evaluated in the verifier, which is too costly.
- The preset boards of test_boards.py, and the `-18` minimax value claimed for
  `test_4x4`: evaluating that full game tree in the verifier is too costly.
- A `GameState` is a mutable object whose `board` list the caller could alias.
  The model treats every state as an immutable value, which is how the code
  uses states. Sharing of board lists between states is not modelled.
- `Streaks.Runs` and `Heuristic.Relaxed` return the empty list on an empty
  line, where the source fails on `lst[0]`. No board with at least one row
  and one column produces an empty line (`Board.LinesAre`).
- A board with zero rows or zero columns is excluded (`WellFormed`), so the
  model has no value for a search on a zero-row board, where the source
  returns 0. On a zero-row board `is_full()` is true and `score()` is 0,
  because every line list is empty (connect383.py:105-120, 138-144). So
  `minimax` and `minimax_depth` return 0 there. Only `successors()` fails, on
  `board[-1]` (connect383.py:68), when there is at least one column. On a
  board with rows but no columns, `score()` fails in `streaks([])` on
  `lst[0]` (connect383.py:168).
- Board.Init: `GameState.__init__` defaults to `nrows=6, ncols=7`
  (connect383.py:23). `Init` takes both sizes as arguments and has no
  defaults, because Dafny functions have no default arguments; `Init(6, 7)`
  is the default board.
