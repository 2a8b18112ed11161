# Sudoku engine of sudoku.js, modelled in Dafny

sudoku.js is a browser Sudoku game. Its engine keeps three globals:
- the puzzle `board`;
- the `solution` snapshot;
- the per-cell candidate `domains`.

It updates them in place through these operations:
- the legality check `isSafe` / `isValidMove`;
- the backtracking solver `solveSudoku`;
- the generator steps: `shuffle`, `randomizeGrid`, the `SudokuGenerator` constructor, `copyBoard` and `removeNumbers`;
- the difficulty table of `startNewGame`;
- the domain propagation pass `ac3`;
- the board update made by `handleInput`.

The model has two layers.

- **Value level.** Boards are `seq<seq<int>>` and each operation is a ghost function:
  - `Grid.Safe` is the legality rule.
  - `Grid.Solve` / `Grid.TryValues` are the solver. They use the same row-major cell order and the same 1..9 value order as the code.
  - `Shuffling.Shuffled` is the shuffle.
  - `Removal.Removed` is clue removal.
  - `Propagation.Propagated` is the state ac3 reaches.
  - `Generator.Generated` / `Generator.Puzzle` are the generator and the puzzle it yields.
  - `Input.AfterInput` is the input update.

  Lemmas state what the source promises about these functions:
  - consistency is preserved;
  - a successful search is a complete valid Sudoku that keeps every given;
  - the search succeeds whenever some complete valid Sudoku keeps every given;
  - the candidate loop returns the search of the least value that succeeds;
  - the generator always completes its seed, because cyclic shifts of the first row form a solution;
  - the shuffle is a permutation;
  - removal clears exactly the cells it reports;
  - each empty cell's domain is exactly its legal digits;
  - propagation is idempotent.
- **Imperative level.** The class `Game.Game` holds the three globals as `array2` fields. Each source function becomes a method that mutates them with the source's own loops. Each method's `ensures` ties the new state to the value-level function applied to the old state, so the lemmas carry over to the code. That a failed search leaves the board exactly as it was is an `ensures` of `Game.Game.SolveSudoku` and `Game.Game.TryValue`.

Randomness is supplied by the caller:
- `shuffle` takes the index drawn at each step as `picks`.
- `removeNumbers` takes the sequence of drawn coordinates.

The text typed into a cell becomes the datatype `Input.Entry`: `Blank`, `Number(n)` or `NotANumber`.

Two behaviours of the code are easy to miss:
- The legality check scans the cell itself as well, so a digit equal to the cell's current content is rejected (`Input.SameDigitRejected`).
- A rejected entry is never written to `board`; only a CSS class marks it on the page.

The work-loop helpers (`TryCell`, `TryValue`, `InitRow`, `ReviseCell`, `PruneValue`, `WriteFirstRow`, `SaveSolution`, `SetCell`) are loops or statements of the source, split into methods of their own.

## Model

| member | source | states |
|---|---|---|
| Game.Game.constructor | sudoku.js:6-8 | The initial globals: board and solution are all zeros, and every cell's domain is empty. |
| Game.Game.IsSafe | sudoku.js:35-50 | Returns true exactly when `num` occurs nowhere in the row, the column or the 3x3 box of (row, col), the cell itself included (`Grid.Safe`). Changes nothing. It also models isValidMove, the identical scan at lines 118-133. |
| Grid.SeesSymmetric | sudoku.js:37-48 | The row/column/box relation scanned by the check is symmetric. |
| Grid.FirstEmptyFrom | sudoku.js:53-55 | The cell found is in range and empty. When none is found, every cell from (r, c) onward in row-major order is nonzero. |
| Grid.FirstEmptyFromIsFirst | sudoku.js:53-55 | The cell found is the first empty cell at or after (r, c) in row-major order: it does not precede (r, c), and every cell between (r, c) and it is nonzero. |
| Grid.Solve | sudoku.js:52-68 | A successful search returns a board without zeros that keeps every nonzero cell of its input. |
| Grid.TryValues | sudoku.js:56-63 | A successful candidate loop returns a board without zeros that keeps every nonzero cell of its input. |
| Grid.FillShrinksZeroCells | sudoku.js:58-59 | Writing a digit into an empty cell strictly shrinks the set of empty cells, so the recursion terminates. |
| Grid.TryValuesSomeIff | sudoku.js:56-63 | The candidate loop from v succeeds exactly when some value in v..9 passes the check and its search succeeds. |
| Grid.TryValuesMonotone | sudoku.js:56-63 | If the loop succeeds from a start value u, it succeeds from every earlier start value. |
| Grid.TryValuesNoneFrom | sudoku.js:56-63 | When no value in v..9 both passes the check and has a successful search, the loop fails. |
| Grid.TryValuesFirstSuccess | sudoku.js:56-63 | The loop from v returns exactly the search result of the least value in v..9 that passes the check and whose search succeeds. |
| Grid.SolveFindsSolution | sudoku.js:52-68 | Completeness: if some complete valid Sudoku keeps every nonzero cell of g, the search from g succeeds. |
| Grid.TryValuesFindsSolution | sudoku.js:56-63 | If some complete valid Sudoku s keeps every given and v is at most s's digit at the cell, the loop from v succeeds. |
| Grid.SafePlacementKeepsConsistent | sudoku.js:57-58 | Writing a value that passes the check into a consistent board keeps every row, column and box free of repeats. |
| Grid.ClearingKeepsConsistent | sudoku.js:60 | A board obtained by clearing cells of a consistent board is consistent. |
| Grid.SolveKeepsConsistent | sudoku.js:52-68 | From a consistent board, a successful search yields a consistent board. |
| Grid.TryValuesKeepsConsistent | sudoku.js:56-63 | The candidate loop keeps consistency. |
| Grid.PlacementKeepsConsistent | sudoku.js:57-59 | A safe placement followed by a successful search yields a consistent board. |
| Grid.SolveKeepsWellFormed | sudoku.js:52-68 | The search writes only digits 1..9, so every cell stays within 0..9. |
| Grid.TryValuesKeepsWellFormed | sudoku.js:56-63 | The candidate loop keeps every cell within 0..9. |
| Grid.PlacementKeepsWellFormed | sudoku.js:56-59 | A placement of 1..9 followed by a successful search keeps every cell within 0..9. |
| Grid.SolveYieldsSolution | sudoku.js:52-68 | From a consistent well-formed board, a successful search yields a complete valid Sudoku that keeps every given. |
| Grid.FullBoardIsSolved | sudoku.js:67 | A board without empty cells is returned as solved and unchanged. |
| Grid.SolveOrKeepIdempotent | sudoku.js:21-22 | Solving a second time (the constructor's extra solve) changes nothing. |
| Game.Game.SetCell | sudoku.js:58 | The board becomes the old board with (row, col) set to v, and every other cell unchanged. |
| Game.Game.SolveSudoku | sudoku.js:52-68 | Returns true exactly when the search succeeds. The board becomes the solved board on success and stays exactly the old board on failure. |
| Game.Game.TryCell | sudoku.js:56-63 | On success the board is the candidate loop's result. On failure the loop is exhausted and the board is exactly as before. |
| Game.Game.TryValue | sudoku.js:57-61 | On success the board is this turn's result. On failure every cell is back to its old value (the backtrack resets the cell to 0) and the loop goes on with num + 1. |
| Shuffling.Swap | sudoku.js:14 | Positions i and j are exchanged and every other position is kept. |
| Shuffling.Shuffle | sudoku.js:11-16 | The array becomes `Shuffled(old contents, picks)`. |
| Shuffling.SwapPermutes | sudoku.js:14 | A swap keeps the multiset of elements. |
| Shuffling.SwapKeepsDistinct | sudoku.js:14 | A swap keeps distinct elements distinct. |
| Shuffling.ShuffleFromPermutes | sudoku.js:12-15 | Every run of swap steps is a permutation and keeps distinct elements distinct. |
| Shuffling.ShuffledPermutes | sudoku.js:11-16 | The shuffle result has the same multiset as the input and is distinct when the input is. |
| Shuffling.ShuffledDigits | sudoku.js:27-28 | Shuffling 1..9 gives nine distinct values whose members are exactly 1..9. |
| Game.Game.WriteFirstRow | sudoku.js:29-31 | Row 0 becomes the array's contents and the other rows are unchanged. |
| Game.Game.RandomizeGrid | sudoku.js:26-33 | The board becomes the solver's result on the old board with row 0 replaced by the shuffled digits. |
| Game.CopyBoard | sudoku.js:82-84 | A fresh 9x9 array with the same cells as its argument. |
| Game.Game.SaveSolution | sudoku.js:23 | `solution` becomes a fresh copy of the board; board and domains are untouched. |
| Game.Game.Generate | sudoku.js:20-24 | Board = solve(old board with shuffled row 0), because the second solve changes nothing. The solution is a fresh snapshot of that board. |
| Generator.SeedIsConsistent | sudoku.js:27-31 | The seeded board (empty board plus shuffled row 0) is well formed and consistent, and it is empty exactly outside row 0. |
| Generator.CompletionIsSolution | sudoku.js:26-33 | Filling row i with the first row shifted by 3*(i%3) + i/3 gives a complete valid Sudoku that keeps the seeded row 0. |
| Generator.GeneratedIsSolution | sudoku.js:20-33 | The search from the seeded board always succeeds. The generated grid is a complete valid Sudoku whose row 0 is the shuffled digits. |
| Removal.ClearedAfterClear | sudoku.js:75-77 | Clearing a clue adds exactly that cell to the cells cleared. |
| Removal.RemovedClearsExactly | sudoku.js:70-80 | Removal only turns clues into zeros, clears at most k cells, and the count it reports equals the number of clues it cleared. |
| Removal.RemovalNeedsClues | sudoku.js:72-79 | The count reached never exceeds the number of clues, so `removeNumbers(k)` can finish only on a board with at least k clues. |
| Game.Game.RemoveNumbers | sudoku.js:70-80 | The board becomes `Removed(old board, numRemove, picks)`. `done` holds exactly when numRemove cells were cleared. |
| Generator.RemovalCount | sudoku.js:202-208 | Levels 1, 2 and 3 and no others remove cells; the counts lie between EASY (46) and HARD (56), below 81. |
| Generator.HarderLevelsRemoveMore | sudoku.js:2-4 | A higher level removes strictly more cells. |
| Generator.EmptyBoard | sudoku.js:197 | The reset board is 9x9 and all zeros. |
| Generator.PuzzleMatchesSolution | sudoku.js:195-208 | The solution keeps every clue of the puzzle. The puzzle is consistent, well formed and solvable by the search. When the removal completed, exactly the level's count of cells is empty. |
| Game.Game.StartNewGame | sudoku.js:195-212 | The board is fresh and equals `Puzzle(shuffle picks, level, removal picks)`. The solution is a fresh snapshot of the generated grid. The domains are kept from before. |
| Propagation.WithoutMembers | sudoku.js:108 | The filter keeps exactly the elements different from the removed value. |
| Propagation.SafeValuesMembers | sudoku.js:106-108 | Filtering a list by the check keeps exactly its safe members. |
| Propagation.SafeValuesIncreasing | sudoku.js:106-108 | Filtering keeps an ascending list ascending. |
| Propagation.CandidatesAreSafeDigits | sudoku.js:96-108 | A settled domain holds exactly the digits 1..9 that pass the check, in ascending order. |
| Propagation.CandidatesStable | sudoku.js:103-113 | Revising a settled domain removes nothing, so a re-queued singleton is never pruned again. |
| Propagation.PruneKeep | sudoku.js:106-107 | A value that passes the check stays in the domain. |
| Propagation.PruneRemove | sudoku.js:106-108 | A value that fails the check is removed, and only that value, so the domain shrinks by exactly one. |
| Propagation.SettleOne | sudoku.js:102-114 | Settling one cell, with nothing else changed, strictly shrinks the set of unsettled cells (the loop measure). |
| Propagation.WorkInvariantInit | sudoku.js:89-100 | After initialisation (every empty cell holds 1..9 and is queued), the work-loop invariant holds. |
| Propagation.WorkStep | sudoku.js:102-114 | One dequeue-and-revise turn keeps the invariant. It either settles a cell or shortens the queue. |
| Propagation.WorkDone | sudoku.js:102 | With the queue empty, the domains are exactly the propagated domains. |
| Propagation.PropagatedDomains | sudoku.js:88-115 | After the pass, an empty cell's domain holds exactly the digits that may go there; no digit of a cell it sees remains. |
| Propagation.PropagatedIdempotent | sudoku.js:88-115 | Running the pass twice on the same board gives the same domains as once. |
| Game.Game.InitRow | sudoku.js:93-99 | Each empty cell of the row gets 1..9 and is returned for queueing; every other domain is unchanged. |
| Game.Game.InitDomains | sudoku.js:89-100 | Every empty cell holds 1..9 and is queued, filled cells keep their domains, and only empty cells are queued. |
| Game.Game.PruneValue | sudoku.js:107-111 | A value that fails the check is filtered out of the cell's domain, and the cell is queued again exactly when one value is left after that removal. A value that passes changes nothing. |
| Game.Game.ReviseCell | sudoku.js:103-113 | The dequeued cell's domain becomes its safe values, taken from the list as it stood at dequeue time. Other domains are unchanged. The cell is queued again exactly once when the domain went from two or more values to at most one, and otherwise not at all, so a settled cell is not re-queued. |
| Game.Game.Ac3 | sudoku.js:88-115 | The pass terminates and leaves `Propagated(board, old domains)`. The board is not modified. |
| Input.InputKeepsConsistent | sudoku.js:155-176 | No input can make a consistent, well-formed board break a rule or hold a value outside 0..9. |
| Input.SameDigitRejected | sudoku.js:167 | Entering the digit the cell already holds is rejected and leaves the board unchanged. |
| Game.Game.HandleInput | sudoku.js:155-176 | The board becomes `AfterInput(old board, entry)`. `invalid` holds exactly for a non-blank entry that is not an accepted digit. The domains are propagated after an accepted digit and are otherwise unchanged. |

## Left out

- DOM rendering and event wiring are not modelled: `setupGrid`, the stop-button display of `solution`, the `classList` toggling in `handleInput`, and the load/change listeners. They carry no engine logic.
- `Math.random` is replaced by caller-supplied choices: the swap indices of `shuffle` and the coordinates drawn by `removeNumbers`. Uniformity and probabilities are not modelled.
- `parseInt`/`isNaN` string parsing is not modelled. The typed text arrives as an already-parsed `Entry`.
- Reading the difficulty level from the page is not modelled. `StartNewGame` takes the level as a parameter.
- Game.Game.RemoveNumbers: consumes a finite sequence of drawn coordinates and reports through `done` whether it cleared `numRemove` cells before they ran out. The source keeps drawing forever, so on a board with too few clues it never returns (`Removal.RemovalNeedsClues` states when it can finish).
- Game.Game.ReviseCell: requires the dequeued domain to be ascending, which holds within `ac3` (1..9 at first, filtered afterwards). Domains with repeated values are not covered.
- Game.Game.StartNewGame: the source does not reset `domains` when a new game starts. The model keeps them likewise, so stale domains of filled cells carry over.
- Game.Game.HandleInput: the displayed text of a rejected entry lives only in the page. The model keeps only the board, which the source does not change.
