# Sudoku backtracking solver — a Dafny model

This project models the core of a small desktop Sudoku solver.

The `SudokuSolver` class (`src/Part1/sudoku_solver.py`) holds three things:

- a 9x9 board, where 0 marks an empty cell;
- three search counters: `steps`, `recursive_calls` and `backtracks`;
- the operations that work on them:
  - `load_from_csv` fills the board from CSV rows;
  - `is_valid` checks a digit against its row, column and 3x3 box;
  - `solve_algorithm` is the recursive backtracking search, which writes into the board in place;
  - `run_solver` resets the counters and runs the search.

The window class `SudokuMainWindow` (`src/Part1/sudoku_gui.py`) adds four operations on the grid of cell texts:

- `sync_gui_to_backend` reads the cell texts into the board;
- `self_check_isvalid` is the contradiction check run before solving;
- `solve_puzzle` checks first, then solves and shows the result;
- `clear_board` empties the board and the cells.

Modules, one file each:

- `board.dfy` (`Board`): the grid, the cell write `board[i][j] = v`, rows, columns and boxes, the row-major scan for the first empty cell, and the count of empty cells.
- `text.dfy` (`Text`): the Python string operations the code relies on: `strip()`, `isdigit()`, `int()` and `str()`.
- `validity.dfy` (`Validity`): `is_valid` as a function, built from its three scans, with an exact description of what it accepts.
- `backtrack.dfy` (`Backtrack`): the search as two mutually recursive functions.
  - `Solve` is one call of `solve_algorithm`.
  - `TryFrom` is its candidate loop from a given digit on.
  - The lemmas prove what the search does:
    - it restores the board on failure;
    - it fills exactly the empty cells on success;
    - it keeps a conflict-free board conflict-free;
    - it writes the smallest digit that succeeds;
    - the counters stay in proportion;
    - for a conflict-free board, it succeeds exactly when the puzzle has a solution.
- `emptyboard.dfy` (`EmptyBoard`): the empty puzzle. A standard filled grid is proved to solve it, so the search always succeeds on it.
- `loader.dfy` (`Loader`): the per-row token filter of `load_from_csv`, the rule that keeps a row only when the filter yields nine values, and a write-then-load round trip.
- `solver.dfy` (`Solver`): the class `SudokuSolver`.
  - The board and the counters are its fields.
  - `LoadFromCsv`, `SolveAlgorithm` and `RunSolver` are methods that update those fields.
  - Each method is proved equal to the functions above, counters included.
- `gui.dfy` (`Gui`): the class `SudokuMainWindow`.
  - Its grid of cell texts is a field, and it refers to its solver.
  - It has the four window operations above, proved against the same functions.

Where the code and its documentation disagree, the model follows the code:

- **Multi-digit tokens.** The loader keeps any token whose stripped form is all digits, so `" 12 "` becomes 12. It does not keep only single digits (`Loader.MultiDigitToken`).
- **Loading clears the board.** Loading first empties the board. A failed load does not leave the previous board in place: the rows kept before the failure stay on the board (`LoadFromCsv`).
- **Full boards.** A board with no empty cell is reported solved at once, even when its filled values clash (`Backtrack.SolveCompleteBoard`).

`is_valid` also scans the target cell itself, so a value already sitting there is rejected (`Validity.IsValidSpec`). Callers therefore clear a cell before testing it, as `self_check_isvalid` does.

## Model

A function that models an operation and states little in its own contract is covered by the row of its specification lemma: `Validity.IsValid` by `Validity.IsValidSpec`, `Board.FirstEmpty` by `Board.FirstEmptySpec`, `Text.Strip` by `Text.TrimLeftSpec` and `Text.TrimRightSpec`, `Gui.CellValue` by `Gui.CellsToBoard`, and `EmptyBoard.ZeroBoard` by `Gui.SudokuMainWindow.ClearBoard` and `EmptyBoard.EmptyBoardSolves`.

| member | source | states |
|---|---|---|
| Board.Place | src/Part1/sudoku_solver.py:115 | `board[i][j] = v` changes cell (i, j) to v and no other cell; the result is still 9x9 |
| Board.PlaceUndo | src/Part1/sudoku_solver.py:115-121 | writing back the old value of a cell undoes a write to it |
| Board.BoxStart | src/Part1/sudoku_solver.py:78-79 | the box origin `k - k % 3` is a multiple of 3, at most k, and the box `origin .. origin + 2` stays inside 0..8 |
| Board.SameBand | src/Part1/sudoku_solver.py:78-82 | two indices share a band of three exactly when one lies in the band that starts at the other's box origin |
| Board.ZeroCountPlace | src/Part1/sudoku_solver.py:115-117 | writing a digit into an empty cell leaves one empty cell fewer, which is why the recursion ends |
| Board.FirstEmptyFromSpec | src/Part1/sudoku_solver.py:108-110 | the scan from (i, j) finds nothing exactly when all later cells are filled; otherwise it stops at an empty cell with only filled cells before it |
| Board.FirstEmptySpec | src/Part1/sudoku_solver.py:108-110 | the row-major scan finds no empty cell exactly when the board is complete, and otherwise finds the first empty cell |
| Text.TrimLeftSpec | src/Part1/sudoku_solver.py:37 | stripping on the left keeps a suffix that starts with no whitespace, and drops only whitespace |
| Text.TrimRightSpec | src/Part1/sudoku_solver.py:37 | stripping on the right keeps a prefix that ends with no whitespace, and drops only whitespace |
| Text.StripDigits | src/Part1/sudoku_solver.py:37 | a digit string is unchanged by `strip()` |
| Text.DecimalRoundTrip | src/Part1/sudoku_gui.py:180-181 | `str(n)` is a digit string and `int(str(n)) == n` |
| Validity.RowFreeSpec | src/Part1/sudoku_solver.py:67-70 | the row scan from column x passes exactly when no cell of the row from x on holds `num` |
| Validity.ColFreeSpec | src/Part1/sudoku_solver.py:72-75 | the column scan from row x passes exactly when no cell of the column from x on holds `num` |
| Validity.BoxFreeSpec | src/Part1/sudoku_solver.py:77-83 | the 3x3 box scan passes exactly when no cell of the box from the scan position on holds `num` |
| Validity.IsValidSpec | src/Part1/sudoku_solver.py:50-85 | `is_valid` accepts `num` at (row, col) exactly when no cell sharing a row, a column or a box with it, the cell itself included, holds `num` |
| Validity.UnitCells | src/Part1/sudoku_solver.py:77-83 | the cells the three scans visit, with box indices `start + d` for d in 0..2, are exactly the cells sharing a unit with (row, col) |
| Backtrack.Solve | src/Part1/sudoku_solver.py:87-125 | a call of `solve_algorithm` leaves a 9x9 board, and a failed call leaves the board it was given |
| Backtrack.TryFrom | src/Part1/sudoku_solver.py:111-124 | the candidate loop leaves a 9x9 board, and when no digit succeeds it leaves the board it started from |
| Backtrack.TryFromStep | src/Part1/sudoku_solver.py:111-122 | one digit of the loop: a rejected digit costs one step; a digit whose search succeeds ends the loop with that search's board and counters; a failed one adds its counters and one backtrack, and the loop goes on with the next digit on the unchanged board |
| Backtrack.TryFromBacktrack | src/Part1/sudoku_solver.py:115-122 | after a failed recursive call, resetting the cell to 0 gives back the board the loop started from |
| Backtrack.SolveCompleteBoard | src/Part1/sudoku_solver.py:106-125 | a board with no empty cell returns true, keeps the board, adds nothing to `steps` and `backtracks`, and one to `recursive_calls` |
| Backtrack.SolveAtFirstEmpty | src/Part1/sudoku_solver.py:106-111 | on a board with an empty cell, the call is the candidate loop at the first empty cell plus one counted call |
| Backtrack.SolveCounters | src/Part1/sudoku_solver.py:106-122 | every search counts at least one call, no more backtracks than steps, fewer backtracks than calls, and at most nine steps per call |
| Backtrack.TryCounters | src/Part1/sudoku_solver.py:111-122 | for the candidate loop from digit `num` on: no more backtracks than steps, no more backtracks than calls, and at most `10 - num` steps plus nine per call |
| Backtrack.SolveFills | src/Part1/sudoku_solver.py:108-125 | a successful search keeps every filled cell, writes a digit 1..9 into every empty cell and leaves no empty cell |
| Backtrack.TryFills | src/Part1/sudoku_solver.py:111-124 | a successful loop from digit `num` fills the board the same way, with a digit of at least `num` in its own cell |
| Backtrack.PlaceKeepsConflictFree | src/Part1/sudoku_solver.py:114-115 | writing a digit that `is_valid` accepted into an empty cell keeps a conflict-free board conflict-free |
| Backtrack.SolveKeepsConflictFree | src/Part1/sudoku_solver.py:87-125 | a search started on a conflict-free board leaves a conflict-free board |
| Backtrack.TryKeepsConflictFree | src/Part1/sudoku_solver.py:111-124 | the candidate loop started on a conflict-free board leaves a conflict-free board |
| Backtrack.TryFirstSuccess | src/Part1/sudoku_solver.py:111-118 | a successful loop leaves in its cell a digit of at least `num` that `is_valid` accepted and whose search succeeded, with that search's board |
| Backtrack.TryNoEarlierSuccess | src/Part1/sudoku_solver.py:111-122 | no digit tried before the one a successful loop settles on would have succeeded |
| Backtrack.SucceedsHere | src/Part1/sudoku_solver.py:114-118 | a digit that is accepted and whose search succeeds stops the loop there, with one more step than that search |
| Backtrack.TryExhausted | src/Part1/sudoku_solver.py:111-124 | when the loop from `num` fails, no digit from `num` to 9 both passes `is_valid` and leads to a successful search |
| Backtrack.FailedCandidate | src/Part1/sudoku_solver.py:111-124 | a failed loop failed on its first digit and on the loop from the next digit |
| Backtrack.FirstPlacement | src/Part1/sudoku_solver.py:108-118 | after a successful search, the first empty cell holds the smallest digit that is accepted and leads to a successful search |
| Backtrack.SolveSound | src/Part1/sudoku_solver.py:87-125 | from a conflict-free board, a successful search leaves a solution of the puzzle |
| Backtrack.SolutionStep | src/Part1/sudoku_solver.py:108-115 | a solution puts into an empty cell a digit that `is_valid` accepts there, and still solves the board with that digit written |
| Backtrack.SolveComplete | src/Part1/sudoku_solver.py:87-125 | the search succeeds on every board that has a solution |
| Backtrack.SolveSucceedsIffSolvable | src/Part1/sudoku_solver.py:87-125 | on a conflict-free board, the search succeeds exactly when a solution exists, and a failed search leaves the board unchanged |
| Backtrack.SolveIdempotent | src/Part1/sudoku_solver.py:106-125 | searching again on a board the search solved returns true at once and changes nothing |
| Loader.ParseRow | src/Part1/sudoku_solver.py:37 | the token filter yields at most one value per token, and every value is non-negative |
| Loader.ParseRowAppend | src/Part1/sudoku_solver.py:37 | the filter works token by token: the values of a concatenation are the values of its parts, in order |
| Loader.ParseRowSkips | src/Part1/sudoku_solver.py:37 | a token that is not all digits after stripping is dropped without affecting the rest of the row |
| Loader.ParseToken | src/Part1/sudoku_solver.py:37 | a single token yields `int(t.strip())` when `t.strip().isdigit()`, and nothing otherwise |
| Loader.MultiDigitToken | src/Part1/sudoku_solver.py:37 | the padded token `" 12 "` yields the value 12 |
| Loader.KeptRows | src/Part1/sudoku_solver.py:35-39 | the kept rows are no more than the rows read, and each has nine non-negative values |
| Loader.KeptRowsAppend | src/Part1/sudoku_solver.py:35-39 | rows are kept one at a time: the rows kept from two runs of rows are those kept from each, in file order |
| Loader.KeptRowsDrops | src/Part1/sudoku_solver.py:38-39 | a row that does not yield nine values is dropped silently, and the other rows are kept as if it were absent |
| Loader.KeptRowsKeeps | src/Part1/sudoku_solver.py:38-39 | a row that yields nine values is kept, between the rows kept before it and those kept after it |
| Loader.KeptRowsAll | src/Part1/sudoku_solver.py:35-42 | every row read is kept exactly when every row yields nine values, so a nine-row file with one short row fails to load |
| Loader.ParseCsvRow | src/Part1/sudoku_solver.py:37 | a row of non-negative values written as `str` tokens filters back to the same row |
| Loader.LoadRoundTrip | src/Part1/sudoku_solver.py:31-45 | a board of nine-value rows written out as CSV loads back as the same rows |
| EmptyBoard.PatternDistinct | src/Part1/sudoku_solver.py:87-125 | two distinct cells of one row, column or box hold different digits of the standard filled grid |
| EmptyBoard.EmptyBoardSolves | src/Part1/sudoku_solver.py:87-125 | the standard filled grid is a solution of the all-empty board, so the search succeeds on the all-empty board |
| Solver.CandidateRejected | src/Part1/sudoku_solver.py:111-114 | a digit `is_valid` rejects adds one step, and the loop's account carries over to the next digit |
| Solver.CandidateFailed | src/Part1/sudoku_solver.py:111-122 | a digit whose search fails adds one step, that search's counters and one backtrack, and the account carries over to the next digit |
| Solver.CandidateSolved | src/Part1/sudoku_solver.py:111-118 | a digit whose search succeeds completes the loop with that search's board and counters |
| Solver.SudokuSolver.constructor | src/Part1/sudoku_solver.py:5-12 | a new solver has an empty board and all counters at zero |
| Solver.SudokuSolver.LoadFromCsv | src/Part1/sudoku_solver.py:14-48 | the board becomes the kept rows, in order; the load succeeds exactly when reading raised no error and nine rows were kept, and then the board is 9x9 with non-negative values |
| Solver.SudokuSolver.SolveAlgorithm | src/Part1/sudoku_solver.py:87-125 | the result and the new board are those of `Solve` on the old board, and each counter grows by exactly what `Solve` counts |
| Solver.SudokuSolver.TryCandidates | src/Part1/sudoku_solver.py:111-124 | the candidate loop at the empty cell (i, j) ends with the result, board and counter increments of `TryFrom` from digit 1 |
| Solver.SudokuSolver.Attempt | src/Part1/sudoku_solver.py:114-122 | an accepted digit is written and searched on; on failure the board is what it was before the write and one backtrack is added |
| Solver.SudokuSolver.RunSolver | src/Part1/sudoku_solver.py:127-156 | counters reset and then hold exactly what this search counted; the result is the search's; failure restores the board; success keeps the filled cells and completes the board; a conflict-free board stays conflict-free and is solved exactly when it has a solution |
| Gui.CellsToBoard | src/Part1/sudoku_gui.py:175-184 | the board read from the cells is 9x9, and each entry is `int(text)` when the text is all digits and 0 otherwise |
| Gui.SyncAfterShow | src/Part1/sudoku_gui.py:176-205 | reading back cells that show a non-negative board with `str` gives that board |
| Gui.ClearedGrid | src/Part1/sudoku_gui.py:247-256 | the cleared cells read as the all-zero board, and that board passes the contradiction check and is conflict-free |
| Gui.CellPassesSpec | src/Part1/sudoku_gui.py:225-234 | a cell passes the self-check exactly when it is empty or no other cell of its row, column or box holds its value |
| Gui.NoContradictionIffConflictFree | src/Part1/sudoku_gui.py:219-235 | the self-check passes on every cell exactly when the board is conflict-free |
| Gui.SolvedNonNegative | src/Part1/sudoku_gui.py:198-205 | a solution of a board read from the cells holds no negative value, so every cell can show `str` of it |
| Gui.SudokuMainWindow.constructor | src/Part1/sudoku_gui.py:47-55 | a new window has a fresh solver with an empty board and zero counters, and 9x9 empty cells |
| Gui.SudokuMainWindow.SyncGuiToBackend | src/Part1/sudoku_gui.py:171-186 | the solver's board becomes the board the cell texts stand for |
| Gui.SudokuMainWindow.SelfCheckIsValid | src/Part1/sudoku_gui.py:219-235 | on every return the board is as it was, and the answer is true exactly when the board is conflict-free |
| Gui.SudokuMainWindow.SolvePuzzle | src/Part1/sudoku_gui.py:188-217 | a board with a contradiction is refused before the solver runs, with counters and cells untouched; otherwise the solver's result, board and counters are those of the search; it reports solved exactly when the board is conflict-free and solvable, and then the cells show a solution |
| Gui.SudokuMainWindow.ShowSolvedBoard | src/Part1/sudoku_gui.py:201-206 | every cell shows `str` of the board's value there |
| Gui.SudokuMainWindow.ClearBoard | src/Part1/sudoku_gui.py:247-256 | the board becomes nine rows of nine zeros and every cell text is empty |

## Left out

- Widgets, layout, fonts and style sheets are not modelled, and neither is the styling part of `reset_style`, `set_solved_style` or `center_window`. Only the cell texts are modelled.
- The cell editor's input limits (`setMaxLength(1)`, `QIntValidator(1, 9)`) are not modelled. Cell texts are arbitrary strings, which covers everything the limits allow.
- Opening the file, `csv.reader`'s quoting rules and encodings are left out. A file arrives as its rows already split into tokens, plus a flag saying whether reading raised an error after those rows.
- `load_csv` in the window is not modelled (file dialog, message box, `update_ui_from_solver`). Neither is `print_metrics`. Output, messages and the info panel are I/O.
- `start_time` and `execution_time` are left out. The clock is I/O, so the model has no timing fields.
- `isdigit()` and `isspace()` are modelled for ASCII digits and Python's whitespace characters. Other Unicode decimal digits are not modelled: Python's `isdigit()` accepts them and `int()` may then raise. `int()` also raises `ValueError` on an ASCII digit token longer than Python's integer string conversion limit (4300 digits by default since Python 3.11), and `load_from_csv` then returns False, while `Loader.ParseRow` yields a value. The model treats such a file as one whose reading raised an error, the `failed` flag of `SudokuSolver.LoadFromCsv`.
- `SudokuSolver.SolveAlgorithm` requires a 9x9 board, and `SudokuSolver.RunSolver` and `SudokuMainWindow.SelfCheckIsValid` inherit that requirement. On a smaller board Python usually raises `IndexError`, and that exception path is not modelled. A successful load and the cell synchronisation produce 9x9 boards. A failed load can leave fewer or more rows, but `solve_puzzle` re-reads the cells before it checks or solves. A board of more than nine rows, which Python would search on its first nine rows, is also excluded.
- The candidate loop of `solve_algorithm` is split into three methods: `SolveAlgorithm` (the scan), `TryCandidates` (the digit loop) and `Attempt` (write, recurse, undo). They run the same statements in the same order.
- `solve_puzzle` catches its own errors and shows a message box. The model returns a `PuzzleStatus` instead: `Contradiction` or `Unsolvable` for the two raised errors, and `Solved` for success.
