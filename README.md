# Naive backtracking Sudoku solver, modelled in Dafny

This project models the core of `sudoku_solver.py`. The solver treats a 9×9 Sudoku as a
constraint-satisfaction problem. Each of the 81 cells is a variable, and the value 0 means
"unassigned". The search is a chronological depth-first search: it takes the first unassigned
cell in row-major order and tries the values of a domain list in order. It writes a value only
after that value passes a row/column/block consistency check. It then recurses, and on failure
it writes 0 back into the cell.

Layout:

- `wrappers.dfy`, module `Wrappers`: the `Option` type. It stands for Python's `None` or a value.
- `grid.dfy`, module `Grid`: a grid's value as a `Board` (`seq<seq<int>>`) and `Snapshot`, which
  reads the `array2<int>` the solver mutates. Also `SetCell` (the in-place write), the row,
  column and block slices, `IsAssignmentComplete`, and `ZeroCount`, the number of unassigned
  cells.
- `rules.dfy`, module `Rules`: the rules from the module docstring. `NoConflicts` means no
  assigned value is repeated in a row, column or block. `IsSudokuSolution` means every row,
  column and block holds each of 1..9 exactly once. A pigeonhole argument connects the two.
- `solver.dfy`, module `Solver`: `SelectUnassignedVar`, `CheckAssignmentConsistency` and
  `RecursiveBacktracking`, plus `SolveSudoku`, the call the script makes with the fixed domain
  `[1..9]`, and the unused `CapToThree`.

The search mutates an `array2<int>` in place (`modifies grid`). Its contract is stated on
`Snapshot(grid)` before and after the call. The body of the `for value in domain` loop
(sudoku_solver.py:48-55) is a separate method, `TryValue`, which is mutually recursive with
`RecursiveBacktracking`. The loop itself, its order and its early return stay in
`RecursiveBacktracking`. The termination measure is the number of unassigned cells. Each
recursive call is made on a grid with exactly one fewer of them.

The domain is a parameter, as in the source. The properties hold for any domain. A written
value is never 0, even if the domain contains 0: the selected cell holds 0 and lies in its own
row, so the check rejects 0.

Two consequences of the code that the contracts make explicit:

- The code never validates the given cells: a new value is checked only against the current
  grid. It can therefore return a complete grid that still has conflicts. A returned grid is
  conflict-free only when the entry grid was (`RecursiveBacktracking`, `SolveSudoku`).
- Every tentative write (sudoku_solver.py:49) is undone (sudoku_solver.py:55) before the next
  value is tried or `None` is returned. A failed search leaves the grid exactly as it was on entry.

The block arithmetic `int(var[0] / 3) * 3` truncates toward zero. Coordinates are never
negative, so this equals Dafny's `(r / 3) * 3` (`Grid.BlockStart`).

## Model

| member | source | states |
|---|---|---|
| `Grid.CompleteIffNoZeros` | sudoku_solver.py:59-60 | a grid is complete exactly when it has no unassigned (0) cell left: `IsAssignmentComplete(b) <==> ZeroCount(b) == 0`; complete means non-zero only, not conflict-free |
| `Solver.SelectUnassignedVar` | sudoku_solver.py:63-72 | a returned `(i, j)` is in range and holds 0, and every cell before it in row-major order is non-zero; `None` means no cell is 0, which is exactly when the grid is complete |
| `Solver.CheckAssignmentConsistency` | sudoku_solver.py:82-106 | the value is accepted exactly when it occurs nowhere in the cell's row, nowhere in its column and nowhere in the 3×3 block whose corner is `((r/3)*3, (c/3)*3)` |
| `Solver.BlockMembers` | sudoku_solver.py:97-103 | the value occurs in the block slice `csp[first:second, third:forth]` exactly when some cell of that 3×3 block holds it |
| `Grid.RowValues` | sudoku_solver.py:94 | the 9 values of row `r`, in column order |
| `Grid.ColumnValues` | sudoku_solver.py:95 | the 9 values of column `c`, in row order |
| `Grid.BlockValues` | sudoku_solver.py:97-101 | the block slice lists the 9 cells of the block in row-major order: rows `top`, `top+1`, `top+2`, each from column `left` to `left+2` |
| `Grid.BlockStart` | sudoku_solver.py:97-100 | the first row (column) of a block is a multiple of 3, at most the coordinate and more than the coordinate minus 3 |
| `Grid.SetCell` | sudoku_solver.py:49 | writing one cell of the array changes that cell to the value and nothing else |
| `Grid.AssignUndo` | sudoku_solver.py:49-55 | writing back the old value at line 55 undoes the write at line 49 exactly |
| `Grid.ZeroCountAssign` | sudoku_solver.py:45-50 | filling the selected unassigned cell with a non-zero value leaves exactly one fewer unassigned cell, which is the search's termination measure |
| `Grid.ZeroCountBound` | sudoku_solver.py:45-50 | a 9×9 grid has at most 81 unassigned cells, so the recursion is at most 81 calls deep |
| `Solver.ConsistentWriteKeepsNoConflicts` | sudoku_solver.py:47-50 | a value that passed the consistency check, written into the grid, creates no repeated value in any row, column or block |
| `Solver.CompletionValueIsConsistent` | sudoku_solver.py:47-48 | the value any valid completion gives to an unassigned cell passes the consistency check at that cell, so the check never prunes a solution |
| `Solver.InconsistentValueRuledOut` | sudoku_solver.py:47-48 | a value the check rejects at a cell is the value of no valid completion there |
| `Solver.FailedValueRuledOut` | sudoku_solver.py:48-55 | when the recursive search after writing a value fails, no valid completion holds that value at the cell |
| `Solver.NoValueLeft` | sudoku_solver.py:47-56 | once every domain value is ruled out at an unassigned cell, the grid has no valid completion, so returning `None` is correct |
| `Solver.TryValue` | sudoku_solver.py:48-55 | one turn of the loop: on success the grid is complete, keeps every given, holds domain values in the cells that were 0, and is conflict-free if the grid before was; on failure the grid is exactly as before and no valid completion holds this value at the cell |
| `Solver.RecursiveBacktracking` | sudoku_solver.py:37-56 | a complete grid is returned at once and unchanged; a returned grid is the same array, complete, keeps every given and holds domain values in the cells that were 0, and is conflict-free if the entry grid was; on `None` the grid is exactly as on entry and no valid completion from the domain exists; terminates, with measure the number of 0 cells |
| `Solver.SolveSudoku` | sudoku_solver.py:115 | the search with the domain `[1..9]` (sudoku_solver.py:16): from a conflict-free grid of values 0..9, a returned grid is a solved Sudoku that keeps the givens; `None` means no solution exists and the grid is unchanged |
| `Rules.SolvedGridIsSudoku` | sudoku_solver.py:1-11 | a complete, conflict-free grid of values 0..9 holds each of 1..9 exactly once in every row, every column and every 3×3 block |
| `Solver.CapToThree` | sudoku_solver.py:75-79 | the result is the larger of `num` and 3 (the function is never called) |

## Left out

- `read_csv_as_sudoku` (sudoku_solver.py:19-34): file reading and CSV parsing. The grid is given as an array.
- The module-level script (sudoku_solver.py:109-121): reading the file, waiting for Enter, wall-clock timing and printing. Only its call of the search with the fixed domain is modelled (`SolveSudoku`).
- The `print` calls inside the search (sudoku_solver.py:52, 54): diagnostics with no effect on the result.
- numpy: `csp.all()`, `csp[:, j]` and `csp[a:b, c:d]` are modelled by their plain meaning over a 9×9 integer array. The element type's width is not modelled. Cells are unbounded integers, and values outside 0..9 are neither rejected nor assumed away.
- RecursiveBacktracking: the contract does not say which completion is returned when there are several. The code returns the first in row-major and domain order, and the contract allows any valid completion.
- RecursiveBacktracking: requires a 9×9 array. The source takes its dimensions from `len`, but its block arithmetic assumes 9×9. `SelectUnassignedVar` is modelled for arrays of any dimensions, as written.
- Python's recursion limit and stack depth are not modelled. The depth is at most 81 (`ZeroCountBound`).
