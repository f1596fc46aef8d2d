# Sudoku constraint engine

A Dafny model of the constraint engine inside the `VentanaSudoku` window of
the Sudoku solver (`main.py`), with the Qt widget calls removed. The board
is a 9x9 `array2<int>` where 0 means an empty cell. The model has three
operations:

- **the placement check** (`es_movimiento_valido`): a read-only scan of a
  row, a column and a 3x3 block. It answers false at the first cell that
  holds the digit. The target cell is one of the scanned cells.
- **the backtracking solver** (`resolver`): works in place on the board.
  It finds the first empty cell in row-major order and tries 1..9 in
  ascending order. It places each digit that passes the check and
  searches on. When that search fails it empties the cell again. It
  answers true as soon as no empty cell is left.
- **the conflict scan** of `validar_tablero`: for each filled cell it
  empties the cell, asks the placement check about the cell's own value,
  flags the cell if the check fails, and writes the value back. The model
  returns the flagged cells and the `errores_encontrados` flag.

Files and modules:

- `board.dfy`, module `SudokuBoard`: the board as a value (`Grid`), the
  ghost `Snapshot` of the array, block geometry, the "peer" relation
  (another cell in the same row, column or block), and the empty cells.
- `rules.dfy`, module `SudokuRules`: the rules over board values and the
  lemmas the three operations rest on. These cover the check against the
  peers, one sound search step, one complete search step, and the scan's
  test against conflicts.
- `engine.dfy`, module `SudokuEngine`: the three operations as methods on
  the array. Each is proved against the rules. The solver's recursion is
  split over three mutually recursive methods. `Solve` scans for the first
  empty cell. `TryDigits` is the loop over 1..9. `PlaceAndSearch` places a
  digit, recurses and undoes the placement.
- `scenarios.dfy`, module `SudokuScenarios`: particular boards (the empty
  board, two 1s in a row, a full board of 1s) and the 81-cell bound on the
  search depth.

Two behaviours of the code worth stating plainly:

- The placement check scans the target cell too, so "could n go here"
  answered while skipping the target cell would differ. Both callers empty
  the cell before the check, so in those calls the answers agree
  (`SudokuRules.CanPlaceIffAbsentFromPeers`).
- A true answer from the solver does not mean the board is a valid
  Sudoku. The solver answers true exactly when every empty cell can be
  given a digit that no other cell of its row, column or block holds
  (`SudokuEngine.Solve`). It never changes a filled cell, so filled cells
  that already conflict stay as they are. A full board of 1s gets true at
  once (`SudokuScenarios.FullBoardNeedNotBeSolved`). So does a board of 1s
  with one empty cell, which has no valid completion
  (`SudokuScenarios.OnesWithOneHoleFillableNotSolvable`). A true answer
  gives a valid board when the filled cells do not conflict to begin with
  (`SudokuRules.FillingOfConsistentPuzzleIsSolution`).

## Model

| member | source | states |
|---|---|---|
| `SudokuBoard.BlockStart` | main.py:309-310 | the block corner `(x // 3) * 3` is a multiple of 3 and lies at most 2 below x, so rows `s..s+2` hold x |
| `SudokuEngine.IsValidMove` | main.py:300-317 | the answer is true exactly when n is absent from the row, the column and the 3x3 block of the cell (both directions); if the cell itself holds n the answer is false; the board is only read |
| `SudokuRules.CanPlaceIffAbsentFromPeers` | main.py:300-317 | for a cell that does not hold n, the check passes exactly when no other cell of its row, column or block holds n |
| `SudokuEngine.Solve` | main.py:319-341 | on true: no empty cell is left, every filled cell keeps its value, and every cell that was empty holds 1..9 that no other cell of its row, column or block holds; on false: the board is exactly as on entry; the answer is true exactly when some such sound filling of the entry board exists (both directions), and in particular whenever a valid completion exists; a board without empty cells gives true and is left untouched; terminates because each recursive call sees a strict subset of the empty cells |
| `SudokuEngine.TryDigits` | main.py:324-338 | at an empty cell: on true the board is a sound filling of the entry board (as for Solve); on false the board is exactly as on entry and the entry board has no sound filling at all |
| `SudokuEngine.PlaceAndSearch` | main.py:327-335 | with a digit that passed the check placed in the empty cell: on true the board is a sound filling of the board before the placement; on false the cell is emptied again, the board is as before, and the board with the digit placed has no sound filling |
| `SudokuRules.PlacementStepSound` | main.py:325-332 | placing a digit that passed the check in an empty cell, and then a sound filling of the rest, gives a sound filling of the board before the placement |
| `SudokuRules.FillingHasFittingDigit` | main.py:325-338 | if the board has a sound filling and the cell is empty, the digit that filling puts there is 1..9, passes the check, and the board with it placed still has that sound filling; so trying every digit and failing means no sound filling exists |
| `SudokuRules.SolvableHasFittingDigit` | main.py:325-338 | if the board has a valid completion and the cell is empty, some digit 1..9 passes the check there and leaves a board that still has a valid completion |
| `SudokuRules.CompletionIsFilling` | main.py:321-338 | a valid completion of a board is a sound filling of it, so a solvable board is one the search answers true for |
| `SudokuRules.PlacementRemovesOneZero` | main.py:323-331 | placing a non-zero digit in an empty cell removes exactly that cell from the empty cells, one fewer |
| `SudokuScenarios.ZeroCellsAtMost81` | main.py:321-323 | a board has at most 81 empty cells, so the recursion depth is at most 81 |
| `SudokuRules.FillingOfConsistentPuzzleIsSolution` | main.py:321-341 | when the filled cells of the input do not conflict, what a successful search leaves is a valid completion of the input (so true means solvable); with digits 0..9 it is a finished Sudoku |
| `SudokuScenarios.FullBoardNeedNotBeSolved` | main.py:340-341 | the board of all 1s has no empty cell (the search answers true at once) and is not a solved Sudoku |
| `SudokuScenarios.OnesWithOneHoleFillableNotSolvable` | main.py:321-341 | a board of 1s with only (8, 8) empty has a sound filling (so the search answers true) but no valid completion |
| `SudokuScenarios.EmptyBoardSolvable` | main.py:319-341 | the empty board has a valid completion, so the search on it answers true |
| `SudokuEngine.ValidateBoard` | main.py:377-389 | afterwards the board is exactly as before; a cell is flagged exactly when it holds a non-zero value that another cell of its row, column or block holds too; the error flag is true exactly when some cell is flagged |
| `SudokuRules.ScanTestIffConflict` | main.py:379-385 | for a filled cell, "empty it and check its own value" fails exactly when the value occurs at another cell of its row, column or block |
| `SudokuRules.DuplicatesBothConflict` | main.py:377-388 | two different cells of one row, column or block holding the same digit are both in conflict, not just the second one scanned |
| `SudokuScenarios.TwoOnesInRowConflicts` | main.py:377-388 | on a board whose row 0 starts 1, 1 and is otherwise empty, exactly cells (0, 0) and (0, 1) are in conflict |

## Left out

- The Qt presentation: everything in `CeldaSudoku`. That covers border
  and style computation, input filtering, value get/set, and arrow-key
  focus moves. It has no domain content.
- Window construction and layout (`__init__`, `crear_tablero`,
  `crear_botones`) and `main()`.
- Reading the board from the widgets (`obtener_tablero_actual`) and
  writing it back (`establecer_tablero`). The operations take the board as
  an array.
- The dialogs and the style resets around the scan (main.py:370-375,
  main.py:384, main.py:389-392). Only the flagged cells and the error flag
  they show are kept.
- `guardar_tablero_inicial`, `es_celda_inicial`, `limpiar_tablero` and the
  write-back loop of `resolver_sudoku` (main.py:355-360). This is
  given-versus-solved UI state. `resolver_sudoku` solves a copy of the
  board (main.py:348), so the caller's board is not changed. That copy is
  not modelled.
- Input values outside 0..9 are kept out by the input filter, which is not
  modelled. The model places no such bound on the board and holds for any
  integers.
- Solve: does not state which sound filling is found. The source finds
  the first one in its row-major, ascending-digit search order. The
  contract only says that the result is a sound filling, and that the
  answer is true exactly when one exists.
