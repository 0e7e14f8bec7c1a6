# Sudoku solving engine, modelled in Dafny

This project models the constraint-propagation engine of a Sudoku helper
(class `SudokuBoard` in `solver/board.py`) and the two parts of the
application (`main.py`) that feed it: the import code that shapes CSV rows
into a 9x9 grid, and the full-solve loop.

The engine keeps three pieces of state:

- a 9x9 grid where 0 marks an empty cell;
- a candidate dictionary from each empty cell to the digits still allowed there;
- a list of step records.

`solve_step` tries four deduction techniques in a fixed order. Two of them fill a
cell: single candidate and single position. The other two only remove
candidates: naked pairs in a row, and block/line reduction along a row.

The project has five modules:

- `Rules` (rules.dfy): the grid as a value, the box geometry, the `is_valid`
  check, the candidate set of `get_candidates`, and the dictionary that
  `initialize_candidates` builds. It also defines the count of empty cells and
  the consistency of a grid.
- `Techniques` (techniques.dfy): each technique as a function from a puzzle
  (the grid and the dictionary) to an outcome. The outcome is either
  `NotApplicable` or the next puzzle together with the step record. Each function
  scans in the source's own order, and `StepRule` is `solve_step`.
- `Progress` (progress.dfy): what each technique guarantees. A placement puts a
  candidate into an empty cell. An elimination leaves the grid alone and
  strictly shrinks the dictionary. Every step lowers the pair (empty cells,
  total candidates) lexicographically.
- `SolverBoard` (board.dfy): the class `SudokuBoard`. Its fields are the
  grid, the dictionary and the step list, and each method has the source's
  loops. Every method is proved to do exactly what the matching function of
  `Rules` or `Techniques` says. The object invariant `Valid` requires the dictionary's keys
  to be exactly the empty cells, each holding only digits that `is_valid`
  accepts there.
- `App` (app.dfy): the CSV cells as tokens (`Blank`, `Int(n)`, `Unparsable`),
  the shaping of rows into a grid (a function and the imperative code proved
  equal to it), and the solve loop, proved to terminate.

## Model

| member | source | states |
|---|---|---|
| `Rules.EmptyGrid` | solver/board.py:4 | The default grid is 9x9 and every cell is empty. |
| `Rules.ThirdIsDivision` | solver/board.py:29 | The box start used everywhere is `3 * (i // 3)` for every row or column i. |
| `Rules.Place` | solver/board.py:89 | Writing v into cell (r, c) changes that cell to v and leaves the other 80 cells as they were. |
| `Rules.IsValid` | solver/board.py:36-52 | Defines the placement check: num occurs nowhere in the row, the column or the 3x3 box of (row, col). The method `IsValid` is proved equal to it. |
| `Rules.Candidates` | solver/board.py:18-34 | Defines a cell's candidate set: empty for a filled cell, otherwise the digits 1..9 that `is_valid` accepts there. `CandidateIffValid` and `CandidatesAreDigits` state its properties. |
| `Rules.Rebuild` | solver/board.py:11-16 | Defines the dictionary `initialize_candidates` builds on an empty dictionary: every empty cell mapped to its candidates. `RebuildIs` states its keys and values. |
| `Rules.Full` | solver/board.py:247-249 | Defines `is_solved`: no cell of the grid holds 0. `FullIffNoEmpty` relates it to the count of empty cells. |
| `Rules.CandidateIffValid` | solver/board.py:36-52 | A digit is a candidate of a cell exactly when the cell is empty, the digit is in 1..9 and `is_valid` accepts it there (both directions). |
| `Rules.CandidatesAreDigits` | solver/board.py:18-34 | Every candidate is in 1..9, and a filled cell has no candidates. |
| `Rules.RebuildIs` | solver/board.py:11-16 | The rebuilt dictionary's keys are exactly the empty cells, and each key maps to that cell's candidates. |
| `Rules.PlaceEmptyCount` | solver/board.py:89 | Writing a non-zero value into an empty cell leaves exactly one empty cell fewer. |
| `Rules.FullIffNoEmpty` | solver/board.py:247-249 | A grid is solved (no 0 anywhere) exactly when its count of empty cells is 0. |
| `Rules.PlaceKeepsConsistent` | solver/board.py:36-52 | A value that `is_valid` accepts, written into an empty cell of a grid without duplicates in any row, column or box, keeps the grid free of duplicates. |
| `Techniques.Fill` | solver/board.py:89-97 | Defines a placement: write v into the cell, then rebuild the whole dictionary from the new grid. `PlacementEffect` states what it changes. |
| `Techniques.Eliminate` | solver/board.py:180-187 | Removing digits from the row's empty cells outside the skipped columns keeps the dictionary's keys. `EliminateEffect` and `EliminationEffect` state the rest. |
| `Techniques.SingleCandidateRule` | solver/board.py:83-99 | Defines single candidate: the first cell in row-major order whose set has one member receives that member. `SingleCandidateEffect` and `SingleCandidateFirst` state its properties. |
| `Techniques.SinglePositionRule` | solver/board.py:101-164 | Defines single position: the first unit (rows, columns, boxes) and digit with exactly one place get that placement. `UnitCell` gives the i-th cell of unit u in the order of the three loop nests at board.py:104-162. `PlaceUnique` is the placement itself (board.py:151-162). `SinglePositionEffect` states its properties. |
| `Techniques.NakedPairsRule` | solver/board.py:166-201 | Defines naked pairs along rows: the first pair found whose elimination shrinks a set. `NakedPairsEffect` states its properties. |
| `Techniques.BlockLineRule` | solver/board.py:203-240 | Defines block/line reduction along rows: the first box and digit whose places share a row and whose removal shrinks a set. `ReductionEffect` and `BlockLineFound` state its properties. |
| `Techniques.StepRule` | solver/board.py:62-81 | Defines `solve_step`: the four techniques in priority order, the first that applies. `StepEffect` and `StepProgress` state its guarantees. |
| `Techniques.RebuildIsCoherent` | solver/board.py:242-245 | The rebuilt dictionary satisfies the engine's invariant: its keys are the empty cells and every stored digit is in 1..9 and accepted by `is_valid`. |
| `Techniques.FirstSetIsFirst` | solver/board.py:85 | The row-major scan stops at a set flag with only unset flags before it, and finds nothing exactly when no flag is set. |
| `Techniques.SingleFirst` | solver/board.py:85-86 | If p is the first cell in row-major order whose stored set has one member, the scan of single candidate stops at p. |
| `Techniques.SingleCandidateFound` | solver/board.py:83-99 | When the scan stops at p, whose one candidate is v, single candidate writes v at p, rebuilds the dictionary and records `(p, v)`. |
| `Techniques.Positions` | solver/board.py:145-150 | Every cell of a positions list is an empty cell of the grid that holds the digit among its stored candidates. |
| `Techniques.SinglePositionAt` | solver/board.py:101-164 | Let unit u and digit n be the first pair, in the order rows, columns, boxes and then digits 1..9, where n fits exactly one cell. Then single position places n in that cell. |
| `Techniques.SinglePositionNone` | solver/board.py:101-164 | When no unit has a digit that fits exactly one cell, single position does not apply. |
| `Techniques.EliminateEffect` | solver/board.py:180-187 | The elimination keeps the dictionary's keys. It removes the digits from the row's empty cells outside the skipped columns and changes no other cell. |
| `Techniques.EliminateNothing` | solver/board.py:179 | Proof step for the elimination loop's start: with every column skipped, nothing is removed and the removed flag stays false. |
| `Techniques.EliminateKeepsCoherent` | solver/board.py:184-187 | Removing digits from stored sets keeps the engine's invariant. |
| `Techniques.Ordered` | solver/board.py:175 | `tuple(sorted(pair))` of a two-element set is its two members in strictly ascending order. |
| `Techniques.PairScan` | solver/board.py:169-198 | What the row scan finds is a naked pair whose two digits still occur in another empty cell of its row, at or after the starting row. `Progress.PairScanFinds` states the converse. |
| `Techniques.BlockLineAt` | solver/board.py:205-237 | Let box b and digit n be the first pair in scan order whose places all share a row and whose removal from the rest of that row shrinks something. Then the technique is that reduction. |
| `Techniques.NoReductionBefore` | solver/board.py:207-238 | Proof step for the block/line scan's loop: a box and digit that allow no reduction extend the stretch of the scan already passed without one. |
| `Techniques.BlockLineNone` | solver/board.py:203-240 | When no box and digit allow a reduction, block/line reduction does not apply. |
| `Progress.NarrowerTotalAt` | solver/board.py:184-187 | Shrinking some cell's stored set, and enlarging none, strictly lowers the total number of stored candidates. |
| `Progress.EliminationEffect` | solver/board.py:180-187 | An elimination that reports success does the following: it keeps the keys; it removes only the given digits, and only from cells of that row outside the skipped columns; afterwards no such cell holds any of them; the total candidate count drops; the invariant is kept. |
| `Progress.PlacementEffect` | solver/board.py:89 | Placing a stored candidate v in cell p turns an empty cell into v and changes no other cell. It leaves one empty cell fewer and keeps every filled cell. A duplicate-free grid stays duplicate-free, and the rebuilt dictionary is coherent. |
| `Progress.SingleCandidateEffect` | solver/board.py:83-99 | A successful single candidate fills a cell whose stored set was exactly `{v}` with v, rebuilds the dictionary and records that cell and v. `PlaceSole` is that placement: the write and rebuild of board.py:89-97. |
| `Progress.SingleCandidateFirst` | solver/board.py:13-16 | The cell single candidate fills is the first one in row-major order (the dictionary's insertion order) whose set has one member. |
| `Progress.PlaceUniqueEffect` | solver/board.py:151-162 | When digit n fits exactly one cell of unit u, the placement `PlaceUnique` puts n there. That cell held n among its candidates, and the positions list is exactly that cell. |
| `Progress.SinglePositionEffect` | solver/board.py:101-164 | A successful single position fills an empty cell with a digit from that cell's stored candidates. Some row, column or box has that cell as the digit's only place. |
| `Progress.NakedPairsFound` | solver/board.py:166-201 | When naked pairs applies, there is a pair of empty cells in one row with the same two candidates whose digits still occur in another empty cell of that row, and the technique eliminates that pair. |
| `Progress.PairScanFinds` | solver/board.py:169-198 | Let a naked pair in one row have digits that still occur in another empty cell of that row. Then the row scan finds something, from any point before the pair's second cell at which the pairs dictionary is as the scan built it. |
| `Progress.PairShrinksFromFirst` | solver/board.py:176-187 | Proof step for PairScanFinds. Suppose the pairs dictionary holds an earlier column with the same two candidates as the pair's first cell. The removal relative to that column still shrinks some cell of the row. |
| `Progress.NakedPairsComplete` | solver/board.py:166-201 | The converse of NakedPairsFound: a naked pair in a row whose digits still occur in another empty cell of that row makes naked pairs apply. |
| `Progress.PairRecord` | solver/board.py:190-195 | The naked-pair record holds the pair's two cells and its two digits in ascending order, and both cells store exactly those two digits. |
| `Progress.PairEliminationEffect` | solver/board.py:176-196 | Eliminating a pair (`PairElimination`) whose digits still occur elsewhere in the row leaves the grid untouched. It removes only the pair's digits, only from the row's other empty cells, and removes them all. The total candidate count strictly drops. |
| `Progress.NakedPairsEffect` | solver/board.py:166-201 | A successful naked pairs leaves the grid unchanged. It strictly shrinks the dictionary, and the only removals are the pair's two digits from the other empty cells of its row. |
| `Progress.PositionsInBox` | solver/board.py:209-214 | The places of a digit in a box all lie in the box's three columns. |
| `Progress.ReductionEffect` | solver/board.py:216-237 | A reduction (`Reduction`) that reports success works on places of the digit in the box that share one row and lie in the box's columns. It records them with the digit, leaves the grid untouched, and removes the digit only from that row's empty cells in the other two boxes, all of which lose it. The total candidate count drops. |
| `Progress.BlockLineFound` | solver/board.py:203-240 | When block/line reduction applies, it is the reduction of some box and digit whose places share a row and whose removal shrinks something. |
| `Progress.BlockLineEffect` | solver/board.py:203-240 | A successful block/line reduction leaves the grid unchanged. Its record holds the digit's places in some box, which share a row and lie in the box's columns. The digit leaves only that row's empty cells outside the box, all of which lose it, and the total candidate count strictly drops. |
| `Progress.EliminationSound` | solver/board.py:166-240 | Proof step shared by the two eliminations: a step that keeps the grid and lowers the candidate count meets every guarantee a step must give. |
| `Progress.StepEffect` | solver/board.py:62-81 | Every successful `solve_step` keeps the invariant and every filled cell, and keeps a duplicate-free grid duplicate-free. A placement leaves one empty cell fewer. An elimination keeps the grid and lowers the candidate count. |
| `Progress.StepProgress` | solver/board.py:62-99 | Every successful step either lowers the number of empty cells, or keeps it and strictly lowers the total candidate count. The number of empty cells never rises. |
| `Progress.SolvedIsStuck` | solver/board.py:242-249 | On a solved grid the dictionary is empty and no technique applies, so `solve_step` reports failure. |
| `SolverBoard.SudokuBoard.constructor` | solver/board.py:2-9 | The engine starts with the given grid, or the all-empty one when none is given. The dictionary holds every empty cell and its candidates, and the step list is empty. |
| `SolverBoard.SudokuBoard.InitializeCandidates` | solver/board.py:11-16 | Row by row, every empty cell's candidates are written over whatever the dictionary held. |
| `SolverBoard.SudokuBoard.GetCandidates` | solver/board.py:18-34 | Returns nothing for a filled cell. Otherwise returns the digits 1..9 absent from the cell's row, column and box. |
| `SolverBoard.SudokuBoard.IsValid` | solver/board.py:36-52 | True exactly when the number occurs nowhere in the row, the column or the box. |
| `SolverBoard.SudokuBoard.FindEmpty` | solver/board.py:54-60 | Returns the first empty cell in row-major order, and None exactly when the grid has none. |
| `SolverBoard.SudokuBoard.IsSolved` | solver/board.py:247-249 | True exactly when no cell holds 0. |
| `SolverBoard.SudokuBoard.UpdateCandidates` | solver/board.py:242-245 | Afterwards the dictionary is the one the grid alone determines, so two rebuilds with no grid change agree, and the invariant holds. |
| `SolverBoard.SudokuBoard.CollectPositions` | solver/board.py:145-150 | Collects, in unit order, the empty cells of the unit that hold the digit among their stored candidates. |
| `SolverBoard.SudokuBoard.RemoveFromRow` | solver/board.py:179-187 | Performs the row elimination, keeps the invariant, and reports removed exactly when some set shrank. The dictionary is unchanged when nothing shrank. |
| `SolverBoard.SudokuBoard.FindSingle` | solver/board.py:85-88 | Finds the first cell in row-major order whose stored set has one member, and that member. It finds nothing only when there is no such cell. |
| `SolverBoard.SudokuBoard.SolveSingleCandidate` | solver/board.py:83-99 | Does exactly what single candidate specifies: a success fills that cell, appends one record and rebuilds the dictionary. A failure changes nothing. |
| `SolverBoard.SudokuBoard.PlaceDigit` | solver/board.py:89-97 | Writes the digit, appends the record and rebuilds the dictionary. |
| `SolverBoard.SudokuBoard.FindUnique` | solver/board.py:104-162 | Finds the first unit and digit, in scan order, with exactly one place. It finds nothing only when there is none. |
| `SolverBoard.SudokuBoard.SolveSinglePosition` | solver/board.py:101-164 | Does exactly what single position specifies, with one record on success and nothing changed on failure. |
| `SolverBoard.SudokuBoard.RemovePair` | solver/board.py:176-196 | Eliminates the pair from the rest of the row and appends the record only when some set shrank. Otherwise it changes nothing. |
| `SolverBoard.SudokuBoard.SolveNakedPairs` | solver/board.py:166-201 | Does exactly what naked pairs specifies. The grid is never written. |
| `SolverBoard.SudokuBoard.SortPair` | solver/board.py:175 | Returns the two members of a two-element set in ascending order. |
| `SolverBoard.SudokuBoard.ReduceBox` | solver/board.py:207-237 | For one box and digit, removes the digit from the rest of the row the box's places share. It appends the record and reports success exactly when something was removed. |
| `SolverBoard.SudokuBoard.SolveBlockLineReduction` | solver/board.py:203-240 | Does exactly what block/line reduction specifies. The grid is never written. |
| `SolverBoard.SudokuBoard.SolveStep` | solver/board.py:62-81 | Tries the four techniques in order and stops at the first success. It returns true exactly when one succeeded, with that technique's effect and one record. |
| `App.TokenValue` | main.py:130-143 | A blank or unparsable cell is 0. An integer cell is its value, which lies in 0..9 unless it aborts the import. |
| `App.ConvertRow` | main.py:126-143 | A row converts exactly when none of its cells is an integer outside 0..9. The result has the row's length and each cell's value in order. |
| `App.ConvertRows` | main.py:124-143 | The rows convert exactly when no cell of any row is an integer outside 0..9, and then every row converts on its own. |
| `App.Fit` | main.py:145-149 | The result has length 9. Entry j is the input's entry j when there is one, otherwise the padding. |
| `App.ShapeGrid` | main.py:124-156 | An integer outside 0..9 anywhere aborts the import. Otherwise the result is a 9x9 grid of values in 0..9. Cell (i, j) is the value of token j of row i, or 0 where the file has no such cell. |
| `App.ShapeOfGrid` | main.py:124-156 | A grid of values 0..9, written as nine rows of nine integer cells, imports back as itself. |
| `App.ImportGrid` | main.py:124-156 | The appending, padding and slicing loops produce exactly the shaped grid, or the abort. |
| `App.LoopStep` | main.py:184-201 | One successful step moves down the progress order and keeps the starting grid's filled cells and consistency. It also keeps the count of empty cells plus logged placements equal to the starting count of empty cells. |
| `App.Run` | main.py:184-201 | Defines what the loop computes: `solve_step` repeated while the grid is not full and some technique applies, with the records of the successful steps in order. Its end state keeps the engine invariant. |
| `App.RunApplied` | main.py:184-201 | When the grid is not full and a step applies, `Run` takes that step, logs its record first and continues from its result. |
| `App.RunEnds` | main.py:184-201 | `Run` stops only with the grid full or with no technique applicable. |
| `App.SolveIteration` | main.py:185-201 | One pass runs `solve_step`. On success the engine is in the state that step produces, exactly that step's record joins the log, `solution_steps` is emptied and the engine moves down the progress order. On failure nothing changes and no technique applies. |
| `App.Solve` | main.py:176-201 | The loop terminates. The final engine state and the log are exactly `Run` of the fresh engine: `solve_step` repeated while unsolved and successful, with each successful step's record logged once, in order. It ends with the grid solved, or with no technique applicable. Every filled cell of the starting grid stays, a duplicate-free grid stays duplicate-free, and every cell filled on the way is one logged placement. |

## Left out

- The windowing layer: `gui/board.py` is not part of this model. Neither are the Tk windows, buttons, text panel and message boxes of `main.py`.
- File handling in the CSV import: opening the file, the retry over the `utf-8-sig`, `utf-8` and `gbk` encodings, and the error box on an exception.
- The string handling of a CSV cell (`isprintable`, `strip`, `int()`). A cell reaches the model already reduced to a `Token`.
- The description and reason strings in step records. A step keeps only its kind, position(s) and value(s).
- `App.ImportGrid`: the abort is the result `None`. The error message and the early return that leaves the current board untouched are not modelled. The message says values must lie in 1..9, but the code accepts 0..9, and the model follows the code.
- `App.SolveIteration`: the `'error'` log entry and the information box after a failed step are not modelled. Each step record is appended to a log instead of being written to the GUI.
- `App.Solve`: after every successful step, main.py:195-198 passes the record's `position` and `value` to `set_cell`. The records of naked pairs and of block/line reduction hold a list of positions, so `pos[0]` is a cell and not a row number. The lookup in `set_cell` (gui/board.py:154) then fails, because the widget dictionary is keyed by (row, column) pairs of integers (gui/board.py:76); a block/line record with a single position fails earlier, at `pos[1]`. Either way the source's loop ends with an exception at its first elimination step. `Solve` models the loop as if every record had been displayed, and keeps looping past that point.
- `SolverBoard.SudokuBoard.constructor`: the source keeps a reference to the caller's list, and the model owns its grid, so that aliasing is not modelled. The model requires a 9x9 grid. The source fails with an index error only on fewer than nine rows or a row shorter than nine. It accepts a larger grid, reads cells 0..8 only in `initialize_candidates` (solver/board.py:13-16), and lets the extra entries count as used values in `get_candidates` (solver/board.py:25) and `is_valid` (solver/board.py:39) and as cells in `is_solved` (solver/board.py:249). Such grids are not modelled. The application only ever passes the 9x9 grid that `get_board` builds (gui/board.py:141-150), so the requirement excludes nothing at that call.
- The grid is a `seq` field that each placement replaces with the updated grid. The source writes one cell of a nested list in place.
- The candidate sets are values. Where an elimination shrinks a set in place (`-=` in solver/board.py:184, `.remove` in solver/board.py:226), the model stores the shrunk set under the same key. No two keys share a set in the source, so nothing observable changes. The `.pop` of single candidate (solver/board.py:87) empties the set it takes the digit from, but the rebuild that follows (solver/board.py:97) discards the whole dictionary. The model therefore skips the pop: `Fill` writes the digit and rebuilds the dictionary from the new grid.
- The dictionary's insertion order is modelled as row-major order. That is the only order `initialize_candidates` produces, and `solve_single_candidate` iterates in it.
- `SolverBoard.SudokuBoard.SolveSinglePosition`: the source's three loop nests (rows, columns, boxes) are one scan over 27 units numbered rows 0-8, columns 9-17, boxes 18-26. The order of visits is the same.
- Naked pairs and block/line reduction look only along rows, as the source does. The column and box variants are absent in the source too.
- `Solve` starts from an engine on the grid the GUI holds. Reading that grid from the widgets is not modelled.
