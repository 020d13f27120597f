# Sudoku solver engine — a verified Dafny model

This project models the static engine of `SudokuSolver.java`: a depth-first backtracking
Sudoku solver that works on a 9x9 `int` grid in place (0 marks an empty cell), together
with the constraint queries it is built from, the text decoder that reads a puzzle
string and the pretty-printer that renders a grid.

The model has four modules:

- `Grid` (`grid.dfy`) — the vocabulary everything is specified in. The solver's
  `int[9][9]` is an `array2<int>` indexed `a[y, x]`. `Cells(a)` is the value it holds.
  Rows, columns and regions are units of a grid value, and `RegionStart` is the region
  corner of a cell. On top of these sit `Count`, `NoRepeats`, `PuzzleValid`, `Complete`,
  `Legal`, `Place` and `EmptySquares`. `IsSolution(c, g)` says that c is a complete,
  valid grid that keeps every digit of g; `Unsolvable(g)` says that no such c exists.
- `Queries` (`queries.dfy`) — the scanning loops of the engine as methods on the array:
  - the first empty cell and the completeness test;
  - the per-unit count vectors (filled in a fresh `int[10]`);
  - the unit, row, column, region and whole-grid validity checks;
  - the ascending allowed-digit lists;
  - the candidate list that `solve` builds at lines 60-69.
- `Solver` (`solver.dfy`) — `solve` as a recursive method that changes the array in
  place. It returns the number of invocations it made, which is what the source adds to
  its `AtomicLong`. Its contract states the undo invariant: a failed search leaves the
  array exactly as it found it. It also states success: the result keeps every given
  digit and, from a valid grid, is a solution. Beyond that it states that a failed search
  means the entry grid has no solution. Termination uses the number of empty cells.
- `PuzzleText` (`text.dfy`) — the decoder and the printer, with the round-trip theorem
  `Decode(PrettyString(g)) == Ok(g)` for every grid with cells in 0..9.
  - The decoder maps `.` to `0`, keeps the ASCII digits, splits the result into
    one-character pieces and fills the grid row by row. When the piece count is not 81,
    the model returns `Err` carrying the source's exception message.
  - The printer is specified by a function built in the same left-to-right order as the
    source's `StringBuilder`.

## Model

| member | source | states |
|---|---|---|
| Grid.RegionStart | src/com/ryansims/sudoku/SudokuSolver.java:241-243 | the corner of a cell's region is a pair of multiples of 3 whose 3x3 block holds the cell; for a cell of the grid both coordinates lie in 0..6; a corner is its own corner |
| Grid.PuzzleValidIffUnitsValidEverywhere | src/com/ryansims/sudoku/SudokuSolver.java:144-158 | checking the row, the column and the containing region of all 81 cells is equivalent to every row, every column and every region being free of repeated digits |
| Grid.PlaceFillsOneSquare | src/com/ryansims/sudoku/SudokuSolver.java:71-73 | writing a digit into an empty cell removes exactly that cell from the empty cells, so the search's recursion measure drops by one |
| Queries.FindCoordinatesOfFirstEmptySquare | src/com/ryansims/sudoku/SudokuSolver.java:85-96 | None exactly when the grid is complete; otherwise an in-range cell holding 0 such that every cell before it in row-major order is nonzero |
| Queries.IsComplete | src/com/ryansims/sudoku/SudokuSolver.java:249-251 | true exactly when no cell holds 0 |
| Queries.ValueCountsForRow | src/com/ryansims/sudoku/SudokuSolver.java:176-184 | a 10-entry vector whose entry v (1..9) is the number of cells of the row holding v; entry 0 stays 0 because empty cells are not counted |
| Queries.ValueCountsForColumn | src/com/ryansims/sudoku/SudokuSolver.java:191-200 | the same for a column |
| Queries.ValueCountsForRegion | src/com/ryansims/sudoku/SudokuSolver.java:207-222 | the same for the region holding the given cell, which is first normalised to its corner |
| Queries.NoRepeatsIffCountsAtMostOne | src/com/ryansims/sudoku/SudokuSolver.java:228-235 | a unit of cells in 0..9 has no repeated digit exactly when no digit 1..9 occurs in it more than once |
| Queries.CountsDecideNoRepeats | src/com/ryansims/sudoku/SudokuSolver.java:224-247 | for a unit's count vector, "no entry exceeds 1" holds exactly when the unit has no repeated digit |
| Queries.IsUnitValid | src/com/ryansims/sudoku/SudokuSolver.java:228-235 | true exactly when no entry of the count vector exceeds 1 |
| Queries.IsRowValid | src/com/ryansims/sudoku/SudokuSolver.java:224-226 | true exactly when the row has no repeated digit |
| Queries.IsColumnValid | src/com/ryansims/sudoku/SudokuSolver.java:237-239 | true exactly when the column has no repeated digit |
| Queries.IsRegionValid | src/com/ryansims/sudoku/SudokuSolver.java:245-247 | true exactly when the region holding the given cell has no repeated digit |
| Queries.IsPuzzleValid | src/com/ryansims/sudoku/SudokuSolver.java:144-158 | true exactly when every row, every column and every region is free of repeated digits |
| Queries.AllowedValuesFromValueCounts | src/com/ryansims/sudoku/SudokuSolver.java:160-169 | strictly ascending, and holds v exactly when v is an index 1.. of the vector whose count is 0 |
| Queries.LegalRowValues | src/com/ryansims/sudoku/SudokuSolver.java:171-174 | ascending, and holds exactly the digits 1..9 absent from the row |
| Queries.LegalColumnValues | src/com/ryansims/sudoku/SudokuSolver.java:186-189 | ascending, and holds exactly the digits 1..9 absent from the column |
| Queries.LegalBoxValues | src/com/ryansims/sudoku/SudokuSolver.java:202-205 | ascending, and holds exactly the digits 1..9 absent from the cell's region |
| Queries.LegalValues | src/com/ryansims/sudoku/SudokuSolver.java:60-69 | the search's candidate list is ascending and holds exactly the digits absent from the cell's row, column and region |
| Solver.PlacePreservesValid | src/com/ryansims/sudoku/SudokuSolver.java:71-76 | writing a legal digit into a cell of a valid grid keeps every row, column and region free of repeats |
| Solver.SolutionDigitIsLegal | src/com/ryansims/sudoku/SudokuSolver.java:60-69 | in any solution of g, the digit at an empty cell of g is one of that cell's candidates in g, so trying only the candidates loses no solution |
| Solver.FailedCandidate | src/com/ryansims/sudoku/SudokuSolver.java:71-77 | a candidate whose placement has no solution is held at that cell by no solution of the grid |
| Solver.ExhaustedCandidates | src/com/ryansims/sudoku/SudokuSolver.java:78-82 | when every candidate of the first empty cell has failed, the grid has no solution |
| Solver.SolvedAfterPlace | src/com/ryansims/sudoku/SudokuSolver.java:71-76 | a complete grid reached after placing a candidate keeps the digits of the grid before the placement, and solves it when that grid was valid |
| Solver.Solve | src/com/ryansims/sudoku/SudokuSolver.java:52-83 | cells stay in 0..9. An already complete grid comes back unchanged after one cycle. A complete result keeps every given digit, and from a valid grid it is a solution. An incomplete result leaves the array exactly as it was at entry, and the entry grid then has no solution |
| PuzzleText.KeepDigits | src/com/ryansims/sudoku/SudokuSolver.java:126 | the result is no longer than the input and holds only ASCII digits; an all-digit text is kept whole and a text without digits becomes empty |
| PuzzleText.NormalizeKeepsDigits | src/com/ryansims/sudoku/SudokuSolver.java:125-126 | after both rewrites only digits remain; a text of digits is unchanged, a text with neither digits nor dots vanishes, and a `.` is read as `0`; with NormalizeAppend this fixes the rewrites on every text, character by character |
| PuzzleText.KeepDigitsAppend | src/com/ryansims/sudoku/SudokuSolver.java:126 | deleting non-digits distributes over concatenation |
| PuzzleText.NormalizeAppend | src/com/ryansims/sudoku/SudokuSolver.java:125-126 | the two rewrites together distribute over concatenation |
| PuzzleText.SplitEachCharJoins | src/com/ryansims/sudoku/SudokuSolver.java:127 | the pieces join back to the string they were split from; a nonempty string gives exactly one one-character piece per character, and the empty string gives a single empty piece, so the count tested at line 129 equals the number of surviving digits when at least one survives and is 1 otherwise; either way it is 81 exactly when 81 digits survive |
| PuzzleText.Pieces | src/com/ryansims/sudoku/SudokuSolver.java:123-127 | every piece holds at most one character, and when there are exactly 81 pieces each is a single ASCII digit |
| PuzzleText.FillGridReadsBack | src/com/ryansims/sudoku/SudokuSolver.java:134-140 | the grid filled from 81 one-digit pieces has cells in 0..9, and reading it back row by row, one digit per cell, gives exactly the pieces joined in order |
| PuzzleText.FillRows | src/com/ryansims/sudoku/SudokuSolver.java:134-140 | the nested fill loop writes a fresh 9x9 array with cells in 0..9 holding exactly the grid FillGrid lays out |
| PuzzleText.Decode | src/com/ryansims/sudoku/SudokuSolver.java:122-142 | an error with the message "Puzzle should contain exactly 81 values" exactly when the rewritten text does not hold 81 digits; otherwise a grid with cells in 0..9 whose cell (x, y) is digit 9y+x of the rewritten text |
| PuzzleText.DecodeSeesOnlyNormalized | src/com/ryansims/sudoku/SudokuSolver.java:123-127 | decoding sees a puzzle only through its digits with dots read as 0: decoration is ignored and `.` means the same as `0` |
| PuzzleText.DecodePuzzle | src/com/ryansims/sudoku/SudokuSolver.java:122-142 | fails exactly when Decode does, with the same message; otherwise returns a fresh 9x9 array with cells in 0..9 holding the decoded grid |
| PuzzleText.NatTextRoundTrip | src/com/ryansims/sudoku/SudokuSolver.java:107 | the decimal text of a natural number is a nonempty digit string, one digit long exactly below ten, that reads back as the number |
| PuzzleText.DecimalTextRoundTrip | src/com/ryansims/sudoku/SudokuSolver.java:107 | the text of an integer is its decimal digits, after a minus sign for a negative one |
| PuzzleText.PuzzleToPrettyString | src/com/ryansims/sudoku/SudokuSolver.java:98-120 | the built string is the rendering of the array's grid |
| PuzzleText.NormalizeGrid | src/com/ryansims/sudoku/SudokuSolver.java:98-127 | rewriting the rendering of the first n rows leaves exactly their cell digits in row-major order, with `.` read back as 0 |
| PuzzleText.PrettyStringRoundTrip | src/com/ryansims/sudoku/SudokuSolver.java:98-142 | decoding the rendering of any grid with cells in 0..9 gives back that grid |

## Left out

- `main` and `solveAndReportSolution` (lines 16-50). They print to the console, format numbers with `DecimalFormat` and time the search with the wall clock; all of that is I/O.
- The `PUZZLES` map (lines 262-363). It is fixture data only.
- `Sudoku.java` is not part of this model. Its `solve()` is an empty stub.
- The `AtomicLong` cycle counter is modelled as the `nat` that `Solve` returns. The caller adds it to its own count. There is no concurrency, and the 64-bit wrap-around is not modelled.
- Solve: does not return the array. The source always returns its own argument, so the result is the argument array in its new state.
- Solve: does not say which solution it reaches when there are several. It is the first one in ascending candidate order at each empty cell.
- Grid shape: the Java loops run to `puzzle.length` and `row.length`. The model fixes a 9x9 `array2`, so ragged or differently sized arrays are not modelled. Every grid the program builds is 9x9.
- Cell values outside 0..9: the count vectors would throw `ArrayIndexOutOfBoundsException` in the source. The queries and `Solve` therefore require cells in 0..9, which every decoded grid satisfies. `PuzzleToPrettyString` accepts any `int`, including negative ones.
- Grid.RegionStart: takes natural coordinates only. Java's `%` on a negative coordinate is not modelled, because every caller passes a cell of the grid.
- `replaceAll` and `split("")` are modelled by their effect on characters: dots to zeros, keep ASCII `0`-`9`, one piece per character, and a single empty piece when nothing survives. No regular-expression engine is modelled.
- `split("")` is modelled as on current Java runtimes, which give no leading empty piece for a nonempty string. Older runtimes (before Java 8) give one, and there the piece count tested at line 129 would be one higher.
- `Integer.valueOf` is modelled only on the one-digit pieces it receives here.
- DecodePuzzle: returns `Err` where the source throws a `RuntimeException`.
