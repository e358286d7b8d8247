# Sudoku board: a verified model

This project models the `Board` class of a small Qt Sudoku program (`sudoku.cpp`, `sudoku.h`).
A board is a 9x9 grid of `int`s, where 0 marks an empty square. The class can:

- be built empty or from a given grid;
- be read and written a row at a time through `operator[]`;
- be cleared;
- be printed as a boxed 13-line text (`str`);
- be read back from such text (`operator>>`);
- check whether two peers already share a value (`contradictory`);
- be solved in place by a backtracking search (`solve`).

The model has four modules.

- `Grid` (grid.dfy) states the rules of the puzzle on values (`seq<seq<int>>`), independently of any loop:
  - peers;
  - whether a value may be placed in a cell (`Placeable`);
  - conflicts (`Conflicting`);
  - solutions (`IsSolutionOf`);
  - the count of empty cells that the solver decreases.
- `Backtrack` (search.dfy) is a functional reference for the recursive search. It takes the first empty cell in row-major order and tries 1..9 in ascending order. The lemmas about it prove:
  - it is sound;
  - it is complete;
  - it returns what the first successful candidate leads to.
- `Text` (text.dfy) covers text:
  - the layout that `str` writes;
  - how `std::getline` cuts a stream into lines (`Lines`);
  - what `operator>>` makes of those lines (`ParseLines`);
  - the render/parse round trip.
- `Sudoku` (board.dfy) holds the class `Board`, a `const grid: array2<int>`. Each of its methods keeps the loops, breaks, continues and early returns of the C++ code, and is proved against the functions above.
  - The by-value grid argument of the private recursive `solve` is a `seq<seq<int>>`.
  - `m_grid = grid` is a copy into the array (`Assign`).

Behaviour of the code worth knowing:

- A line is skipped as formatting when its *second* character is `-` (`line[1] == '-'`, sudoku.cpp:145), not when it begins with a dash.
- `solve()` returns `false` both for a contradictory board and for an unsolvable one (sudoku.cpp:45-48). The two cases are told apart only by calling `contradictory()` separately.
- An empty input line is not skipped: sudoku.cpp:145 reads `line[1]` of an empty string. The model reports it as the outcome `EmptyLine`.
- The reader does not bound the number of digits in a row: the column check at sudoku.cpp:161 is commented out, so a tenth digit is written past the row. The model reports it as the outcome `TooManyDigits`.
- The solver does not check that clues are digits. A clue such as 10 with no equal peer survives into the solution. So the fact that every row, column and box of a solution holds each digit 1..9 is proved only for puzzles whose clues are digits (`Grid.SolutionUnits`).

## Model

| member | source | states |
|---|---|---|
| Sudoku.Board.constructor | sudoku.cpp:7-14 | a new board has a fresh 9x9 grid and every one of its 81 cells is 0 |
| Sudoku.Board.FromGrid | sudoku.cpp:16-18 | the board built from a grid holds exactly that grid |
| Sudoku.Board.Cells | sudoku.h:43 | the board's cells, seen as a value, are the 9x9 array cell by cell |
| Sudoku.Board.Row | sudoku.cpp:99-102 | the const `operator[]` gives the nine cells of the row, in order |
| Sudoku.Board.SetCell | sudoku.cpp:94-97 | a write through the row reference changes the addressed cell to the value and no other cell |
| Sudoku.Board.Clear | sudoku.cpp:104-111 | after `clear` every cell is 0; only the grid is modified |
| Sudoku.Board.Valid | sudoku.cpp:64-92 | the row/column scan and the box scan return true exactly when no peer of (row, col) holds `entry`; the cell itself is not compared; only the grid argument is read |
| Sudoku.ScansCoverPeers | sudoku.cpp:67-89 | the row/column scan together with the box scan, which skips the cell's own row and column, look at exactly the peers of the cell |
| Sudoku.Board.Contradictory | sudoku.cpp:51-62 | the result is true exactly when two peer cells hold the same nonzero value; the board is not modified |
| Grid.ConflictingIffMisplaced | sudoku.cpp:51-62 | a grid has a conflict exactly when some filled cell holds a value that `valid` would refuse there |
| Sudoku.Board.FindEmpty | sudoku.cpp:115-123 | the found flag is set exactly when there is an empty cell; (row, col) is then the first empty cell in row-major order; otherwise the grid is full |
| Sudoku.Board.Assign | sudoku.cpp:125 | `m_grid = grid` leaves the board holding the grid |
| Sudoku.Board.SolveFrom | sudoku.cpp:113-136 | the recursive solve succeeds exactly when the reference search does, leaves the board holding the search's result on success, and leaves the board unchanged on failure; it terminates because each call has one empty cell fewer |
| Sudoku.Board.Solve | sudoku.cpp:43-49 | `solve()` returns true exactly when the board has no conflict and has a solution; on success the board holds a solution of the old board (full, clues kept, no conflict) that the reference search returns; on failure, a contradictory board included, the board is unchanged |
| Grid.PlaceDecreasesZeroCount | sudoku.cpp:129-132 | writing a nonzero entry into an empty cell of the copy leaves exactly one empty cell fewer, the measure that makes the recursion terminate |
| Grid.PlaceableIgnoresOwnCell | sudoku.cpp:129-131 | what the candidate loop left in the cell does not change which later candidates `valid` accepts |
| Grid.PlacePreservesConsistency | sudoku.cpp:130-132 | placing an entry that `valid` accepts into an empty cell of a grid without conflicts creates none |
| Grid.ConflictingUnsolvable | sudoku.cpp:45-47 | a contradictory grid has no solution, so refusing it loses nothing |
| Grid.EmptyGridSolvable | sudoku.h:24-26 | the empty puzzle has a solution, so `solve()` on a cleared board succeeds |
| Grid.SolutionUnits | sudoku.h:24-26 | in a solution of a puzzle whose clues are digits, every row, column and 3x3 box holds each digit 1..9 |
| Backtrack.FirstEmpty | sudoku.cpp:117-123 | the index returned is that of an empty cell, and every cell before it in row-major order is filled, or it is 81 when there is no empty cell |
| Backtrack.SearchAtFirstEmpty | sudoku.cpp:115-129 | on a grid with an empty cell the search tries the candidates at the first empty cell in row-major order |
| Backtrack.SearchOnFullGrid | sudoku.cpp:124-127 | a grid with no empty cell is returned as it is |
| Backtrack.SearchSound | sudoku.cpp:113-136 | a successful search returns a full grid that keeps every filled cell, puts a digit 1..9 in every empty one, and has no conflict when the input had none |
| Backtrack.StepSound | sudoku.cpp:130-132 | a sound result for the grid with an accepted entry placed is sound for the grid |
| Backtrack.SearchComplete | sudoku.cpp:113-136 | whenever the puzzle has a solution the search succeeds |
| Backtrack.SearchCorrect | sudoku.h:24-26 | for a grid without conflicts the search succeeds exactly when the grid has a solution, and what it returns is one |
| Backtrack.TryFromFirstSuccess | sudoku.cpp:129-134 | on success, the value in the decision cell is a placeable candidate whose recursive search gives the result, and every smaller placeable candidate fails |
| Backtrack.TryFromAllFail | sudoku.cpp:129-135 | when the candidate loop fails, every placeable candidate from where it started fails |
| Backtrack.TryFromReaches | sudoku.cpp:129-134 | if any candidate at the decision cell leads to a solution, the candidate loop succeeds |
| Backtrack.SearchDecidesFirstEmpty | sudoku.cpp:115-135 | the search decides at the first empty cell in row-major order: it returns what the smallest successful candidate there leads to, or fails when every candidate fails |
| Sudoku.Board.Str | sudoku.cpp:20-41 | `str` returns exactly the boxed rendering of the board's cells |
| Sudoku.Board.RowLine | sudoku.cpp:27-32 | the column loop writes the content line of the row |
| Sudoku.RowStep | sudoku.cpp:24-38 | one pass of the row loop appends the lines of the rendering that belong to that row: the top border before row 0, the row's content line, a separator after rows 2 and 5, and the bottom border after row 8 |
| Sudoku.CellStep | sudoku.cpp:28-30 | the three conditional writes for one column append that column's cell text |
| Text.Decimal | sudoku.cpp:29 | `ss << m_grid[row][col]` writes a single digit character for a cell holding 0..9, and only a sign and digits otherwise |
| Text.ContentLineLayout | sudoku.cpp:27-32 | the content line of a row of digits is `\| d d d \| d d d \| d d d \| `, 26 characters |
| Text.RenderLayout | sudoku.cpp:24-38 | the text of `str` has exactly 13 lines: the border first and last, the separator as lines 4 and 8, and the content line of row r as line 1 + r + r / 3 |
| Text.LinesOfRender | sudoku.cpp:20-41 | cutting the text of `str` into lines with `getline` gives back its 13 lines |
| Text.ScanRowAccepts | sudoku.cpp:152-168 | a content line is accepted exactly when it holds only digits, white space and `\|`, with at most nine digits; the row read is then its digits in order |
| Text.ScanRowRejects | sudoku.cpp:155-164 | a character other than a digit, white space or `\|` makes the read fail, provided no tenth digit comes first |
| Text.ParseFromDigits | sudoku.cpp:166 | a successful read yields nine rows of nine cells, each a digit 0..9 |
| Text.ParseIgnoresExcessLines | sudoku.cpp:147-148 | when some lines already read as a board, a further non-empty line that is not a dash line, and anything after it, leave the outcome unchanged: the reading stops after nine content rows |
| Text.ParseFromSkipsDash | sudoku.cpp:144-145 | a line whose second character is a dash is skipped wherever it stands: removing it from the input leaves the outcome unchanged |
| Text.ParseRenderLines | sudoku.cpp:138-175 | reading the 13 lines of the rendering of a board whose cells are 0..9 gives the board back |
| Text.RenderParseRoundTrip | sudoku.cpp:20-41 | reading the text that `str` writes for a board whose cells are 0..9 gives the board back |
| Sudoku.Board.ReadRow | sudoku.cpp:152-168 | the digit loop on one line gives the same outcome as the scanner specification; on success it writes the digits into the given row in order and touches no other row |
| Sudoku.Board.Read | sudoku.cpp:138-175 | `operator>>` on an input gives the outcome of the parser specification on the input's lines; on success the board holds the grid read, and on every other outcome the board is unchanged |

## Left out

- `m_count` and `count()` are left out: the field is never initialised or updated in `sudoku.cpp`, so nothing about it can be stated.
- mainwindow.cpp and mainwindow.h, the Qt user interface, are not part of this model.
- Stream state is left out. The `failbit` that `operator>>` sets and the `is.clear` at its end are replaced by the `ReadResult` outcome. `operator<<` only writes `str()`, so it is covered by `Str`.
- Read: the source's behaviour is undefined on three inputs, and the model instead reports each as an outcome and leaves the board unchanged:
  - `EmptyLine`: an empty line, where the code reads `line[1]`;
  - `TooManyDigits`: a tenth digit in a row, where the code writes past the row because its bound check is commented out;
  - `MissingCells`: fewer than nine content rows, or a row with fewer than nine digits, where the code builds the board from uninitialised cells.
- Read: the character classes are those of the C locale. White space means space, tab, line feed, vertical tab, form feed and carriage return. There is no multibyte or locale handling.
- Read: the input is the whole text of the stream. `Lines` models how repeated `std::getline` calls cut it. Stream errors other than end of input are not modelled.
- Sudoku.Board.SetCell: `operator[]` hands out a mutable reference to a row. The model offers only the one-cell write through it, so a reference kept across other calls is not modelled.
- Valid is modelled as a static method on a grid value, because the C++ member function reads nothing but its arguments.
- Cell values are unbounded integers. The C++ `int` never overflows here, since cells are only assigned given values or digits.
- Text.RenderParseRoundTrip is stated only for cells holding 0..9. A value outside that range prints as several characters, or with a minus sign, and does not read back.
