# gosudoku in Dafny

A model of the gosudoku solving engine. The engine keeps a 9x9 grid of
integers in which 0 marks an empty cell. It is built in four layers:

- **Group uniqueness** (`Line`, `Square`). A row, column or 3x3 square is
  unique when its non-zero numbers are pairwise distinct. A square is checked
  by reading it row-major into a line.
- **The board** (`Sudoku`). This layer holds:
  - the guarded writer `AddNumber` and its two validators;
  - the three group views `Row`, `Column` and `SquareAt`, plus the square
    index of a cell;
  - the count of empty cells.
- **Placement and candidates** (`Placement`). `CanBePut` places a digit on a
  copy of the grid and rechecks the three groups through the cell. The
  candidate list and the candidate count of a cell are built from it.
  `MostNormalizedCell` selects the empty cell with the fewest candidates.
- **The backtracking solver** (`Solver`). `Resolve` picks the most
  constrained empty cell and tries its candidates in ascending order,
  recursing after each one.

The grid is an immutable `seq<seq<int>>`. Each Go method that mutates
`s.Numbers` becomes a function that returns the new grid. `Resolve` returns
an `Outcome` holding the boolean result and the grid as it stands afterwards.
Its candidate loop is the mutually recursive `TryCandidates`.

Termination is proved with the number of empty cells (`ZeroCount`) as the
measure. The model also proves that the array access `values[index]` stays in
bounds, because the candidate count and the candidate list are computed on the
same grid.

Three behaviours of the code are easy to miss:

- With no empty cell, the selector returns count 10 and cell (-1, -1). The
  10 is the initial value of its running minimum.
- Between two candidates, `Resolve` does not reset the cell to 0. It writes
  the next candidate over the previous one, and the failed recursive call has
  already restored every cell it wrote. The cell is emptied only when the
  candidates run out. `TryCandidates` models exactly this, and its contract
  shows the net effect: on failure the grid is the frame's entry grid.
- `canBePut` writes the digit through `AddNumber`. A number outside 1..9 is
  therefore not written at all, and only the groups as they already stand
  are checked (`Placement.CanBePutIffCandidate`, third clause).

Beyond the properties the code promises, the model proves completeness. Take
a grid of blanks and digits whose groups are all unique. `Resolve` succeeds
on it exactly when some solved grid extends it, and in that case it returns
such a solution.

## Model

| member | source | states |
|---|---|---|
| Line.CheckUnique | line.go:8-17 | The double loop with early exit returns true exactly when no pair of positions i < j holds the same non-zero number. |
| Line.UniqueIffNonZeroDistinct | line.go:9-16 | Checking only pairs i < j loses nothing: a line is unique iff its non-zero numbers are distinct in both orders. Any number of zeros is allowed. |
| Line.RepeatBreaksUnique | line.go:11-12 | Any non-zero number repeated at two distinct positions, in either order, makes the line non-unique. |
| Line.UniqueOfExtension | line.go:9-16 | Erasing numbers from a unique line (turning them into 0) keeps it unique. |
| Line.UniqueAfterPlacing | line.go:9-16 | Writing a non-zero n into an empty position gives a unique line iff the line was unique and held no n. |
| Line.LineExamples | line_test.go:9-23 | The digits 1..9 and a line of zeros with distinct digits are unique. A line of zeros is unique. Repeats that are adjacent, at both ends, or the last two are not. |
| Square.Flatten | square.go:10-16 | The row-major reading puts cell (i, j) at line position 3*i+j, for all nine cells. |
| Square.IsUnique | square.go:8-18 | A square is unique when its row-major reading is a unique line. Equivalently, no two different cells hold the same non-zero number, whether they share a row, a column or neither, so the reading order does not matter. |
| Square.UniqueIffNoRepeatedCell | square.go:8-18 | The row-major line of a square is unique iff no two different cells of the square hold the same non-zero number. |
| Square.DigitsSquareExample | square_test.go:10-17 | The square of 1..9 is unique. |
| Square.ZeroSquareExample | square_test.go:19-25 | The all-zero square is unique. |
| Square.MixedSquareExample | square_test.go:27-36 | Zeros mixed with distinct digits form a unique square. |
| Square.RowRepeatExample | square_test.go:40-47 | A repeat within one row of a square breaks uniqueness. |
| Square.ColumnRepeatExample | square_test.go:48-55 | A repeat within one column of a square breaks uniqueness. |
| Square.CornerRepeatExample | square_test.go:56-66 | A repeat in opposite corners of a square breaks uniqueness. |
| Sudoku.Set | sudoku.go:57 | Writing cell (r, c) gives it the new value and leaves all 80 other cells unchanged. |
| Sudoku.SetSame | sudoku.go:57 | Writing back the value a cell already holds gives the same grid. |
| Sudoku.SetTwice | sudoku.go:52-57 | Of two writes to the same cell, only the last one matters. |
| Sudoku.AreIndexesCorrect | sudoku.go:196-201 | Accepts a pair of indices exactly when both lie in 0..8. |
| Sudoku.IsNumberCorrect | sudoku.go:204-209 | Accepts a number exactly when it lies in 1..9. |
| Sudoku.AddNumber | sudoku.go:32-36 | With both indices in 0..8 and the number in 1..9, the cell takes the number. Otherwise the grid is unchanged. No other cell ever changes. |
| Sudoku.Row | sudoku.go:91-95 | Position k of row i is cell (i, k). |
| Sudoku.Column | sudoku.go:80-88 | Position k of column j is cell (k, j). |
| Sudoku.SquareAt | sudoku.go:98-118 | Cell (y, x) of square b is grid cell (3*(b/3)+y, 3*(b mod 3)+x). |
| Sudoku.SquareIndex | sudoku.go:212-214 | The square index of a cell on the board lies in 0..8. |
| Sudoku.SquareIndexIff | sudoku.go:212-214 | A cell has square index b exactly when it lies within the three rows and three columns that square b spans. |
| Sudoku.CellInItsGroups | sudoku.go:91-118 | Cell (r, c) is at position c of its row, at position r of its column, and at (r mod 3, c mod 3) of its own square, which is flattened position 3*(r mod 3)+c mod 3. |
| Sudoku.RowAfterSet | sudoku.go:91-95 | A write changes its own row at one position and no other row. |
| Sudoku.ColumnAfterSet | sudoku.go:80-88 | A write changes its own column at one position and no other column. |
| Sudoku.SquareAfterSet | sudoku.go:98-118 | A write changes its own square at one flattened position and no other square. |
| Sudoku.ExtendsGroups | sudoku.go:80-118 | Each row, column and square of a grid that keeps all of g's numbers keeps all of the numbers of the same group of g. |
| Sudoku.AllGroupsUniqueOfExtension | sudoku.go:122-141 | If a grid has all 27 groups unique, so does any grid obtained from it by erasing numbers. |
| Sudoku.ZeroCount | sudoku.go:67-77 | The count of empty cells is 0 exactly when every cell holds a non-zero number. |
| Sudoku.ZeroCountAfterFilling | sudoku.go:41-60 | Filling an empty cell removes exactly one empty cell. This is the solver's termination measure. |
| Sudoku.UnresolvedCellAmount | sudoku.go:67-77 | The nested counting loop returns the number of empty cells. |
| Placement.CanBePut | sudoku.go:122-141 | A cell that is already filled admits nothing. |
| Placement.RowCheck | sudoku.go:131-137 | With digit n placed at empty (r, c), row r is unique iff it was unique and held no n. |
| Placement.ColumnCheck | sudoku.go:132-137 | The same holds for column c. |
| Placement.SquareCheck | sudoku.go:133-137 | The same holds for the square through (r, c), whose cells are those in the same row third and column third. |
| Placement.CanBePutIffCandidate | sudoku.go:122-141 | The usual Sudoku rule. An occupied cell admits nothing. A digit fits an empty cell iff the row, column and square through it are unique and none holds the digit. A non-digit "fits" iff those groups are unique. |
| Placement.PlacingKeepsGroupsUnique | sudoku.go:122-141 | Writing an accepted digit into a grid whose 27 groups are unique keeps all 27 unique. |
| Placement.GroupsThroughUniqueOfExtension | sudoku.go:122-141 | Filling empty cells never repairs a duplicate in the groups through a cell. |
| Placement.DuplicateBlocksCell | sudoku.go:122-141 | A duplicate already present in a group through (r, c) makes every number rejected at (r, c). |
| Placement.NumbersFrom | sudoku.go:187-191 | The scan from digit d yields the digits of d..9 that fit, strictly ascending, and none is missed. |
| Placement.PossibleNumbers | sudoku.go:183-193 | The candidate list is strictly ascending. n is in it iff n is in 1..9 and may be put into the cell. |
| Placement.AscendingUnique | sudoku.go:187-191 | Two strictly ascending lists with the same elements are equal. So an ascending candidate list is fixed by which digits fit. |
| Placement.CandidatesAre | sudoku.go:183-193 | The candidate list is the unique ascending list of the digits that fit. |
| Placement.PossibleNumberAmount | sudoku.go:170-180 | The candidate count lies in 0..9. |
| Placement.AmountIsLength | sudoku.go:170-193 | The candidate count equals the length of the candidate list, so `values[index]` with index < count is in bounds. |
| Placement.Scan | sudoku.go:150-165 | Loop invariant of the selector: after the cells before (i, j), either no empty cell has been met and the start value is kept, or the best is the first empty cell met with the least count so far. |
| Placement.ScanNextRow | sudoku.go:150-151 | Passing from the end of a row to the start of the next keeps the invariant. |
| Placement.ScanTake | sudoku.go:154-162 | An empty cell with a strictly smaller count becomes the best, keeping the invariant. |
| Placement.ScanSkip | sudoku.go:154-162 | Any other cell leaves the best in place, keeping the invariant. |
| Placement.MostNormalizedCell | sudoku.go:144-167 | With an empty cell present, the result is an empty cell whose candidate count is the minimum over all empty cells, and every earlier empty cell in row-major order has a larger count. A zero-candidate cell is returned with count 0. With no empty cell the result is count 10 and cell (-1, -1). |
| Placement.SelectsOnlyEmptyCell | sudoku.go:144-167 | With a single empty cell, the selector returns that cell and its candidate count. |
| Solver.SolutionDigitFits | sudoku.go:122-141 | A solution extending g holds, at each empty cell of g, a digit that canBePut accepts on g. So the solution's digit is among the candidates tried. |
| Solver.Resolve | sudoku.go:39-64 | On success no cell is empty and every formerly empty cell holds a digit. On failure the grid is exactly the input grid. Placed numbers never change. If all groups were unique, success keeps them unique. |
| Solver.TryCandidates | sudoku.go:44-61 | The candidate loop gives the same guarantees relative to the frame's entry grid (the cell emptied). Exhaustion empties the cell again and returns false. |
| Solver.AcceptedStep | sudoku.go:55-60 | A successful recursive call after an accepted write satisfies the frame's guarantees relative to the grid before the write. |
| Solver.ResolveComplete | sudoku.go:39-64 | If any solved grid keeps all of g's numbers, Resolve(g) succeeds. |
| Solver.TryCandidatesComplete | sudoku.go:49-61 | The candidate loop succeeds while the digit a solution holds at the cell is still ahead of the index. |
| Solver.ResolveSucceedsIffSolvable | sudoku.go:39-64 | For a grid of blanks and digits with all groups unique, Resolve succeeds iff a solution extends it, and it then returns such a solution. |
| Solver.StuckCellBlocksResolve | sudoku.go:39-64 | An empty cell with a duplicate in one of its groups makes Resolve fail. |
| Solver.TryCandidatesStuck | sudoku.go:49-61 | The candidate loop fails while such a blocked cell remains. |
| Examples.ValidatorExamples | sudoku_test.go:9-33 | The validators accept (0,0), (8,8), (5,5) and the digits 1, 9, 5. They reject indices -1 or 9 in either place, and the numbers 0 and 10. |
| Examples.AddNumberExample | sudoku_test.go:35-52 | Three writes into the empty grid fill exactly (0,0), (8,8) and (5,5). |
| Examples.ColumnExample | sudoku_test.go:54-61 | Column 5 reads [1,0,0,2,0,0,0,0,3]. |
| Examples.RowExample | sudoku_test.go:63-70 | Row 2 reads [5,0,0,0,0,3,0,0,4]. |
| Examples.SquareIndexExamples | sudoku_test.go:72-77 | Cells (1,1), (1,5), (5,3) and (8,8) lie in squares 0, 1, 4 and 8. |
| Examples.SquareExample | sudoku_test.go:79-92 | Square 5 reads [[1,0,2],[0,0,0],[0,3,0]]. |
| Examples.CanBePutAcceptsExample | sudoku_test.go:94-105 | 5 may go into the centre of a top-left square missing only its centre. |
| Examples.CanBePutExamples | sudoku_test.go:107-129 | A digit repeated in the square, row or column is rejected, and so is any digit in an occupied cell. |
| Examples.EightInRowAmount | sudoku_test.go:131-142 | With 1..8 in row 0, cell (0,8) has one candidate. |
| Examples.ThreeLeftAmount | sudoku_test.go:144-153 | With 1..4 in column 0 and 5, 6 in row 4, cell (4,0) has three candidates. |
| Examples.OneMissingSelection | sudoku_test.go:155-171 | On a solved grid with (2,2) emptied, the selector returns (2,2) with count 1. |
| Examples.EmptyGridSelection | sudoku_test.go:173-189 | On the empty grid, the selector returns the first cell with count 9. |
| Examples.BrokenGridSelection | sudoku_test.go:191-207 | An only empty cell whose column already repeats 9 is returned with count 0. |
| Examples.CompletedSolved | sudoku_test.go:209-223 | The completed grid of the tests is a solution, so no cell of it is empty. |
| Examples.OneMissingCandidates | sudoku_test.go:257-271 | The candidate list of (2,2) is [6]. |
| Examples.OneMissingResolve | sudoku_test.go:273-300 | Solving the grid with one missing digit succeeds and writes 6 into (2,2), giving the completed grid. |
| Examples.UnsolvableResolve | sudoku_test.go:302-318 | The puzzle with 8 twice in column 0 is not solved, and the grid is left unchanged. |
| Examples.EmptyResolve | sudoku.go:39-64 | The search on the empty grid succeeds and returns a solved grid. |

## Left out

- `Print` (sudoku.go:13-29) writes to the console and is not modelled.
- `math.Floor` on `float64` in `getSquare` and `getSquareIndex` is modelled
  as integer division by 3. For a positive divisor this agrees with the
  floor of the exact quotient, and every index involved is small enough to
  be exact in a `float64`.
- Go's runtime panics on out-of-range array indices are not modelled as an
  error path. The models of `getRow`, `getColumn`, `getSquare`, `canBePut`,
  `getPossibleNumberAmount` and `getPossibleNumbers` require valid indices
  instead.
- Go's `int` is 64 bits wide. No arithmetic in the engine comes near that
  bound, so the model uses unbounded integers.
- In-place mutation of `s.Numbers` is modelled by returning a new grid.
  `canBePut`'s copy of the grid is simply the grid value, so it cannot
  disturb the caller's grid by construction.
- Sudoku.UnresolvedCellAmount: the counts of the two remaining counting tests
  (81 for the empty grid, 5 for a grid with five blanks, sudoku_test.go:225-255)
  are not restated as concrete lemmas. They follow from the general contract
  `result == ZeroCount(g)`, but proving them needs the cardinality of
  literal sets of cells.
