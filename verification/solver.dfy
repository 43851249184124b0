/** The backtracking solver. It works on one grid in place: it picks the most
    constrained empty cell, writes each of its candidates there in ascending
    order and recurses; a failed recursive call puts back every cell it wrote,
    so the next candidate simply overwrites the previous one, and the cell is
    emptied again only when the candidates run out. */
module Solver {
  import Line
  import Square
  import opened Sudoku
  import opened Placement

  /** The result of a solve: whether it succeeded, and the grid afterwards. */
  datatype Outcome = Outcome(solved: bool, grid: Grid)

  /** Every cell holds a digit and every group is unique. */
  predicate Solved(s: Grid)
  {
    (forall i, j :: 0 <= i < 9 && 0 <= j < 9 ==> 1 <= s[i][j] <= 9) && AllGroupsUnique(s)
  }

  /** Every cell holds 0 or a digit. */
  predicate WellFormed(g: Grid)
  {
    forall i, j :: 0 <= i < 9 && 0 <= j < 9 ==> 0 <= g[i][j] <= 9
  }

  /** A solved grid admits every digit it holds: a solution of `g` agrees with
      `g` wherever `g` is filled, so it holds at each empty cell of `g` one of
      that cell's candidates. */
  lemma SolutionDigitFits(g: Grid, s: Grid, r: int, c: int)
    requires Solved(s) && Extends(s, g)
    requires 0 <= r < 9 && 0 <= c < 9 && g[r][c] == 0
    ensures CanBePut(g, r, c, s[r][c])
  {
    var h := Set(g, r, c, s[r][c]);
    AllGroupsUniqueOfExtension(s, h);
    assert Line.IsUnique(Row(h, r)) && Line.IsUnique(Column(h, c));
    assert Square.IsUnique(SquareAt(h, SquareIndex(r, c)));
  }

  /** Solve. On success no cell is empty, the cells that were empty now hold
      digits, and a grid whose groups were all unique still has them all
      unique. On failure the grid is exactly what it was. Either way a number
      already placed is never changed. */
  function Resolve(g: Grid): (r: Outcome)
    ensures r.solved ==> ZeroCount(r.grid) == 0
    ensures r.solved ==> forall i, j :: 0 <= i < 9 && 0 <= j < 9 && g[i][j] == 0 ==> 1 <= r.grid[i][j] <= 9
    ensures !r.solved ==> r.grid == g
    ensures Extends(r.grid, g)
    ensures r.solved && AllGroupsUnique(g) ==> AllGroupsUnique(r.grid)
    decreases ZeroCount(g), 1, 0
  {
    if ZeroCount(g) > 0 then
      var choice := MostNormalizedCell(g);
      var cell := choice.cell;
      var values := PossibleNumbers(g, cell);
      AmountIsLength(g, cell.row, cell.col);
      SetSame(g, cell.row, cell.col);
      TryCandidates(g, cell, values, 0, choice.count)
    else
      Outcome(true, g)
  }

  /** The candidate loop of one solver frame, from candidate `index` on. `g` is
      the grid as the loop sees it: the frame's entry grid with `cell` holding
      the previously tried candidate (or still empty). The candidates and
      their count were both computed on the entry grid, so `index` stays
      within `values`. */
  function TryCandidates(g: Grid, cell: Cell, values: seq<int>, index: int, count: int): (r: Outcome)
    requires 0 <= cell.row < 9 && 0 <= cell.col < 9
    requires values == PossibleNumbers(Set(g, cell.row, cell.col, 0), cell)
    requires count == |values| && 0 <= index <= count
    ensures var entry := Set(g, cell.row, cell.col, 0);
      && (r.solved ==> ZeroCount(r.grid) == 0)
      && (r.solved ==> forall i, j :: 0 <= i < 9 && 0 <= j < 9 && entry[i][j] == 0 ==> 1 <= r.grid[i][j] <= 9)
      && (!r.solved ==> r.grid == entry)
      && Extends(r.grid, entry)
      && (r.solved && AllGroupsUnique(entry) ==> AllGroupsUnique(r.grid))
    decreases ZeroCount(Set(g, cell.row, cell.col, 0)), 0, count - index
  {
    var entry := Set(g, cell.row, cell.col, 0);
    if index == count then
      Outcome(false, entry)
    else
      var number := values[index];
      var next := Set(g, cell.row, cell.col, number);
      SetTwice(g, cell.row, cell.col, 0, number);
      ZeroCountAfterFilling(entry, cell.row, cell.col, number);
      var sub := Resolve(next);
      if sub.solved then
        AcceptedStep(entry, cell.row, cell.col, number, sub.grid);
        sub
      else
        SetTwice(g, cell.row, cell.col, number, 0);
        TryCandidates(sub.grid, cell, values, index + 1, count)
  }

  /** What a successful recursive call on the grid with an accepted digit
      written at (r, c) guarantees about the grid before the write. */
  lemma AcceptedStep(entry: Grid, r: int, c: int, n: int, solved: Grid)
    requires 0 <= r < 9 && 0 <= c < 9 && entry[r][c] == 0 && 1 <= n <= 9
    requires CanBePut(entry, r, c, n)
    requires forall i, j :: 0 <= i < 9 && 0 <= j < 9 && Set(entry, r, c, n)[i][j] == 0 ==> 1 <= solved[i][j] <= 9
    requires Extends(solved, Set(entry, r, c, n))
    requires AllGroupsUnique(Set(entry, r, c, n)) ==> AllGroupsUnique(solved)
    ensures forall i, j :: 0 <= i < 9 && 0 <= j < 9 && entry[i][j] == 0 ==> 1 <= solved[i][j] <= 9
    ensures Extends(solved, entry)
    ensures AllGroupsUnique(entry) ==> AllGroupsUnique(solved)
  {
    var next := Set(entry, r, c, n);
    assert solved[r][c] == n;
    forall i, j | 0 <= i < 9 && 0 <= j < 9 && entry[i][j] != 0
      ensures solved[i][j] == entry[i][j]
    {
      assert next[i][j] == entry[i][j];
    }
    if AllGroupsUnique(entry) {
      PlacingKeepsGroupsUnique(entry, r, c, n);
    }
  }

  /** Completeness: from any grid that some solution extends, the search
      succeeds. */
  lemma {:induction false} ResolveComplete(g: Grid, s: Grid)
    requires Solved(s) && Extends(s, g)
    ensures Resolve(g).solved
    decreases ZeroCount(g), 1, 0
  {
    if ZeroCount(g) > 0 {
      var choice := MostNormalizedCell(g);
      var cell := choice.cell;
      var values := PossibleNumbers(g, cell);
      AmountIsLength(g, cell.row, cell.col);
      SetSame(g, cell.row, cell.col);
      SolutionDigitFits(g, s, cell.row, cell.col);
      TryCandidatesComplete(g, cell, values, 0, choice.count, s);
    }
  }

  /** The candidate loop succeeds while the digit a solution puts in `cell`
      is still ahead of `index`. */
  lemma {:induction false} TryCandidatesComplete(g: Grid, cell: Cell, values: seq<int>, index: int, count: int, s: Grid)
    requires 0 <= cell.row < 9 && 0 <= cell.col < 9
    requires values == PossibleNumbers(Set(g, cell.row, cell.col, 0), cell)
    requires count == |values| && 0 <= index <= count
    requires Solved(s) && Extends(s, Set(g, cell.row, cell.col, 0))
    requires s[cell.row][cell.col] in values[index..]
    ensures TryCandidates(g, cell, values, index, count).solved
    decreases ZeroCount(Set(g, cell.row, cell.col, 0)), 0, count - index
  {
    var entry := Set(g, cell.row, cell.col, 0);
    var number := values[index];
    var next := Set(g, cell.row, cell.col, number);
    SetTwice(g, cell.row, cell.col, 0, number);
    ZeroCountAfterFilling(entry, cell.row, cell.col, number);
    var sub := Resolve(next);
    if number == s[cell.row][cell.col] {
      ResolveComplete(next, s);
    } else if !sub.solved {
      SetTwice(g, cell.row, cell.col, number, 0);
      assert s[cell.row][cell.col] in values[index + 1..];
      TryCandidatesComplete(sub.grid, cell, values, index + 1, count, s);
    }
  }

  /** For a grid of digits and blanks whose groups are all unique, the solver
      succeeds exactly when the grid has a solution, and what it returns then
      is a solution of the grid. */
  lemma ResolveSucceedsIffSolvable(g: Grid)
    requires WellFormed(g) && AllGroupsUnique(g)
    ensures Resolve(g).solved <==> exists s :: Solved(s) && Extends(s, g)
    ensures Resolve(g).solved ==> Solved(Resolve(g).grid) && Extends(Resolve(g).grid, g)
  {
    var r := Resolve(g);
    if r.solved {
      assert Solved(r.grid);
    } else if s :| Solved(s) && Extends(s, g) {
      ResolveComplete(g, s);
    }
  }

  /** An empty cell whose row, column or square already holds a duplicate can
      never be filled, so the search fails (and leaves the grid as it was). */
  lemma {:induction false} StuckCellBlocksResolve(g: Grid, r: int, c: int)
    requires 0 <= r < 9 && 0 <= c < 9 && g[r][c] == 0
    requires !GroupsThroughUnique(g, r, c)
    ensures !Resolve(g).solved
    decreases ZeroCount(g), 1, 0
  {
    var choice := MostNormalizedCell(g);
    var cell := choice.cell;
    var values := PossibleNumbers(g, cell);
    AmountIsLength(g, cell.row, cell.col);
    SetSame(g, cell.row, cell.col);
    TryCandidatesStuck(g, cell, values, 0, choice.count, r, c);
  }

  /** The candidate loop fails while an empty cell with a duplicate in one of
      its groups remains: that cell is never the one being tried, and every
      recursive call inherits it. */
  lemma {:induction false} TryCandidatesStuck(g: Grid, cell: Cell, values: seq<int>, index: int, count: int, r: int, c: int)
    requires 0 <= cell.row < 9 && 0 <= cell.col < 9
    requires values == PossibleNumbers(Set(g, cell.row, cell.col, 0), cell)
    requires count == |values| && 0 <= index <= count
    requires 0 <= r < 9 && 0 <= c < 9
    requires Set(g, cell.row, cell.col, 0)[r][c] == 0 && !GroupsThroughUnique(Set(g, cell.row, cell.col, 0), r, c)
    ensures !TryCandidates(g, cell, values, index, count).solved
    decreases ZeroCount(Set(g, cell.row, cell.col, 0)), 0, count - index
  {
    if index < count {
      var entry := Set(g, cell.row, cell.col, 0);
      var number := values[index];
      DuplicateBlocksCell(entry, r, c, number);
      var next := Set(g, cell.row, cell.col, number);
      SetTwice(g, cell.row, cell.col, 0, number);
      ZeroCountAfterFilling(entry, cell.row, cell.col, number);
      if GroupsThroughUnique(next, r, c) {
        GroupsThroughUniqueOfExtension(next, entry, r, c);
      }
      StuckCellBlocksResolve(next, r, c);
      SetTwice(g, cell.row, cell.col, number, 0);
      TryCandidatesStuck(Resolve(next).grid, cell, values, index + 1, count, r, c);
    }
  }
}
