/** Placement rules of the engine: whether a digit may go into a cell, the
    candidate digits of a cell, and the choice of the most constrained empty
    cell. */
module Placement {
  import Line
  import Square
  import opened Sudoku

  /** Whether n may be written into (r, c): the cell must be empty, and after
      writing n (through the guarded writer, on a copy of the grid) the row,
      the column and the square through (r, c) must all be unique. */
  function CanBePut(g: Grid, r: int, c: int, n: int): (b: bool)
    requires 0 <= r < 9 && 0 <= c < 9
    ensures b ==> g[r][c] == 0
  {
    if g[r][c] != 0 then
      false
    else
      var temp := AddNumber(g, r, c, n);
      var row := Row(temp, r);
      var col := Column(temp, c);
      var sqr := SquareAt(temp, SquareIndex(r, c));
      Line.IsUnique(row) && Line.IsUnique(col) && Square.IsUnique(sqr)
  }

  /** The row, the column and the square through (r, c) are unique. */
  predicate GroupsThroughUnique(g: Grid, r: int, c: int)
    requires 0 <= r < 9 && 0 <= c < 9
  {
    Line.IsUnique(Row(g, r)) && Line.IsUnique(Column(g, c)) && Square.IsUnique(SquareAt(g, SquareIndex(r, c)))
  }

  /** n occurs nowhere in row r, column c, or the 3x3 block of rows and
      columns around (r, c). */
  predicate DigitAbsent(g: Grid, r: int, c: int, n: int)
    requires 0 <= r < 9 && 0 <= c < 9
  {
    (forall k :: 0 <= k < 9 ==> g[r][k] != n) &&
    (forall k :: 0 <= k < 9 ==> g[k][c] != n) &&
    (forall p, q :: 0 <= p < 9 && 0 <= q < 9 && p / 3 == r / 3 && q / 3 == c / 3 ==> g[p][q] != n)
  }

  /** Writing digit n into empty (r, c) keeps row r unique exactly when it was
      unique and did not hold n. */
  lemma RowCheck(g: Grid, r: int, c: int, n: int)
    requires 0 <= r < 9 && 0 <= c < 9 && g[r][c] == 0 && 1 <= n <= 9
    ensures Line.IsUnique(Row(AddNumber(g, r, c, n), r)) <==>
      Line.IsUnique(Row(g, r)) && forall k :: 0 <= k < 9 ==> g[r][k] != n
  {
    RowAfterSet(g, r, c, n, r);
    Line.UniqueAfterPlacing(Row(g, r), c, n);
  }

  /** Writing digit n into empty (r, c) keeps column c unique exactly when it
      was unique and did not hold n. */
  lemma ColumnCheck(g: Grid, r: int, c: int, n: int)
    requires 0 <= r < 9 && 0 <= c < 9 && g[r][c] == 0 && 1 <= n <= 9
    ensures Line.IsUnique(Column(AddNumber(g, r, c, n), c)) <==>
      Line.IsUnique(Column(g, c)) && forall k :: 0 <= k < 9 ==> g[k][c] != n
  {
    ColumnAfterSet(g, r, c, n, c);
    Line.UniqueAfterPlacing(Column(g, c), r, n);
  }

  /** Cell (p, q) of the block around (r, c) sits at position
      3 * (p mod 3) + q mod 3 of the square's line. */
  lemma BlockCellInLine(g: Grid, r: int, c: int, p: int, q: int)
    requires 0 <= r < 9 && 0 <= c < 9 && 0 <= p < 9 && 0 <= q < 9
    requires p / 3 == r / 3 && q / 3 == c / 3
    ensures Square.Flatten(SquareAt(g, SquareIndex(r, c)))[3 * (p % 3) + q % 3] == g[p][q]
  {
    var b := SquareIndex(r, c);
    DivModThree(r / 3, c / 3);
    assert b / 3 == p / 3 && b % 3 == q / 3;
    assert p == 3 * (p / 3) + p % 3 && q == 3 * (q / 3) + q % 3;
    assert SquareAt(g, b)[p % 3][q % 3] == g[p][q];
  }

  /** Position k of the square's line holds a cell of the block around (r, c). */
  lemma LineCellInBlock(g: Grid, r: int, c: int, k: int)
    requires 0 <= r < 9 && 0 <= c < 9 && 0 <= k < 9
    ensures var p, q := 3 * (r / 3) + k / 3, 3 * (c / 3) + k % 3;
      0 <= p < 9 && 0 <= q < 9 && p / 3 == r / 3 && q / 3 == c / 3 &&
      Square.Flatten(SquareAt(g, SquareIndex(r, c)))[k] == g[p][q]
  {
    var b := SquareIndex(r, c);
    DivModThree(r / 3, c / 3);
    DivModThree(r / 3, k / 3);
    DivModThree(c / 3, k % 3);
    assert k == 3 * (k / 3) + k % 3;
    assert SquareAt(g, b)[k / 3][k % 3] == g[3 * (r / 3) + k / 3][3 * (c / 3) + k % 3];
  }

  /** The row-major line of the square around (r, c) lists exactly the cells
      in the same 3x3 block of rows and columns. */
  lemma SquareLineIsBlock(g: Grid, r: int, c: int, n: int)
    requires 0 <= r < 9 && 0 <= c < 9
    ensures (forall k :: 0 <= k < 9 ==> Square.Flatten(SquareAt(g, SquareIndex(r, c)))[k] != n) <==>
      (forall p, q :: 0 <= p < 9 && 0 <= q < 9 && p / 3 == r / 3 && q / 3 == c / 3 ==> g[p][q] != n)
  {
    var f := Square.Flatten(SquareAt(g, SquareIndex(r, c)));
    if forall k :: 0 <= k < 9 ==> f[k] != n {
      forall p, q | 0 <= p < 9 && 0 <= q < 9 && p / 3 == r / 3 && q / 3 == c / 3
        ensures g[p][q] != n
      {
        BlockCellInLine(g, r, c, p, q);
      }
    }
    if forall p, q :: 0 <= p < 9 && 0 <= q < 9 && p / 3 == r / 3 && q / 3 == c / 3 ==> g[p][q] != n {
      forall k | 0 <= k < 9
        ensures f[k] != n
      {
        LineCellInBlock(g, r, c, k);
      }
    }
  }

  /** Writing digit n into empty (r, c) keeps its square unique exactly when
      the square was unique and did not hold n. */
  lemma SquareCheck(g: Grid, r: int, c: int, n: int)
    requires 0 <= r < 9 && 0 <= c < 9 && g[r][c] == 0 && 1 <= n <= 9
    ensures Square.IsUnique(SquareAt(AddNumber(g, r, c, n), SquareIndex(r, c))) <==>
      Square.IsUnique(SquareAt(g, SquareIndex(r, c))) &&
      forall p, q :: 0 <= p < 9 && 0 <= q < 9 && p / 3 == r / 3 && q / 3 == c / 3 ==> g[p][q] != n
  {
    var b := SquareIndex(r, c);
    var f := Square.Flatten(SquareAt(g, b));
    var k := 3 * (r % 3) + c % 3;
    assert AddNumber(g, r, c, n) == Set(g, r, c, n);
    SquareAfterSet(g, r, c, n, b);
    CellInItsGroups(g, r, c);
    Line.UniqueAfterPlacing(f, k, n);
    SquareLineIsBlock(g, r, c, n);
    assert Square.IsUnique(SquareAt(Set(g, r, c, n), b)) <==> Line.IsUnique(f[k := n]);
  }

  /** The usual Sudoku rule, derived from the copy-and-recheck definition: a
      digit fits an empty cell exactly when the three groups through the cell
      are already unique and none of them holds the digit. A number that is
      not a digit is never written, so for it only the uniqueness of the
      groups as they stand is checked. An occupied cell admits nothing. */
  lemma CanBePutIffCandidate(g: Grid, r: int, c: int, n: int)
    requires 0 <= r < 9 && 0 <= c < 9
    ensures g[r][c] != 0 ==> !CanBePut(g, r, c, n)
    ensures g[r][c] == 0 && 1 <= n <= 9 ==>
      (CanBePut(g, r, c, n) <==> GroupsThroughUnique(g, r, c) && DigitAbsent(g, r, c, n))
    ensures g[r][c] == 0 && !(1 <= n <= 9) ==>
      (CanBePut(g, r, c, n) <==> GroupsThroughUnique(g, r, c))
  {
    if g[r][c] == 0 && 1 <= n <= 9 {
      RowCheck(g, r, c, n);
      ColumnCheck(g, r, c, n);
      SquareCheck(g, r, c, n);
    }
  }

  /** A digit admitted at (r, c) keeps all 27 groups unique: the groups
      through (r, c) are rechecked, and every other group is untouched. */
  lemma PlacingKeepsGroupsUnique(g: Grid, r: int, c: int, n: int)
    requires 0 <= r < 9 && 0 <= c < 9 && 1 <= n <= 9
    requires AllGroupsUnique(g) && CanBePut(g, r, c, n)
    ensures AllGroupsUnique(Set(g, r, c, n))
  {
    var h := Set(g, r, c, n);
    forall k | 0 <= k < 9
      ensures Line.IsUnique(Row(h, k)) && Line.IsUnique(Column(h, k)) && Square.IsUnique(SquareAt(h, k))
    {
      RowAfterSet(g, r, c, n, k);
      ColumnAfterSet(g, r, c, n, k);
      SquareAfterSet(g, r, c, n, k);
    }
  }

  /** Filling empty cells never repairs a duplicate in a group. */
  lemma GroupsThroughUniqueOfExtension(s: Grid, g: Grid, r: int, c: int)
    requires 0 <= r < 9 && 0 <= c < 9
    requires Extends(s, g) && GroupsThroughUnique(s, r, c)
    ensures GroupsThroughUnique(g, r, c)
  {
    var b := SquareIndex(r, c);
    ExtendsGroups(s, g, r);
    ExtendsGroups(s, g, c);
    ExtendsGroups(s, g, b);
    Line.UniqueOfExtension(Row(s, r), Row(g, r));
    Line.UniqueOfExtension(Column(s, c), Column(g, c));
    Line.UniqueOfExtension(Square.Flatten(SquareAt(s, b)), Square.Flatten(SquareAt(g, b)));
  }

  /** A group through (r, c) that already holds a duplicate rejects every
      number at (r, c). */
  lemma DuplicateBlocksCell(g: Grid, r: int, c: int, n: int)
    requires 0 <= r < 9 && 0 <= c < 9
    requires !GroupsThroughUnique(g, r, c)
    ensures !CanBePut(g, r, c, n)
  {
    CanBePutIffCandidate(g, r, c, n);
  }

  /** The digits d..9 that may be written into (r, c), in ascending order. */
  function NumbersFrom(g: Grid, r: int, c: int, d: int): (s: seq<int>)
    requires 0 <= r < 9 && 0 <= c < 9 && 1 <= d <= 10
    ensures forall i :: 0 <= i < |s| ==> d <= s[i] <= 9 && CanBePut(g, r, c, s[i])
    ensures forall i, j :: 0 <= i < j < |s| ==> s[i] < s[j]
    ensures forall n :: d <= n <= 9 && CanBePut(g, r, c, n) ==> n in s
    decreases 10 - d
  {
    if d == 10 then []
    else
      var rest := NumbersFrom(g, r, c, d + 1);
      if CanBePut(g, r, c, d) then [d] + rest else rest
  }

  /** How many of the digits d..9 may be written into (r, c). */
  function CountFrom(g: Grid, r: int, c: int, d: int): (n: int)
    requires 0 <= r < 9 && 0 <= c < 9 && 1 <= d <= 10
    ensures 0 <= n <= 10 - d
    decreases 10 - d
  {
    if d == 10 then 0
    else (if CanBePut(g, r, c, d) then 1 else 0) + CountFrom(g, r, c, d + 1)
  }

  /** The candidates of cell c: exactly the digits 1..9 that may be written
      there, strictly ascending. */
  function PossibleNumbers(g: Grid, c: Cell): (s: seq<int>)
    requires 0 <= c.row < 9 && 0 <= c.col < 9
    ensures forall i, j :: 0 <= i < j < |s| ==> s[i] < s[j]
    ensures forall n :: n in s <==> 1 <= n <= 9 && CanBePut(g, c.row, c.col, n)
  {
    NumbersFrom(g, c.row, c.col, 1)
  }

  /** The number of candidates of (r, c), a count between 0 and 9. */
  function PossibleNumberAmount(g: Grid, r: int, c: int): (n: int)
    requires 0 <= r < 9 && 0 <= c < 9
    ensures 0 <= n <= 9
  {
    CountFrom(g, r, c, 1)
  }

  lemma {:induction false} CountIsLength(g: Grid, r: int, c: int, d: int)
    requires 0 <= r < 9 && 0 <= c < 9 && 1 <= d <= 10
    ensures CountFrom(g, r, c, d) == |NumbersFrom(g, r, c, d)|
    decreases 10 - d
  {
    if d < 10 {
      CountIsLength(g, r, c, d + 1);
    }
  }

  /** The count of candidates is the length of the candidate list: the two are
      computed by the same loop over 1..9 on the same grid. */
  lemma AmountIsLength(g: Grid, r: int, c: int)
    requires 0 <= r < 9 && 0 <= c < 9
    ensures PossibleNumberAmount(g, r, c) == |PossibleNumbers(g, Cell(r, c))|
  {
    CountIsLength(g, r, c, 1);
  }

  /** Two strictly ascending lists with the same elements are the same list:
      each one's first element is the least element of both. */
  lemma {:induction false} AscendingUnique(s: seq<int>, t: seq<int>)
    requires forall i, j :: 0 <= i < j < |s| ==> s[i] < s[j]
    requires forall i, j :: 0 <= i < j < |t| ==> t[i] < t[j]
    requires forall m :: m in s <==> m in t
    ensures s == t
    decreases |s|
  {
    if |s| > 0 {
      assert s[0] in s && s[0] in t;
    }
    if |t| > 0 {
      assert t[0] in t && t[0] in s;
    }
    if |s| > 0 && |t| > 0 {
      assert s[0] == t[0];
      forall m
        ensures m in s[1..] <==> m in t[1..]
      {
        assert m in s <==> m == s[0] || m in s[1..];
        assert m in t <==> m == t[0] || m in t[1..];
      }
      AscendingUnique(s[1..], t[1..]);
      assert s == [s[0]] + s[1..] && t == [t[0]] + t[1..];
    }
  }

  /** The candidate list is the one strictly ascending list of the digits that
      fit: whichever such list is given, it is the candidate list. */
  lemma CandidatesAre(g: Grid, c: Cell, s: seq<int>)
    requires 0 <= c.row < 9 && 0 <= c.col < 9
    requires forall i, j :: 0 <= i < j < |s| ==> s[i] < s[j]
    requires forall m :: m in s <==> 1 <= m <= 9 && CanBePut(g, c.row, c.col, m)
    ensures PossibleNumbers(g, c) == s
  {
    AscendingUnique(PossibleNumbers(g, c), s);
  }

  /** The selector's result: a candidate count and a cell. */
  datatype Choice = Choice(count: int, cell: Cell)

  /** What the selector starts from, and returns when no cell is empty. */
  const NoChoice := Choice(10, Cell(-1, -1))

  /** (p, q) comes before (i, j) in row-major order. */
  predicate Before(p: int, q: int, i: int, j: int)
  {
    p < i || (p == i && q < j)
  }

  /** What the selector knows after scanning every cell before (i, j): either
      no empty cell was seen and it still holds its start value, or it holds
      the first empty cell seen whose candidate count is the least seen. */
  predicate ScanInv(g: Grid, i: int, j: int, best: Choice)
  {
    if forall p, q :: 0 <= p < 9 && 0 <= q < 9 && Before(p, q, i, j) ==> g[p][q] != 0 then
      best == NoChoice
    else
      var r, c := best.cell.row, best.cell.col;
      0 <= r < 9 && 0 <= c < 9 && Before(r, c, i, j) && g[r][c] == 0 &&
      best.count == PossibleNumberAmount(g, r, c) &&
      (forall p, q :: 0 <= p < 9 && 0 <= q < 9 && Before(p, q, i, j) && g[p][q] == 0 ==>
         best.count <= PossibleNumberAmount(g, p, q)) &&
      (forall p, q :: 0 <= p < 9 && 0 <= q < 9 && Before(p, q, r, c) && g[p][q] == 0 ==>
         best.count < PossibleNumberAmount(g, p, q))
  }

  /** The selector's double loop, from cell (i, j) on: an empty cell replaces
      the best one only when its count is strictly smaller. */
  function Scan(g: Grid, i: int, j: int, best: Choice): (res: Choice)
    requires 0 <= i <= 9 && 0 <= j <= 9 && (i == 9 ==> j == 0)
    requires ScanInv(g, i, j, best)
    ensures ScanInv(g, 9, 0, res)
    decreases 9 - i, 9 - j
  {
    if i == 9 then
      best
    else if j == 9 then
      ScanNextRow(g, i, best);
      Scan(g, i + 1, 0, best)
    else if g[i][j] == 0 && PossibleNumberAmount(g, i, j) < best.count then
      ScanTake(g, i, j, best);
      Scan(g, i, j + 1, Choice(PossibleNumberAmount(g, i, j), Cell(i, j)))
    else
      ScanSkip(g, i, j, best);
      Scan(g, i, j + 1, best)
  }

  /** Moving from the end of row i to the start of row i + 1 passes no cell. */
  lemma ScanNextRow(g: Grid, i: int, best: Choice)
    requires 0 <= i < 9 && ScanInv(g, i, 9, best)
    ensures ScanInv(g, i + 1, 0, best)
  {
    assert forall p, q :: 0 <= q < 9 ==> (Before(p, q, i, 9) <==> Before(p, q, i + 1, 0));
  }

  /** An empty cell with a count below the best one becomes the best. */
  lemma ScanTake(g: Grid, i: int, j: int, best: Choice)
    requires 0 <= i < 9 && 0 <= j < 9 && ScanInv(g, i, j, best)
    requires g[i][j] == 0 && PossibleNumberAmount(g, i, j) < best.count
    ensures ScanInv(g, i, j + 1, Choice(PossibleNumberAmount(g, i, j), Cell(i, j)))
  {
  }

  /** Any other cell leaves the best one in place. */
  lemma ScanSkip(g: Grid, i: int, j: int, best: Choice)
    requires 0 <= i < 9 && 0 <= j < 9 && ScanInv(g, i, j, best)
    requires !(g[i][j] == 0 && PossibleNumberAmount(g, i, j) < best.count)
    ensures ScanInv(g, i, j + 1, best)
  {
  }

  /** The most constrained empty cell. With an empty cell present it returns
      the first empty cell, in row-major order, whose candidate count is the
      least over all empty cells, together with that count (0 for a cell
      that admits nothing). With none, it returns count 10 and cell (-1, -1). */
  function MostNormalizedCell(g: Grid): (res: Choice)
    ensures (forall i, j :: 0 <= i < 9 && 0 <= j < 9 ==> g[i][j] != 0) ==> res == Choice(10, Cell(-1, -1))
    ensures (exists i, j :: 0 <= i < 9 && 0 <= j < 9 && g[i][j] == 0) ==>
      var r, c := res.cell.row, res.cell.col;
      0 <= r < 9 && 0 <= c < 9 && g[r][c] == 0 &&
      res.count == PossibleNumberAmount(g, r, c) &&
      (forall p, q :: 0 <= p < 9 && 0 <= q < 9 && g[p][q] == 0 ==>
         res.count <= PossibleNumberAmount(g, p, q)) &&
      (forall p, q :: 0 <= p < 9 && 0 <= q < 9 && Before(p, q, r, c) && g[p][q] == 0 ==>
         res.count < PossibleNumberAmount(g, p, q))
  {
    Scan(g, 0, 0, NoChoice)
  }

  /** With a single empty cell, the selector returns that cell and its count. */
  lemma SelectsOnlyEmptyCell(g: Grid, r: int, c: int)
    requires 0 <= r < 9 && 0 <= c < 9 && g[r][c] == 0
    requires forall i, j :: 0 <= i < 9 && 0 <= j < 9 && g[i][j] == 0 ==> i == r && j == c
    ensures MostNormalizedCell(g) == Choice(PossibleNumberAmount(g, r, c), Cell(r, c))
  {
    var res := MostNormalizedCell(g);
    assert res.cell.row == r && res.cell.col == c;
  }
}
