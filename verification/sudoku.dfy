/** The Sudoku board: a 9x9 grid of numbers, 0 marking an empty cell, with its
    three kinds of groups (rows, columns, 3x3 squares), the guarded cell
    writer, and the count of empty cells. */
module Sudoku {
  import Line
  import Square

  /** Nine rows of nine numbers. The numbers themselves are not restricted:
      the engine treats anything non-zero as a placed digit. */
  type Grid = g: seq<seq<int>> | |g| == 9 && forall i :: 0 <= i < 9 ==> |g[i]| == 9
    witness seq(9, i => seq(9, j => 0))

  /** A cell reference; the selector uses (-1, -1) for "no cell". */
  datatype Cell = Cell(row: int, col: int)

  /** Both indices lie in 0..8. gosudoku's Go code names its first parameter
      after the column and its second after the row, but the test is
      symmetric. */
  function AreIndexesCorrect(colIndex: int, rowIndex: int): (ok: bool)
    ensures ok <==> 0 <= colIndex <= 8 && 0 <= rowIndex <= 8
  {
    !(colIndex < 0 || colIndex > 8 || rowIndex < 0 || rowIndex > 8)
  }

  /** A digit that may be written into a cell: 1..9. */
  function IsNumberCorrect(number: int): (ok: bool)
    ensures ok <==> 1 <= number <= 9
  {
    !(number < 1 || number > 9)
  }

  /** The grid with cell (r, c) overwritten by v. */
  function Set(g: Grid, r: int, c: int, v: int): (h: Grid)
    requires 0 <= r < 9 && 0 <= c < 9
    ensures h[r][c] == v
    ensures forall i, j :: 0 <= i < 9 && 0 <= j < 9 && (i != r || j != c) ==> h[i][j] == g[i][j]
  {
    g[r := g[r][c := v]]
  }

  /** Writing a cell with the number it already holds changes nothing. */
  lemma SetSame(g: Grid, r: int, c: int)
    requires 0 <= r < 9 && 0 <= c < 9
    ensures Set(g, r, c, g[r][c]) == g
  {
    assert g[r][c := g[r][c]] == g[r];
  }

  /** A second write to the same cell overrides the first. */
  lemma SetTwice(g: Grid, r: int, c: int, a: int, b: int)
    requires 0 <= r < 9 && 0 <= c < 9
    ensures Set(Set(g, r, c, a), r, c, b) == Set(g, r, c, b)
  {
    assert g[r][c := a][c := b] == g[r][c := b];
  }

  /** The guarded writer: writes n into (r, c) when the cell exists and n is a
      digit, and otherwise silently leaves the grid as it is. */
  function AddNumber(g: Grid, r: int, c: int, n: int): (h: Grid)
    ensures 0 <= r <= 8 && 0 <= c <= 8 && 1 <= n <= 9 ==> h[r][c] == n
    ensures !(0 <= r <= 8 && 0 <= c <= 8 && 1 <= n <= 9) ==> h == g
    ensures forall i, j :: 0 <= i < 9 && 0 <= j < 9 && (i != r || j != c) ==> h[i][j] == g[i][j]
  {
    if AreIndexesCorrect(r, c) && IsNumberCorrect(n) then Set(g, r, c, n) else g
  }

  /** Row i, in column order. */
  function Row(g: Grid, i: int): (l: Line.Line)
    requires 0 <= i < 9
    ensures forall k :: 0 <= k < 9 ==> l[k] == g[i][k]
  {
    g[i]
  }

  /** Column j, in row order. */
  function Column(g: Grid, j: int): (l: Line.Line)
    requires 0 <= j < 9
    ensures forall k :: 0 <= k < 9 ==> l[k] == g[k][j]
  {
    seq(9, k requires 0 <= k < 9 => g[k][j])
  }

  /** Square b: gosudoku's Go code starts copying at row 3*floor(b/3) and at column
      (b - that row) * 3, which is 3 * (b mod 3). */
  function SquareAt(g: Grid, b: int): (s: Square.Square)
    requires 0 <= b < 9
    ensures forall y, x :: 0 <= y < 3 && 0 <= x < 3 ==> s[y][x] == g[3 * (b / 3) + y][3 * (b % 3) + x]
  {
    var rowIndex := (b / 3) * 3;
    var colIndex := (b - rowIndex) * 3;
    seq(3, y requires 0 <= y < 3 => seq(3, x requires 0 <= x < 3 => g[rowIndex + y][colIndex + x]))
  }

  /** The index of the square holding cell (r, c). gosudoku floors a float64
      quotient by 3. While the index is exact in a float64 (|r|, |c| < 2^53,
      which covers the indices 0..8 the engine passes), that floor is exactly
      Dafny's integer division by 3; wider indices are not modelled. */
  function SquareIndex(r: int, c: int): (b: int)
    ensures 0 <= r < 9 && 0 <= c < 9 ==> 0 <= b < 9
  {
    3 * (r / 3) + c / 3
  }

  /** Squares tile the grid: cell (r, c) has square index b exactly when it
      lies in the three rows and three columns that square b spans. */
  lemma SquareIndexIff(r: int, c: int, b: int)
    requires 0 <= r < 9 && 0 <= c < 9 && 0 <= b < 9
    ensures SquareIndex(r, c) == b <==>
      3 * (b / 3) <= r < 3 * (b / 3) + 3 && 3 * (b % 3) <= c < 3 * (b % 3) + 3
  {
  }

  /** Every cell appears in its own row at its column, in its own column at
      its row, and in its own square at (r mod 3, c mod 3). */
  lemma CellInItsGroups(g: Grid, r: int, c: int)
    requires 0 <= r < 9 && 0 <= c < 9
    ensures Row(g, r)[c] == g[r][c]
    ensures Column(g, c)[r] == g[r][c]
    ensures SquareAt(g, SquareIndex(r, c))[r % 3][c % 3] == g[r][c]
    ensures Square.Flatten(SquareAt(g, SquareIndex(r, c)))[3 * (r % 3) + c % 3] == g[r][c]
  {
    var b := SquareIndex(r, c);
    DivModThree(r / 3, c / 3);
    assert b / 3 == r / 3 && b % 3 == c / 3;
    assert 3 * (r / 3) + r % 3 == r && 3 * (c / 3) + c % 3 == c;
    assert SquareAt(g, b)[r % 3][c % 3] == g[r][c];
  }

  /** Every row, column and square of the grid is unique. */
  predicate AllGroupsUnique(g: Grid)
  {
    forall k :: 0 <= k < 9 ==>
      Line.IsUnique(Row(g, k)) && Line.IsUnique(Column(g, k)) && Square.IsUnique(SquareAt(g, k))
  }

  /** Writing cell (r, c) changes row r at position c and no other row. */
  lemma RowAfterSet(g: Grid, r: int, c: int, v: int, k: int)
    requires 0 <= r < 9 && 0 <= c < 9 && 0 <= k < 9
    ensures Row(Set(g, r, c, v), k) == if k == r then Row(g, k)[c := v] else Row(g, k)
  {
  }

  /** Writing cell (r, c) changes column c at position r and no other column. */
  lemma ColumnAfterSet(g: Grid, r: int, c: int, v: int, k: int)
    requires 0 <= r < 9 && 0 <= c < 9 && 0 <= k < 9
    ensures Column(Set(g, r, c, v), k) == if k == c then Column(g, k)[r := v] else Column(g, k)
  {
    var h := Set(g, r, c, v);
    if k == c {
      assert forall i :: 0 <= i < 9 ==> Column(h, k)[i] == Column(g, k)[r := v][i];
    } else {
      assert forall i :: 0 <= i < 9 ==> Column(h, k)[i] == Column(g, k)[i];
    }
  }

  /** Writing cell (r, c) changes the square holding it, at row-major position
      3 * (r mod 3) + c mod 3, and no other square. */
  lemma SquareAfterSet(g: Grid, r: int, c: int, v: int, b: int)
    requires 0 <= r < 9 && 0 <= c < 9 && 0 <= b < 9
    ensures Square.Flatten(SquareAt(Set(g, r, c, v), b)) ==
      if b == SquareIndex(r, c) then Square.Flatten(SquareAt(g, b))[3 * (r % 3) + c % 3 := v]
      else Square.Flatten(SquareAt(g, b))
  {
    var fh := Square.Flatten(SquareAt(Set(g, r, c, v), b));
    var fg := Square.Flatten(SquareAt(g, b));
    var expected := if b == SquareIndex(r, c) then fg[3 * (r % 3) + c % 3 := v] else fg;
    forall k | 0 <= k < 9
      ensures fh[k] == expected[k]
    {
      var y, x := k / 3, k % 3;
      assert k == 3 * y + x;
      SquareCellAfterSet(g, r, c, v, b, y, x);
      DivModThree(y, x);
      DivModThree(r % 3, c % 3);
    }
  }

  /** Position 3 * y + x of a row-major 3x3 reading names row y and column
      x. */
  lemma DivModThree(y: int, x: int)
    requires 0 <= x < 3
    ensures (3 * y + x) / 3 == y && (3 * y + x) % 3 == x
  {
  }

  /** One cell of square b after writing (r, c). */
  lemma SquareCellAfterSet(g: Grid, r: int, c: int, v: int, b: int, y: int, x: int)
    requires 0 <= r < 9 && 0 <= c < 9 && 0 <= b < 9 && 0 <= y < 3 && 0 <= x < 3
    ensures Square.Flatten(SquareAt(Set(g, r, c, v), b))[3 * y + x] ==
      if b == SquareIndex(r, c) && y == r % 3 && x == c % 3 then v
      else Square.Flatten(SquareAt(g, b))[3 * y + x]
  {
    var gr, gc := 3 * (b / 3) + y, 3 * (b % 3) + x;
    assert SquareAt(Set(g, r, c, v), b)[y][x] == Set(g, r, c, v)[gr][gc];
    assert SquareAt(g, b)[y][x] == g[gr][gc];
    SquareIndexIff(r, c, b);
    assert gr == r && gc == c <==> b == SquareIndex(r, c) && y == r % 3 && x == c % 3;
  }

  /** `s` keeps every number placed in `g` (it may fill some empty cells). */
  predicate Extends(s: Grid, g: Grid)
  {
    forall i, j :: 0 <= i < 9 && 0 <= j < 9 && g[i][j] != 0 ==> s[i][j] == g[i][j]
  }

  /** Each group of an extension extends the same group of the grid. */
  lemma ExtendsGroups(s: Grid, g: Grid, k: int)
    requires Extends(s, g) && 0 <= k < 9
    ensures Line.Extends(Row(s, k), Row(g, k))
    ensures Line.Extends(Column(s, k), Column(g, k))
    ensures Line.Extends(Square.Flatten(SquareAt(s, k)), Square.Flatten(SquareAt(g, k)))
  {
    var fs := Square.Flatten(SquareAt(s, k));
    var fg := Square.Flatten(SquareAt(g, k));
    forall p | 0 <= p < 9 && fg[p] != 0
      ensures fs[p] == fg[p]
    {
      assert p == 3 * (p / 3) + p % 3;
    }
  }

  /** Erasing numbers from a grid whose groups are all unique keeps them all
      unique. */
  lemma AllGroupsUniqueOfExtension(s: Grid, g: Grid)
    requires Extends(s, g) && AllGroupsUnique(s)
    ensures AllGroupsUnique(g)
  {
    forall k | 0 <= k < 9
      ensures Line.IsUnique(Row(g, k)) && Line.IsUnique(Column(g, k)) && Square.IsUnique(SquareAt(g, k))
    {
      ExtendsGroups(s, g, k);
      Line.UniqueOfExtension(Row(s, k), Row(g, k));
      Line.UniqueOfExtension(Column(s, k), Column(g, k));
      Line.UniqueOfExtension(Square.Flatten(SquareAt(s, k)), Square.Flatten(SquareAt(g, k)));
    }
  }

  /** The empty cells of the grid. */
  function ZeroCells(g: Grid): set<Cell>
  {
    set i, j | 0 <= i < 9 && 0 <= j < 9 && g[i][j] == 0 :: Cell(i, j)
  }

  /** The number of empty cells; it is 0 exactly when the grid is full. */
  function ZeroCount(g: Grid): (n: nat)
    ensures n == 0 <==> forall i, j :: 0 <= i < 9 && 0 <= j < 9 ==> g[i][j] != 0
  {
    EmptyCellCounted(g);
    |ZeroCells(g)|
  }

  /** An empty cell, when there is one, is among the counted cells. */
  lemma EmptyCellCounted(g: Grid)
    ensures (exists i, j :: 0 <= i < 9 && 0 <= j < 9 && g[i][j] == 0) ==> |ZeroCells(g)| > 0
  {
    if exists i, j :: 0 <= i < 9 && 0 <= j < 9 && g[i][j] == 0 {
      var i, j :| 0 <= i < 9 && 0 <= j < 9 && g[i][j] == 0;
      assert Cell(i, j) in ZeroCells(g);
    }
  }

  /** Filling an empty cell with a non-zero number removes exactly one empty
      cell; this is the measure that makes the solver terminate. */
  lemma ZeroCountAfterFilling(g: Grid, r: int, c: int, v: int)
    requires 0 <= r < 9 && 0 <= c < 9 && g[r][c] == 0 && v != 0
    ensures ZeroCount(Set(g, r, c, v)) == ZeroCount(g) - 1
  {
    var h := Set(g, r, c, v);
    assert ZeroCells(h) == ZeroCells(g) - {Cell(r, c)};
    assert Cell(r, c) in ZeroCells(g);
  }

  /** The empty cells met by the row-major scan before reaching (i, j). */
  function ZerosBefore(g: Grid, i: int, j: int): set<Cell>
  {
    set p, q | 0 <= p < 9 && 0 <= q < 9 && (p < i || (p == i && q < j)) && g[p][q] == 0 :: Cell(p, q)
  }

  /** gosudoku's counting loop over all 81 cells. */
  method UnresolvedCellAmount(g: Grid) returns (result: int)
    ensures result == ZeroCount(g)
  {
    result := 0;
    var i := 0;
    while i < 9
      invariant 0 <= i <= 9
      invariant result == |ZerosBefore(g, i, 0)|
    {
      var j := 0;
      while j < 9
        invariant 0 <= j <= 9
        invariant result == |ZerosBefore(g, i, j)|
      {
        if g[i][j] == 0 {
          assert ZerosBefore(g, i, j + 1) == ZerosBefore(g, i, j) + {Cell(i, j)};
          result := result + 1;
        } else {
          assert ZerosBefore(g, i, j + 1) == ZerosBefore(g, i, j);
        }
        j := j + 1;
      }
      assert ZerosBefore(g, i + 1, 0) == ZerosBefore(g, i, 9);
      i := i + 1;
    }
    assert ZerosBefore(g, 9, 0) == ZeroCells(g);
  }
}
