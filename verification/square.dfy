/** A 3x3 square of a Sudoku grid. Its uniqueness is decided by reading it
    row-major into a line and asking the line. */
module Square {
  import Line

  /** Three rows of three numbers. */
  type Square = s: seq<seq<int>> | |s| == 3 && forall i :: 0 <= i < 3 ==> |s[i]| == 3
    witness [[0, 0, 0], [0, 0, 0], [0, 0, 0]]

  /** The row-major reading of a square. */
  function Flatten(s: Square): (l: Line.Line)
    ensures forall i, j :: 0 <= i < 3 && 0 <= j < 3 ==> l[3 * i + j] == s[i][j]
  {
    s[0] + s[1] + s[2]
  }

  /** A square is unique when its row-major line is. The reading order does
      not matter: it is unique exactly when no two different cells hold the
      same non-zero number, whether they share a row, a column, or neither. */
  function IsUnique(s: Square): (b: bool)
    ensures b <==>
      forall i1, j1, i2, j2 ::
        0 <= i1 < 3 && 0 <= j1 < 3 && 0 <= i2 < 3 && 0 <= j2 < 3 &&
        (i1 != i2 || j1 != j2) && s[i1][j1] != 0
        ==> s[i1][j1] != s[i2][j2]
  {
    UniqueIffNoRepeatedCell(s);
    Line.IsUnique(Flatten(s))
  }

  /** The row-major line of a square is unique exactly when no two different
      cells of the square hold the same non-zero number. */
  lemma UniqueIffNoRepeatedCell(s: Square)
    ensures Line.IsUnique(Flatten(s)) <==>
      forall i1, j1, i2, j2 ::
        0 <= i1 < 3 && 0 <= j1 < 3 && 0 <= i2 < 3 && 0 <= j2 < 3 &&
        (i1 != i2 || j1 != j2) && s[i1][j1] != 0
        ==> s[i1][j1] != s[i2][j2]
  {
    var l := Flatten(s);
    Line.UniqueIffNonZeroDistinct(l);
    if Line.IsUnique(l) {
      forall i1, j1, i2, j2 |
        0 <= i1 < 3 && 0 <= j1 < 3 && 0 <= i2 < 3 && 0 <= j2 < 3 &&
        (i1 != i2 || j1 != j2) && s[i1][j1] != 0
        ensures s[i1][j1] != s[i2][j2]
      {
        assert l[3 * i1 + j1] == s[i1][j1] && l[3 * i2 + j2] == s[i2][j2];
      }
    } else {
      var p, q :| 0 <= p < 9 && 0 <= q < 9 && p != q && l[p] != 0 && l[p] == l[q];
      assert p == 3 * (p / 3) + p % 3 && q == 3 * (q / 3) + q % 3;
      assert s[p / 3][p % 3] != 0 && s[p / 3][p % 3] == s[q / 3][q % 3];
      assert p / 3 != q / 3 || p % 3 != q % 3;
    }
  }

  /** A gosudoku test case: all nine digits form a unique square. */
  lemma DigitsSquareExample()
    ensures IsUnique([[1, 2, 3], [4, 5, 6], [7, 8, 9]])
  {
    var a: Square := [[1, 2, 3], [4, 5, 6], [7, 8, 9]];
    assert Flatten(a) == [1, 2, 3, 4, 5, 6, 7, 8, 9];
    assert Line.IsUnique(Flatten(a));
  }

  /** A gosudoku test case: an all-zero square is unique. */
  lemma ZeroSquareExample()
    ensures IsUnique([[0, 0, 0], [0, 0, 0], [0, 0, 0]])
  {
    var b: Square := [[0, 0, 0], [0, 0, 0], [0, 0, 0]];
    assert Flatten(b) == [0, 0, 0, 0, 0, 0, 0, 0, 0];
    assert Line.IsUnique(Flatten(b));
  }

  /** A gosudoku test case: zeros mixed with distinct digits. */
  lemma MixedSquareExample()
    ensures IsUnique([[0, 0, 0], [0, 1, 0], [0, 3, 2]])
  {
    var c: Square := [[0, 0, 0], [0, 1, 0], [0, 3, 2]];
    assert Flatten(c) == [0, 0, 0, 0, 1, 0, 0, 3, 2];
    assert Line.IsUnique(Flatten(c));
  }

  /** A gosudoku test case: a repeat within one row of a square. */
  lemma RowRepeatExample()
    ensures !IsUnique([[0, 0, 0], [1, 0, 1], [0, 0, 0]])
  {
    var a: Square := [[0, 0, 0], [1, 0, 1], [0, 0, 0]];
    Line.RepeatBreaksUnique(Flatten(a), 3, 5);
  }

  /** A gosudoku test case: a repeat within one column of a square. */
  lemma ColumnRepeatExample()
    ensures !IsUnique([[1, 0, 0], [0, 0, 0], [1, 0, 0]])
  {
    var b: Square := [[1, 0, 0], [0, 0, 0], [1, 0, 0]];
    Line.RepeatBreaksUnique(Flatten(b), 0, 6);
  }

  /** A gosudoku test case: a repeat in opposite corners of a square. */
  lemma CornerRepeatExample()
    ensures !IsUnique([[1, 0, 0], [0, 2, 0], [0, 0, 1]])
  {
    var c: Square := [[1, 0, 0], [0, 2, 0], [0, 0, 1]];
    Line.RepeatBreaksUnique(Flatten(c), 0, 8);
  }
}
