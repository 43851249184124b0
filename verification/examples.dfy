/** The scenarios of the engine's own tests, stated about the model. */
module Examples {
  import Line
  import Square
  import opened Sudoku
  import opened Placement
  import opened Solver

  const Empty: Grid := seq(9, i => seq(9, j => 0))

  /** A grid whose only empty cell (1, 5) sits in a column already holding
      two 9s. */
  const Broken: Grid := [
    [9, 9, 9, 9, 9, 9, 9, 9, 9],
    [1, 2, 3, 4, 5, 0, 6, 7, 8],
    [9, 9, 9, 9, 9, 9, 9, 9, 9],
    [9, 9, 9, 9, 9, 9, 9, 9, 9],
    [9, 9, 9, 9, 9, 9, 9, 9, 9],
    [9, 9, 9, 9, 9, 9, 9, 9, 9],
    [9, 9, 9, 9, 9, 9, 9, 9, 9],
    [9, 9, 9, 9, 9, 9, 9, 9, 9],
    [9, 9, 9, 9, 9, 9, 9, 9, 9]]

  /** A solved Sudoku with cell (2, 2) emptied. */
  const OneMissing: Grid := [
    [2, 4, 8, 3, 9, 5, 7, 1, 6],
    [5, 7, 1, 6, 2, 8, 3, 4, 9],
    [9, 3, 0, 7, 4, 1, 5, 8, 2],
    [6, 8, 2, 5, 3, 9, 1, 7, 4],
    [3, 5, 9, 1, 7, 4, 6, 2, 8],
    [7, 1, 4, 8, 6, 2, 9, 5, 3],
    [8, 6, 3, 4, 1, 7, 2, 9, 5],
    [1, 9, 5, 2, 8, 6, 4, 3, 7],
    [4, 2, 7, 9, 5, 3, 8, 6, 1]]

  /** A puzzle with 8 twice in column 0. */
  const Unsolvable: Grid := [
    [8, 5, 0, 3, 0, 0, 0, 1, 2],
    [0, 0, 0, 0, 0, 0, 5, 0, 0],
    [0, 0, 0, 8, 2, 0, 6, 0, 3],
    [0, 8, 0, 0, 6, 0, 9, 0, 0],
    [0, 4, 0, 7, 0, 2, 0, 8, 0],
    [0, 0, 2, 0, 3, 0, 0, 7, 0],
    [5, 0, 1, 0, 9, 6, 0, 0, 0],
    [0, 0, 7, 0, 0, 0, 0, 0, 0],
    [8, 9, 0, 0, 0, 3, 0, 0, 0]]

  /** The same Sudoku, solved. */
  const Completed: Grid := [
    [2, 4, 8, 3, 9, 5, 7, 1, 6],
    [5, 7, 1, 6, 2, 8, 3, 4, 9],
    [9, 3, 6, 7, 4, 1, 5, 8, 2],
    [6, 8, 2, 5, 3, 9, 1, 7, 4],
    [3, 5, 9, 1, 7, 4, 6, 2, 8],
    [7, 1, 4, 8, 6, 2, 9, 5, 3],
    [8, 6, 3, 4, 1, 7, 2, 9, 5],
    [1, 9, 5, 2, 8, 6, 4, 3, 7],
    [4, 2, 7, 9, 5, 3, 8, 6, 1]]

  /** The index and digit validators accept exactly 0..8 and 1..9. */
  lemma ValidatorExamples()
    ensures AreIndexesCorrect(0, 0) && AreIndexesCorrect(8, 8) && AreIndexesCorrect(5, 5)
    ensures !AreIndexesCorrect(-1, 0) && !AreIndexesCorrect(9, 0) && !AreIndexesCorrect(0, -1)
    ensures !AreIndexesCorrect(0, 9) && !AreIndexesCorrect(-1, -1) && !AreIndexesCorrect(9, 9)
    ensures IsNumberCorrect(1) && IsNumberCorrect(9) && IsNumberCorrect(5)
    ensures !IsNumberCorrect(0) && !IsNumberCorrect(10)
  {
  }

  /** Square indices of a few cells. */
  lemma SquareIndexExamples()
    ensures SquareIndex(1, 1) == 0 && SquareIndex(1, 5) == 1
    ensures SquareIndex(5, 3) == 4 && SquareIndex(8, 8) == 8
  {
  }

  /** Three guarded writes into the empty grid fill exactly those three
      cells. */
  lemma AddNumberExample()
    ensures var g := AddNumber(AddNumber(AddNumber(Empty, 0, 0, 5), 8, 8, 8), 5, 5, 3);
      g[0][0] == 5 && g[8][8] == 8 && g[5][5] == 3 &&
      forall i, j :: 0 <= i < 9 && 0 <= j < 9 && !(i == j && (i == 0 || i == 5 || i == 8)) ==> g[i][j] == 0
  {
  }

  /** Column 5 after writing 1, 2, 3 into its rows 0, 3, 8. */
  lemma ColumnExample()
    ensures Column(AddNumber(AddNumber(AddNumber(Empty, 0, 5, 1), 3, 5, 2), 8, 5, 3), 5) ==
      [1, 0, 0, 2, 0, 0, 0, 0, 3]
  {
  }

  /** Row 2 after writing 5, 3, 4 into its columns 0, 5, 8. */
  lemma RowExample()
    ensures Row(AddNumber(AddNumber(AddNumber(Empty, 2, 0, 5), 2, 5, 3), 2, 8, 4), 2) ==
      [5, 0, 0, 0, 0, 3, 0, 0, 4]
  {
  }

  /** Square 5 after writing 1, 2, 3 into cells (3, 6), (3, 8), (5, 7). */
  lemma SquareExample()
    ensures SquareAt(AddNumber(AddNumber(AddNumber(Empty, 3, 6, 1), 3, 8, 2), 5, 7, 3), 5) ==
      [[1, 0, 2], [0, 0, 0], [0, 3, 0]]
  {
    var s := SquareAt(AddNumber(AddNumber(AddNumber(Empty, 3, 6, 1), 3, 8, 2), 5, 7, 3), 5);
    assert s[0] == [1, 0, 2] && s[1] == [0, 0, 0] && s[2] == [0, 3, 0];
  }

  /** The grid of a gosudoku test: the top-left square full except for its
      centre, which is missing 5. */
  const CentreMissing: Grid := [
    [1, 2, 3, 0, 0, 0, 0, 0, 0],
    [4, 0, 6, 0, 0, 0, 0, 0, 0],
    [7, 8, 9, 0, 0, 0, 0, 0, 0],
    [0, 0, 0, 0, 0, 0, 0, 0, 0],
    [0, 0, 0, 0, 0, 0, 0, 0, 0],
    [0, 0, 0, 0, 0, 0, 0, 0, 0],
    [0, 0, 0, 0, 0, 0, 0, 0, 0],
    [0, 0, 0, 0, 0, 0, 0, 0, 0],
    [0, 0, 0, 0, 0, 0, 0, 0, 0]]

  /** The row, column and square through the centre (1, 1) are unique. */
  lemma CentreMissingGroups()
    ensures GroupsThroughUnique(CentreMissing, 1, 1)
  {
    assert Row(CentreMissing, 1) == [4, 0, 6, 0, 0, 0, 0, 0, 0];
    ColumnReads(CentreMissing, 1, [2, 0, 8, 0, 0, 0, 0, 0, 0]);
    SquareReads(CentreMissing, 0, [1, 2, 3, 4, 0, 6, 7, 8, 9]);
  }

  /** 5 may be written into the centre. */
  lemma CanBePutAcceptsExample()
    ensures CanBePut(CentreMissing, 1, 1, 5)
  {
    CentreMissingGroups();
    assert forall p, q :: 0 <= p < 9 && 0 <= q < 9 ==> CentreMissing[p][q] != 5;
    CanBePutIffCandidate(CentreMissing, 1, 1, 5);
  }

  /** A digit already in the square, the row or the column of an empty cell
      is refused there, and an occupied cell refuses everything. */
  lemma CanBePutExamples()
    ensures !CanBePut(AddNumber(Empty, 0, 0, 1), 2, 2, 1)
    ensures !CanBePut(AddNumber(Empty, 3, 3, 3), 3, 8, 3)
    ensures !CanBePut(AddNumber(Empty, 4, 2, 1), 7, 2, 1)
    ensures !CanBePut(AddNumber(Empty, 0, 0, 1), 0, 0, 2)
  {
    CanBePutIffCandidate(AddNumber(Empty, 0, 0, 1), 2, 2, 1);
    CanBePutIffCandidate(AddNumber(Empty, 3, 3, 3), 3, 8, 3);
    CanBePutIffCandidate(AddNumber(Empty, 4, 2, 1), 7, 2, 1);
  }

  /** The grid of a gosudoku test: row 0 holds 1..8 in columns 0..7, so its
      last cell admits only 9. */
  const EightInRow: Grid := [
    [1, 2, 3, 4, 5, 6, 7, 8, 0],
    [0, 0, 0, 0, 0, 0, 0, 0, 0],
    [0, 0, 0, 0, 0, 0, 0, 0, 0],
    [0, 0, 0, 0, 0, 0, 0, 0, 0],
    [0, 0, 0, 0, 0, 0, 0, 0, 0],
    [0, 0, 0, 0, 0, 0, 0, 0, 0],
    [0, 0, 0, 0, 0, 0, 0, 0, 0],
    [0, 0, 0, 0, 0, 0, 0, 0, 0],
    [0, 0, 0, 0, 0, 0, 0, 0, 0]]

  /** The grid of a gosudoku test: column 0 holds 1..4 and row 4 holds 5 and 6,
      so cell (4, 0) admits 7, 8 and 9. */
  const ThreeLeft: Grid := [
    [1, 0, 0, 0, 0, 0, 0, 0, 0],
    [2, 0, 0, 0, 0, 0, 0, 0, 0],
    [3, 0, 0, 0, 0, 0, 0, 0, 0],
    [4, 0, 0, 0, 0, 0, 0, 0, 0],
    [0, 0, 0, 0, 0, 5, 6, 0, 0],
    [0, 0, 0, 0, 0, 0, 0, 0, 0],
    [0, 0, 0, 0, 0, 0, 0, 0, 0],
    [0, 0, 0, 0, 0, 0, 0, 0, 0],
    [0, 0, 0, 0, 0, 0, 0, 0, 0]]

  /** The row, column and square through (0, 8) of the first grid are
      unique. */
  lemma EightInRowGroups()
    ensures GroupsThroughUnique(EightInRow, 0, 8)
  {
    assert Row(EightInRow, 0) == [1, 2, 3, 4, 5, 6, 7, 8, 0];
    ColumnReads(EightInRow, 8, [0, 0, 0, 0, 0, 0, 0, 0, 0]);
    SquareReads(EightInRow, 2, [7, 8, 0, 0, 0, 0, 0, 0, 0]);
  }

  /** The first grid holds no 9 at all. */
  lemma EightInRowNoNine()
    ensures DigitAbsent(EightInRow, 0, 8, 9)
  {
    assert forall p, q :: 0 <= p < 9 && 0 <= q < 9 ==> EightInRow[p][q] != 9;
  }

  /** Each digit up to 8 is already in row 0 of the first grid. */
  lemma EightInRowLowPresent(n: int)
    requires 1 <= n <= 8
    ensures !DigitAbsent(EightInRow, 0, 8, n)
  {
    assert EightInRow[0][n - 1] == n;
  }

  /** Cell (0, 8) of the first grid admits 9 and nothing else. */
  lemma EightInRowFits(n: int)
    requires 1 <= n <= 9
    ensures CanBePut(EightInRow, 0, 8, n) <==> n == 9
  {
    EightInRowGroups();
    CanBePutIffCandidate(EightInRow, 0, 8, n);
    if n == 9 {
      EightInRowNoNine();
    } else {
      EightInRowLowPresent(n);
    }
  }

  /** So its candidate count is 1. */
  lemma EightInRowAmount()
    ensures PossibleNumberAmount(EightInRow, 0, 8) == 1
  {
    forall n | 1 <= n <= 9
      ensures CanBePut(EightInRow, 0, 8, n) <==> n == 9
    {
      EightInRowFits(n);
    }
    CandidatesAre(EightInRow, Cell(0, 8), [9]);
    AmountIsLength(EightInRow, 0, 8);
  }

  /** The row, column and square through (4, 0) of the second grid are
      unique. */
  lemma ThreeLeftGroups()
    ensures GroupsThroughUnique(ThreeLeft, 4, 0)
  {
    assert Row(ThreeLeft, 4) == [0, 0, 0, 0, 0, 5, 6, 0, 0];
    ColumnReads(ThreeLeft, 0, [1, 2, 3, 4, 0, 0, 0, 0, 0]);
    SquareReads(ThreeLeft, 3, [4, 0, 0, 0, 0, 0, 0, 0, 0]);
  }

  /** The second grid holds no digit above 6. */
  lemma ThreeLeftNoHigh(n: int)
    requires 7 <= n <= 9
    ensures DigitAbsent(ThreeLeft, 4, 0, n)
  {
    assert forall p, q :: 0 <= p < 9 && 0 <= q < 9 ==> ThreeLeft[p][q] <= 6;
  }

  /** Each digit up to 6 is already in column 0 or row 4 of the second grid. */
  lemma ThreeLeftLowPresent(n: int)
    requires 1 <= n <= 6
    ensures !DigitAbsent(ThreeLeft, 4, 0, n)
  {
    if n <= 4 {
      assert ThreeLeft[n - 1][0] == n;
    } else {
      assert ThreeLeft[4][n] == n;
    }
  }

  /** Cell (4, 0) of the second grid admits exactly 7, 8 and 9. */
  lemma ThreeLeftFits(n: int)
    requires 1 <= n <= 9
    ensures CanBePut(ThreeLeft, 4, 0, n) <==> 7 <= n
  {
    ThreeLeftGroups();
    CanBePutIffCandidate(ThreeLeft, 4, 0, n);
    if 7 <= n {
      ThreeLeftNoHigh(n);
    } else {
      ThreeLeftLowPresent(n);
    }
  }

  /** So its candidate count is 3. */
  lemma ThreeLeftAmount()
    ensures PossibleNumberAmount(ThreeLeft, 4, 0) == 3
  {
    forall n | 1 <= n <= 9
      ensures CanBePut(ThreeLeft, 4, 0, n) <==> 7 <= n
    {
      ThreeLeftFits(n);
    }
    CandidatesAre(ThreeLeft, Cell(4, 0), [7, 8, 9]);
    AmountIsLength(ThreeLeft, 4, 0);
  }

  /** The groups of the empty grid are unique. */
  lemma EmptyGroupsUnique(p: int, q: int)
    requires 0 <= p < 9 && 0 <= q < 9
    ensures GroupsThroughUnique(Empty, p, q)
  {
    var f := Square.Flatten(SquareAt(Empty, SquareIndex(p, q)));
    forall k | 0 <= k < 9
      ensures f[k] == 0
    {
      LineCellInBlock(Empty, p, q, k);
    }
  }

  /** Every digit fits every cell of the empty grid. */
  lemma EmptyGridAccepts(p: int, q: int, n: int)
    requires 0 <= p < 9 && 0 <= q < 9 && 1 <= n <= 9
    ensures CanBePut(Empty, p, q, n)
  {
    EmptyGroupsUnique(p, q);
    assert DigitAbsent(Empty, p, q, n);
    CanBePutIffCandidate(Empty, p, q, n);
  }

  /** On the empty grid every cell admits all nine digits. */
  lemma EmptyGridAmount(p: int, q: int)
    requires 0 <= p < 9 && 0 <= q < 9
    ensures PossibleNumberAmount(Empty, p, q) == 9
  {
    var s := PossibleNumbers(Empty, Cell(p, q));
    forall n | 1 <= n <= 9
      ensures n in s
    {
      EmptyGridAccepts(p, q, n);
    }
    AmountIsLength(Empty, p, q);
    DigitsListLength(s);
  }

  /** So the selector returns the first cell, with count 9. */
  lemma EmptyGridSelection()
    ensures MostNormalizedCell(Empty) == Choice(9, Cell(0, 0))
  {
    var res := MostNormalizedCell(Empty);
    assert Empty[0][0] == 0;
    EmptyGridAmount(0, 0);
    EmptyGridAmount(res.cell.row, res.cell.col);
  }

  /** A strictly ascending list of digits holding all of 1..9 has length 9. */
  lemma DigitsListLength(s: seq<int>)
    requires forall i, j :: 0 <= i < j < |s| ==> s[i] < s[j]
    requires forall n :: n in s <==> 1 <= n <= 9
    ensures |s| == 9
  {
    var k := 0;
    while k < |s|
      invariant 0 <= k <= |s|
      invariant forall i :: 0 <= i < k ==> s[i] == i + 1
    {
      assert s[k] in s;
      if k > 0 {
        assert s[k - 1] < s[k];
      }
      assert k + 1 <= s[k] <= 9;
      assert k + 1 in s;
      var m :| 0 <= m < |s| && s[m] == k + 1;
      assert m == k;
      k := k + 1;
    }
    assert 9 in s;
    var m :| 0 <= m < |s| && s[m] == 9;
    assert s[|s| - 1] in s;
  }

  /** (1, 5) is the only empty cell of the broken grid. */
  lemma BrokenOnlyEmpty(i: int, j: int)
    requires 0 <= i < 9 && 0 <= j < 9 && Broken[i][j] == 0
    ensures i == 1 && j == 5
  {
  }

  /** Column 5 of the broken grid holds 9 twice, so (1, 5) admits nothing. */
  lemma BrokenAmount()
    ensures PossibleNumberAmount(Broken, 1, 5) == 0
  {
    var col := Column(Broken, 5);
    assert col[0] == 9 && col[2] == 9;
    Line.RepeatBreaksUnique(col, 0, 2);
    var s := PossibleNumbers(Broken, Cell(1, 5));
    forall n | n in s
      ensures false
    {
      DuplicateBlocksCell(Broken, 1, 5, n);
    }
    AmountIsLength(Broken, 1, 5);
  }

  /** The only empty cell of the broken grid admits nothing, and the selector
      surfaces it with count 0 instead of skipping it. */
  lemma BrokenGridSelection()
    ensures MostNormalizedCell(Broken) == Choice(0, Cell(1, 5))
  {
    forall i, j | 0 <= i < 9 && 0 <= j < 9 && Broken[i][j] == 0
      ensures i == 1 && j == 5
    {
      BrokenOnlyEmpty(i, j);
    }
    SelectsOnlyEmptyCell(Broken, 1, 5);
    BrokenAmount();
  }

  /** (2, 2) is the only empty cell of the grid with one missing digit. */
  lemma OneMissingOnlyEmpty(i: int, j: int)
    requires 0 <= i < 9 && 0 <= j < 9 && OneMissing[i][j] == 0
    ensures i == 2 && j == 2
  {
  }

  /** The row, column and square through (2, 2) are unique. */
  lemma OneMissingGroups()
    ensures GroupsThroughUnique(OneMissing, 2, 2)
  {
    assert Row(OneMissing, 2) == [9, 3, 0, 7, 4, 1, 5, 8, 2];
    ColumnReads(OneMissing, 2, [8, 1, 0, 2, 9, 4, 3, 5, 7]);
    SquareReads(OneMissing, 0, [2, 4, 8, 5, 7, 1, 9, 3, 0]);
  }

  /** Row 2 holds every digit but 6. */
  lemma OneMissingRowHolds(n: int)
    requires 1 <= n <= 9 && n != 6
    ensures !DigitAbsent(OneMissing, 2, 2, n)
  {
    var row := [9, 3, 0, 7, 4, 1, 5, 8, 2];
    assert OneMissing[2] == row;
    var k := if n == 9 then 0 else if n == 3 then 1 else if n == 7 then 3 else if n == 4 then 4
      else if n == 1 then 5 else if n == 5 then 6 else if n == 8 then 7 else 8;
    assert OneMissing[2][k] == n;
  }

  /** 6 is in neither row 2, column 2 nor the top-left square. */
  lemma OneMissingSixAbsent()
    ensures DigitAbsent(OneMissing, 2, 2, 6)
  {
    var g := OneMissing;
    forall p, q | 0 <= p < 9 && 0 <= q < 9 && p / 3 == 0 && q / 3 == 0
      ensures g[p][q] != 6
    {
      assert 0 <= p < 3 && 0 <= q < 3;
    }
  }

  /** Cell (2, 2) admits 6 and nothing else. */
  lemma OneMissingAccepts(n: int)
    requires 1 <= n <= 9
    ensures CanBePut(OneMissing, 2, 2, n) <==> n == 6
  {
    OneMissingGroups();
    CanBePutIffCandidate(OneMissing, 2, 2, n);
    if n == 6 {
      OneMissingSixAbsent();
    } else {
      OneMissingRowHolds(n);
    }
  }

  /** So the candidate list of (2, 2) is [6]. */
  lemma OneMissingCandidates()
    ensures PossibleNumbers(OneMissing, Cell(2, 2)) == [6]
  {
    forall n | 1 <= n <= 9
      ensures CanBePut(OneMissing, 2, 2, n) <==> n == 6
    {
      OneMissingAccepts(n);
    }
    CandidatesAre(OneMissing, Cell(2, 2), [6]);
  }

  /** The selector picks (2, 2) with its single candidate. */
  lemma OneMissingSelection()
    ensures MostNormalizedCell(OneMissing) == Choice(1, Cell(2, 2))
  {
    forall i, j | 0 <= i < 9 && 0 <= j < 9 && OneMissing[i][j] == 0
      ensures i == 2 && j == 2
    {
      OneMissingOnlyEmpty(i, j);
    }
    SelectsOnlyEmptyCell(OneMissing, 2, 2);
    OneMissingCandidates();
    AmountIsLength(OneMissing, 2, 2);
  }

  /** Writing 6 into (2, 2) completes the grid. */
  lemma OneMissingFilled()
    ensures Set(OneMissing, 2, 2, 6) == Completed
  {
    assert OneMissing[2][2 := 6] == Completed[2];
  }

  /** The completed grid is already solved. */
  lemma CompletedResolve()
    ensures Resolve(Completed) == Outcome(true, Completed)
  {
    assert ZeroCount(Completed) == 0;
  }

  /** The candidate loop at (2, 2) tries 6, and the recursive call on the
      filled grid succeeds at once. */
  lemma OneMissingTries()
    ensures Set(OneMissing, 2, 2, 0) == OneMissing && PossibleNumbers(OneMissing, Cell(2, 2)) == [6] &&
      TryCandidates(OneMissing, Cell(2, 2), [6], 0, 1) == Outcome(true, Completed)
  {
    SetSame(OneMissing, 2, 2);
    OneMissingCandidates();
    OneMissingFilled();
    CompletedResolve();
  }

  /** Solving the grid with one missing digit succeeds and writes 6 into
      (2, 2). */
  lemma OneMissingResolve()
    ensures Resolve(OneMissing) == Outcome(true, Completed)
  {
    assert OneMissing[2][2] == 0;
    OneMissingSelection();
    OneMissingTries();
  }

  /** The puzzle with a repeated 8 in column 0 cannot be solved: the empty
      cell (1, 0) can never be filled. The grid is handed back unchanged. */
  lemma UnsolvableResolve()
    ensures Resolve(Unsolvable) == Outcome(false, Unsolvable)
  {
    var col := Column(Unsolvable, 0);
    assert col[0] == 8 && col[8] == 8;
    Line.RepeatBreaksUnique(col, 0, 8);
    assert Unsolvable[1][0] == 0;
    StuckCellBlocksResolve(Unsolvable, 1, 0);
  }

  /** Each row of the top band of the completed grid is unique. */
  lemma CompletedTopRows(k: int)
    requires 0 <= k < 3
    ensures Line.IsUnique(Row(Completed, k))
  {
    if k == 0 {
      assert Row(Completed, 0) == [2, 4, 8, 3, 9, 5, 7, 1, 6];
    } else if k == 1 {
      assert Row(Completed, 1) == [5, 7, 1, 6, 2, 8, 3, 4, 9];
    } else {
      assert Row(Completed, 2) == [9, 3, 6, 7, 4, 1, 5, 8, 2];
    }
  }

  /** Each row of the middle band of the completed grid is unique. */
  lemma CompletedMiddleRows(k: int)
    requires 3 <= k < 6
    ensures Line.IsUnique(Row(Completed, k))
  {
    if k == 3 {
      assert Row(Completed, 3) == [6, 8, 2, 5, 3, 9, 1, 7, 4];
    } else if k == 4 {
      assert Row(Completed, 4) == [3, 5, 9, 1, 7, 4, 6, 2, 8];
    } else {
      assert Row(Completed, 5) == [7, 1, 4, 8, 6, 2, 9, 5, 3];
    }
  }

  /** Each row of the bottom band of the completed grid is unique. */
  lemma CompletedBottomRows(k: int)
    requires 6 <= k < 9
    ensures Line.IsUnique(Row(Completed, k))
  {
    if k == 6 {
      assert Row(Completed, 6) == [8, 6, 3, 4, 1, 7, 2, 9, 5];
    } else if k == 7 {
      assert Row(Completed, 7) == [1, 9, 5, 2, 8, 6, 4, 3, 7];
    } else {
      assert Row(Completed, 8) == [4, 2, 7, 9, 5, 3, 8, 6, 1];
    }
  }

  /** Column k of g is unique when its nine cells, read top to bottom, form
      a unique line. */
  lemma ColumnReads(g: Grid, k: int, l: Line.Line)
    requires 0 <= k < 9
    requires l == [g[0][k], g[1][k], g[2][k], g[3][k], g[4][k], g[5][k], g[6][k], g[7][k], g[8][k]]
    requires Line.IsUnique(l)
    ensures Line.IsUnique(Column(g, k))
  {
    assert Column(g, k) == l;
  }

  /** Square b of g is unique when its row-major reading is a unique
      line. */
  lemma SquareReads(g: Grid, b: int, l: Line.Line)
    requires 0 <= b < 9
    requires var r, c := 3 * (b / 3), 3 * (b % 3);
      l == [g[r][c], g[r][c + 1], g[r][c + 2], g[r + 1][c], g[r + 1][c + 1], g[r + 1][c + 2],
            g[r + 2][c], g[r + 2][c + 1], g[r + 2][c + 2]]
    requires Line.IsUnique(l)
    ensures Square.IsUnique(SquareAt(g, b))
  {
    var s := SquareAt(g, b);
    var f := Square.Flatten(s);
    forall p | 0 <= p < 9
      ensures f[p] == l[p]
    {
      var y, x := p / 3, p % 3;
      assert p == 3 * y + x;
      assert f[3 * y + x] == s[y][x];
    }
    assert f == l;
  }

  /** Each column of the left stack of the completed grid is unique. */
  lemma CompletedLeftColumns(k: int)
    requires 0 <= k < 3
    ensures Line.IsUnique(Column(Completed, k))
  {
    if k == 0 {
      ColumnReads(Completed, 0, [2, 5, 9, 6, 3, 7, 8, 1, 4]);
    } else if k == 1 {
      ColumnReads(Completed, 1, [4, 7, 3, 8, 5, 1, 6, 9, 2]);
    } else {
      ColumnReads(Completed, 2, [8, 1, 6, 2, 9, 4, 3, 5, 7]);
    }
  }

  /** Each column of the middle stack of the completed grid is unique. */
  lemma CompletedMiddleColumns(k: int)
    requires 3 <= k < 6
    ensures Line.IsUnique(Column(Completed, k))
  {
    if k == 3 {
      ColumnReads(Completed, 3, [3, 6, 7, 5, 1, 8, 4, 2, 9]);
    } else if k == 4 {
      ColumnReads(Completed, 4, [9, 2, 4, 3, 7, 6, 1, 8, 5]);
    } else {
      ColumnReads(Completed, 5, [5, 8, 1, 9, 4, 2, 7, 6, 3]);
    }
  }

  /** Each column of the right stack of the completed grid is unique. */
  lemma CompletedRightColumns(k: int)
    requires 6 <= k < 9
    ensures Line.IsUnique(Column(Completed, k))
  {
    if k == 6 {
      ColumnReads(Completed, 6, [7, 3, 5, 1, 6, 9, 2, 4, 8]);
    } else if k == 7 {
      ColumnReads(Completed, 7, [1, 4, 8, 7, 2, 5, 9, 3, 6]);
    } else {
      ColumnReads(Completed, 8, [6, 9, 2, 4, 8, 3, 5, 7, 1]);
    }
  }

  /** Each square of the top band of the completed grid is unique. */
  lemma CompletedTopSquares(k: int)
    requires 0 <= k < 3
    ensures Square.IsUnique(SquareAt(Completed, k))
  {
    if k == 0 {
      SquareReads(Completed, 0, [2, 4, 8, 5, 7, 1, 9, 3, 6]);
    } else if k == 1 {
      SquareReads(Completed, 1, [3, 9, 5, 6, 2, 8, 7, 4, 1]);
    } else {
      SquareReads(Completed, 2, [7, 1, 6, 3, 4, 9, 5, 8, 2]);
    }
  }

  /** Each square of the middle band of the completed grid is unique. */
  lemma CompletedMiddleSquares(k: int)
    requires 3 <= k < 6
    ensures Square.IsUnique(SquareAt(Completed, k))
  {
    if k == 3 {
      SquareReads(Completed, 3, [6, 8, 2, 3, 5, 9, 7, 1, 4]);
    } else if k == 4 {
      SquareReads(Completed, 4, [5, 3, 9, 1, 7, 4, 8, 6, 2]);
    } else {
      SquareReads(Completed, 5, [1, 7, 4, 6, 2, 8, 9, 5, 3]);
    }
  }

  /** Each square of the bottom band of the completed grid is unique. */
  lemma CompletedBottomSquares(k: int)
    requires 6 <= k < 9
    ensures Square.IsUnique(SquareAt(Completed, k))
  {
    if k == 6 {
      SquareReads(Completed, 6, [8, 6, 3, 1, 9, 5, 4, 2, 7]);
    } else if k == 7 {
      SquareReads(Completed, 7, [4, 1, 7, 2, 8, 6, 9, 5, 3]);
    } else {
      SquareReads(Completed, 8, [2, 9, 5, 4, 3, 7, 8, 6, 1]);
    }
  }

  /** The completed grid is a solution. */
  lemma CompletedSolved()
    ensures Solved(Completed)
  {
    forall k | 0 <= k < 9
      ensures Line.IsUnique(Row(Completed, k)) && Line.IsUnique(Column(Completed, k)) &&
        Square.IsUnique(SquareAt(Completed, k))
    {
      if k < 3 {
        CompletedTopRows(k);
        CompletedLeftColumns(k);
        CompletedTopSquares(k);
      } else if k < 6 {
        CompletedMiddleRows(k);
        CompletedMiddleColumns(k);
        CompletedMiddleSquares(k);
      } else {
        CompletedBottomRows(k);
        CompletedRightColumns(k);
        CompletedBottomSquares(k);
      }
    }
  }

  /** Every group of the empty grid is unique: all its numbers are 0. */
  lemma EmptyAllGroupsUnique()
    ensures AllGroupsUnique(Empty)
  {
    forall k | 0 <= k < 9
      ensures Line.IsUnique(Row(Empty, k)) && Line.IsUnique(Column(Empty, k)) && Square.IsUnique(SquareAt(Empty, k))
    {
      var f := Square.Flatten(SquareAt(Empty, k));
      forall p | 0 <= p < 9
        ensures f[p] == 0
      {
        var y, x := p / 3, p % 3;
        assert p == 3 * y + x;
      }
    }
  }

  /** The search succeeds on the empty grid, and what it returns is a
      solution. */
  lemma EmptyResolve()
    ensures Resolve(Empty).solved && Solved(Resolve(Empty).grid)
  {
    CompletedSolved();
    EmptyAllGroupsUnique();
    assert Extends(Completed, Empty);
    ResolveSucceedsIffSolvable(Empty);
  }
}
