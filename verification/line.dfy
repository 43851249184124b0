/** A line is any group of nine cells of a Sudoku grid (a row, a column, or a
    3x3 square read row-major). The only question ever asked of a line is
    whether its placed digits are pairwise distinct; 0 marks an empty cell and
    never takes part in a conflict. */
module Line {

  /** The nine numbers of a group, in group order. */
  type Line = l: seq<int> | |l| == 9 witness [0, 0, 0, 0, 0, 0, 0, 0, 0]

  /** The reference definition of uniqueness: no two positions i < j hold the
      same non-zero number. */
  predicate IsUnique(l: Line)
  {
    forall i, j :: 0 <= i < j < 9 ==> !(l[i] != 0 && l[i] == l[j])
  }

  /** `m` keeps every number placed in `l` at the same position (it may fill
      some of the zeros of `l`). */
  predicate Extends(m: Line, l: Line)
  {
    forall k :: 0 <= k < 9 && l[k] != 0 ==> m[k] == l[k]
  }

  /** The pairwise duplicate check, with the same double loop and early exit as
      gosudoku's Go code: the outer index runs over 0..7, the inner one over the later
      positions. */
  method CheckUnique(l: Line) returns (b: bool)
    ensures b <==> IsUnique(l)
  {
    var i := 0;
    while i < 8
      invariant 0 <= i <= 8
      // no conflicting pair starts before position i
      invariant forall p, q :: 0 <= p < i && p < q < 9 ==> !(l[p] != 0 && l[p] == l[q])
    {
      var j := i + 1;
      while j < 9
        invariant i + 1 <= j <= 9
        invariant forall q :: i < q < j ==> !(l[i] != 0 && l[i] == l[q])
      {
        if l[i] != 0 && l[i] == l[j] {
          return false;
        }
        j := j + 1;
      }
      i := i + 1;
    }
    return true;
  }

  /** Uniqueness does not depend on the order of the pair: a line is unique
      exactly when its non-zero numbers are distinct, so any number of zeros is
      allowed. */
  lemma UniqueIffNonZeroDistinct(l: Line)
    ensures IsUnique(l) <==>
      forall i, j :: 0 <= i < 9 && 0 <= j < 9 && i != j && l[i] != 0 ==> l[i] != l[j]
  {
    if IsUnique(l) {
      forall i, j | 0 <= i < 9 && 0 <= j < 9 && i != j && l[i] != 0
        ensures l[i] != l[j]
      {
        if j < i {
          assert !(l[j] != 0 && l[j] == l[i]);
        }
      }
    }
  }

  /** A repeated non-zero number at any two distinct positions breaks
      uniqueness, wherever the two positions are. */
  lemma RepeatBreaksUnique(l: Line, i: int, j: int)
    requires 0 <= i < 9 && 0 <= j < 9 && i != j
    requires l[i] != 0 && l[i] == l[j]
    ensures !IsUnique(l)
  {
    if i < j {
      assert l[i] != 0 && l[i] == l[j];
    } else {
      assert l[j] != 0 && l[j] == l[i];
    }
  }

  /** Erasing numbers (turning some of them into zeros) never creates a
      conflict. */
  lemma UniqueOfExtension(m: Line, l: Line)
    requires Extends(m, l) && IsUnique(m)
    ensures IsUnique(l)
  {
  }

  /** Writing a non-zero number into an empty position keeps the line unique
      exactly when the line was unique and did not hold that number yet. */
  lemma UniqueAfterPlacing(l: Line, k: int, n: int)
    requires 0 <= k < 9 && l[k] == 0 && n != 0
    ensures IsUnique(l[k := n]) <==>
      IsUnique(l) && forall p :: 0 <= p < 9 ==> l[p] != n
  {
    var m := l[k := n];
    if IsUnique(m) {
      UniqueOfExtension(m, l);
      forall p | 0 <= p < 9
        ensures l[p] != n
      {
        if l[p] == n {
          RepeatBreaksUnique(m, p, k);
        }
      }
    }
    if IsUnique(l) && forall p :: 0 <= p < 9 ==> l[p] != n {
      forall i, j | 0 <= i < j < 9
        ensures !(m[i] != 0 && m[i] == m[j])
      {
        if i != k && j != k {
          assert !(l[i] != 0 && l[i] == l[j]);
        }
      }
    }
  }

  /** The cases of gosudoku's own line tests. */
  lemma LineExamples()
    ensures IsUnique([1, 2, 3, 4, 5, 6, 7, 8, 9])
    ensures IsUnique([1, 2, 0, 0, 0, 0, 0, 0, 9])
    ensures IsUnique([0, 0, 0, 0, 0, 0, 0, 0, 0])
    ensures !IsUnique([1, 2, 3, 3, 4, 5, 6, 7, 8])
    ensures !IsUnique([1, 0, 0, 0, 0, 0, 0, 0, 1])
    ensures !IsUnique([0, 0, 0, 0, 0, 0, 0, 1, 1])
  {
    RepeatBreaksUnique([1, 2, 3, 3, 4, 5, 6, 7, 8], 2, 3);
    RepeatBreaksUnique([1, 0, 0, 0, 0, 0, 0, 0, 1], 0, 8);
    RepeatBreaksUnique([0, 0, 0, 0, 0, 0, 0, 1, 1], 7, 8);
  }
}
