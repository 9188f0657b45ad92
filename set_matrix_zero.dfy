/** Set matrix zeroes (Array-I/setMatrixZero.cpp): every row and every column that
    holds a 0 becomes all 0, in place. One solution lists the zero cells first; the
    other keeps its markers in the first row and the first column. The matrix is an
    array2, so its row and column counts never change. */
module SetMatrixZero {
  import opened Grids

  /** All rows of g have length cols. */
  ghost predicate Shape(g: seq<seq<int>>, cols: int) {
    forall i :: 0 <= i < |g| ==> |g[i]| == cols
  }

  ghost predicate RowHasZero(g: seq<seq<int>>, i: int)
    requires 0 <= i < |g|
  {
    exists c :: 0 <= c < |g[i]| && g[i][c] == 0
  }

  ghost predicate ColumnHasZero(g: seq<seq<int>>, j: int) {
    exists r :: 0 <= r < |g| && 0 <= j < |g[r]| && g[r][j] == 0
  }

  /** The value cell (i, j) must end with: 0 when its row or its column held a 0,
      its own value otherwise. */
  ghost function Expected(g: seq<seq<int>>, i: int, j: int): int
    requires 0 <= i < |g| && 0 <= j < |g[i]|
  {
    if RowHasZero(g, i) || ColumnHasZero(g, j) then 0 else g[i][j]
  }

  /** A cell ends as 0 exactly when its row or its column held a 0; every other cell
      keeps its value. */
  lemma ExpectedZeroIff(g: seq<seq<int>>, i: int, j: int)
    requires 0 <= i < |g| && 0 <= j < |g[i]|
    ensures Expected(g, i, j) == 0 <==> RowHasZero(g, i) || ColumnHasZero(g, j)
    ensures !RowHasZero(g, i) && !ColumnHasZero(g, j) ==> Expected(g, i, j) == g[i][j]
  {
    if g[i][j] == 0 {
      assert RowHasZero(g, i);
    }
  }

  // ---------------------------------------------------------------------------
  // Loops shared by both solutions
  // ---------------------------------------------------------------------------

  /** Sets every cell of row r to 0. */
  method ZeroRow(matrix: array2<int>, r: int)
    requires 0 <= r < matrix.Length0
    modifies matrix
    ensures forall a, b :: 0 <= a < matrix.Length0 && 0 <= b < matrix.Length1 ==>
      matrix[a, b] == if a == r then 0 else old(matrix[a, b])
  {
    var j := 0;
    while j < matrix.Length1
      invariant 0 <= j <= matrix.Length1
      invariant forall a, b :: 0 <= a < matrix.Length0 && 0 <= b < matrix.Length1 ==>
        matrix[a, b] == if a == r && b < j then 0 else old(matrix[a, b])
    {
      matrix[r, j] := 0;
      j := j + 1;
    }
  }

  /** Sets every cell of column c to 0. */
  method ZeroColumn(matrix: array2<int>, c: int)
    requires 0 <= c < matrix.Length1
    modifies matrix
    ensures forall a, b :: 0 <= a < matrix.Length0 && 0 <= b < matrix.Length1 ==>
      matrix[a, b] == if b == c then 0 else old(matrix[a, b])
  {
    var i := 0;
    while i < matrix.Length0
      invariant 0 <= i <= matrix.Length0
      invariant forall a, b :: 0 <= a < matrix.Length0 && 0 <= b < matrix.Length1 ==>
        matrix[a, b] == if b == c && a < i then 0 else old(matrix[a, b])
    {
      matrix[i, c] := 0;
      i := i + 1;
    }
  }

  // ---------------------------------------------------------------------------
  // The solution with a list of zero positions
  // ---------------------------------------------------------------------------

  /** Step 1: the positions of all zero cells, in row-major order. */
  method CollectZeroes(matrix: array2<int>) returns (zeroes: seq<(int, int)>)
    ensures forall p :: 0 <= p < |zeroes| ==>
      0 <= zeroes[p].0 < matrix.Length0 && 0 <= zeroes[p].1 < matrix.Length1
    ensures forall r, c :: 0 <= r < matrix.Length0 && 0 <= c < matrix.Length1 ==>
      ((r, c) in zeroes <==> matrix[r, c] == 0)
  {
    zeroes := [];
    var i := 0;
    while i < matrix.Length0
      invariant 0 <= i <= matrix.Length0
      invariant forall p :: 0 <= p < |zeroes| ==>
        0 <= zeroes[p].0 < i && 0 <= zeroes[p].1 < matrix.Length1 && matrix[zeroes[p].0, zeroes[p].1] == 0
      invariant forall r, c :: 0 <= r < i && 0 <= c < matrix.Length1 && matrix[r, c] == 0 ==> (r, c) in zeroes
    {
      var j := 0;
      while j < matrix.Length1
        invariant 0 <= j <= matrix.Length1
        invariant forall p :: 0 <= p < |zeroes| ==>
          0 <= zeroes[p].0 <= i && 0 <= zeroes[p].1 < matrix.Length1 && matrix[zeroes[p].0, zeroes[p].1] == 0
        invariant forall r, c ::
          (0 <= r < matrix.Length0 && 0 <= c < matrix.Length1 && matrix[r, c] == 0 && (r < i || (r == i && c < j)))
          ==> (r, c) in zeroes
      {
        if matrix[i, j] == 0 {
          zeroes := zeroes + [(i, j)];
        }
        j := j + 1;
      }
      i := i + 1;
    }
  }

  /** Some listed zero shares row a or column b. */
  ghost predicate Covered(zeroes: seq<(int, int)>, a: int, b: int) {
    exists p :: 0 <= p < |zeroes| && (zeroes[p].0 == a || zeroes[p].1 == b)
  }

  lemma CoveredSnoc(zeroes: seq<(int, int)>, k: int, a: int, b: int)
    requires 0 <= k < |zeroes|
    ensures Covered(zeroes[..k + 1], a, b) <==>
      Covered(zeroes[..k], a, b) || zeroes[k].0 == a || zeroes[k].1 == b
  {
    if Covered(zeroes[..k + 1], a, b) && !(zeroes[k].0 == a || zeroes[k].1 == b) {
      var p :| 0 <= p < k + 1 && (zeroes[..k + 1][p].0 == a || zeroes[..k + 1][p].1 == b);
      assert zeroes[..k][p] == zeroes[..k + 1][p];
    }
    if zeroes[k].0 == a || zeroes[k].1 == b {
      assert zeroes[..k + 1][k] == zeroes[k];
    }
    if Covered(zeroes[..k], a, b) {
      var p :| 0 <= p < k && (zeroes[..k][p].0 == a || zeroes[..k][p].1 == b);
      assert zeroes[..k + 1][p] == zeroes[..k][p];
    }
  }

  /** When the list holds exactly the zero cells of g, a cell is covered exactly when
      its row or its column holds a 0. */
  lemma CoveredIffZeroLine(g: seq<seq<int>>, cols: int, zeroes: seq<(int, int)>, a: int, b: int)
    requires Shape(g, cols) && 0 <= a < |g| && 0 <= b < cols
    requires forall p :: 0 <= p < |zeroes| ==> 0 <= zeroes[p].0 < |g| && 0 <= zeroes[p].1 < cols
    requires forall r, c :: 0 <= r < |g| && 0 <= c < cols ==> ((r, c) in zeroes <==> g[r][c] == 0)
    ensures Covered(zeroes, a, b) <==> RowHasZero(g, a) || ColumnHasZero(g, b)
  {
    if Covered(zeroes, a, b) {
      var p :| 0 <= p < |zeroes| && (zeroes[p].0 == a || zeroes[p].1 == b);
      var (r, c) := zeroes[p];
      assert (r, c) in zeroes;
      if r == a {
        assert g[a][c] == 0;
      } else {
        assert g[r][b] == 0;
      }
    }
    if RowHasZero(g, a) {
      var c :| 0 <= c < |g[a]| && g[a][c] == 0;
      assert (a, c) in zeroes;
      var p :| 0 <= p < |zeroes| && zeroes[p] == (a, c);
    }
    if ColumnHasZero(g, b) {
      var r :| 0 <= r < |g| && 0 <= b < |g[r]| && g[r][b] == 0;
      assert (r, b) in zeroes;
      var p :| 0 <= p < |zeroes| && zeroes[p] == (r, b);
    }
  }

  /** The first solution: list the zero cells, then zero the column and the row of
      each. */
  method SetZeroesByList(matrix: array2<int>)
    requires matrix.Length0 >= 1
    modifies matrix
    ensures forall i, j :: 0 <= i < matrix.Length0 && 0 <= j < matrix.Length1 ==>
      matrix[i, j] == Expected(old(Grid(matrix)), i, j)
  {
    ghost var g := Grid(matrix);
    var zeroes := CollectZeroes(matrix);
    var k := 0;
    while k < |zeroes|
      invariant 0 <= k <= |zeroes|
      invariant forall a, b :: 0 <= a < matrix.Length0 && 0 <= b < matrix.Length1 ==>
        matrix[a, b] == if Covered(zeroes[..k], a, b) then 0 else g[a][b]
    {
      var r, c := zeroes[k].0, zeroes[k].1;
      ZeroColumn(matrix, c);
      ZeroRow(matrix, r);
      forall a, b | 0 <= a < matrix.Length0 && 0 <= b < matrix.Length1
        ensures Covered(zeroes[..k + 1], a, b) <==> Covered(zeroes[..k], a, b) || a == r || b == c
      {
        CoveredSnoc(zeroes, k, a, b);
      }
      k := k + 1;
    }
    forall a, b | 0 <= a < matrix.Length0 && 0 <= b < matrix.Length1
      ensures matrix[a, b] == Expected(g, a, b)
    {
      assert zeroes[..k] == zeroes;
      CoveredIffZeroLine(g, matrix.Length1, zeroes, a, b);
    }
  }

  // ---------------------------------------------------------------------------
  // The solution with markers in the first row and column
  // ---------------------------------------------------------------------------

  /** Whether row i holds a 0 (the search stops at the first one). */
  method RowContainsZero(matrix: array2<int>, i: int) returns (found: bool)
    requires 0 <= i < matrix.Length0
    ensures found <==> exists j :: 0 <= j < matrix.Length1 && matrix[i, j] == 0
  {
    found := false;
    var j := 0;
    while j < matrix.Length1
      invariant 0 <= j <= matrix.Length1
      invariant forall b :: 0 <= b < j ==> matrix[i, b] != 0
    {
      if matrix[i, j] == 0 {
        found := true;
        break;
      }
      j := j + 1;
    }
  }

  /** Whether column j holds a 0 (the search stops at the first one). */
  method ColumnContainsZero(matrix: array2<int>, j: int) returns (found: bool)
    requires 0 <= j < matrix.Length1
    ensures found <==> exists i :: 0 <= i < matrix.Length0 && matrix[i, j] == 0
  {
    found := false;
    var i := 0;
    while i < matrix.Length0
      invariant 0 <= i <= matrix.Length0
      invariant forall a :: 0 <= a < i ==> matrix[a, j] != 0
    {
      if matrix[i, j] == 0 {
        found := true;
        break;
      }
      i := i + 1;
    }
  }

  /** Row a of g holds a 0 among columns 1 .. upTo - 1. */
  ghost predicate RowMark(g: seq<seq<int>>, a: int, upTo: int)
    requires 0 <= a < |g|
  {
    exists b :: 1 <= b < upTo && b < |g[a]| && g[a][b] == 0
  }

  /** Column b of g holds a 0 among rows 1 .. upTo - 1. */
  ghost predicate ColumnMark(g: seq<seq<int>>, b: int, upTo: int) {
    exists a :: 1 <= a < upTo && a < |g| && 0 <= b < |g[a]| && g[a][b] == 0
  }

  /** The marker pass: for each 0 outside the first row and column, marks its row in
      column 0 and its column in row 0. Only the first row and column change. */
  method MarkZeroes(matrix: array2<int>)
    requires matrix.Length0 >= 1
    modifies matrix
    ensures forall a, b :: 0 <= a < matrix.Length0 && 0 <= b < matrix.Length1 ==>
      matrix[a, b] == (
        if a >= 1 && b == 0 && RowMark(old(Grid(matrix)), a, matrix.Length1) then 0
        else if a == 0 && b >= 1 && ColumnMark(old(Grid(matrix)), b, matrix.Length0) then 0
        else old(matrix[a, b]))
  {
    ghost var g := Grid(matrix);
    var rows, cols := matrix.Length0, matrix.Length1;
    var i := 1;
    while i < rows
      invariant 1 <= i <= rows
      invariant forall a, b :: 0 <= a < rows && 0 <= b < cols ==>
        matrix[a, b] == (
          if 1 <= a < i && b == 0 && RowMark(g, a, cols) then 0
          else if a == 0 && b >= 1 && ColumnMark(g, b, i) then 0
          else g[a][b])
    {
      var j := 1;
      while j < cols
        invariant 1 <= j && (j <= cols || j == 1)
        invariant forall a, b :: 0 <= a < rows && 0 <= b < cols ==>
          matrix[a, b] == (
            if 1 <= a < i && b == 0 && RowMark(g, a, cols) then 0
            else if a == i && b == 0 && RowMark(g, i, j) then 0
            else if a == 0 && 1 <= b < j && ColumnMark(g, b, i + 1) then 0
            else if a == 0 && j <= b && ColumnMark(g, b, i) then 0
            else g[a][b])
      {
        MarkStep(g, i, j);
        if matrix[i, j] == 0 {
          matrix[i, 0] := 0;
          matrix[0, j] := 0;
        }
        j := j + 1;
      }
      forall b | 1 <= b < cols
        ensures ColumnMark(g, b, i + 1) <==> ColumnMark(g, b, i) || g[i][b] == 0
      {
        MarkStep(g, i, b);
      }
      i := i + 1;
    }
  }

  lemma MarkStep(g: seq<seq<int>>, i: int, j: int)
    requires 1 <= i < |g| && 1 <= j < |g[i]|
    ensures RowMark(g, i, j + 1) <==> RowMark(g, i, j) || g[i][j] == 0
    ensures ColumnMark(g, j, i + 1) <==> ColumnMark(g, j, i) || g[i][j] == 0
  {
  }

  /** The clearing pass: a cell outside the first row and column becomes 0 when its
      row or its column is marked. */
  method ClearMarked(matrix: array2<int>)
    modifies matrix
    ensures forall a, b :: 0 <= a < matrix.Length0 && 0 <= b < matrix.Length1 ==>
      matrix[a, b] == (
        if a >= 1 && b >= 1 && (old(matrix[a, 0]) == 0 || old(matrix[0, b]) == 0) then 0
        else old(matrix[a, b]))
  {
    var i := 1;
    while i < matrix.Length0
      invariant 1 <= i
      invariant forall a, b :: 0 <= a < matrix.Length0 && 0 <= b < matrix.Length1 ==>
        matrix[a, b] == (
          if 1 <= a < i && b >= 1 && (old(matrix[a, 0]) == 0 || old(matrix[0, b]) == 0) then 0
          else old(matrix[a, b]))
    {
      var j := 1;
      while j < matrix.Length1
        invariant 1 <= j
        invariant forall a, b :: 0 <= a < matrix.Length0 && 0 <= b < matrix.Length1 ==>
          matrix[a, b] == (
            if (1 <= a < i || (a == i && b < j)) && b >= 1 && (old(matrix[a, 0]) == 0 || old(matrix[0, b]) == 0) then 0
            else old(matrix[a, b]))
      {
        if matrix[i, 0] == 0 || matrix[0, j] == 0 {
          matrix[i, j] := 0;
        }
        j := j + 1;
      }
      i := i + 1;
    }
  }

  /** The second solution: remember whether the first row and the first column hold
      a 0, mark the other zero lines in them, clear the marked cells, then zero the
      first row and column if they held a 0. */
  method SetZeroesByMarkers(matrix: array2<int>)
    requires matrix.Length0 >= 1
    modifies matrix
    ensures forall i, j :: 0 <= i < matrix.Length0 && 0 <= j < matrix.Length1 ==>
      matrix[i, j] == Expected(old(Grid(matrix)), i, j)
  {
    ghost var g := Grid(matrix);
    var rows, cols := matrix.Length0, matrix.Length1;
    var firstRowZero := RowContainsZero(matrix, 0);
    var firstColZero := false;
    if cols > 0 {
      firstColZero := ColumnContainsZero(matrix, 0);
    }
    assert firstRowZero <==> RowHasZero(g, 0);
    assert firstColZero <==> ColumnHasZero(g, 0);
    MarkZeroes(matrix);
    ClearMarked(matrix);
    if firstRowZero {
      ZeroRow(matrix, 0);
    }
    if firstColZero {
      ZeroColumn(matrix, 0);
    }
    forall a, b | 0 <= a < rows && 0 <= b < cols
      ensures matrix[a, b] == Expected(g, a, b)
    {
      MarkersMeanZeroLines(g, a, b);
    }
  }

  /** A row other than the first holds a 0 exactly when its first cell is 0 or it is
      marked; likewise for a column other than the first. */
  lemma MarkersMeanZeroLines(g: seq<seq<int>>, a: int, b: int)
    requires |g| >= 1 && Shape(g, |g[0]|) && 0 <= a < |g| && 0 <= b < |g[0]|
    ensures a >= 1 ==> (RowHasZero(g, a) <==> g[a][0] == 0 || RowMark(g, a, |g[0]|))
    ensures b >= 1 ==> (ColumnHasZero(g, b) <==> g[0][b] == 0 || ColumnMark(g, b, |g|))
  {
  }

  /** The example of the solution file: the 3 x 3 matrix of ones with a 0 in the
      centre ends with its middle row and middle column all 0. */
  lemma Example()
    ensures forall i, j :: 0 <= i < 3 && 0 <= j < 3 ==>
      Expected([[1, 1, 1], [1, 0, 1], [1, 1, 1]], i, j) == if i == 1 || j == 1 then 0 else 1
  {
    var g := [[1, 1, 1], [1, 0, 1], [1, 1, 1]];
    assert g[1][1] == 0;
    forall i, j | 0 <= i < 3 && 0 <= j < 3
      ensures Expected(g, i, j) == if i == 1 || j == 1 then 0 else 1
    {
      if i != 1 && j != 1 {
        assert forall c :: 0 <= c < 3 ==> g[i][c] == (if i == 1 && c == 1 then 0 else 1);
        assert forall r :: 0 <= r < 3 ==> g[r][j] == (if r == 1 && j == 1 then 0 else 1);
      }
    }
  }

  /** Both solutions on the example give the same, expected matrix. */
  method Demo() returns (byList: array2<int>, byMarkers: array2<int>)
    ensures byList.Length0 == 3 && byList.Length1 == 3 && byMarkers.Length0 == 3 && byMarkers.Length1 == 3
    ensures forall i, j :: 0 <= i < 3 && 0 <= j < 3 ==>
      byList[i, j] == (if i == 1 || j == 1 then 0 else 1) && byMarkers[i, j] == byList[i, j]
  {
    byList := new int[3, 3]((i, j) => if i == 1 && j == 1 then 0 else 1);
    byMarkers := new int[3, 3]((i, j) => if i == 1 && j == 1 then 0 else 1);
    ghost var g1, g2 := Grid(byList), Grid(byMarkers);
    assert g1[0] == g2[0] == [1, 1, 1] && g1[1] == g2[1] == [1, 0, 1] && g1[2] == g2[2] == [1, 1, 1];
    assert g1 == g2 == [[1, 1, 1], [1, 0, 1], [1, 1, 1]];
    Example();
    SetZeroesByList(byList);
    SetZeroesByMarkers(byMarkers);
  }
}
