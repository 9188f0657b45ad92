/** Search in a 2D matrix (Array-III/searchIn2dMatrix.cpp): whether target occurs in
    a rectangular matrix, by scanning every cell, by binary search in the one row
    whose range holds target, and by binary search over the matrix read row by row
    as one sorted sequence. The matrix is read only, so it is a sequence of rows. */
module SearchMatrix {
  import opened Order

  /** At least one row (the solutions read matrix[0]) and all rows as long as the
      first. */
  ghost predicate Rectangular(matrix: seq<seq<int>>) {
    |matrix| >= 1 && forall i :: 0 <= i < |matrix| ==> |matrix[i]| == |matrix[0]|
  }

  /** The layout the fast searches rely on: each row ascending, and each row's first
      value above the previous row's last. */
  ghost predicate SortedMatrix(matrix: seq<seq<int>>) {
    && Rectangular(matrix)
    && |matrix[0]| >= 1
    && (forall i :: 0 <= i < |matrix| ==> Sorted(matrix[i]))
    && (forall i :: 0 < i < |matrix| ==> matrix[i - 1][|matrix[0]| - 1] < matrix[i][0])
  }

  /** target is the value of some cell. */
  ghost predicate Contains(matrix: seq<seq<int>>, target: int) {
    exists i, j :: 0 <= i < |matrix| && 0 <= j < |matrix[i]| && matrix[i][j] == target
  }

  /** The first search: every cell in turn. */
  method SearchByScan(matrix: seq<seq<int>>, target: int) returns (found: bool)
    requires Rectangular(matrix)
    ensures found <==> Contains(matrix, target)
  {
    var n := |matrix|;
    var m := |matrix[0]|;
    var i := 0;
    while i < n
      invariant 0 <= i <= n
      invariant forall a, b :: 0 <= a < i && 0 <= b < |matrix[a]| ==> matrix[a][b] != target
    {
      var j := 0;
      while j < m
        invariant 0 <= j <= m
        invariant forall b :: 0 <= b < j ==> matrix[i][b] != target
      {
        if matrix[i][j] == target {
          return true;
        }
        j := j + 1;
      }
      i := i + 1;
    }
    return false;
  }

  /** Binary search in one row. A true answer always names a value of the row; on an
      ascending row a false answer means target is absent. */
  method BinarySearchRow(row: seq<int>, target: int) returns (found: bool)
    ensures found ==> target in row
    ensures Sorted(row) && target in row ==> found
  {
    var low, high := 0, |row| - 1;
    while low <= high
      invariant 0 <= low <= high + 1 <= |row|
      invariant Sorted(row) ==> forall k :: 0 <= k < |row| && row[k] == target ==> low <= k <= high
      decreases high - low
    {
      var mid := low + (high - low) / 2;
      assert low <= mid <= high;
      if row[mid] == target {
        return true;
      } else if row[mid] < target {
        low := mid + 1;
      } else {
        high := mid - 1;
      }
    }
    return false;
  }

  /** The second search: the first row whose first and last values bracket target,
      searched by BinarySearchRow. */
  method SearchByRow(matrix: seq<seq<int>>, target: int) returns (found: bool)
    requires Rectangular(matrix) && |matrix[0]| >= 1
    ensures found ==> Contains(matrix, target)
    ensures SortedMatrix(matrix) ==> (found <==> Contains(matrix, target))
  {
    var n := |matrix|;
    var m := |matrix[0]|;
    var i := 0;
    while i < n
      invariant 0 <= i <= n
      invariant forall a :: 0 <= a < i ==> !(matrix[a][0] <= target <= matrix[a][m - 1])
    {
      if matrix[i][0] <= target && target <= matrix[i][m - 1] {
        found := BinarySearchRow(matrix[i], target);
        if found {
          ghost var j :| 0 <= j < |matrix[i]| && matrix[i][j] == target;
        }
        if SortedMatrix(matrix) && Contains(matrix, target) {
          var r, j :| 0 <= r < n && 0 <= j < |matrix[r]| && matrix[r][j] == target;
          BracketingRow(matrix, target, r, j, i);
        }
        return;
      }
      i := i + 1;
    }
    return false;
  }

  /** In a sorted matrix, the row holding target is the only row whose first and
      last values bracket it. */
  lemma BracketingRow(matrix: seq<seq<int>>, target: int, r: int, j: int, i: int)
    requires SortedMatrix(matrix)
    requires 0 <= r < |matrix| && 0 <= j < |matrix[r]| && matrix[r][j] == target
    requires 0 <= i < |matrix| && matrix[i][0] <= target <= matrix[i][|matrix[0]| - 1]
    ensures i == r
  {
    var m := |matrix[0]|;
    if i < r {
      RowsAscend(matrix, i, r);
    } else if r < i {
      RowsAscend(matrix, r, i);
    }
  }

  /** In a sorted matrix every value of an earlier row is below every value of a
      later row. */
  lemma {:induction false} RowsAscend(matrix: seq<seq<int>>, r1: int, r2: int)
    requires SortedMatrix(matrix)
    requires 0 <= r1 < r2 < |matrix|
    ensures matrix[r1][|matrix[0]| - 1] < matrix[r2][0]
    decreases r2 - r1
  {
    var m := |matrix[0]|;
    if r1 + 1 < r2 {
      RowsAscend(matrix, r1, r2 - 1);
      assert matrix[r2 - 1][0] <= matrix[r2 - 1][m - 1];
    }
  }

  lemma MulMono(a: int, b: int, d: int)
    requires a <= b && d >= 0
    ensures a * d <= b * d
  {
    assert b * d - a * d == (b - a) * d;
  }

  /** Euclidean division is unique: x = q * d + r with 0 <= r < d determines q and r. */
  lemma DivModUnique(x: int, q: int, r: int, d: int)
    requires d >= 1 && 0 <= r < d && x == q * d + r
    ensures x / d == q && x % d == r
  {
    var q', r' := x / d, x % d;
    assert x == q' * d + r' && 0 <= r' < d;
    if q' > q {
      assert (q + 1) * d == q * d + d;
      MulMono(q + 1, q', d);
    } else if q' < q {
      assert (q' + 1) * d == q' * d + d;
      MulMono(q' + 1, q, d);
    }
  }

  /** Index k of the matrix read row by row names the cell (k / cols, k % cols),
      inside the matrix. */
  lemma CellOfIndex(k: int, rows: int, cols: int)
    requires cols >= 1 && 0 <= k < rows * cols
    ensures 0 <= k / cols < rows && 0 <= k % cols < cols
  {
    var q := k / cols;
    assert k == q * cols + k % cols;
    if q >= rows {
      MulMono(rows, q, cols);
    }
    if q < 0 {
      MulMono(q, -1, cols);
    }
  }

  /** The cells are visited in row-major order: a smaller index is an earlier row,
      or the same row and an earlier column. */
  lemma RowMajor(p: int, q: int, cols: int)
    requires cols >= 1 && 0 <= p < q
    ensures p / cols < q / cols || (p / cols == q / cols && p % cols < q % cols)
  {
    var a, b := p / cols, q / cols;
    assert p == a * cols + p % cols && q == b * cols + q % cols;
    if a > b {
      assert (b + 1) * cols == b * cols + cols;
      MulMono(b + 1, a, cols);
    }
  }

  /** The value at index k of the matrix read row by row. */
  function At(matrix: seq<seq<int>>, k: int): int
    requires Rectangular(matrix) && |matrix[0]| >= 1
    requires 0 <= k < |matrix| * |matrix[0]|
  {
    CellOfIndex(k, |matrix|, |matrix[0]|);
    matrix[k / |matrix[0]|][k % |matrix[0]|]
  }

  /** Read row by row, a sorted matrix is an ascending sequence. */
  lemma FlattenedAscending(matrix: seq<seq<int>>, p: int, q: int)
    requires SortedMatrix(matrix)
    requires 0 <= p < q < |matrix| * |matrix[0]|
    ensures At(matrix, p) <= At(matrix, q)
  {
    var cols := |matrix[0]|;
    CellOfIndex(p, |matrix|, cols);
    CellOfIndex(q, |matrix|, cols);
    RowMajor(p, q, cols);
    var rp, cp, rq, cq := p / cols, p % cols, q / cols, q % cols;
    if rp < rq {
      RowsAscend(matrix, rp, rq);
      assert matrix[rp][cp] <= matrix[rp][cols - 1];
      assert matrix[rq][0] <= matrix[rq][cq];
    }
  }

  /** The third search: binary search over the indexes 0 .. rows * cols - 1 of the
      matrix read row by row. */
  method SearchFlattened(matrix: seq<seq<int>>, target: int) returns (found: bool)
    requires Rectangular(matrix)
    ensures found ==> Contains(matrix, target)
    ensures SortedMatrix(matrix) ==> (found <==> Contains(matrix, target))
  {
    var rows := |matrix|;
    var cols := |matrix[0]|;
    var left, right := 0, rows * cols - 1;
    while left <= right
      invariant 0 <= left <= right + 1 <= rows * cols
      invariant SortedMatrix(matrix) ==>
        forall k :: 0 <= k < rows * cols && At(matrix, k) == target ==> left <= k <= right
      decreases right - left
    {
      var mid := left + (right - left) / 2;
      CellOfIndex(mid, rows, cols);
      var value := matrix[mid / cols][mid % cols];
      if value == target {
        return true;
      } else if value < target {
        if SortedMatrix(matrix) {
          forall k | 0 <= k <= mid
            ensures At(matrix, k) != target
          {
            if k < mid {
              FlattenedAscending(matrix, k, mid);
            }
          }
        }
        left := mid + 1;
      } else {
        if SortedMatrix(matrix) {
          forall k | mid <= k < rows * cols
            ensures At(matrix, k) != target
          {
            if mid < k {
              FlattenedAscending(matrix, mid, k);
            }
          }
        }
        right := mid - 1;
      }
    }
    if SortedMatrix(matrix) {
      forall r, c | 0 <= r < rows && 0 <= c < |matrix[r]|
        ensures matrix[r][c] != target
      {
        IndexOfCell(r, c, rows, cols);
        assert At(matrix, r * cols + c) == matrix[r][c];
      }
    }
    return false;
  }

  /** Cell (r, c) sits at index r * cols + c of the matrix read row by row. */
  lemma IndexOfCell(r: int, c: int, rows: int, cols: int)
    requires 0 <= r < rows && 0 <= c < cols
    ensures 0 <= r * cols + c < rows * cols
    ensures (r * cols + c) / cols == r && (r * cols + c) % cols == c
  {
    MulMono(r + 1, rows, cols);
    MulMono(0, r, cols);
    assert (r + 1) * cols == r * cols + cols;
    DivModUnique(r * cols + c, r, c, cols);
  }

  /** The example of the solution file: all three searches find 16. */
  method Demo() returns (byScan: bool, byRow: bool, flattened: bool)
    ensures byScan && byRow && flattened
  {
    var matrix := [[1, 3, 5, 7], [10, 11, 16, 20], [23, 30, 34, 60]];
    assert matrix[1][2] == 16;
    assert SortedMatrix(matrix);
    byScan := SearchByScan(matrix, 16);
    byRow := SearchByRow(matrix, 16);
    flattened := SearchFlattened(matrix, 16);
  }
}
