/** Rotate an n-by-n matrix 90 degrees clockwise (Array-II/rotateMatrix.cpp): the
    entry at row r, column c moves to row c, column n - 1 - r. One solution fills a
    second matrix and copies it back; the other transposes in place and then
    reverses every row. The matrix is an array2, so it stays n by n. */
module RotateMatrix {
  import opened Grids

  /** g turned a quarter clockwise. */
  function Rotated(g: seq<seq<int>>): (r: seq<seq<int>>)
    requires Square(g, |g|)
    ensures Square(r, |g|)
    ensures forall row, col :: 0 <= row < |g| && 0 <= col < |g| ==> r[col][|g| - 1 - row] == g[row][col]
  {
    var n := |g|;
    seq(n, i requires 0 <= i < n => seq(n, j requires 0 <= j < n => g[n - 1 - j][i]))
  }

  /** g mirrored in its main diagonal. */
  function Transposed(g: seq<seq<int>>): (r: seq<seq<int>>)
    requires Square(g, |g|)
    ensures Square(r, |g|)
    ensures forall i, j :: 0 <= i < |g| && 0 <= j < |g| ==> r[i][j] == g[j][i]
  {
    var n := |g|;
    seq(n, i requires 0 <= i < n => seq(n, j requires 0 <= j < n => g[j][i]))
  }

  /** g with every row read backwards. */
  function RowsReversed(g: seq<seq<int>>): (r: seq<seq<int>>)
    requires Square(g, |g|)
    ensures Square(r, |g|)
    ensures forall i, j :: 0 <= i < |g| && 0 <= j < |g| ==> r[i][j] == g[i][|g| - 1 - j]
  {
    var n := |g|;
    seq(n, i requires 0 <= i < n => seq(n, j requires 0 <= j < n => g[i][n - 1 - j]))
  }

  /** Transposing and then reversing every row is the quarter turn. */
  lemma TransposeThenReverseRotates(g: seq<seq<int>>)
    requires Square(g, |g|)
    ensures RowsReversed(Transposed(g)) == Rotated(g)
  {
    var n, t := |g|, Transposed(g);
    var l, r := RowsReversed(t), Rotated(g);
    forall i, j | 0 <= i < n && 0 <= j < n
      ensures l[i][j] == r[i][j]
    {
      assert l[i][j] == t[i][n - 1 - j] == g[n - 1 - j][i];
      assert r[i][n - 1 - (n - 1 - j)] == g[n - 1 - j][i];
    }
    SquareEqual(l, r, n);
  }

  /** Two quarter turns send the entry at (i, j) to (n-1-i, n-1-j). */
  lemma HalfTurn(g: seq<seq<int>>)
    requires Square(g, |g|)
    ensures Square(Rotated(Rotated(g)), |g|)
    ensures forall i, j :: 0 <= i < |g| && 0 <= j < |g| ==> Rotated(Rotated(g))[|g| - 1 - i][|g| - 1 - j] == g[i][j]
  {
    var n, r := |g|, Rotated(g);
    forall i, j | 0 <= i < n && 0 <= j < n
      ensures Rotated(r)[n - 1 - i][n - 1 - j] == g[i][j]
    {
      assert r[j][n - 1 - i] == g[i][j];
      assert Rotated(r)[n - 1 - i][n - 1 - j] == r[j][n - 1 - i];
    }
  }

  /** Four quarter turns give back the matrix. */
  lemma FourTurnsRestore(g: seq<seq<int>>)
    requires Square(g, |g|)
    ensures Rotated(Rotated(Rotated(Rotated(g)))) == g
  {
    var n, h := |g|, Rotated(Rotated(g));
    HalfTurn(g);
    HalfTurn(h);
    var f := Rotated(Rotated(h));
    forall i, j | 0 <= i < n && 0 <= j < n
      ensures f[i][j] == g[i][j]
    {
      assert h[n - 1 - i][n - 1 - j] == g[i][j];
      assert f[n - 1 - (n - 1 - i)][n - 1 - (n - 1 - j)] == h[n - 1 - i][n - 1 - j];
    }
    SquareEqual(f, g, n);
  }

  /** Transposing twice, or reversing the rows twice, gives back the matrix. */
  lemma Involutions(g: seq<seq<int>>)
    requires Square(g, |g|)
    ensures Transposed(Transposed(g)) == g
    ensures RowsReversed(RowsReversed(g)) == g
  {
    var n := |g|;
    var t, r := Transposed(Transposed(g)), RowsReversed(RowsReversed(g));
    forall i, j | 0 <= i < n && 0 <= j < n
      ensures t[i][j] == g[i][j] && r[i][j] == g[i][j]
    {
      assert r[i][j] == RowsReversed(g)[i][n - 1 - j];
    }
    SquareEqual(t, g, n);
    SquareEqual(r, g, n);
  }

  /** The brute force: row `row` of the matrix goes to column colToFill of ans,
      colToFill counting down from n - 1; then ans is assigned to the matrix. */
  method RotateByCopy(matrix: array2<int>)
    requires matrix.Length0 == matrix.Length1
    modifies matrix
    ensures Grid(matrix) == Rotated(old(Grid(matrix)))
  {
    ghost var g := Grid(matrix);
    var n := matrix.Length0;
    var ans := new int[n, n];
    var colToFill := n - 1;
    var row := 0;
    while row < n
      invariant 0 <= row <= n && colToFill == n - 1 - row
      invariant forall c, j :: 0 <= c < n && colToFill < j < n ==> ans[c, j] == g[n - 1 - j][c]
      invariant unchanged(matrix)
    {
      var col := 0;
      while col < n
        invariant 0 <= col <= n
        invariant forall c :: 0 <= c < col ==> ans[c, colToFill] == g[row][c]
        invariant forall c, j :: 0 <= c < n && colToFill < j < n ==> ans[c, j] == g[n - 1 - j][c]
        invariant unchanged(matrix)
      {
        ans[col, colToFill] := matrix[row, col];
        col := col + 1;
      }
      colToFill := colToFill - 1;
      row := row + 1;
    }
    Assign(matrix, ans);
    SquareEqual(Grid(matrix), Rotated(g), n);
  }

  /** matrix = ans: every entry of ans is copied into the matrix. */
  method Assign(matrix: array2<int>, ans: array2<int>)
    requires matrix != ans
    requires matrix.Length0 == ans.Length0 && matrix.Length1 == ans.Length1
    modifies matrix
    ensures forall i, j :: 0 <= i < matrix.Length0 && 0 <= j < matrix.Length1 ==> matrix[i, j] == ans[i, j]
  {
    var i := 0;
    while i < matrix.Length0
      invariant 0 <= i <= matrix.Length0
      invariant forall a, b :: 0 <= a < i && 0 <= b < matrix.Length1 ==> matrix[a, b] == ans[a, b]
    {
      var j := 0;
      while j < matrix.Length1
        invariant 0 <= j <= matrix.Length1
        invariant forall b :: 0 <= b < j ==> matrix[i, b] == ans[i, b]
        invariant forall a, b :: 0 <= a < i && 0 <= b < matrix.Length1 ==> matrix[a, b] == ans[a, b]
      {
        matrix[i, j] := ans[i, j];
        j := j + 1;
      }
      i := i + 1;
    }
  }

  /** The optimal solution: transpose, then reverse every row. */
  method RotateInPlace(matrix: array2<int>)
    requires matrix.Length0 == matrix.Length1
    modifies matrix
    ensures Grid(matrix) == Rotated(old(Grid(matrix)))
  {
    Transpose(matrix);
    ReverseRows(matrix);
    TransposeThenReverseRotates(old(Grid(matrix)));
  }

  /** Step 1 of the optimal solution: each entry below the diagonal trades places
      with its mirror image above it. */
  method Transpose(matrix: array2<int>)
    requires matrix.Length0 == matrix.Length1
    modifies matrix
    ensures Grid(matrix) == Transposed(old(Grid(matrix)))
  {
    ghost var g := Grid(matrix);
    var n := matrix.Length0;
    var i := 0;
    while i < n
      invariant 0 <= i <= n
      invariant forall a, b :: 0 <= a < i && 0 <= b < i ==> matrix[a, b] == g[b][a]
      invariant forall a, b :: 0 <= a < n && 0 <= b < n && (i <= a || i <= b) ==> matrix[a, b] == g[a][b]
    {
      SwapRowWithColumn(matrix, i);
      i := i + 1;
    }
    SquareEqual(Grid(matrix), Transposed(g), n);
  }

  /** Step 2 of the optimal solution: every row is reversed. */
  method ReverseRows(matrix: array2<int>)
    requires matrix.Length0 == matrix.Length1
    modifies matrix
    ensures Grid(matrix) == RowsReversed(old(Grid(matrix)))
  {
    ghost var t := Grid(matrix);
    var n := matrix.Length0;
    var i := 0;
    while i < n
      invariant 0 <= i <= n
      invariant forall a, b :: 0 <= a < i && 0 <= b < n ==> matrix[a, b] == t[a][n - 1 - b]
      invariant forall a, b :: i <= a < n && 0 <= b < n ==> matrix[a, b] == t[a][b]
    {
      ReverseRow(matrix, i);
      i := i + 1;
    }
    SquareEqual(Grid(matrix), RowsReversed(t), n);
  }

  /** One pass of the transpose's outer loop: matrix[i][j] and matrix[j][i] trade
      places for every j < i. */
  method SwapRowWithColumn(matrix: array2<int>, i: int)
    requires matrix.Length0 == matrix.Length1 && 0 <= i < matrix.Length0
    modifies matrix
    ensures forall b :: 0 <= b < i ==> matrix[i, b] == old(matrix[b, i]) && matrix[b, i] == old(matrix[i, b])
    ensures forall a, b :: 0 <= a < matrix.Length0 && 0 <= b < matrix.Length1 && !(a == i && b < i) && !(b == i && a < i) ==>
      matrix[a, b] == old(matrix[a, b])
  {
    var j := 0;
    while j < i
      invariant 0 <= j <= i
      invariant forall b :: 0 <= b < j ==> matrix[i, b] == old(matrix[b, i]) && matrix[b, i] == old(matrix[i, b])
      invariant forall a, b :: 0 <= a < matrix.Length0 && 0 <= b < matrix.Length1 && !(a == i && b < j) && !(b == i && a < j) ==>
        matrix[a, b] == old(matrix[a, b])
    {
      matrix[i, j], matrix[j, i] := matrix[j, i], matrix[i, j];
      j := j + 1;
    }
  }

  /** std::reverse on row i: the two ends trade places, moving inwards. */
  method ReverseRow(matrix: array2<int>, i: int)
    requires 0 <= i < matrix.Length0
    modifies matrix
    ensures forall b :: 0 <= b < matrix.Length1 ==> matrix[i, b] == old(matrix[i, matrix.Length1 - 1 - b])
    ensures forall a, b :: 0 <= a < matrix.Length0 && a != i && 0 <= b < matrix.Length1 ==> matrix[a, b] == old(matrix[a, b])
  {
    var n := matrix.Length1;
    var lo := 0;
    while lo < n - 1 - lo
      invariant 0 <= lo && 2 * lo <= n
      invariant forall b :: 0 <= b < lo ==> matrix[i, b] == old(matrix[i, n - 1 - b]) && matrix[i, n - 1 - b] == old(matrix[i, b])
      invariant forall b :: lo <= b < n - lo ==> matrix[i, b] == old(matrix[i, b])
      invariant forall a, b :: 0 <= a < matrix.Length0 && a != i && 0 <= b < n ==> matrix[a, b] == old(matrix[a, b])
    {
      matrix[i, lo], matrix[i, n - 1 - lo] := matrix[i, n - 1 - lo], matrix[i, lo];
      lo := lo + 1;
    }
    forall b | 0 <= b < n
      ensures matrix[i, b] == old(matrix[i, n - 1 - b])
    {
      if n - lo <= b {
        assert matrix[i, n - 1 - (n - 1 - b)] == old(matrix[i, n - 1 - b]);
      }
    }
  }

  /** The example of the solution file, after the transpose and after the turn. */
  lemma Example()
    ensures Transposed([[1, 2, 3], [4, 5, 6], [7, 8, 9]]) == [[1, 4, 7], [2, 5, 8], [3, 6, 9]]
    ensures Rotated([[1, 2, 3], [4, 5, 6], [7, 8, 9]]) == [[7, 4, 1], [8, 5, 2], [9, 6, 3]]
  {
    var g := [[1, 2, 3], [4, 5, 6], [7, 8, 9]];
    assert Square(g, 3);
    SquareEqual(Transposed(g), [[1, 4, 7], [2, 5, 8], [3, 6, 9]], 3);
    SquareEqual(Rotated(g), [[7, 4, 1], [8, 5, 2], [9, 6, 3]], 3);
  }

  /** A fresh 3-by-3 matrix holding 1 to 9 row by row. */
  method OneToNine() returns (m: array2<int>)
    ensures fresh(m) && m.Length0 == 3 && m.Length1 == 3
    ensures Grid(m) == [[1, 2, 3], [4, 5, 6], [7, 8, 9]]
  {
    m := new int[3, 3];
    var i := 0;
    while i < 3
      invariant 0 <= i <= 3
      invariant forall a, b :: 0 <= a < i && 0 <= b < 3 ==> m[a, b] == 3 * a + b + 1
    {
      var j := 0;
      while j < 3
        invariant 0 <= j <= 3
        invariant forall b :: 0 <= b < j ==> m[i, b] == 3 * i + b + 1
        invariant forall a, b :: 0 <= a < i && 0 <= b < 3 ==> m[a, b] == 3 * a + b + 1
      {
        m[i, j] := 3 * i + j + 1;
        j := j + 1;
      }
      i := i + 1;
    }
    ghost var lit := [[1, 2, 3], [4, 5, 6], [7, 8, 9]];
    assert forall a, b :: 0 <= a < 3 && 0 <= b < 3 ==> lit[a][b] == 3 * a + b + 1;
    SquareEqual(Grid(m), lit, 3);
  }

  /** The main of the solution file: both solutions turn 1..9 into 7 4 1 / 8 5 2 /
      9 6 3. */
  method Demo() returns (mat1: array2<int>, mat2: array2<int>)
    ensures Grid(mat1) == [[7, 4, 1], [8, 5, 2], [9, 6, 3]]
    ensures Grid(mat2) == Grid(mat1)
  {
    mat1 := OneToNine();
    mat2 := OneToNine();
    Example();
    RotateByCopy(mat1);
    RotateInPlace(mat2);
  }
}
