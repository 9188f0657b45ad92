/** Pascal's triangle (Array-I/pascalTriangle.cpp): the first numRows rows, each
    starting and ending with 1 and each other entry the sum of the two above it. */
module PascalTriangle {
  import opened Binomial

  /** row is row n of the triangle: n + 1 entries, entry k being C(n, k). */
  ghost predicate BinomRow(row: seq<int>, n: nat) {
    |row| == n + 1 && forall k :: 0 <= k <= n ==> row[k] == Binom(n, k)
  }

  /** Every entry of row i strictly inside it is the sum of the two entries above. */
  ghost predicate AddsUp(triangle: seq<seq<int>>, i: int)
    requires 0 < i < |triangle| && |triangle[i]| == i + 1 && |triangle[i - 1]| == i
  {
    forall j :: 0 < j < i ==> triangle[i][j] == triangle[i - 1][j - 1] + triangle[i - 1][j]
  }

  /** Rows of binomial coefficients have the triangle's defining shape: each row
      starts and ends with 1, and inner entries add up the two above. */
  lemma BinomRowsAddUp(triangle: seq<seq<int>>)
    requires forall i :: 0 <= i < |triangle| ==> BinomRow(triangle[i], i)
    ensures forall i :: 0 <= i < |triangle| ==> |triangle[i]| == i + 1 && triangle[i][0] == 1 && triangle[i][i] == 1
    ensures forall i :: 0 < i < |triangle| ==> AddsUp(triangle, i)
  {
    forall i | 0 <= i < |triangle|
      ensures triangle[i][0] == 1 && triangle[i][i] == 1
    {
      assert BinomRow(triangle[i], i);
      if i > 0 {
        PascalRule(i, i);
      }
    }
    forall i | 0 < i < |triangle|
      ensures AddsUp(triangle, i)
    {
      assert BinomRow(triangle[i], i) && BinomRow(triangle[i - 1], i - 1);
      forall j | 0 < j < i
        ensures triangle[i][j] == triangle[i - 1][j - 1] + triangle[i - 1][j]
      {
        PascalRule(i, j);
      }
    }
  }

  /** The solution: row after row, appended to triangle. */
  method Generate(numRows: int) returns (triangle: seq<seq<int>>)
    ensures |triangle| == if numRows < 0 then 0 else numRows
    ensures forall i :: 0 <= i < |triangle| ==> BinomRow(triangle[i], i)
  {
    triangle := [];
    var i := 0;
    while i < numRows
      invariant 0 <= i && |triangle| == i
      invariant i <= numRows || (i == 0 && numRows < 0)
      invariant forall a :: 0 <= a < i ==> BinomRow(triangle[a], a)
    {
      var row := FillRow(triangle, i);
      triangle := triangle + [row];
      i := i + 1;
    }
  }

  /** One pass of the outer loop: a fresh row of i + 1 zeroes gets 1 at both ends,
      then the sums of neighbouring entries of row i - 1 in between. */
  method FillRow(triangle: seq<seq<int>>, i: int) returns (r: seq<int>)
    requires 0 <= i == |triangle|
    requires i > 0 ==> BinomRow(triangle[i - 1], i - 1)
    ensures BinomRow(r, i)
  {
    var row := new int[i + 1];
    row[0] := 1;
    row[i] := 1;
    var j := 1;
    while j < i
      invariant 1 <= j && (j <= i || j == 1)
      invariant row[0] == 1 && row[i] == 1
      invariant forall b :: 0 < b < j ==> row[b] == Binom(i, b)
    {
      PascalRule(i, j);
      row[j] := triangle[i - 1][j - 1] + triangle[i - 1][j];
      j := j + 1;
    }
    if i > 0 {
      PascalRule(i, i);
    }
    r := row[..];
  }

  /** The entries of the example of the solution file beyond the ends. */
  lemma Example()
    ensures Binom(2, 1) == 2 && Binom(3, 1) == 3 && Binom(3, 2) == 3
    ensures Binom(4, 1) == 4 && Binom(4, 2) == 6 && Binom(4, 3) == 4
  {
    PascalRule(2, 1);
    PascalRule(3, 1);
    PascalRule(3, 2);
    PascalRule(4, 1);
    PascalRule(4, 2);
    PascalRule(4, 3);
  }

  /** Generate(5) gives the rows 1 / 1 1 / 1 2 1 / 1 3 3 1 / 1 4 6 4 1. */
  method Demo() returns (triangle: seq<seq<int>>)
    ensures triangle == [[1], [1, 1], [1, 2, 1], [1, 3, 3, 1], [1, 4, 6, 4, 1]]
  {
    triangle := Generate(5);
    Example();
    BinomRowsAddUp(triangle);
    assert BinomRow(triangle[2], 2) && BinomRow(triangle[3], 3) && BinomRow(triangle[4], 4);
    assert triangle[0] == [1];
    assert triangle[1] == [1, 1];
    assert triangle[2] == [1, 2, 1];
    assert triangle[3] == [1, 3, 3, 1];
    assert triangle[4] == [1, 4, 6, 4, 1];
  }
}
