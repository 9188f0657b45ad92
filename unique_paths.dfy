/** Unique paths (Array-III/uniquePaths.cpp): the number of paths from the top-left
    to the bottom-right cell of an m x n grid moving only down or right, by plain
    recursion, by recursion memoised in a table, and by filling a table row by row. */
module UniquePaths {
  import opened Binomial

  /** The recursion of the solution file: the number of paths from cell (i, j) to
      cell (m - 1, n - 1); a step out of the grid contributes none. */
  function CountPaths(i: int, j: int, m: int, n: int): (r: nat)
    ensures r >= 1 <==> i < m && j < n
    decreases (m - i) + (n - j)
  {
    if i == m - 1 && j == n - 1 then 1
    else if i >= m || j >= n then 0
    else CountPaths(i + 1, j, m, n) + CountPaths(i, j + 1, m, n)
  }

  /** The recursive solution: some path exists exactly when the grid has a cell. */
  function UniquePathsByRecursion(m: int, n: int): (r: nat)
    ensures r >= 1 <==> m >= 1 && n >= 1
  {
    CountPaths(0, 0, m, n)
  }

  /** From (i, j) inside the grid the path makes m - 1 - i moves down and n - 1 - j
      moves right in some order: C(moves, downs) paths. */
  lemma {:induction false} CountPathsIsBinomial(i: int, j: int, m: int, n: int)
    requires 0 <= i < m && 0 <= j < n
    ensures CountPaths(i, j, m, n) == Binom((m - 1 - i) + (n - 1 - j), m - 1 - i)
    decreases (m - i) + (n - j)
  {
    var down, right := m - 1 - i, n - 1 - j;
    if down == 0 && right == 0 {
    } else if down == 0 {
      CountPathsIsBinomial(i, j + 1, m, n);
      assert CountPaths(i + 1, j, m, n) == 0;
    } else if right == 0 {
      CountPathsIsBinomial(i + 1, j, m, n);
      assert CountPaths(i, j + 1, m, n) == 0;
    } else {
      CountPathsIsBinomial(i + 1, j, m, n);
      CountPathsIsBinomial(i, j + 1, m, n);
      PascalRule(down + right, down);
    }
  }

  /** The recursive count is C(m + n - 2, m - 1), which is
      (m + n - 2)! / ((m - 1)! (n - 1)!); an empty grid has no path. */
  lemma UniquePathsIsBinomial(m: int, n: int)
    ensures m >= 1 && n >= 1 ==> UniquePathsByRecursion(m, n) == Binom(m + n - 2, m - 1)
    ensures m >= 1 && n >= 1 ==> Binom(m + n - 2, m - 1) * Factorial(m - 1) * Factorial(n - 1) == Factorial(m + n - 2)
    ensures m <= 0 || n <= 0 ==> UniquePathsByRecursion(m, n) == 0
  {
    if m >= 1 && n >= 1 {
      CountPathsIsBinomial(0, 0, m, n);
      BinomFactorial(m + n - 2, m - 1);
    }
  }

  /** Every entry of the memo table is either unset (-1) or the path count of its
      cell. */
  ghost predicate MemoValid(dp: array2<int>, m: int, n: int)
    reads dp
  {
    forall a, b :: 0 <= a < dp.Length0 && 0 <= b < dp.Length1 ==> dp[a, b] == -1 || dp[a, b] == CountPaths(a, b, m, n)
  }

  /** The memoised recursion: the same result as CountPaths, reading and filling the
      table dp passed by reference. */
  method CountPathsMemo(i: int, j: int, m: int, n: int, dp: array2<int>) returns (r: int)
    requires 0 <= i && 0 <= j
    requires dp.Length0 == m && dp.Length1 == n
    requires MemoValid(dp, m, n)
    modifies dp
    ensures r == CountPaths(i, j, m, n)
    ensures MemoValid(dp, m, n)
    decreases (m - i) + (n - j)
  {
    if i == m - 1 && j == n - 1 {
      return 1;
    }
    if i >= m || j >= n {
      return 0;
    }
    if dp[i, j] != -1 {
      return dp[i, j];
    }
    var down := CountPathsMemo(i + 1, j, m, n, dp);
    var right := CountPathsMemo(i, j + 1, m, n, dp);
    r := down + right;
    dp[i, j] := r;
  }

  /** The memoised solution: a table of -1 entries, then the memoised recursion from
      the start cell. */
  method UniquePathsByMemo(m: int, n: int) returns (r: int)
    requires m >= 0 && n >= 0
    ensures r == UniquePathsByRecursion(m, n)
  {
    var dp := new int[m, n]((_, _) => -1);
    r := CountPathsMemo(0, 0, m, n, dp);
  }

  /** The tabulated solution: dp[i, j] counts the paths from (0, 0) to (i, j); the
      first row and column hold 1, every other entry is the sum of the entries above
      and to the left. */
  method UniquePathsByTabulation(m: int, n: int) returns (r: int)
    requires m >= 1 && n >= 1
    ensures r == Binom(m + n - 2, m - 1)
    ensures r == UniquePathsByRecursion(m, n)
  {
    var dp := new int[m, n]((_, _) => 1);
    var i := 1;
    while i < m
      invariant 1 <= i <= m
      invariant forall a, b :: 0 <= a < i && 0 <= b < n ==> dp[a, b] == Binom(a + b, a)
      invariant forall a, b :: i <= a < m && 0 <= b < n ==> dp[a, b] == 1
    {
      var j := 1;
      while j < n
        invariant 1 <= j <= n
        invariant forall a, b :: 0 <= a < i && 0 <= b < n ==> dp[a, b] == Binom(a + b, a)
        invariant forall b :: 0 <= b < j ==> dp[i, b] == Binom(i + b, i)
        invariant forall a, b :: i <= a < m && 0 <= b < n && (a > i || b >= j) ==> dp[a, b] == 1
      {
        PascalRule(i + j, i);
        dp[i, j] := dp[i - 1, j] + dp[i, j - 1];
        j := j + 1;
      }
      i := i + 1;
    }
    r := dp[m - 1, n - 1];
    UniquePathsIsBinomial(m, n);
  }

  /** The grid of the solution file's example, 3 x 7, has C(8, 2) = 28 paths. */
  method Demo() returns (byMemo: int, byTabulation: int)
    ensures UniquePathsByRecursion(3, 7) == 28
    ensures byMemo == 28 && byTabulation == 28
  {
    UniquePathsIsBinomial(3, 7);
    assert Binom(8, 2) == 28;
    byMemo := UniquePathsByMemo(3, 7);
    byTabulation := UniquePathsByTabulation(3, 7);
  }
}
