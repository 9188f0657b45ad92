/** Matrices held in an array2, seen as their rows of values. */
module Grids {

  /** The values of m, row by row. */
  ghost function Grid(m: array2<int>): (g: seq<seq<int>>)
    reads m
    ensures |g| == m.Length0
    ensures forall i :: 0 <= i < |g| ==> |g[i]| == m.Length1
    ensures forall i, j :: 0 <= i < m.Length0 && 0 <= j < m.Length1 ==> g[i][j] == m[i, j]
  {
    seq(m.Length0, i requires 0 <= i < m.Length0 reads m =>
      seq(m.Length1, j requires 0 <= j < m.Length1 reads m => m[i, j]))
  }

  /** g has n rows of n entries each. */
  ghost predicate Square(g: seq<seq<int>>, n: int) {
    |g| == n && forall i :: 0 <= i < |g| ==> |g[i]| == n
  }

  /** Two n-by-n grids with the same entries are the same grid. */
  lemma SquareEqual(g: seq<seq<int>>, h: seq<seq<int>>, n: int)
    requires Square(g, n) && Square(h, n)
    requires forall i, j :: 0 <= i < n && 0 <= j < n ==> g[i][j] == h[i][j]
    ensures g == h
  {
    forall i | 0 <= i < n
      ensures g[i] == h[i]
    {
      assert forall j :: 0 <= j < n ==> g[i][j] == h[i][j];
    }
  }
}
