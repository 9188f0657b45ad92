/** Orderings on sequences shared by the array solutions: ascending order, ordering
    by a caller-supplied comparison, and the in-place sort that stands for `std::sort`. */
module Order {

  /** `s` is in non-decreasing order. */
  ghost predicate Sorted(s: seq<int>) {
    forall p, q :: 0 <= p < q < |s| ==> s[p] <= s[q]
  }

  /** `s` is in non-increasing order. */
  ghost predicate NonIncreasing(s: seq<int>) {
    forall p, q :: 0 <= p < q < |s| ==> s[p] >= s[q]
  }

  /** `le` is a total preorder: any two values compare, and comparison chains. */
  ghost predicate TotalPreorder<T(!new)>(le: (T, T) -> bool) {
    && (forall x, y :: le(x, y) || le(y, x))
    && (forall x, y, z :: le(x, y) && le(y, z) ==> le(x, z))
  }

  /** `le` is antisymmetric: values that compare both ways are equal. */
  ghost predicate Antisymmetric<T(!new)>(le: (T, T) -> bool) {
    forall x, y :: le(x, y) && le(y, x) ==> x == y
  }

  ghost predicate SortedBy<T>(s: seq<T>, le: (T, T) -> bool) {
    forall p, q :: 0 <= p < q < |s| ==> le(s[p], s[q])
  }

  /** Everything in s[..i] is below everything in s[i..] under `le`. */
  ghost predicate Partitioned<T>(s: seq<T>, i: int, le: (T, T) -> bool) {
    forall p, q :: 0 <= p < i <= q < |s| ==> le(s[p], s[q])
  }

  /** The usual order on integers, as a value that can be handed to `SortBy`. */
  function IntLe(x: int, y: int): bool {
    x <= y
  }

  lemma IntLeIsTotalOrder()
    ensures TotalPreorder(IntLe) && Antisymmetric(IntLe)
  {
  }

  lemma SortedByIntLe(s: seq<int>)
    ensures SortedBy(s, IntLe) <==> Sorted(s)
  {
  }

  /** `s` reversed. */
  function Reversed<T>(s: seq<T>): (r: seq<T>)
    ensures |r| == |s|
    ensures forall k :: 0 <= k < |s| ==> r[k] == s[|s| - 1 - k]
  {
    seq(|s|, k requires 0 <= k < |s| => s[|s| - 1 - k])
  }

  /** Reversing a non-increasing sequence gives it in ascending order. */
  lemma ReversedNonIncreasingIsSorted(s: seq<int>)
    requires NonIncreasing(s)
    ensures Sorted(Reversed(s))
  {
  }

  /** Reversing keeps every element with its multiplicity. */
  lemma {:induction false} ReversedMultiset<T>(s: seq<T>)
    ensures multiset(Reversed(s)) == multiset(s)
  {
    if s != [] {
      ReversedMultiset(s[1..]);
      assert Reversed(s) == Reversed(s[1..]) + [s[0]];
      assert s == [s[0]] + s[1..];
    }
  }

  /** The first element of a sequence sorted by `le` is below everything the
      sequence holds. */
  lemma SortedByHeadIsLeast<T(!new)>(s: seq<T>, le: (T, T) -> bool, x: T)
    requires TotalPreorder(le)
    requires SortedBy(s, le) && x in multiset(s)
    ensures le(s[0], x)
  {
    var k :| 0 <= k < |s| && s[k] == x;
    if k > 0 {
      assert le(s[0], s[k]);
    } else {
      assert le(x, x) || le(x, x);
    }
  }

  /** Two sequences sorted by the same antisymmetric total order that hold the same
      multiset of values are the same sequence: a sorted permutation is unique. */
  lemma {:induction false} SortedByUnique<T(!new)>(a: seq<T>, b: seq<T>, le: (T, T) -> bool)
    requires TotalPreorder(le) && Antisymmetric(le)
    requires SortedBy(a, le) && SortedBy(b, le)
    requires multiset(a) == multiset(b)
    ensures a == b
    decreases |a|
  {
    if a == [] {
      assert |b| == |multiset(b)| == 0;
    } else {
      assert b != [] by { assert a[0] in multiset(b); }
      HeadsAgree(a, b, le);
      MultisetTail(a);
      MultisetTail(b);
      SortedByTail(a, le);
      SortedByTail(b, le);
      SortedByUnique(a[1..], b[1..], le);
      assert a == [a[0]] + a[1..] && b == [b[0]] + b[1..];
    }
  }

  /** Two non-empty sequences sorted by the same order and holding the same values
      start with the same value. */
  lemma HeadsAgree<T(!new)>(a: seq<T>, b: seq<T>, le: (T, T) -> bool)
    requires TotalPreorder(le) && Antisymmetric(le)
    requires SortedBy(a, le) && SortedBy(b, le)
    requires a != [] && b != [] && multiset(a) == multiset(b)
    ensures a[0] == b[0]
  {
    assert a[0] in multiset(b) && b[0] in multiset(a) by {
      assert a[0] in multiset(a) && b[0] in multiset(b);
    }
    SortedByHeadIsLeast(a, le, b[0]);
    SortedByHeadIsLeast(b, le, a[0]);
  }

  lemma MultisetTail<T>(s: seq<T>)
    requires s != []
    ensures multiset(s[1..]) == multiset(s) - multiset{s[0]}
  {
    assert s == [s[0]] + s[1..];
  }

  lemma SortedByTail<T>(s: seq<T>, le: (T, T) -> bool)
    requires s != [] && SortedBy(s, le)
    ensures SortedBy(s[1..], le)
  {
    forall p, q | 0 <= p < q < |s| - 1
      ensures le(s[1..][p], s[1..][q])
    {
      assert s[1..][p] == s[p + 1] && s[1..][q] == s[q + 1];
    }
  }

  /** Ascending sequences holding the same values are equal. */
  lemma SortedUnique(a: seq<int>, b: seq<int>)
    requires Sorted(a) && Sorted(b) && multiset(a) == multiset(b)
    ensures a == b
  {
    IntLeIsTotalOrder();
    SortedByIntLe(a);
    SortedByIntLe(b);
    SortedByUnique(a, b, IntLe);
  }

  /** The index of a least element of `a[from..]` under `le`. */
  method LeastIndexFrom<T(!new)>(a: array<T>, from: int, le: (T, T) -> bool) returns (m: int)
    requires TotalPreorder(le)
    requires 0 <= from < a.Length
    ensures from <= m < a.Length
    ensures forall q :: from <= q < a.Length ==> le(a[m], a[q])
  {
    m := from;
    var j := from + 1;
    while j < a.Length
      invariant from <= m < a.Length && from < j <= a.Length
      invariant forall q :: from <= q < j ==> le(a[m], a[q])
    {
      if !le(a[m], a[j]) {
        m := j;
      }
      j := j + 1;
    }
  }

  /** Sorts `a` in place by `le` (selection sort). This stands for the library sort
      of the solutions: only its contract, a sorted permutation, is relied upon. */
  method SortBy<T(!new)>(a: array<T>, le: (T, T) -> bool)
    requires TotalPreorder(le)
    modifies a
    ensures SortedBy(a[..], le)
    ensures multiset(a[..]) == old(multiset(a[..]))
  {
    var i := 0;
    while i < a.Length
      invariant 0 <= i <= a.Length
      invariant SortedBy(a[..i], le)
      invariant Partitioned(a[..], i, le)
      invariant multiset(a[..]) == old(multiset(a[..]))
    {
      var m := LeastIndexFrom(a, i, le);
      ghost var before := a[..];
      a[i], a[m] := a[m], a[i];
      SelectionStep(before, a[..], i, m, le);
      i := i + 1;
    }
  }

  /** Swapping a least element of before[i..] into position i extends the sorted
      prefix by one and keeps the values. */
  lemma SelectionStep<T(!new)>(before: seq<T>, after: seq<T>, i: int, m: int, le: (T, T) -> bool)
    requires TotalPreorder(le)
    requires 0 <= i <= m < |before|
    requires after == before[i := before[m]][m := before[i]]
    requires SortedBy(before[..i], le)
    requires Partitioned(before, i, le)
    requires forall q :: i <= q < |before| ==> le(before[m], before[q])
    ensures SortedBy(after[..i + 1], le)
    ensures Partitioned(after, i + 1, le)
    ensures multiset(after) == multiset(before)
  {
    forall p, q | 0 <= p < i + 1 <= q < |after|
      ensures le(after[p], after[q])
    {
      var q' := if q == m then i else q;
      assert after[q] == before[q'];
      if p < i {
        assert le(before[p], before[q']);
      } else {
        assert le(before[m], before[q']);
      }
    }
    var done := after[..i + 1];
    forall p, q | 0 <= p < q < i + 1
      ensures le(done[p], done[q])
    {
      if q < i {
        assert after[p] == before[..i][p] && after[q] == before[..i][q];
      } else {
        assert le(before[p], before[m]);
      }
    }
  }

  /** Sorts an integer array ascending in place, as `std::sort` does. */
  method Sort(a: array<int>)
    modifies a
    ensures Sorted(a[..])
    ensures multiset(a[..]) == old(multiset(a[..]))
  {
    IntLeIsTotalOrder();
    SortBy(a, IntLe);
    SortedByIntLe(a[..]);
  }
}
