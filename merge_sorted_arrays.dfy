/** Merge sorted arrays (Array-II/mergeSortedArrays.cpp): nums1 holds m valid
    values followed by n free slots, nums2 holds n values, and nums2 is merged into
    nums1 so that nums1 ends up ascending. nums1 changes in place, so it is an
    array; nums2 is only read, so it is a sequence. */
module MergeSortedArrays {
  import opened Order

  /** r is the ascending arrangement of the values of a and b together. */
  ghost predicate IsMergeOf(r: seq<int>, a: seq<int>, b: seq<int>) {
    Sorted(r) && multiset(r) == multiset(a) + multiset(b)
  }

  /** Approach 1: copy nums2 into the free slots, then sort all of nums1. */
  method MergeByAppendAndSort(nums1: array<int>, m: int, nums2: seq<int>, n: int)
    requires 0 <= m && 0 <= n == |nums2| && nums1.Length == m + n
    modifies nums1
    ensures IsMergeOf(nums1[..], old(nums1[..m]), nums2)
  {
    ghost var a := nums1[..m];
    var i := 0;
    while i < n
      invariant 0 <= i <= n
      invariant nums1[..m] == a
      invariant nums1[m..m + i] == nums2[..i]
    {
      nums1[m + i] := nums2[i];
      i := i + 1;
    }
    assert nums1[..] == a + nums2 by {
      assert nums1[..] == nums1[..m] + nums1[m..m + n];
    }
    Sort(nums1);
  }

  /** The merge of a and b built from the back: the larger of the two last values
      (b's on a tie) goes last, in front of it the merge of what remains. */
  function Merged(a: seq<int>, b: seq<int>): (r: seq<int>)
    ensures |r| == |a| + |b|
    decreases |a| + |b|
  {
    if a == [] then b
    else if b == [] then a
    else if a[|a| - 1] > b[|b| - 1] then Merged(a[..|a| - 1], b) + [a[|a| - 1]]
    else Merged(a, b[..|b| - 1]) + [b[|b| - 1]]
  }

  /** Merged holds exactly the values of a and b. */
  lemma {:induction false} MergedMultiset(a: seq<int>, b: seq<int>)
    ensures multiset(Merged(a, b)) == multiset(a) + multiset(b)
    decreases |a| + |b|
  {
    if a != [] && b != [] {
      var a', b' := a[..|a| - 1], b[..|b| - 1];
      assert a == a' + [a[|a| - 1]] && b == b' + [b[|b| - 1]];
      if a[|a| - 1] > b[|b| - 1] {
        MergedMultiset(a', b);
      } else {
        MergedMultiset(a, b');
      }
    }
  }

  /** Merging two ascending sequences gives an ascending sequence. */
  lemma {:induction false} MergedSorted(a: seq<int>, b: seq<int>)
    requires Sorted(a) && Sorted(b)
    ensures Sorted(Merged(a, b))
    decreases |a| + |b|
  {
    if a != [] && b != [] {
      var a', b' := a[..|a| - 1], b[..|b| - 1];
      var x, y := a[|a| - 1], b[|b| - 1];
      if x > y {
        MergedSorted(a', b);
        MergedMultiset(a', b);
        AllBelow(Merged(a', b), a', b, x);
      } else {
        MergedSorted(a, b');
        MergedMultiset(a, b');
        AllBelow(Merged(a, b'), a, b', y);
      }
    }
  }

  /** Appending a value no smaller than any value of ascending m, whose values are
      those of a and b, keeps m ascending. */
  lemma AllBelow(m: seq<int>, a: seq<int>, b: seq<int>, x: int)
    requires Sorted(m) && multiset(m) == multiset(a) + multiset(b)
    requires forall v :: v in a ==> v <= x
    requires forall v :: v in b ==> v <= x
    ensures Sorted(m + [x])
  {
    forall p | 0 <= p < |m|
      ensures m[p] <= x
    {
      assert m[p] in multiset(a) + multiset(b) by {
        assert m[p] in multiset(m);
      }
      if m[p] in multiset(a) {
        assert m[p] in a;
      } else {
        assert m[p] in b;
      }
    }
  }

  /** Approach 2: fill nums1 from the back, each time with the larger of the last
      unplaced values of the two inputs; values of nums1 left over at the end are
      already in place. */
  method MergeFromBack(nums1: array<int>, m: int, nums2: seq<int>, n: int)
    requires 0 <= m && 0 <= n == |nums2| && nums1.Length == m + n
    requires Sorted(nums1[..m]) && Sorted(nums2)
    modifies nums1
    ensures nums1[..] == Merged(old(nums1[..m]), nums2)
    ensures IsMergeOf(nums1[..], old(nums1[..m]), nums2)
  {
    ghost var a := nums1[..m];
    var i, j := m - 1, n - 1;
    FromBackStart(nums1[..], a, nums2);
    i, j := PlaceWhileBoth(nums1, a, nums2, i, j);
    PlaceRestOfSecond(nums1, a, nums2, i, j);
    MergedSorted(a, nums2);
    MergedMultiset(a, nums2);
  }

  /** The first loop of approach 2, while both inputs have unplaced values. */
  method PlaceWhileBoth(nums1: array<int>, ghost a: seq<int>, nums2: seq<int>, i0: int, j0: int) returns (i: int, j: int)
    requires FromBack(nums1[..], a, nums2, i0, j0)
    modifies nums1
    ensures FromBack(nums1[..], a, nums2, i, j) && (i < 0 || j < 0)
  {
    i, j := i0, j0;
    var k := i + j + 1;
    ghost var r := nums1[..];
    while i >= 0 && j >= 0
      invariant k == i + j + 1 && nums1[..] == r
      invariant FromBack(r, a, nums2, i, j)
    {
      assert nums1[i] == r[..i + 1][i] == a[i];
      if nums1[i] > nums2[j] {
        TakeFromFirst(r, a, nums2, i, j);
        r := r[k := a[i]];
        nums1[k] := nums1[i];
        assert nums1[..] == r;
        k, i := k - 1, i - 1;
      } else {
        TakeFromSecond(r, a, nums2, i, j);
        r := r[k := nums2[j]];
        nums1[k] := nums2[j];
        assert nums1[..] == r;
        k, j := k - 1, j - 1;
      }
    }
  }

  /** The second loop of approach 2: what is left of nums2 goes to the front; what
      is left of nums1 is already there. */
  method PlaceRestOfSecond(nums1: array<int>, ghost a: seq<int>, nums2: seq<int>, i0: int, j0: int)
    requires FromBack(nums1[..], a, nums2, i0, j0) && (i0 < 0 || j0 < 0)
    modifies nums1
    ensures nums1[..] == Merged(a, nums2)
  {
    var i, j := i0, j0;
    var k := i + j + 1;
    ghost var r := nums1[..];
    while j >= 0
      invariant k == i + j + 1 && nums1[..] == r
      invariant j >= 0 ==> i == -1
      invariant FromBack(r, a, nums2, i, j)
    {
      TakeFromSecond(r, a, nums2, i, j);
      r := r[k := nums2[j]];
      nums1[k] := nums2[j];
      assert nums1[..] == r;
      k, j := k - 1, j - 1;
    }
    FromBackDone(r, a, nums2, i);
  }

  /** The state of the backward merge with a[..i+1] and b[..j+1] still unplaced:
      r still holds a[..i+1] in front, and behind slot i + j + 1 it holds the tail
      of the merge that follows the merge of the unplaced values. */
  ghost predicate FromBack(r: seq<int>, a: seq<int>, b: seq<int>, i: int, j: int) {
    && -1 <= i < |a| && -1 <= j < |b| && |r| == |a| + |b|
    && r[..i + 1] == a[..i + 1]
    && Merged(a[..i + 1], b[..j + 1]) + r[i + j + 2..] == Merged(a, b)
  }

  /** Before the first step nothing is placed and all of nums1 is in front. */
  lemma FromBackStart(r: seq<int>, a: seq<int>, b: seq<int>)
    requires |r| == |a| + |b| && r[..|a|] == a
    ensures FromBack(r, a, b, |a| - 1, |b| - 1)
  {
    assert r[|r|..] == [] && a[..|a|] == a && b[..|b|] == b;
  }

  /** nums1[k--] = nums1[i--]: a[i], the larger last value, goes to slot k. */
  lemma TakeFromFirst(r: seq<int>, a: seq<int>, b: seq<int>, i: int, j: int)
    requires FromBack(r, a, b, i, j) && 0 <= i && 0 <= j && a[i] > b[j]
    ensures FromBack(r[i + j + 1 := a[i]], a, b, i - 1, j)
  {
    var k, r' := i + j + 1, r[i + j + 1 := a[i]];
    assert r'[k..] == [a[i]] + r[k + 1..];
    assert r'[..i] == r[..i + 1][..i];
    assert a[..i + 1][..i] == a[..i];
    assert Merged(a[..i + 1], b[..j + 1]) == Merged(a[..i], b[..j + 1]) + [a[i]];
  }

  /** nums1[k--] = nums2[j--]: b[j], the larger last value, goes to slot k. */
  lemma TakeFromSecond(r: seq<int>, a: seq<int>, b: seq<int>, i: int, j: int)
    requires FromBack(r, a, b, i, j) && 0 <= j && (i >= 0 ==> a[i] <= b[j])
    ensures FromBack(r[i + j + 1 := b[j]], a, b, i, j - 1)
  {
    var k, r' := i + j + 1, r[i + j + 1 := b[j]];
    assert r'[k..] == [b[j]] + r[k + 1..];
    assert r'[..i + 1] == r[..i + 1];
    assert b[..j + 1][..j] == b[..j];
    if i < 0 {
      assert a[..i + 1] == [];
      assert b[..j + 1] == b[..j] + [b[j]];
    }
    assert Merged(a[..i + 1], b[..j + 1]) == Merged(a[..i + 1], b[..j]) + [b[j]];
  }

  /** Once b is used up, r is the merge: the values of a left in front are already
      where the merge puts them. */
  lemma FromBackDone(r: seq<int>, a: seq<int>, b: seq<int>, i: int)
    requires FromBack(r, a, b, i, -1)
    ensures r == Merged(a, b)
  {
    assert b[..0] == [];
    assert r == r[..i + 1] + r[i + 1..];
  }

  /** Any ascending arrangement of the values of two ascending sequences is their
      merge, so approach 1's result is approach 2's. */
  lemma MergeIsMerged(r: seq<int>, a: seq<int>, b: seq<int>)
    requires Sorted(a) && Sorted(b) && IsMergeOf(r, a, b)
    ensures r == Merged(a, b)
  {
    MergedSorted(a, b);
    MergedMultiset(a, b);
    SortedUnique(r, Merged(a, b));
  }

  /** The example of the solution file. */
  lemma Example()
    ensures Sorted([1, 2, 3]) && Sorted([2, 5, 6])
    ensures Merged([1, 2, 3], [2, 5, 6]) == [1, 2, 2, 3, 5, 6]
  {
    assert [1, 2, 3][..2] == [1, 2] && [1, 2][..1] == [1] && [1][..0] == [];
    assert [2, 5, 6][..2] == [2, 5] && [2, 5][..1] == [2] && [2][..0] == [];
    assert Merged([1, 2], [2]) == [1, 2, 2];
    assert Merged([1, 2, 3], [2]) == [1, 2, 2, 3];
    assert Merged([1, 2, 3], [2, 5]) == [1, 2, 2, 3, 5];
  }

  /** nums1 = {1, 2, 3, 0, 0, 0}. */
  method Nums1() returns (arr: array<int>)
    ensures fresh(arr) && arr[..] == [1, 2, 3, 0, 0, 0]
  {
    arr := new int[6];
    arr[0], arr[1], arr[2], arr[3], arr[4], arr[5] := 1, 2, 3, 0, 0, 0;
  }

  /** Approach 1 on a copy of nums1 of the main of the solution file. */
  method DemoAppendAndSort() returns (arr1: array<int>)
    ensures arr1[..] == [1, 2, 2, 3, 5, 6]
  {
    arr1 := Nums1();
    assert arr1[..3] == [1, 2, 3];
    MergeByAppendAndSort(arr1, 3, [2, 5, 6], 3);
    Example();
    MergeIsMerged(arr1[..], [1, 2, 3], [2, 5, 6]);
  }

  /** Approach 2 on another copy. */
  method DemoFromBack() returns (arr2: array<int>)
    ensures arr2[..] == [1, 2, 2, 3, 5, 6]
  {
    arr2 := Nums1();
    assert arr2[..3] == [1, 2, 3];
    Example();
    MergeFromBack(arr2, 3, [2, 5, 6], 3);
  }

  /** The main of the solution file: both approaches give {1, 2, 2, 3, 5, 6}. */
  method Demo() returns (arr1: array<int>, arr2: array<int>)
    ensures arr1[..] == [1, 2, 2, 3, 5, 6] && arr2[..] == arr1[..]
  {
    arr1 := DemoAppendAndSort();
    arr2 := DemoFromBack();
  }
}
