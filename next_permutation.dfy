/** Next permutation (Array-I/nextPermutation.cpp): rearranges nums in place into the
    lexicographically next greater arrangement of its values or, when none is
    greater, into the smallest one (ascending order). */
module NextPermutation {
  import opened Order

  /** a comes before b in lexicographic order (sequences of equal length). */
  ghost predicate LexLess(a: seq<int>, b: seq<int>) {
    |a| == |b| && exists k :: 0 <= k < |a| && a[..k] == b[..k] && a[k] < b[k]
  }

  /** Some adjacent pair rises: a greater arrangement exists. */
  ghost predicate HasPivot(s: seq<int>) {
    exists i :: 0 <= i < |s| - 1 && s[i] < s[i + 1]
  }

  /** No arrangement of the values of s comes after s. */
  ghost predicate IsGreatest(s: seq<int>) {
    forall p :: multiset(p) == multiset(s) ==> !LexLess(s, p)
  }

  /** No arrangement of the values of s comes before s. */
  ghost predicate IsLeast(s: seq<int>) {
    forall p :: multiset(p) == multiset(s) ==> !LexLess(p, s)
  }

  /** r is the next arrangement of the values of s: it comes after s, and no
      arrangement lies strictly between them. */
  ghost predicate IsNextPermutation(s: seq<int>, r: seq<int>) {
    && multiset(r) == multiset(s)
    && LexLess(s, r)
    && forall p :: multiset(p) == multiset(s) && LexLess(s, p) ==> !LexLess(p, r)
  }

  /** Two different sequences of one length are ordered one way or the other. */
  lemma LexTotal(a: seq<int>, b: seq<int>)
    requires |a| == |b|
    ensures a != b ==> LexLess(a, b) || LexLess(b, a)
  {
    if a != b {
      var k := 0;
      while k < |a| && a[k] == b[k]
        invariant 0 <= k <= |a|
        invariant a[..k] == b[..k]
      {
        assert a[..k + 1] == a[..k] + [a[k]] && b[..k + 1] == b[..k] + [b[k]];
        k := k + 1;
      }
      assert k < |a|;
    }
  }

  /** The next arrangement is unique, so it is well defined. */
  lemma NextUnique(s: seq<int>, r1: seq<int>, r2: seq<int>)
    requires IsNextPermutation(s, r1) && IsNextPermutation(s, r2)
    ensures r1 == r2
  {
    LexTotal(r1, r2);
  }

  /** Where p agrees with t before k, the value p[k] still occurs in t at k or
      later. */
  lemma InSuffix(p: seq<int>, t: seq<int>, k: int) returns (q: int)
    requires multiset(p) == multiset(t) && 0 <= k < |p| && k <= |t| && p[..k] == t[..k]
    ensures k <= q < |t| && t[q] == p[k]
  {
    assert p == p[..k] + p[k..];
    assert t == t[..k] + t[k..];
    assert multiset(p[k..]) == multiset(p) - multiset(p[..k]);
    assert multiset(t[k..]) == multiset(t) - multiset(t[..k]);
    assert p[k] == p[k..][0];
    assert p[k] in multiset(t[k..]);
    var d :| 0 <= d < |t[k..]| && t[k..][d] == p[k];
    q := k + d;
  }

  /** Past an ascending stretch from k on, no arrangement of t that agrees with t up
      to some point can be smaller there. */
  lemma AscendingSuffixIsLeast(p: seq<int>, t: seq<int>, k: int)
    requires multiset(p) == multiset(t) && |p| == |t| && 0 <= k
    requires forall a, b :: k <= a < b < |t| ==> t[a] <= t[b]
    ensures forall m :: k <= m < |p| && p[..m] == t[..m] ==> p[m] >= t[m]
  {
    forall m | k <= m < |p| && p[..m] == t[..m]
      ensures p[m] >= t[m]
    {
      var q := InSuffix(p, t, m);
    }
  }

  /** Past a non-increasing stretch from k on, no arrangement of t that agrees with t
      up to some point can be greater there. */
  lemma DescendingSuffixIsGreatest(p: seq<int>, t: seq<int>, k: int)
    requires multiset(p) == multiset(t) && |p| == |t| && 0 <= k
    requires forall a, b :: k <= a < b < |t| ==> t[a] >= t[b]
    ensures forall m :: k <= m < |p| && p[..m] == t[..m] ==> p[m] <= t[m]
  {
    forall m | k <= m < |p| && p[..m] == t[..m]
      ensures p[m] <= t[m]
    {
      var q := InSuffix(p, t, m);
    }
  }

  /** A non-increasing sequence is the greatest arrangement of its values, and its
      reverse, ascending, is the least. */
  lemma WrapAround(s: seq<int>)
    requires NonIncreasing(s)
    ensures IsGreatest(s)
    ensures Sorted(Reversed(s)) && IsLeast(Reversed(s))
  {
    ReversedNonIncreasingIsSorted(s);
    ReversedMultiset(s);
    forall p | multiset(p) == multiset(s)
      ensures !LexLess(s, p) && !LexLess(p, Reversed(s))
    {
      assert |p| == |multiset(p)| == |multiset(s)| == |s|;
      DescendingSuffixIsGreatest(p, s, 0);
      AscendingSuffixIsLeast(p, Reversed(s), 0);
    }
  }

  /** The construction of the solution: with idx the rightmost rise of s (so s after
      idx is non-increasing) and j the rightmost position after idx holding more than
      s[idx], any r that keeps s before idx, puts s[j] at idx, is ascending after idx
      and holds the same values comes right after s. */
  lemma NextByConstruction(s: seq<int>, r: seq<int>, idx: int, j: int)
    requires 0 <= idx < j < |s| && s[idx] < s[j]
    requires forall q :: j < q < |s| ==> s[q] <= s[idx]
    requires forall a, b :: idx < a < b < |s| ==> s[a] >= s[b]
    requires multiset(r) == multiset(s) && |r| == |s|
    requires r[..idx] == s[..idx] && r[idx] == s[j]
    requires forall a, b :: idx < a < b < |r| ==> r[a] <= r[b]
    ensures IsNextPermutation(s, r)
  {
    assert s[..idx] == r[..idx];
    forall p | multiset(p) == multiset(s) && LexLess(s, p)
      ensures !LexLess(p, r)
    {
      NoneBetween(s, r, idx, j, p);
    }
  }

  lemma NoneBetween(s: seq<int>, r: seq<int>, idx: int, j: int, p: seq<int>)
    requires 0 <= idx < j < |s| && s[idx] < s[j]
    requires forall q :: j < q < |s| ==> s[q] <= s[idx]
    requires forall a, b :: idx < a < b < |s| ==> s[a] >= s[b]
    requires multiset(r) == multiset(s) && |r| == |s|
    requires r[..idx] == s[..idx] && r[idx] == s[j]
    requires forall a, b :: idx < a < b < |r| ==> r[a] <= r[b]
    requires multiset(p) == multiset(s) && LexLess(s, p)
    ensures !LexLess(p, r)
  {
    DescendingSuffixIsGreatest(p, s, idx + 1);
    AscendingSuffixIsLeast(p, r, idx + 1);
    var m :| 0 <= m < |s| && s[..m] == p[..m] && s[m] < p[m];
    assert m <= idx;
    forall k | 0 <= k < |p| && p[..k] == r[..k]
      ensures p[k] >= r[k]
    {
      if k < idx {
        assert r[..k] == s[..idx][..k] == s[..k];
        assert r[k] == r[..idx][k] == s[k];
        if k < m {
          assert p[k] == p[..m][k] == s[..m][k];
        }
      } else if k == idx {
        var q := InSuffix(p, s, idx);
      }
    }
  }

  /** s with the part s[lo..hi) in reverse order: position k of that part holds the
      value from its mirror position lo + hi - 1 - k. */
  function Mirror(s: seq<int>, lo: int, hi: int): (r: seq<int>)
    requires 0 <= lo <= hi <= |s|
    ensures |r| == |s|
  {
    seq(|s|, k requires 0 <= k < |s| => if lo <= k < hi then s[lo + hi - 1 - k] else s[k])
  }

  /** Mirroring the whole of s gives Reversed(s). */
  lemma MirrorWhole(s: seq<int>)
    ensures Mirror(s, 0, |s|) == Reversed(s)
  {
    var r, t := Mirror(s, 0, |s|), Reversed(s);
    assert forall k :: 0 <= k < |s| ==> r[k] == t[k];
  }

  /** Mirroring a part keeps the values. */
  lemma MirrorMultiset(s: seq<int>, lo: int, hi: int)
    requires 0 <= lo <= hi <= |s|
    ensures multiset(Mirror(s, lo, hi)) == multiset(s)
  {
    var before, middle, after := s[..lo], s[lo..hi], s[hi..];
    assert Mirror(s, lo, hi) == before + Reversed(middle) + after;
    ReversedKeepsParts(before, middle, after);
    assert s == before + middle + after;
  }

  lemma ReversedKeepsParts(before: seq<int>, middle: seq<int>, after: seq<int>)
    ensures multiset(before + Reversed(middle) + after) == multiset(before + middle + after)
  {
    ReversedMultiset(middle);
  }

  /** std::reverse on nums[lo..hi). */
  method ReverseRange(nums: array<int>, lo: int, hi: int)
    requires 0 <= lo <= hi <= nums.Length
    modifies nums
    ensures nums[..] == Mirror(old(nums[..]), lo, hi)
  {
    ghost var s := nums[..];
    var i, j := lo, hi - 1;
    while i < j
      invariant lo <= i && i + j == lo + hi - 1 && i <= j + 1
      invariant forall k :: lo <= k < i ==> nums[k] == s[lo + hi - 1 - k]
      invariant forall k :: j < k < hi ==> nums[k] == s[lo + hi - 1 - k]
      invariant forall k :: 0 <= k < nums.Length && !(lo <= k < i) && !(j < k < hi) ==> nums[k] == s[k]
    {
      nums[i], nums[j] := nums[j], nums[i];
      i, j := i + 1, j - 1;
    }
    assert forall k :: 0 <= k < nums.Length ==> nums[..][k] == Mirror(s, lo, hi)[k];
  }

  /** Step 1: the rightmost rise, or -1 when s never rises; everything after it is
      non-increasing. */
  method FindPivot(nums: array<int>) returns (idx: int)
    ensures idx == -1 || 0 <= idx < nums.Length - 1
    ensures idx == -1 <==> !HasPivot(nums[..])
    ensures idx >= 0 ==> nums[idx] < nums[idx + 1]
    ensures forall a, b :: idx < a < b < nums.Length ==> nums[a] >= nums[b]
  {
    var n := nums.Length;
    idx := -1;
    var i := n - 2;
    while i >= 0
      invariant -2 <= i < n - 1 && (i == -2 ==> n == 0)
      invariant forall a, b :: i < a < b < n ==> nums[a] >= nums[b]
    {
      if nums[i] < nums[i + 1] {
        idx := i;
        break;
      }
      i := i - 1;
    }
    if idx >= 0 {
      assert nums[..][idx] < nums[..][idx + 1];
    } else {
      assert forall k :: 0 <= k < n - 1 ==> nums[..][k] >= nums[..][k + 1];
    }
  }

  /** The solution: find the pivot; with none, reverse everything; otherwise swap the
      pivot with the rightmost greater value after it and reverse the part after the
      pivot. */
  method NextPermutation(nums: array<int>)
    modifies nums
    ensures multiset(nums[..]) == multiset(old(nums[..]))
    ensures !HasPivot(old(nums[..])) ==>
      nums[..] == Reversed(old(nums[..])) && IsGreatest(old(nums[..])) && Sorted(nums[..]) && IsLeast(nums[..])
    ensures HasPivot(old(nums[..])) ==> IsNextPermutation(old(nums[..]), nums[..])
  {
    ghost var s := nums[..];
    var n := nums.Length;
    var idx := FindPivot(nums);
    if idx == -1 {
      assert NonIncreasing(s);
      ReverseRange(nums, 0, n);
      WrapResult(s, nums[..]);
      return;
    }
    ghost var j := SwapWithNextGreater(nums, idx);
    ghost var u := nums[..];
    ReverseRange(nums, idx + 1, n);
    StepResult(s, u, nums[..], idx, j);
  }

  /** Without a pivot, reversing everything gives the least arrangement, and the
      input was the greatest. */
  lemma WrapResult(s: seq<int>, r: seq<int>)
    requires NonIncreasing(s) && r == Mirror(s, 0, |s|)
    ensures multiset(r) == multiset(s)
    ensures r == Reversed(s) && IsGreatest(s) && Sorted(r) && IsLeast(r)
  {
    MirrorWhole(s);
    ReversedMultiset(s);
    WrapAround(s);
  }

  /** With a pivot, the swap and the reversal give the next arrangement. */
  lemma StepResult(s: seq<int>, u: seq<int>, r: seq<int>, idx: int, j: int)
    requires 0 <= idx < j < |s| && s[idx] < s[j]
    requires forall q :: j < q < |s| ==> s[q] <= s[idx]
    requires forall a, b :: idx < a < b < |s| ==> s[a] >= s[b]
    requires u == s[idx := s[j]][j := s[idx]]
    requires r == Mirror(u, idx + 1, |u|)
    ensures IsNextPermutation(s, r)
  {
    SwapMultiset(s, idx, j);
    MirrorMultiset(u, idx + 1, |u|);
    SwapThenReverse(s, u, r, idx, j);
    NextByConstruction(s, r, idx, j);
  }

  /** Step 3: from the right, the first value above nums[idx] is swapped with it.
      One always exists, since nums[idx + 1] is above nums[idx]; j is its position. */
  method SwapWithNextGreater(nums: array<int>, idx: int) returns (ghost j: int)
    requires 0 <= idx < nums.Length - 1 && nums[idx] < nums[idx + 1]
    modifies nums
    ensures idx < j < nums.Length && old(nums[idx]) < old(nums[j])
    ensures forall q :: j < q < nums.Length ==> old(nums[q]) <= old(nums[idx])
    ensures nums[..] == old(nums[..])[idx := old(nums[j])][j := old(nums[idx])]
  {
    ghost var s := nums[..];
    j := -1;
    var i := nums.Length - 1;
    while i > idx
      invariant idx <= i <= nums.Length - 1
      invariant nums[..] == s
      invariant forall k :: i < k < nums.Length ==> s[k] <= s[idx]
    {
      if nums[i] > nums[idx] {
        nums[i], nums[idx] := nums[idx], nums[i];
        j := i;
        break;
      }
      i := i - 1;
    }
    assert j != -1;
  }

  /** The state after the swap and the reversal has the shape NextByConstruction
      asks for. */
  lemma SwapThenReverse(s: seq<int>, u: seq<int>, r: seq<int>, idx: int, j: int)
    requires 0 <= idx < j < |s| && s[idx] < s[j]
    requires forall q :: j < q < |s| ==> s[q] <= s[idx]
    requires forall a, b :: idx < a < b < |s| ==> s[a] >= s[b]
    requires u == s[idx := s[j]][j := s[idx]]
    requires r == Mirror(u, idx + 1, |u|)
    ensures r[..idx] == s[..idx] && r[idx] == s[j]
    ensures forall a, b :: idx < a < b < |r| ==> r[a] <= r[b]
  {
    SwapKeepsDescent(s, u, idx, j);
    forall a, b | idx < a < b < |r|
      ensures r[a] <= r[b]
    {
      assert r[a] == u[idx + |u| - a] && r[b] == u[idx + |u| - b];
    }
    forall k | 0 <= k < idx
      ensures r[k] == s[k]
    {
      assert r[k] == u[k];
    }
    assert r[idx] == u[idx];
    assert r[..idx] == s[..idx];
  }

  /** Swapping s[idx] with s[j], the last value after idx above it, keeps the part
      after idx non-increasing. */
  lemma SwapKeepsDescent(s: seq<int>, u: seq<int>, idx: int, j: int)
    requires 0 <= idx < j < |s| && s[idx] < s[j]
    requires forall q :: j < q < |s| ==> s[q] <= s[idx]
    requires forall a, b :: idx < a < b < |s| ==> s[a] >= s[b]
    requires u == s[idx := s[j]][j := s[idx]]
    ensures forall a, b :: idx < a < b < |u| ==> u[a] >= u[b]
  {
  }

  lemma SwapMultiset(s: seq<int>, i: int, j: int)
    requires 0 <= i < |s| && 0 <= j < |s|
    ensures multiset(s[i := s[j]][j := s[i]]) == multiset(s)
  {
  }

  /** The examples of the solution file: 1 2 3 is followed by 1 3 2, and 3 2 1 has
      no rise, and reversed it is 1 2 3. */
  lemma Examples()
    ensures HasPivot([1, 2, 3]) && IsNextPermutation([1, 2, 3], [1, 3, 2])
    ensures !HasPivot([3, 2, 1]) && Reversed([3, 2, 1]) == [1, 2, 3]
  {
    var s := [1, 2, 3];
    assert s[1] < s[2];
    NextByConstruction(s, [1, 3, 2], 1, 2);
    var t := [3, 2, 1];
    assert forall i :: 0 <= i < 2 ==> t[i] >= t[i + 1];
    assert Reversed(t)[0] == 1 && Reversed(t)[1] == 2 && Reversed(t)[2] == 3;
  }

  /** On the first example the solution gives 1 3 2. */
  method DemoNext() returns (next: seq<int>)
    ensures next == [1, 3, 2]
  {
    Examples();
    var a := new int[3];
    a[0], a[1], a[2] := 1, 2, 3;
    assert a[..] == [1, 2, 3];
    NextPermutation(a);
    next := a[..];
    NextUnique([1, 2, 3], next, [1, 3, 2]);
  }

  /** On the second example the solution wraps around to 1 2 3. */
  method DemoWrap() returns (wrapped: seq<int>)
    ensures wrapped == [1, 2, 3]
  {
    Examples();
    var b := new int[3];
    b[0], b[1], b[2] := 3, 2, 1;
    assert b[..] == [3, 2, 1];
    NextPermutation(b);
    wrapped := b[..];
  }
}
