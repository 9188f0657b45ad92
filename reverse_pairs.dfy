/** Reverse pairs: the number of index pairs i < j with nums[i] > 2 * nums[j],
    counted once by brute force and once by a merge sort that counts the pairs
    crossing each split before merging the two sorted halves. */
module ReversePairs {
  import opened Order

  /** How many indexes k in the window lo <= k < hi of s make x > 2 * s[k]. */
  function AboveIn(x: int, s: seq<int>, lo: int, hi: int): nat
    requires 0 <= lo <= hi <= |s|
    decreases hi - lo
  {
    if lo == hi then 0 else AboveIn(x, s, lo, hi - 1) + (if x > 2 * s[hi - 1] then 1 else 0)
  }

  /** How many elements y of t make x > 2 * y. */
  function Above(x: int, t: seq<int>): nat
  {
    AboveIn(x, t, 0, |t|)
  }

  /** The number of reverse pairs inside the window lo..hi-1 of s: index pairs
      lo <= i < j < hi with s[i] > 2 * s[j]. */
  function PairsIn(s: seq<int>, lo: int, hi: int): nat
    requires 0 <= lo <= hi <= |s|
    decreases hi - lo
  {
    if lo == hi then 0 else AboveIn(s[lo], s, lo + 1, hi) + PairsIn(s, lo + 1, hi)
  }

  /** The number of pairs (x from a, y from b) with x > 2 * y. */
  function Cross(a: seq<int>, b: seq<int>): nat
  {
    if a == [] then 0 else Above(a[0], b) + Cross(a[1..], b)
  }

  // ---------------------------------------------------------------------------
  // Facts about the counting functions
  // ---------------------------------------------------------------------------

  lemma {:induction false} AboveInSplit(x: int, s: seq<int>, lo: int, mid: int, hi: int)
    requires 0 <= lo <= mid <= hi <= |s|
    ensures AboveIn(x, s, lo, hi) == AboveIn(x, s, lo, mid) + AboveIn(x, s, mid, hi)
    decreases hi - mid
  {
    if mid < hi {
      AboveInSplit(x, s, lo, mid, hi - 1);
    }
  }

  /** The count over a window depends only on the values in it, wherever the window
      sits: s[lo..hi] and t[lo+d..hi+d] hold the same values. */
  lemma {:induction false} AboveInShift(x: int, s: seq<int>, t: seq<int>, lo: int, hi: int, d: int)
    requires 0 <= lo <= hi <= |s| && 0 <= lo + d && hi + d <= |t|
    requires forall k :: lo <= k < hi ==> s[k] == t[k + d]
    ensures AboveIn(x, s, lo, hi) == AboveIn(x, t, lo + d, hi + d)
    decreases hi - lo
  {
    if lo < hi {
      AboveInShift(x, s, t, lo, hi - 1, d);
      assert s[hi - 1] == t[hi - 1 + d];
    }
  }

  /** The count over a window is the count over the slice it delimits. */
  lemma AboveInSlice(x: int, s: seq<int>, lo: int, hi: int)
    requires 0 <= lo <= hi <= |s|
    ensures AboveIn(x, s, lo, hi) == Above(x, s[lo..hi])
  {
    AboveInShift(x, s, s[lo..hi], lo, hi, -lo);
  }

  lemma AboveAppend(x: int, a: seq<int>, b: seq<int>)
    ensures Above(x, a + b) == Above(x, a) + Above(x, b)
  {
    AboveInSplit(x, a + b, 0, |a|, |a + b|);
    AboveInShift(x, a + b, a, 0, |a|, 0);
    AboveInShift(x, a + b, b, |a|, |a + b|, -|a|);
  }

  /** Taking the element at index k out of s takes one copy of s[k] out of its
      multiset. */
  lemma MultisetRemove(s: seq<int>, k: int)
    requires 0 <= k < |s|
    ensures multiset(s[..k] + s[k + 1..]) == multiset(s) - multiset{s[k]}
  {
    assert s == s[..k] + [s[k]] + s[k + 1..];
  }

  /** A value of t occurs in every sequence with the same multiset as t. */
  lemma FindIndex(s: seq<int>, v: int, t: seq<int>) returns (k: int)
    requires multiset(s) == multiset(t) && v in t
    ensures 0 <= k < |s| && s[k] == v
  {
    assert v in multiset(t);
    k :| 0 <= k < |s| && s[k] == v;
  }

  /** Taking the element at index k out of t lowers the count by that element's
      contribution. */
  lemma AboveRemove(x: int, t: seq<int>, k: int)
    requires 0 <= k < |t|
    ensures Above(x, t) == Above(x, t[..k] + t[k + 1..]) + (if x > 2 * t[k] then 1 else 0)
  {
    AboveInSplit(x, t, 0, k, |t|);
    AboveInSplit(x, t, k, k + 1, |t|);
    assert AboveIn(x, t, k, k + 1) == (if x > 2 * t[k] then 1 else 0);
    AboveInSlice(x, t, 0, k);
    AboveInSlice(x, t, k + 1, |t|);
    assert t[0..k] == t[..k] && t[k + 1..|t|] == t[k + 1..];
    AboveAppend(x, t[..k], t[k + 1..]);
  }

  /** Above(x, t) depends only on the multiset of values in t. */
  lemma {:induction false} AbovePermutation(x: int, a: seq<int>, b: seq<int>)
    requires multiset(a) == multiset(b)
    ensures Above(x, a) == Above(x, b)
    decreases |a|
  {
    if a == [] {
      assert |b| == |multiset(b)| == 0;
    } else {
      var init, v := a[..|a| - 1], a[|a| - 1];
      var k := FindIndex(b, v, a);
      var rest := b[..k] + b[k + 1..];
      MultisetRemove(b, k);
      MultisetRemove(a, |a| - 1);
      assert a[..|a| - 1] + a[|a|..] == init;
      AbovePermutation(x, init, rest);
      AboveRemove(x, b, k);
      AboveRemove(x, a, |a| - 1);
    }
  }

  lemma {:induction false} CrossAppend(a1: seq<int>, a2: seq<int>, b: seq<int>)
    ensures Cross(a1 + a2, b) == Cross(a1, b) + Cross(a2, b)
    decreases |a1|
  {
    if a1 == [] {
      assert a1 + a2 == a2;
    } else {
      CrossAppend(a1[1..], a2, b);
      assert (a1 + a2)[1..] == a1[1..] + a2;
    }
  }

  lemma CrossSnoc(a: seq<int>, x: int, b: seq<int>)
    ensures Cross(a + [x], b) == Cross(a, b) + Above(x, b)
  {
    CrossAppend(a, [x], b);
    assert [x][1..] == [];
  }

  lemma {:induction false} CrossPermutationRight(a: seq<int>, b: seq<int>, b': seq<int>)
    requires multiset(b) == multiset(b')
    ensures Cross(a, b) == Cross(a, b')
    decreases |a|
  {
    if a != [] {
      AbovePermutation(a[0], b, b');
      CrossPermutationRight(a[1..], b, b');
    }
  }

  /** Taking the element at index k out of a lowers the cross count by the pairs
      that element starts. */
  lemma CrossRemove(a: seq<int>, k: int, b: seq<int>)
    requires 0 <= k < |a|
    ensures Cross(a, b) == Cross(a[..k] + a[k + 1..], b) + Above(a[k], b)
  {
    assert a == a[..k] + ([a[k]] + a[k + 1..]);
    CrossAppend(a[..k], [a[k]] + a[k + 1..], b);
    CrossAppend([a[k]], a[k + 1..], b);
    CrossAppend(a[..k], a[k + 1..], b);
    assert [a[k]][1..] == [];
  }

  lemma {:induction false} CrossPermutationLeft(a: seq<int>, a': seq<int>, b: seq<int>)
    requires multiset(a) == multiset(a')
    ensures Cross(a, b) == Cross(a', b)
    decreases |a|
  {
    if a == [] {
      assert |a'| == |multiset(a')| == 0;
    } else {
      var k := FindIndex(a', a[0], a);
      var rest := a'[..k] + a'[k + 1..];
      MultisetRemove(a', k);
      MultisetRemove(a, 0);
      assert a[..0] + a[1..] == a[1..];
      CrossPermutationLeft(a[1..], rest, b);
      CrossRemove(a', k, b);
    }
  }


  /** Cross-pair counts depend only on the multisets of the two halves, so sorting
      each half does not change them. */
  lemma CrossPermutation(a: seq<int>, a': seq<int>, b: seq<int>, b': seq<int>)
    requires multiset(a) == multiset(a') && multiset(b) == multiset(b')
    ensures Cross(a, b) == Cross(a', b')
  {
    CrossPermutationRight(a, b, b');
    CrossPermutationLeft(a, a', b');
  }

  /** The reverse pairs of a window are those inside its first part, those inside
      its second part, and those crossing from the first part to the second. */
  lemma {:induction false} PairsInSplit(s: seq<int>, lo: int, mid: int, hi: int)
    requires 0 <= lo <= mid <= hi <= |s|
    ensures PairsIn(s, lo, hi) == PairsIn(s, lo, mid) + PairsIn(s, mid, hi) + Cross(s[lo..mid], s[mid..hi])
    decreases mid - lo
  {
    if lo == mid {
      assert s[lo..mid] == [];
    } else {
      PairsInSplit(s, lo + 1, mid, hi);
      AboveInSplit(s[lo], s, lo + 1, mid, hi);
      AboveInSlice(s[lo], s, mid, hi);
      assert s[lo..mid][0] == s[lo] && s[lo..mid][1..] == s[lo + 1..mid];
    }
  }

  /** Reverse pairs inside a window depend only on the values in the window. */
  lemma {:induction false} PairsInFrame(s: seq<int>, t: seq<int>, lo: int, hi: int)
    requires 0 <= lo <= hi <= |s| && hi <= |t|
    requires s[lo..hi] == t[lo..hi]
    ensures PairsIn(s, lo, hi) == PairsIn(t, lo, hi)
    decreases hi - lo
  {
    if lo < hi {
      assert s[lo] == s[lo..hi][0] == t[lo];
      assert s[lo + 1..hi] == s[lo..hi][1..] == t[lo + 1..hi];
      PairsInFrame(s, t, lo + 1, hi);
      forall k | lo + 1 <= k < hi
        ensures s[k] == t[k + 0]
      {
        assert s[k] == s[lo + 1..hi][k - lo - 1];
      }
      AboveInShift(s[lo], s, t, lo + 1, hi, 0);
    }
  }

  lemma {:induction false} AboveAll(x: int, s: seq<int>, lo: int, hi: int)
    requires 0 <= lo <= hi <= |s|
    requires forall k :: lo <= k < hi ==> x > 2 * s[k]
    ensures AboveIn(x, s, lo, hi) == hi - lo
    decreases hi - lo
  {
    if lo < hi {
      AboveAll(x, s, lo, hi - 1);
    }
  }

  lemma {:induction false} AboveNone(x: int, s: seq<int>, lo: int, hi: int)
    requires 0 <= lo <= hi <= |s|
    requires forall k :: lo <= k < hi ==> x <= 2 * s[k]
    ensures AboveIn(x, s, lo, hi) == 0
    decreases hi - lo
  {
    if lo < hi {
      AboveNone(x, s, lo, hi - 1);
    }
  }

  /** In an ascending t, once the cursor j stops at the first element y with
      x <= 2 * y, exactly the j elements before it pair with x. */
  lemma AboveSortedCursor(x: int, t: seq<int>, j: int)
    requires Sorted(t) && 0 <= j <= |t|
    requires forall p :: 0 <= p < j ==> x > 2 * t[p]
    requires j == |t| || x <= 2 * t[j]
    ensures Above(x, t) == j
  {
    AboveInSplit(x, t, 0, j, |t|);
    AboveAll(x, t, 0, j);
    AboveNone(x, t, j, |t|);
  }

  // ---------------------------------------------------------------------------
  // Brute force
  // ---------------------------------------------------------------------------

  /** Compares every pair; leaves nums as it is. */
  method ReversePairsBruteForce(nums: array<int>) returns (count: int)
    ensures count == PairsIn(nums[..], 0, nums.Length)
  {
    ghost var s := nums[..];
    count := 0;
    var n := nums.Length;
    var i := 0;
    while i < n
      invariant 0 <= i <= n
      invariant count + PairsIn(s, i, n) == PairsIn(s, 0, n)
    {
      ghost var base := count;
      var j := i + 1;
      while j < n
        invariant i + 1 <= j <= n
        invariant count == base + AboveIn(s[i], s, i + 1, j)
      {
        if nums[i] > nums[j] * 2 {
          count := count + 1;
        }
        j := j + 1;
      }
      i := i + 1;
    }
  }

  // ---------------------------------------------------------------------------
  // Merge sort with counting
  // ---------------------------------------------------------------------------

  /** Counts the pairs from the sorted left half nums[left..mid] to the sorted right
      half nums[mid+1..right] with one cursor j into the right half that only moves
      forward. */
  method CountCrossPairs(nums: array<int>, left: int, mid: int, right: int) returns (count: int)
    requires 0 <= left <= mid + 1 <= right + 1 <= nums.Length
    requires Sorted(nums[..][left..mid + 1]) && Sorted(nums[..][mid + 1..right + 1])
    ensures count == Cross(nums[..][left..mid + 1], nums[..][mid + 1..right + 1])
  {
    ghost var leftHalf, rightHalf := nums[left..mid + 1], nums[mid + 1..right + 1];
    count := 0;
    var j := mid + 1;
    var i := left;
    while i <= mid
      invariant left <= i <= mid + 1
      invariant mid + 1 <= j <= right + 1
      invariant count == Cross(leftHalf[..i - left], rightHalf)
      invariant i <= mid ==> forall t :: 0 <= t < j - (mid + 1) ==> nums[i] > 2 * rightHalf[t]
    {
      while j <= right && nums[i] > 2 * nums[j]
        invariant mid + 1 <= j <= right + 1
        invariant forall t :: 0 <= t < j - (mid + 1) ==> nums[i] > 2 * rightHalf[t]
      {
        j := j + 1;
      }
      if j <= right {
        assert rightHalf[j - (mid + 1)] == nums[j];
      }
      AboveSortedCursor(nums[i], rightHalf, j - (mid + 1));
      CrossSnoc(leftHalf[..i - left], nums[i], rightHalf);
      assert leftHalf[..i + 1 - left] == leftHalf[..i - left] + [nums[i]];
      count := count + (j - (mid + 1));
      if i + 1 <= mid {
        assert nums[i] == leftHalf[i - left] <= leftHalf[i + 1 - left] == nums[i + 1];
      }
      i := i + 1;
    }
    assert leftHalf[..i - left] == leftHalf;
  }

  /** The merge of a and b: repeatedly take the smaller front element, taking from a
      on ties. */
  function MergeOf(a: seq<int>, b: seq<int>): seq<int>
    decreases |a| + |b|
  {
    if a == [] then b
    else if b == [] then a
    else if a[0] <= b[0] then [a[0]] + MergeOf(a[1..], b)
    else [b[0]] + MergeOf(a, b[1..])
  }

  /** Merging keeps every value with its multiplicity. */
  lemma {:induction false} MergeOfPermutation(a: seq<int>, b: seq<int>)
    ensures multiset(MergeOf(a, b)) == multiset(a) + multiset(b)
    decreases |a| + |b|
  {
    if a != [] && b != [] {
      if a[0] <= b[0] {
        MergeOfPermutation(a[1..], b);
        MultisetCons(a);
        MultisetCons(MergeOf(a, b));
      } else {
        MergeOfPermutation(a, b[1..]);
        MultisetCons(b);
        MultisetCons(MergeOf(a, b));
      }
    }
  }

  lemma MultisetCons(s: seq<int>)
    requires s != []
    ensures multiset(s) == multiset{s[0]} + multiset(s[1..])
  {
    assert s == [s[0]] + s[1..];
  }

  /** The merge starts with the smaller of the two front elements. */
  lemma MergeOfHead(a: seq<int>, b: seq<int>)
    requires a != [] || b != []
    ensures MergeOf(a, b) != []
    ensures a != [] && (b == [] || a[0] <= b[0]) ==> MergeOf(a, b)[0] == a[0]
    ensures b != [] && (a == [] || b[0] < a[0]) ==> MergeOf(a, b)[0] == b[0]
  {
  }

  /** Merging two ascending sequences gives an ascending sequence. */
  lemma {:induction false} MergeOfSorted(a: seq<int>, b: seq<int>)
    requires Sorted(a) && Sorted(b)
    ensures Sorted(MergeOf(a, b))
    decreases |a| + |b|
  {
    if a != [] && b != [] {
      if a[0] <= b[0] {
        MergeOfSorted(a[1..], b);
        SortedCons(a[0], MergeOf(a[1..], b), a[1..], b);
      } else {
        MergeOfSorted(a, b[1..]);
        SortedCons(b[0], MergeOf(a, b[1..]), a, b[1..]);
      }
    }
  }

  /** Putting x in front of the merge of a and b keeps it ascending when x is no larger
      than any element of a or b. */
  lemma SortedCons(x: int, m: seq<int>, a: seq<int>, b: seq<int>)
    requires Sorted(m) && Sorted(a) && Sorted(b) && m == MergeOf(a, b)
    requires (a == [] || x <= a[0]) && (b == [] || x <= b[0])
    ensures Sorted([x] + m)
  {
    if m != [] {
      MergeOfHead(a, b);
    }
  }

  /** The merge buffer: the sorted halves a = nums[left..mid] and b = nums[mid+1..right]
      merged into one ascending sequence, taking from a on ties; i and j index
      into a and b. */
  method MergeHalves(a: seq<int>, b: seq<int>) returns (temp: seq<int>)
    ensures temp == MergeOf(a, b)
  {
    temp := [];
    var i, j := 0, 0;
    while i < |a| && j < |b|
      invariant 0 <= i <= |a| && 0 <= j <= |b|
      invariant temp + MergeOf(a[i..], b[j..]) == MergeOf(a, b)
    {
      assert a[i..][1..] == a[i + 1..] && b[j..][1..] == b[j + 1..];
      if a[i] <= b[j] {
        assert MergeOf(a[i..], b[j..]) == [a[i]] + MergeOf(a[i + 1..], b[j..]);
        assert temp + MergeOf(a[i..], b[j..]) == (temp + [a[i]]) + MergeOf(a[i + 1..], b[j..]);
        temp := temp + [a[i]];
        i := i + 1;
      } else {
        assert MergeOf(a[i..], b[j..]) == [b[j]] + MergeOf(a[i..], b[j + 1..]);
        assert temp + MergeOf(a[i..], b[j..]) == (temp + [b[j]]) + MergeOf(a[i..], b[j + 1..]);
        temp := temp + [b[j]];
        j := j + 1;
      }
    }
    // One side is used up; the rest of the other side follows unchanged.
    if i < |a| {
      assert b[j..] == [] && MergeOf(a[i..], b[j..]) == a[i..];
    } else {
      assert a[i..] == [] && MergeOf(a[i..], b[j..]) == b[j..];
    }
    temp := AppendRest(temp, a, i);
    temp := AppendRest(temp, b, j);
  }

  /** The copy loops that finish a merge: appends s[k..] to temp one element at a
      time. */
  method AppendRest(temp: seq<int>, s: seq<int>, k: int) returns (r: seq<int>)
    requires 0 <= k <= |s|
    ensures r == temp + s[k..]
  {
    r := temp;
    var i := k;
    while i < |s|
      invariant k <= i <= |s|
      invariant r == temp + s[k..i]
    {
      assert s[k..i + 1] == s[k..i] + [s[i]];
      r := r + [s[i]];
      i := i + 1;
    }
    assert s[k..i] == s[k..];
  }

  /** Sorts nums[left..right] in place and returns the number of reverse pairs the
      range held before it was sorted. */
  method MergeSort(nums: array<int>, left: int, right: int) returns (count: int)
    requires 0 <= left <= right + 1 <= nums.Length
    modifies nums
    ensures Sorted(nums[..][left..right + 1])
    ensures multiset(nums[..][left..right + 1]) == multiset(old(nums[..])[left..right + 1])
    ensures count == PairsIn(old(nums[..]), left, right + 1)
    ensures nums[..][..left] == old(nums[..])[..left] && nums[..][right + 1..] == old(nums[..])[right + 1..]
    decreases right - left
  {
    if left >= right {
      assert nums[..][left..right + 1] == [] || nums[..][left..right + 1] == [nums[left]];
      return 0;
    }
    ghost var orig := nums[..];
    var mid := (left + right) / 2;
    count := 0;

    var c := MergeSort(nums, left, mid);
    ghost var c1, afterLeft := c, nums[..];
    count := count + c;
    c := MergeSort(nums, mid + 1, right);
    ghost var c2, afterRight := c, nums[..];
    count := count + c;
    SplitHalves(orig, afterLeft, afterRight, left, mid, right);
    c := CountCrossPairs(nums, left, mid, right);
    count := count + c;
    Merge(nums, left, mid, right);
    CountMergeStep(orig, afterLeft, afterRight, left, mid, right, c1, c2, c);
  }

  /** After sorting the left half and then the right half, each half holds the values
      it held at the start, sorted. */
  lemma SplitHalves(orig: seq<int>, afterLeft: seq<int>, afterRight: seq<int>, left: int, mid: int, right: int)
    requires 0 <= left <= mid < right < |orig| == |afterLeft| == |afterRight|
    requires Sorted(afterLeft[left..mid + 1])
    requires multiset(afterLeft[left..mid + 1]) == multiset(orig[left..mid + 1])
    requires afterLeft[mid + 1..] == orig[mid + 1..]
    requires Sorted(afterRight[mid + 1..right + 1])
    requires multiset(afterRight[mid + 1..right + 1]) == multiset(afterLeft[mid + 1..right + 1])
    requires afterRight[..mid + 1] == afterLeft[..mid + 1]
    ensures Sorted(afterRight[left..mid + 1]) && Sorted(afterRight[mid + 1..right + 1])
    ensures multiset(afterRight[left..mid + 1]) == multiset(orig[left..mid + 1])
    ensures multiset(afterRight[mid + 1..right + 1]) == multiset(orig[mid + 1..right + 1])
    ensures multiset(afterRight[left..right + 1]) == multiset(orig[left..right + 1])
  {
    assert afterRight[left..mid + 1] == afterLeft[left..mid + 1];
    assert afterLeft[mid + 1..right + 1] == orig[mid + 1..right + 1];
    assert afterRight[left..right + 1] == afterRight[left..mid + 1] + afterRight[mid + 1..right + 1];
    assert orig[left..right + 1] == orig[left..mid + 1] + orig[mid + 1..right + 1];
  }

  /** The three counts of one merge-sort step add up to the reverse pairs of the range
      as it was before the step. */
  lemma CountMergeStep(orig: seq<int>, afterLeft: seq<int>, afterRight: seq<int>, left: int, mid: int, right: int,
                       c1: int, c2: int, c3: int)
    requires 0 <= left <= mid < right < |orig| == |afterLeft| == |afterRight|
    requires multiset(afterRight[left..mid + 1]) == multiset(orig[left..mid + 1])
    requires multiset(afterRight[mid + 1..right + 1]) == multiset(orig[mid + 1..right + 1])
    requires afterLeft[mid + 1..] == orig[mid + 1..]
    requires c1 == PairsIn(orig, left, mid + 1)
    requires c2 == PairsIn(afterLeft, mid + 1, right + 1)
    requires c3 == Cross(afterRight[left..mid + 1], afterRight[mid + 1..right + 1])
    ensures c1 + c2 + c3 == PairsIn(orig, left, right + 1)
  {
    assert afterLeft[mid + 1..right + 1] == orig[mid + 1..right + 1];
    PairsInFrame(afterLeft, orig, mid + 1, right + 1);
    CrossPermutation(orig[left..mid + 1], afterRight[left..mid + 1], orig[mid + 1..right + 1], afterRight[mid + 1..right + 1]);
    PairsInSplit(orig, left, mid + 1, right + 1);
  }

  /** The merge step: merges the sorted halves nums[left..mid] and nums[mid+1..right]
      through a buffer, leaving nums[left..right] sorted. */
  method Merge(nums: array<int>, left: int, mid: int, right: int)
    requires 0 <= left <= mid < right < nums.Length
    requires Sorted(nums[..][left..mid + 1]) && Sorted(nums[..][mid + 1..right + 1])
    modifies nums
    ensures Sorted(nums[..][left..right + 1])
    ensures multiset(nums[..][left..right + 1]) == multiset(old(nums[..])[left..right + 1])
    ensures nums[..][..left] == old(nums[..])[..left] && nums[..][right + 1..] == old(nums[..])[right + 1..]
  {
    ghost var before := nums[..];
    ghost var leftHalf, rightHalf := before[left..mid + 1], before[mid + 1..right + 1];
    var temp := MergeHalves(nums[left..mid + 1], nums[mid + 1..right + 1]);
    assert temp == MergeOf(leftHalf, rightHalf);
    MergeOfSorted(leftHalf, rightHalf);
    MergeOfPermutation(leftHalf, rightHalf);
    assert before[left..right + 1] == leftHalf + rightHalf;
    assert |temp| == |multiset(temp)| == right - left + 1;
    CopyBack(nums, left, right, temp);
  }

  /** Copies the merge buffer back over nums[left..right]. */
  method CopyBack(nums: array<int>, left: int, right: int, temp: seq<int>)
    requires 0 <= left && right < nums.Length && |temp| == right - left + 1
    modifies nums
    ensures nums[..][left..right + 1] == temp
    ensures nums[..][..left] == old(nums[..])[..left] && nums[..][right + 1..] == old(nums[..])[right + 1..]
  {
    ghost var before := nums[..];
    var k := left;
    while k <= right
      invariant left <= k <= right + 1
      invariant forall t :: left <= t < k ==> nums[t] == temp[t - left]
      invariant forall t :: 0 <= t < left ==> nums[t] == before[t]
      invariant forall t :: k <= t < nums.Length ==> nums[t] == before[t]
    {
      nums[k] := temp[k - left];
      k := k + 1;
    }
    CopyBackResult(before, nums[..], left, right, temp);
  }

  /** The state CopyBack leaves, in terms of slices. */
  lemma CopyBackResult(before: seq<int>, after: seq<int>, left: int, right: int, temp: seq<int>)
    requires 0 <= left && right < |before| == |after| && |temp| == right - left + 1
    requires forall t :: left <= t <= right ==> after[t] == temp[t - left]
    requires forall t :: 0 <= t < left ==> after[t] == before[t]
    requires forall t :: right < t < |after| ==> after[t] == before[t]
    ensures after[left..right + 1] == temp
    ensures after[..left] == before[..left] && after[right + 1..] == before[right + 1..]
  {
  }

  /** Counts the reverse pairs of nums; leaves nums sorted. */
  method ReversePairs(nums: array<int>) returns (count: int)
    modifies nums
    ensures count == PairsIn(old(nums[..]), 0, nums.Length)
    ensures Sorted(nums[..])
    ensures multiset(nums[..]) == old(multiset(nums[..]))
  {
    count := MergeSort(nums, 0, nums.Length - 1);
    assert nums[..][0..nums.Length] == nums[..];
    assert old(nums[..])[0..nums.Length] == old(nums[..]);
  }

  /** Both solutions on {1, 3, 2, 3, 1}. There are two reverse pairs, both a 3
      before the final 1: indices (1, 4) and (3, 4); so both solutions print 2. */
  method Demo() returns (brute: int, optimal: int)
    ensures brute == 2 && optimal == 2
  {
    var nums := new int[5][1, 3, 2, 3, 1];
    assert nums[..] == [1, 3, 2, 3, 1];
    brute := ReversePairsBruteForce(nums);
    optimal := ReversePairs(nums);
  }
}
