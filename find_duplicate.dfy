/** Find the duplicate number (Array-II/findDuplictaeNumber.cpp): nums holds n + 1
    values from 1 to n, so some value occurs twice. Three solutions: sort and look
    at neighbours, count occurrences in a frequency table, and Floyd's cycle
    detection on the walk index -> nums[index]. */
module FindDuplicate {
  import opened Order
  import opened Tally

  /** v occurs at least twice in s. */
  ghost predicate Repeated(s: seq<int>, v: int) {
    multiset(s)[v] >= 2
  }

  /** Two different positions holding v make v repeated. */
  lemma TwoPlaces(s: seq<int>, i: int, j: int)
    requires 0 <= i < j < |s| && s[i] == s[j]
    ensures Repeated(s, s[i])
  {
    assert s == s[..i] + [s[i]] + s[i + 1..j] + [s[j]] + s[j + 1..];
  }

  /** All values differ exactly when none occurs twice. */
  lemma {:induction false} DistinctIffNoneRepeated(s: seq<int>)
    ensures Distinct(s) <==> forall v :: !Repeated(s, v)
  {
    if !Distinct(s) {
      var i, j :| 0 <= i < j < |s| && s[i] == s[j];
      TwoPlaces(s, i, j);
    } else if s != [] {
      var t := s[1..];
      assert s == [s[0]] + t;
      assert Distinct(t);
      DistinctIffNoneRepeated(t);
      assert s[0] !in t;
      forall v
        ensures !Repeated(s, v)
      {
        assert !Repeated(t, v);
      }
    }
  }

  /** An ascending sequence without two equal neighbours holds distinct values. */
  lemma SortedNoTwinsIsDistinct(s: seq<int>)
    requires Sorted(s)
    requires forall j :: 0 <= j < |s| - 1 ==> s[j] != s[j + 1]
    ensures Distinct(s)
  {
    forall p, q | 0 <= p < q < |s|
      ensures s[p] != s[q]
    {
      assert s[p] < s[p + 1] <= s[q];
    }
  }

  /** Approach 1: sort arr, then return the first value equal to its right
      neighbour, or -1. The bound arr.size() - 1 is unsigned and wraps on an empty
      vector, reading past its end, so arr must not be empty. */
  method FindBySorting(arr: array<int>) returns (r: int)
    requires arr.Length >= 1
    modifies arr
    ensures Sorted(arr[..]) && multiset(arr[..]) == multiset(old(arr[..]))
    ensures r != -1 ==> exists i :: 0 <= i < arr.Length - 1 && arr[i] == arr[i + 1] == r
    ensures r != -1 ==> Repeated(old(arr[..]), r)
    ensures r != -1 ==> forall w :: Repeated(old(arr[..]), w) ==> r <= w
    ensures Distinct(old(arr[..])) <==> r == -1 && !Repeated(old(arr[..]), -1)
  {
    Sort(arr);
    DistinctIffNoneRepeated(old(arr[..]));
    var i := 0;
    while i < arr.Length - 1
      invariant 0 <= i <= arr.Length - 1
      invariant forall j :: 0 <= j < i ==> arr[j] != arr[j + 1]
    {
      if arr[i] == arr[i + 1] {
        TwoPlaces(arr[..], i, i + 1);
        FirstTwinIsSmallest(arr[..], i);
        forall w | Repeated(old(arr[..]), w)
          ensures arr[i] <= w
        {
          assert Repeated(arr[..], w);
        }
        assert Repeated(old(arr[..]), arr[i]);
        return arr[i];
      }
      i := i + 1;
    }
    SortedNoTwinsIsDistinct(arr[..]);
    DistinctIffNoneRepeated(arr[..]);
    forall v
      ensures !Repeated(old(arr[..]), v)
    {
      assert !Repeated(arr[..], v);
    }
    return -1;
  }

  /** A repeated value sits at two positions. */
  lemma PlacesOf(s: seq<int>, v: int) returns (p: int, q: int)
    requires Repeated(s, v)
    ensures 0 <= p < q < |s| && s[p] == v && s[q] == v
  {
    assert v in multiset(s);
    p :| 0 <= p < |s| && s[p] == v;
    assert s == s[..p] + [v] + s[p + 1..];
    assert multiset(s) == multiset(s[..p]) + multiset{v} + multiset(s[p + 1..]);
    if v in multiset(s[p + 1..]) {
      var k :| 0 <= k < |s[p + 1..]| && s[p + 1..][k] == v;
      q := p + 1 + k;
    } else {
      assert v in multiset(s[..p]);
      var k :| 0 <= k < p && s[..p][k] == v;
      p, q := k, p;
    }
  }

  /** In a sorted sequence, the first pair of equal neighbours holds the smallest
      repeated value. */
  lemma FirstTwinIsSmallest(s: seq<int>, i: int)
    requires Sorted(s) && 0 <= i < |s| - 1 && s[i] == s[i + 1]
    requires forall j :: 0 <= j < i ==> s[j] != s[j + 1]
    ensures forall w :: Repeated(s, w) ==> s[i] <= w
  {
    forall w | Repeated(s, w)
      ensures s[i] <= w
    {
      var p, q := PlacesOf(s, w);
      assert s[p] <= s[p + 1] <= s[q];
      assert p >= i;
    }
  }

  /** The first position i whose value already occurs before it. */
  ghost predicate FirstRepeat(s: seq<int>, i: int)
    requires 0 <= i < |s|
  {
    Distinct(s[..i]) && s[i] in s[..i]
  }

  /** Approach 2: freq[x] counts the values seen so far, each at most once; the
      first value seen a second time is returned, -1 if there is none. freq has
      n + 1 slots, so every value must be an index into it. */
  method FindByFrequency(arr: seq<int>) returns (r: int)
    requires forall k :: 0 <= k < |arr| ==> 0 <= arr[k] <= |arr|
    ensures r == -1 <==> Distinct(arr)
    ensures r != -1 ==> Repeated(arr, r)
    ensures r != -1 ==> exists i :: 0 <= i < |arr| && arr[i] == r && FirstRepeat(arr, i)
  {
    var n := |arr|;
    var freq := new int[n + 1](_ => 0);
    var i := 0;
    while i < n
      invariant 0 <= i <= n
      invariant Distinct(arr[..i])
      invariant forall v :: 0 <= v <= n ==> freq[v] == if v in arr[..i] then 1 else 0
    {
      var x := arr[i];
      if freq[x] == 1 {
        var p :| 0 <= p < i && arr[..i][p] == x;
        TwoPlaces(arr, p, i);
        assert FirstRepeat(arr, i);
        return x;
      }
      freq[x] := freq[x] + 1;
      assert arr[..i + 1] == arr[..i] + [x];
      i := i + 1;
    }
    assert arr[..i] == arr;
    return -1;
  }

  /** nums is a walk map: n + 1 slots, each holding a value from 1 to n. */
  ghost predicate WalkMap(nums: seq<int>) {
    |nums| >= 2 && forall k :: 0 <= k < |nums| ==> 1 <= nums[k] < |nums|
  }

  /** Where t steps of index -> nums[index] lead from index 0. */
  ghost function Walk(nums: seq<int>, t: nat): (x: int)
    requires WalkMap(nums)
    ensures 0 <= x < |nums|
    ensures t >= 1 ==> x >= 1
  {
    if t == 0 then 0 else nums[Walk(nums, t - 1)]
  }

  /** Once the walk is at the same index at steps p and p + d, it repeats itself
      with period d from step p on. */
  lemma {:induction false} Periodic(nums: seq<int>, p: nat, d: nat, u: nat)
    requires WalkMap(nums) && Walk(nums, p) == Walk(nums, p + d) && u >= p
    ensures Walk(nums, u + d) == Walk(nums, u)
    decreases u - p
  {
    if u > p {
      Periodic(nums, p, d, u - 1);
    }
  }

  lemma {:induction false} PeriodicTimes(nums: seq<int>, p: nat, d: nat, u: nat, c: nat)
    requires WalkMap(nums) && Walk(nums, p) == Walk(nums, p + d) && u >= p
    ensures Walk(nums, u + c * d) == Walk(nums, u)
  {
    if c > 0 {
      PeriodicTimes(nums, p, d, u, c - 1);
      Periodic(nums, p, d, u + (c - 1) * d);
      assert u + c * d == u + (c - 1) * d + d;
    }
  }

  /** The walk revisits an index: steps 1 .. n + 1 land on n + 1 indices among
      the n indices 1 .. n. */
  lemma WalkRepeats(nums: seq<int>) returns (p: nat, d: nat)
    requires WalkMap(nums)
    ensures p >= 1 && d >= 1 && Walk(nums, p) == Walk(nums, p + d)
  {
    var n := |nums| - 1;
    var s := seq(n + 1, i requires 0 <= i <= n => Walk(nums, i + 1));
    Pigeonhole(s, n);
    var i, j :| 0 <= i < j < |s| && s[i] == s[j];
    p, d := i + 1, j - i;
  }

  /** The tortoise (one step) and the hare (two steps) meet after some K >= 1 rounds. */
  lemma MeetingExists(nums: seq<int>) returns (K: nat)
    requires WalkMap(nums)
    ensures K >= 1 && Walk(nums, 1 + K) == Walk(nums, 1 + 2 * K)
  {
    var p, d := WalkRepeats(nums);
    K := p * d;
    PeriodicTimes(nums, p, d, 1 + K, p);
    assert 1 + 2 * K == 1 + K + p * d;
  }

  /** Approach 3: Floyd's cycle detection. Phase 1 runs slow one step and fast two
      steps until they meet; phase 2 restarts fast at nums[0] and runs both one step
      until they meet, at the duplicate. Every index read is in bounds. */
  method FindByCycle(nums: seq<int>) returns (r: int)
    requires WalkMap(nums)
    ensures 1 <= r < |nums| && Repeated(nums, r)
  {
    ghost var K := MeetingExists(nums);
    var slow := nums[0];
    var fast := nums[0];
    assert slow == Walk(nums, 1) by {
      assert Walk(nums, 1) == nums[Walk(nums, 0)];
    }
    slow := nums[slow];
    fast := nums[nums[fast]];
    assert Walk(nums, 3) == nums[Walk(nums, 2)] && Walk(nums, 2) == nums[Walk(nums, 1)];
    ghost var k := 1;
    while slow != fast
      invariant 1 <= k <= K
      invariant slow == Walk(nums, 1 + k) && fast == Walk(nums, 1 + 2 * k)
      decreases K - k
    {
      slow := nums[slow];
      fast := nums[nums[fast]];
      k := k + 1;
      assert fast == Walk(nums, 1 + 2 * k) by {
        assert Walk(nums, 1 + 2 * k) == nums[Walk(nums, 2 * k)];
      }
    }
    fast := nums[0];
    ghost var t := 0;
    assert Walk(nums, 0) == 0 && Walk(nums, k + 0) >= 1;
    while slow != fast
      invariant 0 <= t <= k
      invariant fast == Walk(nums, 1 + t) && slow == Walk(nums, 1 + k + t)
      invariant Walk(nums, t) != Walk(nums, k + t)
      decreases k - t
    {
      slow := nums[slow];
      fast := nums[fast];
      t := t + 1;
    }
    r := slow;
    var i, j := Walk(nums, t), Walk(nums, k + t);
    assert nums[i] == r && nums[j] == r;
    if i < j {
      TwoPlaces(nums, i, j);
    } else {
      TwoPlaces(nums, j, i);
    }
  }

  /** The main of the solution file, on any input: when exactly one value is
      repeated, all three solutions return it, each on its own copy of nums. */
  method Compare(nums: seq<int>, ghost v: int) returns (bySort: int, byFreq: int, byCycle: int)
    requires WalkMap(nums)
    requires forall w :: Repeated(nums, w) <==> w == v
    ensures bySort == v && byFreq == v && byCycle == v
  {
    var c := new int[|nums|](i requires 0 <= i < |nums| => nums[i]);
    assert c[..] == nums;
    bySort := FindBySorting(c);
    byFreq := FindByFrequency(nums);
    byCycle := FindByCycle(nums);
    DistinctIffNoneRepeated(nums);
  }

  /** The example of the solution file: in 1 3 4 2 2 only 2 is repeated. */
  lemma Example()
    ensures WalkMap([1, 3, 4, 2, 2])
    ensures forall w :: Repeated([1, 3, 4, 2, 2], w) <==> w == 2
  {
    var s := [1, 3, 4, 2, 2];
    assert multiset(s) == multiset{1, 2, 2, 3, 4};
  }

  /** All three solutions give 2 on the example. */
  method Demo() returns (bySort: int, byFreq: int, byCycle: int)
    ensures bySort == 2 && byFreq == 2 && byCycle == 2
  {
    Example();
    bySort, byFreq, byCycle := Compare([1, 3, 4, 2, 2], 2);
  }
}
