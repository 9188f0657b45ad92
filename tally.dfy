/** Counting facts about how often values occur in a sequence, shared by the
    majority-element and duplicate-number solutions. `multiset(s)[v]` is the number
    of occurrences of `v` in `s`. */
module Tally {

  /** Two different values together occur at most |s| times. */
  lemma {:induction false} OccurrencesOfTwo(s: seq<int>, a: int, b: int)
    requires a != b
    ensures multiset(s)[a] + multiset(s)[b] <= |s|
  {
    if s != [] {
      OccurrencesOfTwo(s[1..], a, b);
      assert s == [s[0]] + s[1..];
    }
  }

  /** Three pairwise different values together occur at most |s| times. */
  lemma {:induction false} OccurrencesOfThree(s: seq<int>, a: int, b: int, c: int)
    requires a != b && b != c && a != c
    ensures multiset(s)[a] + multiset(s)[b] + multiset(s)[c] <= |s|
  {
    if s != [] {
      OccurrencesOfThree(s[1..], a, b, c);
      assert s == [s[0]] + s[1..];
    }
  }

  /** No value occurs twice in `s`. */
  ghost predicate Distinct(s: seq<int>) {
    forall i, j :: 0 <= i < j < |s| ==> s[i] != s[j]
  }

  lemma {:induction false} DistinctValuesCount(s: seq<int>)
    requires Distinct(s)
    ensures |set x | x in s| == |s|
  {
    if s != [] {
      var last := s[|s| - 1];
      var init := s[..|s| - 1];
      DistinctValuesCount(init);
      assert (set x | x in s) == (set x | x in init) + {last};
      assert last !in init;
    }
  }

  /** The values 1..n, as a set of exactly n elements. */
  function Range(n: nat): (r: set<int>)
    ensures forall x :: x in r <==> 1 <= x <= n
    ensures |r| == n
  {
    if n == 0 then {} else Range(n - 1) + {n}
  }

  lemma SubsetCount(a: set<int>, b: set<int>)
    requires a <= b
    ensures |a| <= |b|
  {
    assert b == a + (b - a);
  }

  /** Pigeonhole: more than n values drawn from 1..n cannot all be different. */
  lemma Pigeonhole(s: seq<int>, n: nat)
    requires forall k :: 0 <= k < |s| ==> 1 <= s[k] <= n
    requires |s| > n
    ensures !Distinct(s)
  {
    if Distinct(s) {
      DistinctValuesCount(s);
      SubsetCount((set x | x in s), Range(n));
      assert false;
    }
  }

  /** A non-empty set has an element, so one can be picked from it. */
  lemma Inhabited(s: set<int>)
    requires s != {}
    ensures exists x :: x in s
  {
    if forall x :: x !in s {
      assert false;
    }
  }

  /** The counting loop of the frequency-map solutions: freq maps each value of
      nums to its number of occurrences. */
  method Frequencies(nums: seq<int>) returns (freq: map<int, int>)
    ensures forall v :: v in freq <==> v in nums
    ensures forall v :: v in freq ==> freq[v] == multiset(nums)[v]
  {
    freq := map[];
    var i := 0;
    while i < |nums|
      invariant 0 <= i <= |nums|
      invariant forall v :: v in freq <==> v in nums[..i]
      invariant forall v :: v in freq ==> freq[v] == multiset(nums[..i])[v]
    {
      assert nums[..i + 1] == nums[..i] + [nums[i]];
      var val := nums[i];
      freq := freq[val := if val in freq then freq[val] + 1 else 1];
      i := i + 1;
    }
    assert nums[..i] == nums;
  }
}
