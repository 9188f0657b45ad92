/** Majority element (Array-III/majorityElement-I.cpp): the value occurring more
    than n/2 times, by a frequency map and by Moore voting. The input vector is read
    only, so it is a sequence here. */
module MajorityElementOne {
  import Tally

  /** The smallest 32-bit int, the starting value of the running maximum frequency. */
  const IntMin := -0x8000_0000

  /** v occurs more than |nums| / 2 times. */
  ghost predicate IsMajority(nums: seq<int>, v: int) {
    multiset(nums)[v] > |nums| / 2
  }

  /** A majority value occurs more often than any other value, so at most one value
      is a majority. */
  lemma MajorityOutnumbers(nums: seq<int>, v: int, w: int)
    requires IsMajority(nums, v) && w != v
    ensures multiset(nums)[w] < multiset(nums)[v]
    ensures !IsMajority(nums, w)
  {
    Tally.OccurrencesOfTwo(nums, v, w);
  }

  /** The frequency-map solution: count every value, then scan the keys in an
      unspecified order for one of highest frequency; -1 when nums is empty. */
  method MajorityByHashMap(nums: seq<int>) returns (majority: int)
    ensures |nums| == 0 ==> majority == -1
    ensures |nums| > 0 ==> majority in nums && forall v :: multiset(nums)[v] <= multiset(nums)[majority]
    ensures forall v :: IsMajority(nums, v) ==> majority == v
  {
    var freq := Tally.Frequencies(nums);
    var maxFreq := IntMin;
    majority := -1;
    var unvisited := freq.Keys;
    while unvisited != {}
      invariant unvisited <= freq.Keys
      invariant unvisited == freq.Keys ==> majority == -1 && maxFreq == IntMin
      invariant unvisited != freq.Keys ==> majority in freq.Keys - unvisited && maxFreq == freq[majority]
      invariant forall k :: k in freq.Keys - unvisited ==> freq[k] <= maxFreq
      decreases |unvisited|
    {
      Tally.Inhabited(unvisited);
      var key :| key in unvisited;
      if freq[key] > maxFreq {
        maxFreq := freq[key];
        majority := key;
      }
      unvisited := unvisited - {key};
    }
    if |nums| > 0 {
      var first := nums[0];
      assert first in nums;
      assert first in freq;
      forall v
        ensures multiset(nums)[v] <= multiset(nums)[majority]
      {
        if v in nums {
          assert freq[v] <= maxFreq;
        }
      }
    }
    forall v | IsMajority(nums, v)
      ensures majority == v
    {
      if majority != v {
        MajorityOutnumbers(nums, v, majority);
      }
    }
  }

  /** Moore voting: one candidate and a counter that rises on a match, falls on a
      mismatch, and hands the candidate over to the current value at zero. A value
      occurring more than n/2 times is the final candidate. */
  method MajorityByVoting(nums: seq<int>) returns (candidate: int)
    ensures forall v :: IsMajority(nums, v) ==> candidate == v
  {
    var count := 0;
    candidate := 0;
    // Each decrement cancels one occurrence of the candidate against one other value.
    ghost var cancelled := 0;
    var i := 0;
    while i < |nums|
      invariant 0 <= i <= |nums|
      invariant 0 <= count <= i && cancelled >= 0
      invariant count + 2 * cancelled == i
      invariant forall v :: multiset(nums[..i])[v] <= (if v == candidate then count else 0) + cancelled
    {
      var num := nums[i];
      assert nums[..i + 1] == nums[..i] + [num];
      if count == 0 {
        candidate := num;
        count := 1;
      } else if num == candidate {
        count := count + 1;
      } else {
        count := count - 1;
        cancelled := cancelled + 1;
      }
      i := i + 1;
    }
    assert nums[..i] == nums;
    forall v | IsMajority(nums, v)
      ensures candidate == v
    {
      assert cancelled <= |nums| / 2;
      assert multiset(nums)[v] > cancelled;
    }
  }

  /** The example from the solution file: 2 occurs four times in
      {2, 2, 1, 1, 1, 2, 2}, more than 7 / 2 = 3. */
  lemma Example()
    ensures IsMajority([2, 2, 1, 1, 1, 2, 2], 2)
  {
    assert multiset([2, 2, 1, 1, 1, 2, 2])[2] == 4;
  }

  /** Both solutions on the example return 2. */
  method Demo() returns (byHashMap: int, byVoting: int)
    ensures byHashMap == 2 && byVoting == 2
  {
    var nums := [2, 2, 1, 1, 1, 2, 2];
    byHashMap := MajorityByHashMap(nums);
    byVoting := MajorityByVoting(nums);
    Example();
  }
}
