/** Majority element II (Array-III/majorityElement-II.cpp): every value occurring
    more than n/3 times in nums, by a frequency map and by Moore voting extended to
    two candidates. The input vector is read only, so it is a sequence here; the
    order of the answer is left open, as the frequency map's iteration order is. */
module MajorityElementTwo {
  import Tally

  /** The values occurring more than |nums| / 3 times. */
  ghost function Majority(nums: seq<int>): set<int> {
    set v | v in nums && multiset(nums)[v] > |nums| / 3
  }

  /** No value occurs twice in the answer. */
  ghost predicate NoRepeats(s: seq<int>) {
    forall p, q :: 0 <= p < q < |s| ==> s[p] != s[q]
  }

  /** Pigeonhole: at most two values can occur more than n/3 times each, since three
      of them would need more than n elements. */
  lemma AtMostTwo(nums: seq<int>, a: int, b: int, c: int)
    requires a in Majority(nums) && b in Majority(nums) && c in Majority(nums)
    ensures a == b || b == c || a == c
  {
    if a != b && b != c && a != c {
      Tally.OccurrencesOfThree(nums, a, b, c);
      assert false;
    }
  }

  /** How many of the prefix's occurrences of v the two counters hold. */
  function Tracked(v: int, candidate1: int, count1: int, candidate2: int, count2: int): int {
    (if v == candidate1 then count1 else 0) + (if v == candidate2 then count2 else 0)
  }

  /** The frequency-map solution: count every value, then report each key whose
      count exceeds n/3. The keys are visited in an unspecified order. */
  method MajorityByHashMap(nums: seq<int>) returns (ans: seq<int>)
    ensures forall v :: v in ans <==> v in Majority(nums)
    ensures NoRepeats(ans)
  {
    var freq := Tally.Frequencies(nums);
    ans := [];
    var unvisited := freq.Keys;
    while unvisited != {}
      invariant unvisited <= freq.Keys
      invariant forall v :: v in ans <==> v in freq.Keys - unvisited && freq[v] > |nums| / 3
      invariant NoRepeats(ans)
      decreases |unvisited|
    {
      Tally.Inhabited(unvisited);
      var key :| key in unvisited;
      if freq[key] > |nums| / 3 {
        ans := ans + [key];
      }
      unvisited := unvisited - {key};
    }
  }

  /** Extended Moore voting: a first pass keeps two candidates with counters, a
      second pass counts the candidates, and each one occurring more than n/3
      times is reported. */
  method MajorityByVoting(nums: seq<int>) returns (ans: seq<int>)
    ensures |ans| <= 2
    ensures forall v :: v in ans <==> v in Majority(nums)
    ensures NoRepeats(ans)
  {
    var candidate1, candidate2 := Vote(nums);
    var count1, count2 := CountCandidates(nums, candidate1, candidate2);
    ans := [];
    var n := |nums|;
    if count1 > n / 3 {
      ans := ans + [candidate1];
    }
    if count2 > n / 3 {
      ans := ans + [candidate2];
    }
  }

  /** Phase 1, the voting pass: every value occurring more than n/3 times ends up
      as one of the two candidates. */
  method Vote(nums: seq<int>) returns (candidate1: int, candidate2: int)
    ensures forall v :: v in Majority(nums) ==> v == candidate1 || v == candidate2
  {
    candidate1, candidate2 := 0, 0;
    var count1, count2 := 0, 0;
    // Each cancellation drops one occurrence of three different values.
    ghost var cancelled := 0;
    var i := 0;
    while i < |nums|
      invariant 0 <= i <= |nums|
      invariant count1 >= 0 && count2 >= 0 && cancelled >= 0
      invariant candidate1 == candidate2 ==> count2 == 0
      invariant count1 + count2 + 3 * cancelled == i
      invariant forall v :: multiset(nums[..i])[v] <= Tracked(v, candidate1, count1, candidate2, count2) + cancelled
    {
      var num := nums[i];
      assert nums[..i + 1] == nums[..i] + [num];
      if num == candidate1 {
        count1 := count1 + 1;
      } else if num == candidate2 {
        count2 := count2 + 1;
      } else if count1 == 0 {
        candidate1 := num;
        count1 := 1;
      } else if count2 == 0 {
        candidate2 := num;
        count2 := 1;
      } else {
        count1 := count1 - 1;
        count2 := count2 - 1;
        cancelled := cancelled + 1;
      }
      i := i + 1;
    }
    assert nums[..i] == nums;
    SurvivorsCoverMajority(nums, candidate1, count1, candidate2, count2, cancelled);
  }

  /** Phase 2, the verification pass: count1 is the number of occurrences of
      candidate1, and count2 that of candidate2 when it differs from candidate1
      (the `else if` skips it otherwise). */
  method CountCandidates(nums: seq<int>, candidate1: int, candidate2: int) returns (count1: int, count2: int)
    ensures count1 == multiset(nums)[candidate1]
    ensures count2 == if candidate2 == candidate1 then 0 else multiset(nums)[candidate2]
  {
    count1, count2 := 0, 0;
    var i := 0;
    while i < |nums|
      invariant 0 <= i <= |nums|
      invariant count1 == multiset(nums[..i])[candidate1]
      invariant count2 == if candidate2 == candidate1 then 0 else multiset(nums[..i])[candidate2]
    {
      assert nums[..i + 1] == nums[..i] + [nums[i]];
      if nums[i] == candidate1 {
        count1 := count1 + 1;
      } else if nums[i] == candidate2 {
        count2 := count2 + 1;
      }
      i := i + 1;
    }
    assert nums[..i] == nums;
  }

  /** After the voting pass, every value occurring more than n/3 times holds one of
      the two counters: otherwise all its occurrences were cancelled, and the
      cancellations account for at most n/3 of them. */
  lemma SurvivorsCoverMajority(nums: seq<int>, candidate1: int, count1: int, candidate2: int, count2: int, cancelled: int)
    requires count1 >= 0 && count2 >= 0 && cancelled >= 0
    requires count1 + count2 + 3 * cancelled == |nums|
    requires forall v :: multiset(nums)[v] <= Tracked(v, candidate1, count1, candidate2, count2) + cancelled
    ensures forall v :: v in Majority(nums) ==> v == candidate1 || v == candidate2
  {
    forall v | v in Majority(nums)
      ensures v == candidate1 || v == candidate2
    {
      assert cancelled <= |nums| / 3;
      assert Tracked(v, candidate1, count1, candidate2, count2) > 0;
    }
  }

  /** The example from the solution file: in {1, 1, 1, 3, 3, 2, 2, 2} of length 8,
      the values 1 and 2 occur three times each, more than 8 / 3 = 2, and 3 occurs
      only twice. */
  lemma Example()
    ensures forall v :: v in Majority([1, 1, 1, 3, 3, 2, 2, 2]) <==> v == 1 || v == 2
  {
    var s := [1, 1, 1, 3, 3, 2, 2, 2];
    assert multiset(s)[1] == 3 && multiset(s)[2] == 3 && multiset(s)[3] == 2;
    forall v
      ensures v in Majority(s) <==> v == 1 || v == 2
    {
      InMajority(s, v);
      if v != 1 && v != 2 && v != 3 {
        assert v !in s;
      }
    }
  }

  /** Both solutions on the example agree: each reports exactly 1 and 2. */
  method Demo() returns (byHashMap: seq<int>, byVoting: seq<int>)
    ensures forall v :: v in byHashMap <==> v == 1 || v == 2
    ensures forall v :: v in byVoting <==> v == 1 || v == 2
  {
    var nums := [1, 1, 1, 3, 3, 2, 2, 2];
    byHashMap := MajorityByHashMap(nums);
    byVoting := MajorityByVoting(nums);
    Example();
  }

  lemma InMajority(nums: seq<int>, v: int)
    ensures v in Majority(nums) <==> multiset(nums)[v] > |nums| / 3
  {
    if multiset(nums)[v] > 0 {
      assert v in multiset(nums);
    }
  }
}
