/** Merge intervals (Array-II/mergeIntervals.cpp): sort the intervals, then fold
    each one into the last merged block when it starts no later than that block
    ends, or open a new block after it otherwise. The input vector is sorted in
    place, so it is an array here; the merged list is a sequence. */
module MergeIntervals {
  import opened Order

  /** One interval [start, end]; the source keeps it as a two-element vector. */
  datatype Interval = Interval(start: int, end: int)

  function Max(a: int, b: int): (m: int)
    ensures m >= a && m >= b && (m == a || m == b)
  {
    if a >= b then a else b
  }

  /** The order std::sort puts two-element vectors in: by start, then by end. */
  predicate IntervalLe(a: Interval, b: Interval) {
    a.start < b.start || (a.start == b.start && a.end <= b.end)
  }

  lemma IntervalLeIsTotalOrder()
    ensures TotalPreorder(IntervalLe) && Antisymmetric(IntervalLe)
  {
  }

  ghost predicate StartsSorted(s: seq<Interval>) {
    forall p, q :: 0 <= p < q < |s| ==> s[p].start <= s[q].start
  }

  /** Consecutive blocks leave a gap: each ends strictly before the next starts. */
  ghost predicate Separated(out: seq<Interval>) {
    forall k :: 0 <= k < |out| - 1 ==> out[k].end < out[k + 1].start
  }

  /** Some interval of s contains the point x. */
  ghost predicate Covers(s: seq<Interval>, x: int) {
    exists p :: 0 <= p < |s| && s[p].start <= x <= s[p].end
  }

  /** Interval iv lies inside some block of out. */
  ghost predicate InsideSome(out: seq<Interval>, iv: Interval) {
    exists k :: 0 <= k < |out| && out[k].start <= iv.start && iv.end <= out[k].end
  }

  /** One step of the scan: iv opens a new block when there is none or the last
      one ends before iv starts, and otherwise stretches the last block's end. */
  function Absorb(merged: seq<Interval>, iv: Interval): (r: seq<Interval>)
    ensures |r| == |merged| || r == merged + [iv]
  {
    if merged == [] || merged[|merged| - 1].end < iv.start then merged + [iv]
    else
      var last := merged[|merged| - 1];
      merged[|merged| - 1 := Interval(last.start, Max(last.end, iv.end))]
  }

  /** The merged blocks of s, folding the intervals in order. */
  function MergeSorted(s: seq<Interval>): (r: seq<Interval>)
    ensures |r| <= |s|
    ensures s != [] ==> r != []
    decreases |s|
  {
    if s == [] then [] else Absorb(MergeSorted(s[..|s| - 1]), s[|s| - 1])
  }

  /** Folding one more interval in is one more Absorb step. */
  lemma MergeSortedSnoc(s: seq<Interval>, iv: Interval)
    ensures MergeSorted(s + [iv]) == Absorb(MergeSorted(s), iv)
  {
    assert (s + [iv])[..|s|] == s;
  }

  /** Over intervals sorted by start, the blocks are sorted by start, separated,
      and the last one starts no later than the last interval. */
  lemma {:induction false} MergeShape(s: seq<Interval>)
    requires StartsSorted(s)
    ensures StartsSorted(MergeSorted(s)) && Separated(MergeSorted(s))
    ensures s != [] ==> MergeSorted(s)[|MergeSorted(s)| - 1].start <= s[|s| - 1].start
    decreases |s|
  {
    if s != [] {
      var t, iv := s[..|s| - 1], s[|s| - 1];
      MergeShape(t);
      var m := MergeSorted(t);
      if m != [] {
        assert m[|m| - 1].start <= iv.start by {
          assert t[|t| - 1] == s[|s| - 2];
        }
      }
      ShapeStep(m, iv);
    }
  }

  /** One step of MergeShape: absorbing an interval that starts no earlier than
      every block keeps the blocks sorted and separated. */
  lemma ShapeStep(m: seq<Interval>, iv: Interval)
    requires StartsSorted(m) && Separated(m)
    requires m != [] ==> m[|m| - 1].start <= iv.start
    ensures StartsSorted(Absorb(m, iv)) && Separated(Absorb(m, iv))
    ensures Absorb(m, iv)[|Absorb(m, iv)| - 1].start <= iv.start
  {
    var r := Absorb(m, iv);
    if m == [] || m[|m| - 1].end < iv.start {
      assert r == m + [iv];
    } else {
      assert |r| == |m| && forall k :: 0 <= k < |m| ==> r[k].start == m[k].start;
      assert forall k :: 0 <= k < |m| - 1 ==> r[k] == m[k];
    }
  }

  /** Every interval of sorted s lies inside one of the merged blocks. */
  lemma {:induction false} MergeContains(s: seq<Interval>)
    requires StartsSorted(s)
    ensures forall p :: 0 <= p < |s| ==> InsideSome(MergeSorted(s), s[p])
    decreases |s|
  {
    if s != [] {
      var t, iv := s[..|s| - 1], s[|s| - 1];
      var m, out := MergeSorted(t), MergeSorted(s);
      MergeContains(t);
      MergeShape(s);
      forall p | 0 <= p < |s|
        ensures InsideSome(out, s[p])
      {
        if p < |t| {
          assert s[p] == t[p];
          var k :| 0 <= k < |m| && m[k].start <= t[p].start && t[p].end <= m[k].end;
          assert out[k].start == m[k].start && out[k].end >= m[k].end;
        } else {
          assert out[|out| - 1].start <= iv.start && iv.end <= out[|out| - 1].end;
        }
      }
    }
  }

  /** Every point of a merged block lies in some interval of s. */
  lemma {:induction false} MergeCovered(s: seq<Interval>)
    ensures forall k, x :: 0 <= k < |MergeSorted(s)| && MergeSorted(s)[k].start <= x <= MergeSorted(s)[k].end ==> Covers(s, x)
    decreases |s|
  {
    if s != [] {
      var t, iv := s[..|s| - 1], s[|s| - 1];
      var m, out := MergeSorted(t), MergeSorted(s);
      MergeCovered(t);
      forall k, x | 0 <= k < |out| && out[k].start <= x <= out[k].end
        ensures Covers(s, x)
      {
        if k < |m| && (out[k] == m[k] || x <= m[k].end) {
          assert Covers(t, x);
          var p :| 0 <= p < |t| && t[p].start <= x <= t[p].end;
          assert s[p] == t[p];
        } else {
          assert iv.start <= x <= iv.end;
          assert s[|s| - 1] == iv;
        }
      }
    }
  }

  /** Merging keeps the union: a point lies in a merged block exactly when it lies
      in an input interval. */
  lemma MergeKeepsUnion(s: seq<Interval>, x: int)
    requires StartsSorted(s)
    ensures Covers(MergeSorted(s), x) <==> Covers(s, x)
  {
    var out := MergeSorted(s);
    MergeCovered(s);
    MergeContains(s);
    if Covers(s, x) {
      var p :| 0 <= p < |s| && s[p].start <= x <= s[p].end;
      assert InsideSome(out, s[p]);
    }
  }

  /** Sorting by start and then end leaves the starts in ascending order. */
  lemma SortedIntervalsStartsSorted(s: seq<Interval>)
    requires SortedBy(s, IntervalLe)
    ensures StartsSorted(s)
  {
    forall p, q | 0 <= p < q < |s|
      ensures s[p].start <= s[q].start
    {
      assert IntervalLe(s[p], s[q]);
    }
  }

  /** Absorbing an interval into blocks whose last one is the current block
      either stretches the current block or closes it and opens a new one. */
  lemma CurrentBlockStep(ans: seq<Interval>, currStart: int, currEnd: int, iv: Interval)
    ensures iv.start <= currEnd ==>
      Absorb(ans + [Interval(currStart, currEnd)], iv) == ans + [Interval(currStart, Max(currEnd, iv.end))]
    ensures currEnd < iv.start ==>
      Absorb(ans + [Interval(currStart, currEnd)], iv) == (ans + [Interval(currStart, currEnd)]) + [iv]
  {
  }

  /** Approach 1: the current block is kept in currStart / currEnd and pushed when
      the next interval starts after currEnd, and once more at the end. It reads
      intervals[0], so the vector must not be empty. */
  method MergeByCurrentBlock(intervals: array<Interval>) returns (ans: seq<Interval>)
    requires intervals.Length >= 1
    modifies intervals
    ensures SortedBy(intervals[..], IntervalLe)
    ensures multiset(intervals[..]) == multiset(old(intervals[..]))
    ensures ans == MergeSorted(intervals[..])
  {
    IntervalLeIsTotalOrder();
    SortBy(intervals, IntervalLe);
    ans := [];
    var currStart := intervals[0].start;
    var currEnd := intervals[0].end;
    assert intervals[..1] == [intervals[0]];
    ghost var sorted := intervals[..];
    var i := 1;
    while i < intervals.Length
      invariant 1 <= i <= intervals.Length
      invariant intervals[..] == sorted
      invariant ans + [Interval(currStart, currEnd)] == MergeSorted(intervals[..i])
    {
      assert intervals[..i + 1] == intervals[..i] + [intervals[i]];
      MergeSortedSnoc(intervals[..i], intervals[i]);
      CurrentBlockStep(ans, currStart, currEnd, intervals[i]);
      if intervals[i].start <= currEnd {
        currEnd := Max(currEnd, intervals[i].end);
      } else {
        ans := ans + [Interval(currStart, currEnd)];
        currStart := intervals[i].start;
        currEnd := intervals[i].end;
      }
      i := i + 1;
    }
    assert intervals[..i] == intervals[..];
    ans := ans + [Interval(currStart, currEnd)];
  }

  /** Approach 2: each interval is pushed onto merged, or stretches merged.back(). */
  method MergeByLastBlock(intervals: array<Interval>) returns (merged: seq<Interval>)
    modifies intervals
    ensures SortedBy(intervals[..], IntervalLe)
    ensures multiset(intervals[..]) == multiset(old(intervals[..]))
    ensures merged == MergeSorted(intervals[..])
  {
    IntervalLeIsTotalOrder();
    SortBy(intervals, IntervalLe);
    merged := [];
    ghost var sorted := intervals[..];
    var i := 0;
    while i < intervals.Length
      invariant 0 <= i <= intervals.Length
      invariant intervals[..] == sorted
      invariant merged == MergeSorted(intervals[..i])
    {
      assert intervals[..i + 1] == intervals[..i] + [intervals[i]];
      MergeSortedSnoc(intervals[..i], intervals[i]);
      var interval := intervals[i];
      if merged == [] || merged[|merged| - 1].end < interval.start {
        merged := merged + [interval];
      } else {
        var last := merged[|merged| - 1];
        merged := merged[|merged| - 1 := Interval(last.start, Max(last.end, interval.end))];
      }
      i := i + 1;
    }
    assert intervals[..i] == intervals[..];
  }

  /** The example of the solution file, and two intervals that only touch. */
  lemma Examples()
    ensures MergeSorted([Interval(1, 3), Interval(2, 6), Interval(8, 10), Interval(15, 18)])
         == [Interval(1, 6), Interval(8, 10), Interval(15, 18)]
    ensures MergeSorted([Interval(1, 4), Interval(4, 5)]) == [Interval(1, 5)]
  {
    var a, b, c, d := Interval(1, 3), Interval(2, 6), Interval(8, 10), Interval(15, 18);
    MergeSortedSnoc([], a);
    assert [] + [a] == [a];
    MergeSortedSnoc([a], b);
    assert MergeSorted([a] + [b]) == [Interval(1, 6)];
    MergeSortedSnoc([a] + [b], c);
    assert MergeSorted([a] + [b] + [c]) == [Interval(1, 6), c];
    MergeSortedSnoc([a] + [b] + [c], d);
    assert MergeSorted([a] + [b] + [c] + [d]) == [Interval(1, 6), c, d];
    assert [a] + [b] + [c] + [d] == [a, b, c, d];
    var e, f := Interval(1, 4), Interval(4, 5);
    MergeSortedSnoc([], e);
    assert [] + [e] == [e];
    MergeSortedSnoc([e], f);
    assert [e] + [f] == [e, f];
  }

  /** The main of the solution file: approach 1 and then approach 2 on the same
      vector, which is already sorted, both giving [1,6] [8,10] [15,18]. */
  method Demo() returns (res1: seq<Interval>, res2: seq<Interval>)
    ensures res1 == [Interval(1, 6), Interval(8, 10), Interval(15, 18)]
    ensures res2 == res1
  {
    var intervals := new Interval[4];
    intervals[0], intervals[1], intervals[2], intervals[3] :=
      Interval(1, 3), Interval(2, 6), Interval(8, 10), Interval(15, 18);
    var given := intervals[..];
    assert given == [Interval(1, 3), Interval(2, 6), Interval(8, 10), Interval(15, 18)];
    IntervalLeIsTotalOrder();
    assert SortedBy(given, IntervalLe);
    res1 := MergeByCurrentBlock(intervals);
    SortedByUnique(intervals[..], given, IntervalLe);
    assert res1 == MergeSorted(given);
    res2 := MergeByLastBlock(intervals);
    SortedByUnique(intervals[..], given, IntervalLe);
    assert res2 == MergeSorted(given);
    Examples();
  }
}
