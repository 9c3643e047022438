/** How the selectors relate on the same input, and the sample input the
    scripts run on. */
module Comparison {
  import opened Intervals
  import opened Sorting
  import opened Greedy
  import opened ExhaustiveSearch

  /** No greedy variant selects more than the exhaustive search finds. */
  lemma ExhaustiveDominatesGreedy(s: seq<Interval>, key: SortKey)
    requires WellFormed(s)
    ensures |GreedySelection(s, key)| <= Exhaustive(s).count
  {
    GreedySelectionSchedule(s, key);
    ExhaustiveOptimal(s, GreedySelection(s, key));
  }

  /** Earliest finish time and the exhaustive search agree on the count. */
  lemma ExhaustiveEqualsEft(s: seq<Interval>)
    requires WellFormed(s)
    ensures Exhaustive(s).count == |GreedySelection(s, ByFinish)|
  {
    ExhaustiveDominatesGreedy(s, ByFinish);
    ExhaustiveSchedule(s);
    EftOptimal(s, Exhaustive(s).chosen);
  }

  /** When three intervals are nested they all overlap, and both selectors
      keep one: greedy_eft the innermost (for instance (0,10), (1,9), (2,8)). */
  lemma NestedCounts(a: Interval, b: Interval, c: Interval)
    requires a.start < b.start < c.start < c.finish < b.finish < a.finish
    ensures GreedySelection([a, b, c], ByFinish) == [c]
    ensures Exhaustive([a, b, c]).count == 1
  {
    NestedByFinish(a, b, c);
    RunKeepsFirst(c, b, a);
    assert WellFormed([a, b, c]);
    ExhaustiveEqualsEft([a, b, c]);
  }

  lemma NestedByFinish(a: Interval, b: Interval, c: Interval)
    requires c.finish < b.finish < a.finish
    ensures SortBy([a, b, c], ByFinish) == [c, b, a]
  {
    ReverseThree(a, b, c);
    SortByDistinct([a, b, c], [c, b, a], ByFinish);
  }

  /** The sample list that greedy_algos.py, exhausative_algo.py and
      interval_scheduling.py run on. */
  predicate IsSample(s: seq<Interval>)
  {
    s == [Interval(1, 4), Interval(3, 5), Interval(0, 6), Interval(5, 7), Interval(3, 9), Interval(5, 9),
          Interval(6, 10), Interval(8, 11), Interval(8, 12), Interval(2, 14), Interval(12, 16)]
  }

  /** On the sample, greedy_eft keeps four intervals, and so the exhaustive
      search finds four. */
  lemma SampleCounts(s: seq<Interval>)
    requires IsSample(s)
    ensures GreedySelection(s, ByFinish) == [Interval(1, 4), Interval(5, 7), Interval(8, 11), Interval(12, 16)]
    ensures Exhaustive(s).count == 4
  {
    SampleSortedByFinish(s);
    SampleRun(s);
    SampleWellFormed(s);
    ExhaustiveEqualsEft(s);
  }

  lemma SampleSortedByFinish(s: seq<Interval>)
    requires IsSample(s)
    ensures SortBy(s, ByFinish) == s
  {
    AdjacentSorted(s, ByFinish);
    SortByOfSorted(s, ByFinish);
  }

  lemma SampleRun(s: seq<Interval>)
    requires IsSample(s)
    ensures GreedyRun(s) == [Interval(1, 4), Interval(5, 7), Interval(8, 11), Interval(12, 16)]
  {
    SampleShapeRun(s[0], s[1], s[2], s[3], s[4], s[5], s[6], s[7], s[8], s[9], s[10]);
    assert s == [s[0], s[1], s[2], s[3], s[4], s[5], s[6], s[7], s[8], s[9], s[10]];
  }

  /** The scan over any eleven intervals laid out like the sample: it keeps
      the first, fourth, eighth and eleventh. */
  lemma SampleShapeRun(x0: Interval, x1: Interval, x2: Interval, x3: Interval, x4: Interval, x5: Interval,
                       x6: Interval, x7: Interval, x8: Interval, x9: Interval, x10: Interval)
    requires x1.start < x0.finish && x2.start < x0.finish && x3.start >= x0.finish
    requires x4.start < x3.finish && x5.start < x3.finish && x6.start < x3.finish && x7.start >= x3.finish
    requires x8.start < x7.finish && x9.start < x7.finish && x10.start >= x7.finish
    ensures GreedyRun([x0, x1, x2, x3, x4, x5, x6, x7, x8, x9, x10]) == [x0, x3, x7, x10]
  {
    var r7 := [x7] + ([x8, x9] + [x10]);
    var r3 := [x3] + ([x4, x5, x6] + r7);
    var r1 := [x1, x2] + r3;
    AcceptTake(x10, [], x7.finish);
    AcceptSkipAll([x8, x9], [x10], x7.finish);
    AcceptTake(x7, [x8, x9] + [x10], x3.finish);
    AcceptSkipAll([x4, x5, x6], r7, x3.finish);
    AcceptTake(x3, [x4, x5, x6] + r7, x0.finish);
    AcceptSkipAll([x1, x2], r3, x0.finish);
    assert [x0, x1, x2, x3, x4, x5, x6, x7, x8, x9, x10] == [x0] + r1;
  }

  lemma SampleWellFormed(s: seq<Interval>)
    requires IsSample(s)
    ensures WellFormed(s)
  {
  }
}
