/** interval_scheduling: the earliest-finish-time greedy selector that sorts
    the caller's list in place instead of a copy. */
module InPlaceScheduling {
  import opened Intervals
  import opened Sorting
  import opened Greedy

  /** Sorts `intervals` by finish in place and returns the greedy selection.
      The array is the caller's list: its new contents are the stable
      finish-sorted order of the old ones, and the result is exactly what
      greedy_eft selects from the old contents. */
  method IntervalScheduling(intervals: array<Interval>) returns (selected: seq<Interval>)
    modifies intervals
    ensures intervals[..] == SortBy(old(intervals[..]), ByFinish)
    ensures multiset(intervals[..]) == multiset(old(intervals[..])) && SortedBy(intervals[..], ByFinish)
    ensures selected == GreedySelection(old(intervals[..]), ByFinish)
    ensures intervals.Length == 0 ==> selected == []
    ensures intervals.Length > 0 ==> selected != [] && selected[0] == intervals[0]
    ensures Chain(selected) && IsSubsequence(selected, intervals[..])
    ensures WellFormed(old(intervals[..])) ==>
              forall c :: IsScheduleOf(c, old(intervals[..])) ==> |c| <= |selected|
  {
    if intervals.Length == 0 {
      forall c | IsScheduleOf(c, intervals[..]) ensures |c| <= 0 {
        assert |multiset(c)| == 0;
      }
      return [];
    }
    ghost var orig := intervals[..];
    SortInPlace(intervals, ByFinish);
    SortBySorted(orig, ByFinish);
    selected := GreedyScan(intervals[..]);
    GreedyRunChain(intervals[..]);
    forall c | WellFormed(orig) && IsScheduleOf(c, orig) ensures |c| <= |selected| {
      EftOptimal(orig, c);
    }
  }
}
