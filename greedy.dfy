/** The greedy selectors greedy_eft, greedy_est and greedy_sd. Each sorts a
    copy of its input by one key, always takes the first sorted interval and
    then accepts each later interval that starts at or after the finish of
    the last one accepted. */
module Greedy {
  import opened Intervals
  import opened Sorting

  /** What the scan over `rest` accepts when the last accepted interval
      finished at lastFinish. */
  function Accept(rest: seq<Interval>, lastFinish: int): seq<Interval>
    decreases |rest|
  {
    if rest == [] then []
    else if rest[0].start >= lastFinish then [rest[0]] + Accept(rest[1..], rest[0].finish)
    else Accept(rest[1..], lastFinish)
  }

  /** The greedy scan over an already sorted list: the first element is
      always taken. */
  function GreedyRun(sorted: seq<Interval>): seq<Interval>
  {
    if sorted == [] then [] else [sorted[0]] + Accept(sorted[1..], sorted[0].finish)
  }

  /** The scan accepts, in order, a chain of elements of `rest`, the first
      of which starts at or after lastFinish. */
  lemma {:induction false} AcceptChain(rest: seq<Interval>, lastFinish: int)
    ensures Chain(Accept(rest, lastFinish))
    ensures IsSubsequence(Accept(rest, lastFinish), rest)
    ensures Accept(rest, lastFinish) != [] ==> Accept(rest, lastFinish)[0].start >= lastFinish
    decreases |rest|
  {
    if rest != [] {
      if rest[0].start >= lastFinish {
        AcceptChain(rest[1..], rest[0].finish);
      } else {
        AcceptChain(rest[1..], lastFinish);
      }
    }
  }

  /** The scan passes over intervals that start before lastFinish. */
  lemma {:induction false} AcceptSkipAll(pre: seq<Interval>, rest: seq<Interval>, lastFinish: int)
    requires forall i :: 0 <= i < |pre| ==> pre[i].start < lastFinish
    ensures Accept(pre + rest, lastFinish) == Accept(rest, lastFinish)
    decreases |pre|
  {
    if pre != [] {
      var all := pre + rest;
      assert all[0] == pre[0];
      assert Accept(all, lastFinish) == Accept(all[1..], lastFinish);
      assert all[1..] == pre[1..] + rest;
      AcceptSkipAll(pre[1..], rest, lastFinish);
    } else {
      assert pre + rest == rest;
    }
  }

  /** The scan takes an interval that starts at or after lastFinish. */
  lemma AcceptTake(x: Interval, rest: seq<Interval>, lastFinish: int)
    requires x.start >= lastFinish
    ensures Accept([x] + rest, lastFinish) == [x] + Accept(rest, x.finish)
  {
    assert ([x] + rest)[1..] == rest;
  }

  /** Each interval the greedy scan selects starts at or after the previous
      selected one finishes; the selection is a subsequence of the sorted
      list and begins with its first element. */
  lemma GreedyRunChain(sorted: seq<Interval>)
    ensures Chain(GreedyRun(sorted))
    ensures IsSubsequence(GreedyRun(sorted), sorted)
    ensures sorted != [] ==> GreedyRun(sorted) != [] && GreedyRun(sorted)[0] == sorted[0]
  {
    if sorted != [] {
      AcceptChain(sorted[1..], sorted[0].finish);
    }
  }

  /** The selection a greedy selector returns for the given sort key. */
  function GreedySelection(intervals: seq<Interval>, key: SortKey): seq<Interval>
  {
    GreedyRun(SortBy(intervals, key))
  }

  /** Every greedy selection is a feasible selection from its input and a
      subsequence of the key-sorted copy; on non-empty input it holds at
      least the first sorted interval. */
  lemma GreedySelectionSchedule(intervals: seq<Interval>, key: SortKey)
    ensures IsScheduleOf(GreedySelection(intervals, key), intervals)
    ensures IsSubsequence(GreedySelection(intervals, key), SortBy(intervals, key))
    ensures intervals != [] ==> (|GreedySelection(intervals, key)| >= 1
                             && GreedySelection(intervals, key)[0] == SortBy(intervals, key)[0])
  {
    var sorted := SortBy(intervals, key);
    GreedyRunChain(sorted);
    SubsequenceMultiset(GreedyRun(sorted), sorted);
  }

  /** The scan over a sorted list: takes the first element, then accepts each
      later one that starts at or after the last accepted finish. */
  method GreedyScan(sorted: seq<Interval>) returns (selected: seq<Interval>)
    requires sorted != []
    ensures selected == GreedyRun(sorted)
  {
    selected := [sorted[0]];
    var lastFinish := sorted[0].finish;
    for i := 1 to |sorted|
      invariant selected != [] && lastFinish == selected[|selected|-1].finish
      invariant selected + Accept(sorted[i..], lastFinish) == GreedyRun(sorted)
    {
      var iv := sorted[i];
      assert sorted[i..] == [iv] + sorted[i+1..];
      if iv.start >= lastFinish {
        selected := selected + [iv];
        lastFinish := iv.finish;
      }
    }
    assert sorted[|sorted|..] == [];
  }

  /** The body the three greedy selectors share; `key` is their only difference. */
  method GreedySelect(intervals: seq<Interval>, key: SortKey) returns (count: nat, selected: seq<Interval>)
    ensures selected == GreedySelection(intervals, key)
    ensures count == |selected|
    ensures intervals == [] ==> count == 0 && selected == []
    ensures intervals != [] ==> count >= 1 && selected[0] == SortBy(intervals, key)[0]
    ensures IsScheduleOf(selected, intervals)
  {
    if intervals == [] {
      return 0, [];
    }
    var sorted := SortBy(intervals, key);
    selected := GreedyScan(sorted);
    count := |selected|;
    GreedySelectionSchedule(intervals, key);
  }

  /** greedy_eft: sort by finish. On well-formed input no feasible selection
      from the input is larger than its count. */
  method GreedyEft(intervals: seq<Interval>) returns (count: nat, selected: seq<Interval>)
    ensures selected == GreedySelection(intervals, ByFinish) && count == |selected|
    ensures intervals == [] ==> count == 0 && selected == []
    ensures intervals != [] ==> count >= 1 && selected[0] == SortBy(intervals, ByFinish)[0]
    ensures IsScheduleOf(selected, intervals)
    ensures WellFormed(intervals) ==> forall c :: IsScheduleOf(c, intervals) ==> |c| <= count
  {
    count, selected := GreedySelect(intervals, ByFinish);
    GreedySelectionSchedule(intervals, ByFinish);
    forall c | WellFormed(intervals) && IsScheduleOf(c, intervals) ensures |c| <= count {
      EftOptimal(intervals, c);
    }
  }

  /** greedy_est: sort by start. Not optimal in general (see EstNotOptimal). */
  method GreedyEst(intervals: seq<Interval>) returns (count: nat, selected: seq<Interval>)
    ensures selected == GreedySelection(intervals, ByStart) && count == |selected|
    ensures intervals == [] ==> count == 0 && selected == []
    ensures intervals != [] ==> count >= 1
    ensures IsScheduleOf(selected, intervals)
  {
    count, selected := GreedySelect(intervals, ByStart);
  }

  /** greedy_sd: sort by duration. Not optimal in general (see SdNotOptimal). */
  method GreedySd(intervals: seq<Interval>) returns (count: nat, selected: seq<Interval>)
    ensures selected == GreedySelection(intervals, ByDuration) && count == |selected|
    ensures intervals == [] ==> count == 0 && selected == []
    ensures intervals != [] ==> count >= 1
    ensures IsScheduleOf(selected, intervals)
  {
    count, selected := GreedySelect(intervals, ByDuration);
  }

  lemma SubMultisetDrop(m: multiset<Interval>, rest: multiset<Interval>, x: Interval)
    requires m <= multiset{x} + rest
    requires x !in m
    ensures m <= rest
  {
    forall y ensures m[y] <= rest[y] {
      if y != x {
        assert (multiset{x} + rest)[y] == rest[y];
      }
    }
  }

  lemma SortedTail(L: seq<Interval>)
    requires L != [] && SortedBy(L, ByFinish) && WellFormed(L)
    ensures SortedBy(L[1..], ByFinish) && WellFormed(L[1..])
  {
    forall i, j | 0 <= i < j < |L| - 1
      ensures KeyValue(ByFinish, L[1..][i]) <= KeyValue(ByFinish, L[1..][j])
    {
      assert L[1..][i] == L[i+1] && L[1..][j] == L[j+1];
    }
    forall iv | iv in L[1..] ensures iv.start < iv.finish {
      assert iv in L;
    }
  }

  /** The exchange step: when L is sorted by finish, the intervals of a
      schedule c after its first one all fit after L[0], and they are drawn
      from L without its first element. */
  lemma TakeFirst(L: seq<Interval>, c: seq<Interval>)
    requires L != [] && c != []
    requires SortedBy(L, ByFinish) && WellFormed(L)
    requires Chain(c) && multiset(c) <= multiset(L)
    ensures Chain(c[1..])
    ensures forall iv :: iv in c[1..] ==> iv.start >= L[0].finish
    ensures multiset(c[1..]) <= multiset(L[1..])
  {
    SubMultisetWellFormed(c, L);
    FirstFinishesFirst(L, c);
    forall iv | iv in c[1..] ensures iv.start >= L[0].finish {
      var j :| 0 <= j < |c| - 1 && c[1..][j] == iv;
      ChainOrdered(c, 0, j + 1);
    }
    assert L[0] in L;
    DropFirst(L, c);
  }

  lemma FirstFinishesFirst(L: seq<Interval>, c: seq<Interval>)
    requires L != [] && c != []
    requires SortedBy(L, ByFinish)
    requires multiset(c) <= multiset(L)
    ensures L[0].finish <= c[0].finish
  {
    assert c[0] in multiset(L);
    var k :| 0 <= k < |L| && L[k] == c[0];
    if k > 0 {
      assert KeyValue(ByFinish, L[0]) <= KeyValue(ByFinish, L[k]);
    }
  }

  lemma DropFirst(L: seq<Interval>, c: seq<Interval>)
    requires L != [] && c != []
    requires multiset(c) <= multiset(L)
    requires L[0] == c[0] || L[0] !in c[1..]
    ensures multiset(c[1..]) <= multiset(L[1..])
  {
    assert L == [L[0]] + L[1..];
    assert c == [c[0]] + c[1..];
    assert multiset(c) == multiset{c[0]} + multiset(c[1..]);
    assert multiset(L) == multiset{L[0]} + multiset(L[1..]);
    if c[0] == L[0] {
      assert multiset(c[1..]) == multiset(c) - multiset{L[0]};
      assert multiset(L[1..]) == multiset(L) - multiset{L[0]};
    } else {
      SubMultisetDrop(multiset(c[1..]), multiset(L[1..]), L[0]);
    }
  }

  /** Earliest-finish-time optimality of the scan: over a finish-sorted list,
      Accept keeps at least as many intervals as any schedule drawn from the
      list whose intervals all start at or after lastFinish. */
  lemma {:induction false} AcceptOptimal(L: seq<Interval>, lastFinish: int, c: seq<Interval>)
    requires SortedBy(L, ByFinish) && WellFormed(L)
    requires Chain(c) && multiset(c) <= multiset(L)
    requires forall iv :: iv in c ==> iv.start >= lastFinish
    ensures |c| <= |Accept(L, lastFinish)|
    decreases |L|
  {
    if L == [] {
      assert |multiset(c)| == 0;
    } else {
      SortedTail(L);
      if L[0].start >= lastFinish {
        if c != [] {
          TakeFirst(L, c);
          AcceptOptimal(L[1..], L[0].finish, c[1..]);
        }
      } else {
        assert L == [L[0]] + L[1..];
        assert L[0] !in multiset(c);
        SubMultisetDrop(multiset(c), multiset(L[1..]), L[0]);
        AcceptOptimal(L[1..], lastFinish, c);
      }
    }
  }

  /** The same for the whole run, which always takes the first element. */
  lemma GreedyRunOptimal(L: seq<Interval>, c: seq<Interval>)
    requires SortedBy(L, ByFinish) && WellFormed(L)
    requires IsScheduleOf(c, L)
    ensures |c| <= |GreedyRun(L)|
  {
    if c != [] {
      assert c[0] in multiset(L);
      TakeFirst(L, c);
      SortedTail(L);
      AcceptOptimal(L[1..], L[0].finish, c[1..]);
    }
  }

  /** The earliest-finish-time theorem: on well-formed input, no pairwise
      non-overlapping selection drawn from the input has more intervals than
      greedy_eft selects. */
  lemma EftOptimal(intervals: seq<Interval>, c: seq<Interval>)
    requires WellFormed(intervals)
    requires IsScheduleOf(c, intervals)
    ensures |c| <= |GreedySelection(intervals, ByFinish)|
  {
    var L := SortBy(intervals, ByFinish);
    SortBySorted(intervals, ByFinish);
    SubMultisetWellFormed(L, intervals);
    GreedyRunOptimal(L, c);
  }

  /** Earliest start time is not optimal: whenever a long interval a starts
      first and overlaps the later of two compatible short intervals b and c,
      greedy_est keeps only a while greedy_eft keeps two (for instance
      (0,10), (1,2), (3,4)). */
  lemma EstNotOptimal(a: Interval, b: Interval, c: Interval)
    requires a.start < b.start < b.finish <= c.start < c.finish
    requires c.start < a.finish
    ensures GreedySelection([a, b, c], ByStart) == [a]
    ensures IsScheduleOf([b, c], [a, b, c])
    ensures |GreedySelection([a, b, c], ByStart)| < |GreedySelection([a, b, c], ByFinish)|
  {
    EstKeepsFirst(a, b, c);
    PairIsSchedule(a, b, c);
    EftOptimal([a, b, c], [b, c]);
  }

  lemma EstKeepsFirst(a: Interval, b: Interval, c: Interval)
    requires a.start < b.start < c.start && c.start < a.finish
    ensures GreedySelection([a, b, c], ByStart) == [a]
  {
    StartOrderedTriple(a, b, c);
    RunKeepsFirst(a, b, c);
  }

  lemma StartOrderedTriple(a: Interval, b: Interval, c: Interval)
    requires a.start <= b.start <= c.start
    ensures SortBy([a, b, c], ByStart) == [a, b, c]
  {
    SortByOfSorted([a, b, c], ByStart);
  }

  /** The scan keeps only the first of three intervals when it overlaps the
      other two. */
  lemma RunKeepsFirst(a: Interval, b: Interval, c: Interval)
    requires b.start < a.finish && c.start < a.finish
    ensures GreedyRun([a, b, c]) == [a]
  {
    assert [a, b, c][1..] == [b, c] && [b, c][1..] == [c];
    assert Accept([c], a.finish) == [];
  }

  /** Shortest duration is not optimal: whenever a and c are a compatible
      pair, both longer than b and both starting before the shortest interval
      b finishes, greedy_sd keeps only b while greedy_eft keeps two (for
      instance (0,5), (4,7), (6,12)). */
  lemma SdNotOptimal(a: Interval, b: Interval, c: Interval)
    requires a.start < a.finish <= c.start < c.finish && b.start < b.finish
    requires a.start < b.finish && c.start < b.finish
    requires b.finish - b.start < a.finish - a.start < c.finish - c.start
    ensures GreedySelection([a, b, c], ByDuration) == [b]
    ensures IsScheduleOf([a, c], [a, b, c])
    ensures |GreedySelection([a, b, c], ByDuration)| < |GreedySelection([a, b, c], ByFinish)|
  {
    SdKeepsShortest(a, b, c);
    PairIsSchedule(b, a, c);
    assert multiset([b, a, c]) == multiset([a, b, c]);
    EftOptimal([a, b, c], [a, c]);
  }

  lemma SdKeepsShortest(a: Interval, b: Interval, c: Interval)
    requires a.start < b.finish && c.start < b.finish
    requires b.finish - b.start < a.finish - a.start < c.finish - c.start
    ensures GreedySelection([a, b, c], ByDuration) == [b]
  {
    SwapFirstTwo(a, b, c);
    SortByDistinct([a, b, c], [b, a, c], ByDuration);
    RunKeepsFirst(b, a, c);
  }
}
