/** Intervals, selections and the facts about them shared by every selector. */
module Intervals {

  /** A task's occupancy window, half-open: [start, finish). The selectors
      assume start < finish and never check it (see WellFormed). */
  datatype Interval = Interval(start: int, finish: int)

  /** The sort keys the selectors use, all ascending. */
  datatype SortKey = ByStart | ByFinish | ByDuration

  function KeyValue(key: SortKey, iv: Interval): int
  {
    match key
    case ByStart => iv.start
    case ByFinish => iv.finish
    case ByDuration => iv.finish - iv.start
  }

  /** What the exhaustive selector returns: a count and the chosen intervals. */
  datatype Schedule = Schedule(count: nat, chosen: seq<Interval>)

  /** Every interval finishes after it starts. */
  predicate WellFormed(s: seq<Interval>)
  {
    forall iv :: iv in s ==> iv.start < iv.finish
  }

  /** Adjacent intervals do not overlap: each starts at or after the previous one finishes. */
  predicate Chain(t: seq<Interval>)
  {
    forall i :: 0 < i < |t| ==> t[i-1].finish <= t[i].start
  }

  predicate SortedBy(t: seq<Interval>, key: SortKey)
  {
    forall i, j :: 0 <= i < j < |t| ==> KeyValue(key, t[i]) <= KeyValue(key, t[j])
  }

  /** a is obtained from b by deleting elements. */
  predicate IsSubsequence(a: seq<Interval>, b: seq<Interval>)
    decreases |b|
  {
    if a == [] then true
    else if b == [] then false
    else (a[0] == b[0] && IsSubsequence(a[1..], b[1..])) || IsSubsequence(a, b[1..])
  }

  /** c is a feasible selection from s: a chain whose intervals, counted
      with multiplicity, all occur in s. */
  predicate IsScheduleOf(c: seq<Interval>, s: seq<Interval>)
  {
    Chain(c) && multiset(c) <= multiset(s)
  }

  /** In a chain of well-formed intervals every interval finishes no later
      than any later one starts, not only its successor. */
  lemma {:induction false} ChainOrdered(t: seq<Interval>, i: int, j: int)
    requires Chain(t) && WellFormed(t)
    requires 0 <= i < j < |t|
    ensures t[i].finish <= t[j].start
    decreases j - i
  {
    if j > i + 1 {
      ChainOrdered(t, i, j - 1);
      assert t[j-1] in t;
    }
  }

  /** A subsequence draws on the elements of its super-sequence. */
  lemma {:induction false} SubsequenceMultiset(a: seq<Interval>, b: seq<Interval>)
    requires IsSubsequence(a, b)
    ensures multiset(a) <= multiset(b)
    decreases |b|
  {
    if a != [] {
      assert b == [b[0]] + b[1..];
      if a[0] == b[0] && IsSubsequence(a[1..], b[1..]) {
        SubsequenceMultiset(a[1..], b[1..]);
        assert a == [a[0]] + a[1..];
      } else {
        SubsequenceMultiset(a, b[1..]);
      }
    }
  }

  lemma SubMultisetWellFormed(c: seq<Interval>, s: seq<Interval>)
    requires WellFormed(s) && multiset(c) <= multiset(s)
    ensures WellFormed(c)
  {
    forall iv | iv in c ensures iv.start < iv.finish {
      assert iv in multiset(c);
    }
  }

  /** Keys strictly increase along t. */
  predicate StrictlySortedBy(t: seq<Interval>, key: SortKey)
  {
    forall i, j :: 0 <= i < j < |t| ==> KeyValue(key, t[i]) < KeyValue(key, t[j])
  }

  /** When keys are distinct, there is only one ordering by key of a
      collection of intervals. */
  lemma {:induction false} UniqueOrder(a: seq<Interval>, b: seq<Interval>, key: SortKey)
    requires StrictlySortedBy(a, key)
    requires SortedBy(b, key)
    requires multiset(a) == multiset(b)
    ensures a == b
    decreases |a|
  {
    assert |a| == |multiset(a)| == |multiset(b)| == |b|;
    if a != [] {
      assert b[0] in multiset(a);
      var k :| 0 <= k < |a| && a[k] == b[0];
      assert a[0] in multiset(b);
      var m :| 0 <= m < |b| && b[m] == a[0];
      if m > 0 {
        assert KeyValue(key, b[0]) <= KeyValue(key, b[m]);
      }
      assert k == 0;
      DropCommonHead(a, b);
      UniqueOrder(a[1..], b[1..], key);
    }
  }

  /** Along a chain of well-formed intervals starts strictly increase. */
  lemma ChainStrictlySorted(t: seq<Interval>)
    requires Chain(t) && WellFormed(t)
    ensures StrictlySortedBy(t, ByStart)
  {
    forall i, j | 0 <= i < j < |t| ensures t[i].start < t[j].start {
      ChainOrdered(t, i, j);
      assert t[i] in t;
    }
  }

  /** A chain of well-formed intervals is the only ordering by start of its
      elements. */
  lemma UniqueStartOrder(a: seq<Interval>, b: seq<Interval>)
    requires Chain(a) && WellFormed(a)
    requires SortedBy(b, ByStart)
    requires multiset(a) == multiset(b)
    ensures a == b
  {
    ChainStrictlySorted(a);
    UniqueOrder(a, b, ByStart);
  }

  lemma DropCommonHead(a: seq<Interval>, b: seq<Interval>)
    requires a != [] && b != [] && a[0] == b[0]
    requires multiset(a) == multiset(b)
    ensures multiset(a[1..]) == multiset(b[1..])
  {
    assert a == [a[0]] + a[1..];
    assert b == [b[0]] + b[1..];
    assert multiset(a) == multiset{a[0]} + multiset(a[1..]);
    assert multiset(b) == multiset{a[0]} + multiset(b[1..]);
    assert multiset(a[1..]) == multiset(a) - multiset{a[0]};
    assert multiset(b[1..]) == multiset(b) - multiset{a[0]};
  }

  lemma ConsSubMultiset(x: Interval, t: seq<Interval>)
    ensures multiset(t) <= multiset([x] + t)
  {
    assert multiset([x] + t) == multiset(t) + multiset{x};
  }

  lemma SwapFirstTwo(a: Interval, b: Interval, c: Interval)
    ensures multiset([b, a, c]) == multiset([a, b, c])
  {
  }

  lemma ReverseThree(a: Interval, b: Interval, c: Interval)
    ensures multiset([c, b, a]) == multiset([a, b, c])
  {
  }

  /** Two of three intervals that do not overlap form a schedule of the three. */
  lemma PairIsSchedule(a: Interval, b: Interval, c: Interval)
    requires b.finish <= c.start
    ensures IsScheduleOf([b, c], [a, b, c])
  {
    ConsSubMultiset(a, [b, c]);
    assert [a] + [b, c] == [a, b, c];
  }
}
