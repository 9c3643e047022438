/** exhaustive_interval_scheduling: tries every subset of the input, given
    as a bitmask over input positions, and keeps the first largest subset
    that is free of overlaps once sorted by start. */
module ExhaustiveSearch {
  import opened Intervals
  import opened Sorting

  /** 2^n, the value of `1 << n`. */
  function Pow2(n: nat): (p: nat)
    ensures p >= 1
  {
    if n == 0 then 1 else 2 * Pow2(n - 1)
  }

  /** Whether bit i of mask is set, i.e. `mask & (1 << i) != 0`. */
  function Bit(mask: nat, i: nat): bool
  {
    if i == 0 then mask % 2 == 1 else Bit(mask / 2, i - 1)
  }

  /** The intervals whose positions have their bit set in mask, in input order. */
  function MaskSubset(s: seq<Interval>, mask: nat): seq<Interval>
    decreases |s|
  {
    if s == [] then []
    else MaskSubset(s[..|s|-1], mask) + (if Bit(mask, |s|-1) then [s[|s|-1]] else [])
  }

  /** The subset of mask after it is sorted by start. */
  function Candidate(s: seq<Interval>, mask: nat): seq<Interval>
  {
    SortBy(MaskSubset(s, mask), ByStart)
  }

  /** One step of the search: a feasible subset replaces the best so far
      only when it is strictly larger. */
  function Consider(best: Schedule, subset: seq<Interval>): Schedule
  {
    if Chain(subset) && |subset| > best.count then Schedule(|subset|, subset) else best
  }

  /** The candidates of the masks 0 .. m-1, in the order they are tried. */
  function Candidates(s: seq<Interval>, m: nat): seq<seq<Interval>>
  {
    seq(m, k requires 0 <= k < m => Candidate(s, k))
  }

  /** The best schedule after the subsets cs have been considered in order. */
  function Best(cs: seq<seq<Interval>>): Schedule
    decreases |cs|
  {
    if cs == [] then Schedule(0, []) else Consider(Best(cs[..|cs|-1]), cs[|cs|-1])
  }

  /** What exhaustive_interval_scheduling returns. */
  function Exhaustive(s: seq<Interval>): Schedule
  {
    if s == [] then Schedule(0, []) else Best(Candidates(s, Pow2(|s|)))
  }

  // ----- bits -----

  lemma {:induction false} BitAboveTop(m: nat, n: nat)
    requires m < Pow2(n)
    ensures !Bit(m, n)
    decreases n
  {
    if n > 0 {
      BitAboveTop(m / 2, n - 1);
    }
  }

  lemma {:induction false} BitTop(m: nat, n: nat)
    requires m < Pow2(n)
    ensures Bit(m + Pow2(n), n)
    decreases n
  {
    if n > 0 {
      assert (m + Pow2(n)) / 2 == m / 2 + Pow2(n - 1);
      BitTop(m / 2, n - 1);
    }
  }

  lemma {:induction false} BitBelowTop(m: nat, n: nat, i: nat)
    requires i < n
    ensures Bit(m + Pow2(n), i) == Bit(m, i)
    decreases i
  {
    assert (m + Pow2(n)) / 2 == m / 2 + Pow2(n - 1);
    if i > 0 {
      BitBelowTop(m / 2, n - 1, i - 1);
    }
  }

  lemma {:induction false} BitOfOne(i: nat)
    ensures Bit(1, i) == (i == 0)
  {
    if i > 0 {
      assert !Bit(0, i - 1) by { BitOfZero(i - 1); }
    }
  }

  lemma {:induction false} BitOfZero(i: nat)
    ensures !Bit(0, i)
  {
    if i > 0 {
      BitOfZero(i - 1);
    }
  }

  // ----- subsets -----

  lemma MaskSubsetSnoc(init: seq<Interval>, x: Interval, mask: nat)
    ensures MaskSubset(init + [x], mask)
         == MaskSubset(init, mask) + (if Bit(mask, |init|) then [x] else [])
  {
    var s := init + [x];
    assert s[..|s|-1] == init && s[|s|-1] == x;
  }

  /** The subset depends only on the bits below |s|. */
  lemma {:induction false} MaskSubsetAgree(s: seq<Interval>, m1: nat, m2: nat)
    requires forall i :: 0 <= i < |s| ==> Bit(m1, i) == Bit(m2, i)
    ensures MaskSubset(s, m1) == MaskSubset(s, m2)
    decreases |s|
  {
    if s != [] {
      MaskSubsetAgree(s[..|s|-1], m1, m2);
    }
  }

  /** Setting the top bit adds the last interval. */
  lemma MaskSubsetTop(init: seq<Interval>, x: Interval, m: nat)
    requires m < Pow2(|init|)
    ensures MaskSubset(init + [x], m + Pow2(|init|)) == MaskSubset(init, m) + [x]
  {
    var n := |init|;
    forall i | 0 <= i < n ensures Bit(m + Pow2(n), i) == Bit(m, i) {
      BitBelowTop(m, n, i);
    }
    MaskSubsetAgree(init, m + Pow2(n), m);
    BitTop(m, n);
    MaskSubsetSnoc(init, x, m + Pow2(n));
  }

  /** Leaving the top bit clear leaves out the last interval. */
  lemma MaskSubsetNoTop(init: seq<Interval>, x: Interval, m: nat)
    requires m < Pow2(|init|)
    ensures MaskSubset(init + [x], m) == MaskSubset(init, m)
  {
    BitAboveTop(m, |init|);
    MaskSubsetSnoc(init, x, m);
  }

  /** A mask selects elements of the input. */
  lemma {:induction false} MaskSubsetMultiset(s: seq<Interval>, mask: nat)
    ensures multiset(MaskSubset(s, mask)) <= multiset(s)
    decreases |s|
  {
    if s != [] {
      var init, x := s[..|s|-1], s[|s|-1];
      MaskSubsetMultiset(init, mask);
      assert s == init + [x];
      MaskSubsetSnoc(init, x, mask);
      SnocSubMultiset(MaskSubset(init, mask), init, x, Bit(mask, |init|));
    }
  }

  lemma SnocSubMultiset(sub: seq<Interval>, init: seq<Interval>, x: Interval, keep: bool)
    requires multiset(sub) <= multiset(init)
    ensures multiset(sub + (if keep then [x] else [])) <= multiset(init + [x])
  {
    assert multiset(init + [x]) == multiset(init) + multiset{x};
    if keep {
      assert multiset(sub + [x]) == multiset(sub) + multiset{x};
    } else {
      assert sub + [] == sub;
    }
  }

  /** Every sub-multiset of the input is what some mask below 2^|s| selects. */
  lemma {:induction false} MaskForSubMultiset(s: seq<Interval>, M: multiset<Interval>)
    requires M <= multiset(s)
    ensures exists mask: nat :: mask < Pow2(|s|) && multiset(MaskSubset(s, mask)) == M
    decreases |s|
  {
    if s == [] {
      assert multiset(MaskSubset(s, 0)) == M;
    } else {
      var init, x := s[..|s|-1], s[|s|-1];
      assert s == init + [x];
      SplitSubMultiset(init, x, M);
      if x in M {
        MaskForSubMultiset(init, M - multiset{x});
        var m: nat :| m < Pow2(|init|) && multiset(MaskSubset(init, m)) == M - multiset{x};
        MaskWithTop(init, x, M, m);
      } else {
        MaskForSubMultiset(init, M);
        var m: nat :| m < Pow2(|init|) && multiset(MaskSubset(init, m)) == M;
        MaskSubsetNoTop(init, x, m);
        assert m < Pow2(|s|);
      }
    }
  }

  /** A sub-multiset of init + [x] is, without one x, a sub-multiset of init. */
  lemma SplitSubMultiset(init: seq<Interval>, x: Interval, M: multiset<Interval>)
    requires M <= multiset(init + [x])
    ensures x in M ==> M - multiset{x} <= multiset(init)
    ensures x !in M ==> M <= multiset(init)
  {
    assert multiset(init + [x]) == multiset(init) + multiset{x};
  }

  lemma MaskWithTop(init: seq<Interval>, x: Interval, M: multiset<Interval>, m: nat)
    requires x in M
    requires m < Pow2(|init|) && multiset(MaskSubset(init, m)) == M - multiset{x}
    ensures m + Pow2(|init|) < Pow2(|init| + 1)
    ensures multiset(MaskSubset(init + [x], m + Pow2(|init|))) == M
  {
    MaskSubsetTop(init, x, m);
    assert multiset(MaskSubset(init, m) + [x]) == multiset(MaskSubset(init, m)) + multiset{x};
  }

  /** Mask 1 selects just the first interval. */
  lemma MaskOne(s: seq<Interval>)
    requires s != []
    ensures MaskSubset(s, 1) == [s[0]]
  {
    forall i | 0 <= i < |s| ensures Bit(1, i) == (i == 0) {
      BitOfOne(i);
    }
    MaskOneAgree(s);
  }

  lemma {:induction false} MaskOneAgree(s: seq<Interval>)
    requires s != []
    requires forall i :: 0 <= i < |s| ==> Bit(1, i) == (i == 0)
    ensures MaskSubset(s, 1) == [s[0]]
    decreases |s|
  {
    var init, x := s[..|s|-1], s[|s|-1];
    assert s == init + [x];
    MaskSubsetSnoc(init, x, 1);
    if init != [] {
      MaskOneAgree(init);
    } else {
      assert MaskSubset(init, 1) == [];
    }
  }

  // ----- the running best -----

  /** The running best is either empty or feasible, and its count is its length. */
  lemma {:induction false} BestShape(cs: seq<seq<Interval>>)
    ensures Best(cs).count == |Best(cs).chosen|
    ensures Best(cs).count == 0 ==> Best(cs).chosen == []
    ensures Chain(Best(cs).chosen)
    decreases |cs|
  {
    if cs != [] {
      BestShape(cs[..|cs|-1]);
    }
  }

  /** No feasible subset considered so far is larger than the running best. */
  lemma {:induction false} BestOptimal(cs: seq<seq<Interval>>, v: nat)
    requires v < |cs|
    requires Chain(cs[v])
    ensures |cs[v]| <= Best(cs).count
    decreases |cs|
  {
    if v < |cs| - 1 {
      var init := cs[..|cs|-1];
      assert init[v] == cs[v];
      BestOptimal(init, v);
    }
  }

  /** The running best is the subset that first reached its size: every
      feasible subset considered before it is strictly smaller. */
  lemma {:induction false} BestFirst(cs: seq<seq<Interval>>)
    requires Best(cs).count > 0
    ensures exists w: nat :: w < |cs| && Best(cs).chosen == cs[w]
              && (forall v: nat :: v < w && Chain(cs[v]) ==> |cs[v]| < Best(cs).count)
    decreases |cs|
  {
    var init := cs[..|cs|-1];
    var prev := Best(init);
    var c := cs[|cs|-1];
    if Chain(c) && |c| > prev.count {
      var w: nat := |cs| - 1;
      forall v: nat | v < w && Chain(cs[v]) ensures |cs[v]| < Best(cs).count {
        assert init[v] == cs[v];
        BestOptimal(init, v);
      }
      assert Best(cs).chosen == cs[w];
    } else {
      BestFirst(init);
      var w: nat :| w < |init| && prev.chosen == init[w]
              && (forall v: nat :: v < w && Chain(init[v]) ==> |init[v]| < prev.count);
      assert forall v: nat :: v < w ==> init[v] == cs[v];
      assert Best(cs).chosen == cs[w];
    }
  }

  lemma CandidatesStep(s: seq<Interval>, m: nat)
    ensures Candidates(s, m + 1)[..m] == Candidates(s, m)
    ensures Candidates(s, m + 1)[m] == Candidate(s, m)
  {
  }

  // ----- properties of the result -----

  /** The result is a feasible schedule drawn from the input, sorted by start,
      and its count is its length; empty input gives (0, []). */
  lemma ExhaustiveSchedule(s: seq<Interval>)
    ensures IsScheduleOf(Exhaustive(s).chosen, s)
    ensures SortedBy(Exhaustive(s).chosen, ByStart)
    ensures Exhaustive(s).count == |Exhaustive(s).chosen|
    ensures s == [] ==> Exhaustive(s) == Schedule(0, [])
  {
    if s != [] {
      var cs := Candidates(s, Pow2(|s|));
      BestShape(cs);
      if Best(cs).count > 0 {
        BestFirst(cs);
        var w: nat :| w < |cs| && Best(cs).chosen == cs[w];
        CandidateFromInput(s, w);
      }
    }
  }

  /** A candidate is sorted by start and drawn from the input. */
  lemma CandidateFromInput(s: seq<Interval>, mask: nat)
    ensures SortedBy(Candidate(s, mask), ByStart)
    ensures multiset(Candidate(s, mask)) <= multiset(s)
  {
    SortBySorted(MaskSubset(s, mask), ByStart);
    MaskSubsetMultiset(s, mask);
  }

  /** Optimality: on well-formed input no feasible selection from the input
      has more intervals than the result. */
  lemma ExhaustiveOptimal(s: seq<Interval>, c: seq<Interval>)
    requires WellFormed(s)
    requires IsScheduleOf(c, s)
    ensures |c| <= Exhaustive(s).count
  {
    if c != [] {
      MaskForSubMultiset(s, multiset(c));
      var w: nat :| w < Pow2(|s|) && multiset(MaskSubset(s, w)) == multiset(c);
      ScheduleIsCandidate(s, c, w);
      ExhaustiveOverMasks(s, w);
    }
  }

  /** A schedule of well-formed intervals is the candidate of the mask that selects its elements. */
  lemma ScheduleIsCandidate(s: seq<Interval>, c: seq<Interval>, w: nat)
    requires WellFormed(s) && IsScheduleOf(c, s)
    requires multiset(MaskSubset(s, w)) == multiset(c)
    ensures Candidate(s, w) == c
  {
    SubMultisetWellFormed(c, s);
    SortBySorted(MaskSubset(s, w), ByStart);
    UniqueStartOrder(c, Candidate(s, w));
  }

  /** Every mask's feasible candidate is at most the result, well-formed input or not. */
  lemma ExhaustiveOverMasks(s: seq<Interval>, mask: nat)
    requires s != [] && mask < Pow2(|s|)
    requires Chain(Candidate(s, mask))
    ensures |Candidate(s, mask)| <= Exhaustive(s).count
  {
    var cs := Candidates(s, Pow2(|s|));
    assert cs[mask] == Candidate(s, mask);
    BestOptimal(cs, mask);
  }

  /** A non-empty input has a schedule of at least one interval. */
  lemma ExhaustiveNonEmpty(s: seq<Interval>)
    requires s != []
    ensures Exhaustive(s).count >= 1
  {
    MaskOne(s);
    assert Candidate(s, 1) == [s[0]] by {
      SortByOfSorted([s[0]], ByStart);
    }
    assert Pow2(|s|) == 2 * Pow2(|s| - 1);
    ExhaustiveOverMasks(s, 1);
  }

  /** First found wins: the result is the candidate of some mask, and every
      feasible candidate of an earlier mask is strictly smaller. */
  lemma ExhaustiveFirstFound(s: seq<Interval>)
    requires s != [] && Exhaustive(s).count > 0
    ensures exists w: nat :: w < Pow2(|s|) && Exhaustive(s).chosen == Candidate(s, w)
              && (forall v: nat :: v < w && Chain(Candidate(s, v)) ==> |Candidate(s, v)| < Exhaustive(s).count)
  {
    var cs := Candidates(s, Pow2(|s|));
    BestFirst(cs);
    var w: nat :| w < |cs| && Best(cs).chosen == cs[w]
            && (forall v: nat :: v < w && Chain(cs[v]) ==> |cs[v]| < Best(cs).count);
    forall v: nat | v < w && Chain(Candidate(s, v)) ensures |Candidate(s, v)| < Exhaustive(s).count {
      assert cs[v] == Candidate(s, v);
    }
    assert Exhaustive(s).chosen == Candidate(s, w);
  }

  // ----- the procedure -----

  /** The inner loop over positions: appends each interval whose bit is set. */
  method BuildSubset(intervals: seq<Interval>, mask: nat) returns (subset: seq<Interval>)
    ensures subset == MaskSubset(intervals, mask)
  {
    subset := [];
    for i := 0 to |intervals|
      invariant subset == MaskSubset(intervals[..i], mask)
    {
      MaskSubsetSnoc(intervals[..i], intervals[i], mask);
      assert intervals[..i+1] == intervals[..i] + [intervals[i]];
      if Bit(mask, i) {
        subset := subset + [intervals[i]];
      }
    }
    assert intervals[..|intervals|] == intervals;
  }

  /** The feasibility loop: stops at the first adjacent pair that overlaps. */
  method CheckFeasible(subset: seq<Interval>) returns (feasible: bool)
    ensures feasible <==> Chain(subset)
  {
    feasible := true;
    var j := 1;
    while j < |subset|
      invariant 1 <= j
      invariant forall k :: 0 < k < j && k < |subset| ==> subset[k-1].finish <= subset[k].start
    {
      if subset[j-1].finish > subset[j].start {
        feasible := false;
        break;
      }
      j := j + 1;
    }
  }

  /** exhaustive_interval_scheduling. */
  method ExhaustiveSelect(intervals: seq<Interval>) returns (maxSize: nat, maxSubset: seq<Interval>)
    ensures Schedule(maxSize, maxSubset) == Exhaustive(intervals)
    ensures maxSize == |maxSubset|
    ensures intervals == [] ==> maxSize == 0 && maxSubset == []
    ensures intervals != [] ==> maxSize >= 1
    ensures IsScheduleOf(maxSubset, intervals) && SortedBy(maxSubset, ByStart)
    ensures WellFormed(intervals) ==> forall c :: IsScheduleOf(c, intervals) ==> |c| <= maxSize
  {
    var n := |intervals|;
    if n == 0 {
      return 0, [];
    }
    maxSize, maxSubset := 0, [];
    for mask := 0 to Pow2(n)
      invariant Schedule(maxSize, maxSubset) == Best(Candidates(intervals, mask))
    {
      CandidatesStep(intervals, mask);
      var subset := BuildSubset(intervals, mask);
      var a := new Interval[|subset|](k requires 0 <= k < |subset| => subset[k]);
      assert a[..] == subset;
      SortInPlace(a, ByStart);
      subset := a[..];
      var feasible := CheckFeasible(subset);
      if feasible && |subset| > maxSize {
        maxSize := |subset|;
        maxSubset := subset;
      }
    }
    ExhaustiveSchedule(intervals);
    ExhaustiveNonEmpty(intervals);
    forall c | WellFormed(intervals) && IsScheduleOf(c, intervals) ensures |c| <= maxSize {
      ExhaustiveOptimal(intervals, c);
    }
  }
}
