# Interval scheduling selectors, modelled and verified in Dafny

The repository benchmarks selectors for the interval-scheduling problem. An
interval is a `(start, finish)` pair. Two intervals are compatible when one
finishes at or before the other starts, so touching endpoints are allowed.
A selector picks as many pairwise compatible intervals as it can.

This project models the selectors:

- The three greedy selectors `greedy_eft`, `greedy_est` and `greedy_sd`
  (module `Greedy`). Each sorts a copy of the input stably by one key:
  finish, start, or `finish - start`. Each keeps the first sorted interval,
  then accepts every later interval that starts at or after the finish of
  the last one accepted.
- The exhaustive search `exhaustive_interval_scheduling` (module
  `ExhaustiveSearch`). It enumerates the masks `0 .. 2^n - 1` and builds the
  subset of positions whose bit is set. It sorts that subset by start,
  checks adjacent pairs, and keeps the first feasible subset that is
  strictly larger than the best so far.
- The older `interval_scheduling` (module `InPlaceScheduling`). It sorts the
  caller's list in place by finish, then runs the same scan.
- The copies of these selectors in `assignment1.py` (lines 25-106). They are
  the same code, so the same members cover them. `assignment1.py` itself
  only times the selectors and discards their counts. Module `Comparison`
  proves how the selectors' counts relate on the same input, and states
  what they return on the sample input the scripts run on.

Python's `sorted` and `list.sort` are stable. Module `Sorting` models them
as a functional stable insertion sort, `SortBy`. It is proved to return a
permutation, sorted by key, that keeps equal keys in input order. The
in-place `list.sort` is an insertion sort on an `array`, `SortInPlace`,
proved equal to `SortBy`. Module `Intervals` holds the shared vocabulary:
- `Chain`: adjacent intervals are compatible.
- `IsScheduleOf(c, s)`: `c` is a chain drawn from `s` as a sub-multiset.
- `WellFormed`: every interval has start < finish.

The code assumes this last condition without checking it. The optimality
theorems require it.

The specification functions model these source lines:
- `Intervals.KeyValue`: the sort keys at greedy_algos.py:6, 23 and 40,
  exhausative_algo.py:17 and interval_scheduling.py:6.
- `Sorting.Insert` and `Sorting.SortBy`: the stable `sorted` at
  greedy_algos.py:6, 23 and 40, and the stable `list.sort` at
  exhausative_algo.py:17 and interval_scheduling.py:6.
- `Greedy.Accept` and `Greedy.GreedyRun`: the scan at greedy_algos.py:8-14.
- `Greedy.GreedySelection`: a whole greedy selector, greedy_algos.py:1-16.
- `ExhaustiveSearch.Pow2`: `1 << n` at exhausative_algo.py:10.
- `ExhaustiveSearch.Bit`: the bit test at exhausative_algo.py:13.
- `ExhaustiveSearch.MaskSubset`: the subset loop at exhausative_algo.py:11-14.
- `ExhaustiveSearch.Candidate`: that subset sorted by start,
  exhausative_algo.py:17.
- `ExhaustiveSearch.Consider`: the strict-improvement update at
  exhausative_algo.py:27-29.
- `ExhaustiveSearch.Best` and `ExhaustiveSearch.Exhaustive`: the mask loop
  and the whole search, exhausative_algo.py:1-31.

Each loop of the source is a `method` whose `ensures` ties its result to a
specification function:
- `GreedyScan` to `GreedyRun`;
- `BuildSubset` to `MaskSubset`;
- `CheckFeasible` to `Chain`;
- `ExhaustiveSelect` to `Exhaustive`;
- `SortInPlace` to `SortBy`.

The properties of those functions are lemmas. The headline results are:
- Earliest finish time is optimal (`EftOptimal`).
- The exhaustive search is optimal and returns the first maximal subset it
  meets (`ExhaustiveOptimal`, `ExhaustiveFirstFound`).
- The two therefore always agree on the count (`ExhaustiveEqualsEft`).
- Earliest start and shortest duration can both lose (`EstNotOptimal`,
  `SdNotOptimal`).

Two consequences of the code are worth recording:
- `interval_scheduling`, unlike the other selectors, sorts the caller's
  list in place (interval_scheduling.py:6). `IntervalScheduling` models that
  with an array it `modifies`.
- On the sample, the earliest-finish-time selection contains `(8,11)` and
  not `(8,12)`. `(8,11)` finishes earlier, so it is accepted first, and
  `(8,12)` then starts before the running finish 11. `SampleCounts` states
  this selection.

## Model

| member | source | states |
|---|---|---|
| `Sorting.SortBy` | greedy_algos.py:6 | the stable sort by key returns a permutation of its input (same multiset, same length) |
| `Sorting.SortBySorted` | greedy_algos.py:6 | the sorted copy is in ascending key order |
| `Sorting.SortByStable` | greedy_algos.py:23 | for every key value, the intervals with that key appear in the sorted copy in their input order (stability) |
| `Sorting.SortByOfSorted` | greedy_algos.py:6 | a list already in key order is returned unchanged |
| `Sorting.SortByDistinct` | greedy_algos.py:40 | when keys are distinct, the only possible sorted result is the strictly increasing ordering of the same elements |
| `Sorting.InsertMultiset` | greedy_algos.py:6 | one insertion step adds exactly the inserted interval |
| `Sorting.InsertSorted` | greedy_algos.py:6 | inserting into a key-sorted list keeps it key-sorted |
| `Sorting.InsertWithKey` | greedy_algos.py:6 | insertion puts the new interval after all earlier intervals with its key, and changes no other key's order |
| `Sorting.AdjacentSorted` | greedy_algos.py:6 | comparing neighbours is enough to establish key order |
| `Sorting.SortInPlace` | interval_scheduling.py:6 | the in-place sort leaves the array equal to the stable sort of its old contents |
| `Sorting.InsertAt` | interval_scheduling.py:6 | shifting larger keys right and dropping the element into the gap performs one insertion step on the prefix, leaving the rest of the array alone |
| `Sorting.InsertPosition` | interval_scheduling.py:6 | the inner shifting loop stops exactly where the functional insertion puts the element |
| `Greedy.AcceptChain` | greedy_algos.py:11-14 | the scan accepts, in order, a chain of elements of what it scans, the first starting at or after the running finish |
| `Greedy.AcceptSkipAll` | greedy_algos.py:12 | intervals starting before the running finish are passed over |
| `Greedy.AcceptTake` | greedy_algos.py:12-14 | an interval starting at or after the running finish is accepted, and its finish becomes the running finish |
| `Greedy.GreedyRunChain` | greedy_algos.py:8-14 | the scan of a sorted list yields a chain that is a subsequence of that list and starts with its first element |
| `Greedy.GreedySelectionSchedule` | greedy_algos.py:6-16 | every greedy selection is a feasible schedule drawn from the input and a subsequence of the key-sorted copy; on non-empty input it has at least the first sorted interval |
| `Greedy.GreedyScan` | greedy_algos.py:8-14 | the scan loop, whose running finish is always the finish of the last selected interval, computes `GreedyRun` of the sorted list |
| `Greedy.GreedySelect` | greedy_algos.py:1-16 | empty input gives `(0, [])`; otherwise the count is the length of the selection, at least 1, the selection starts with the first sorted interval and is a feasible schedule of the input |
| `Greedy.GreedyEft` | greedy_algos.py:1-16 | greedy_eft: the finish-key selection, `(0, [])` on empty input, a feasible schedule of the input headed by the first finish-sorted interval with count equal to its length, and on well-formed input no schedule of the input is larger |
| `Greedy.GreedyEst` | greedy_algos.py:18-33 | greedy_est: the start-key selection, `(0, [])` on empty input, a feasible schedule of the input with count equal to its length |
| `Greedy.GreedySd` | greedy_algos.py:35-50 | greedy_sd: the duration-key selection, `(0, [])` on empty input, a feasible schedule of the input with count equal to its length |
| `Greedy.TakeFirst` | greedy_algos.py:8-9 | the exchange step: after the interval that finishes first, the rest of any schedule fits and is drawn from the remaining intervals |
| `Greedy.AcceptOptimal` | greedy_algos.py:11-14 | over a finish-sorted list the scan keeps at least as many intervals as any schedule that starts after the running finish |
| `Greedy.GreedyRunOptimal` | greedy_algos.py:8-14 | over a finish-sorted well-formed list the scan is at least as large as every schedule of the list |
| `Greedy.EftOptimal` | greedy_algos.py:1-16 | earliest-finish-time theorem: on well-formed input no schedule of the input is larger than greedy_eft's selection |
| `Greedy.EstNotOptimal` | greedy_algos.py:18-33 | a long interval that starts first and overlaps two compatible ones makes greedy_est keep one where a schedule of two exists and greedy_eft keeps more |
| `Greedy.EstKeepsFirst` | greedy_algos.py:23-31 | on such an input greedy_est keeps exactly the long interval |
| `Greedy.RunKeepsFirst` | greedy_algos.py:8-14 | the scan keeps only the first interval when it overlaps the other two |
| `Greedy.SdNotOptimal` | greedy_algos.py:35-50 | when two compatible intervals, both longer than the shortest one, start before it finishes, greedy_sd keeps one where a schedule of two exists and greedy_eft keeps more |
| `Greedy.SdKeepsShortest` | greedy_algos.py:40-48 | on such an input greedy_sd keeps exactly the short interval |
| `ExhaustiveSearch.Pow2` | exhausative_algo.py:10 | `1 << n` is a positive number of masks |
| `ExhaustiveSearch.BitTop` | exhausative_algo.py:13 | adding `2^n` to a mask below `2^n` sets bit n |
| `ExhaustiveSearch.BitAboveTop` | exhausative_algo.py:13 | a mask below `2^n` has bit n clear |
| `ExhaustiveSearch.BitBelowTop` | exhausative_algo.py:13 | adding `2^n` leaves the bits below n unchanged |
| `ExhaustiveSearch.MaskSubsetAgree` | exhausative_algo.py:11-14 | the built subset depends only on the bits below the input length |
| `ExhaustiveSearch.MaskSubsetMultiset` | exhausative_algo.py:11-14 | every mask's subset is a sub-multiset of the input |
| `ExhaustiveSearch.MaskForSubMultiset` | exhausative_algo.py:10-14 | every sub-multiset of the input is the subset of some mask below `2^n`, so the enumeration misses no subset |
| `ExhaustiveSearch.MaskOne` | exhausative_algo.py:11-14 | mask 1 selects just the first interval |
| `ExhaustiveSearch.BestShape` | exhausative_algo.py:27-29 | the running best has a size equal to its length, is empty when the size is 0, and is feasible |
| `ExhaustiveSearch.BestOptimal` | exhausative_algo.py:27 | no feasible subset considered so far is larger than the running best |
| `ExhaustiveSearch.BestFirst` | exhausative_algo.py:27-29 | the running best is the first subset that reached its size: every feasible subset considered before it is strictly smaller |
| `ExhaustiveSearch.CandidateFromInput` | exhausative_algo.py:17 | a mask's sorted subset is ordered by start and drawn from the input |
| `ExhaustiveSearch.ScheduleIsCandidate` | exhausative_algo.py:17-24 | a schedule of well-formed intervals is exactly the start-sorted subset of the mask that selects its elements |
| `ExhaustiveSearch.ExhaustiveSchedule` | exhausative_algo.py:1-31 | the result is a feasible schedule of the input, sorted by start, whose size is its length; empty input gives `(0, [])` |
| `ExhaustiveSearch.ExhaustiveOptimal` | exhausative_algo.py:10-29 | on well-formed input no schedule of the input is larger than the result |
| `ExhaustiveSearch.ExhaustiveOverMasks` | exhausative_algo.py:10-27 | for any input, no mask's feasible sorted subset is larger than the result |
| `ExhaustiveSearch.ExhaustiveNonEmpty` | exhausative_algo.py:21-22 | non-empty input gives a size of at least 1, since a single interval has no pair to fail |
| `ExhaustiveSearch.ExhaustiveFirstFound` | exhausative_algo.py:27 | the result is the sorted subset of some mask, and every feasible subset of an earlier mask is strictly smaller (first found wins ties) |
| `ExhaustiveSearch.BuildSubset` | exhausative_algo.py:11-14 | the inner loop appends, in input order, exactly the intervals whose bit is set |
| `ExhaustiveSearch.CheckFeasible` | exhausative_algo.py:20-24 | the flag loop with its early exit returns true exactly when every adjacent pair is compatible |
| `ExhaustiveSearch.ExhaustiveSelect` | exhausative_algo.py:1-31 | the procedure computes `Exhaustive`: `(0, [])` on empty input, otherwise a size at least 1 equal to the subset's length; the subset is a start-sorted schedule of the input and on well-formed input no schedule is larger |
| `InPlaceScheduling.IntervalScheduling` | interval_scheduling.py:1-16 | the caller's list ends up as the stable finish-sorted permutation of its old contents; the result is exactly greedy_eft's selection on the old contents, empty for empty input, starts with the first sorted interval, is a chain and a subsequence of the sorted list, and is optimal on well-formed input |
| `Comparison.ExhaustiveDominatesGreedy` | assignment1.py:25-106 | on well-formed input every greedy variant selects at most the exhaustive count |
| `Comparison.ExhaustiveEqualsEft` | assignment1.py:25-106 | on well-formed input the exhaustive count equals greedy_eft's count |
| `Comparison.NestedCounts` | assignment1.py:25-106 | on three nested intervals greedy_eft keeps the innermost and the exhaustive count is 1 |
| `Comparison.SampleCounts` | greedy_algos.py:53-57 | on the sample, greedy_eft selects (1,4), (5,7), (8,11), (12,16) and the exhaustive count is 4 |
| `Comparison.SampleRun` | greedy_algos.py:8-14 | the scan over the sample, already in finish order, keeps the first, fourth, eighth and eleventh intervals |
| `Comparison.SampleShapeRun` | greedy_algos.py:8-14 | the same holds for any eleven intervals that overlap in the sample's pattern |
| `Comparison.SampleSortedByFinish` | exhausative_algo.py:34 | the sample is already in finish order, so the stable sort leaves it unchanged |
| `Comparison.SampleWellFormed` | interval_scheduling.py:19 | every sample interval starts before it finishes |

## Left out

- `generate_uniform_dataset` (dataset_gen.py, assignment1.py:8-23) is not modelled. It draws random floats and sets the global seed.
- `time_algorithm` and `run_big_o_validation` (assignment1.py:108-228) are not modelled. They are wall-clock timing, statistics, plotting and file output.
- The module-level example runs and their `print` calls are not modelled. The sample itself is modelled as `Comparison.IsSample`.
- Endpoints are unbounded integers, not Python floats. The code only compares and subtracts them.
- Intervals with start >= finish are allowed as inputs and every selector handles them. The optimality and domination lemmas require `WellFormed`, because the source assumes it. `ExhaustiveOverMasks` holds without it.
- The sort algorithm Python uses is replaced by a stable insertion sort. Any stable sort by key returns the same list, so only the running time differs.
- `GreedyEst`, `GreedySd`: no optimality is claimed. `EstNotOptimal` and `SdNotOptimal` prove it fails.
- The sample's greedy_est and greedy_sd selections are not computed, because their sorts involve tied keys. Only the greedy_eft selection and the exhaustive count on the sample are stated.
- Running time and the `2^n` growth are not modelled.
- The greedy selectors and the exhaustive search never mutate their input. This holds because their input is a Dafny `seq`, an immutable value, so no separate lemma states it.
