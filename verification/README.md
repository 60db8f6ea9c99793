# Sorting visualizer: the sort engines

The sorting visualizer is a single React component. It shows an array of
integers as bars and animates one of three sorts over it: bubble sort,
quicksort and merge sort. Every engine works on a copy of the displayed
array and sorts it in place. Along the way it makes three kinds of visible
step:

- it publishes the working array to the display after a write;
- it marks bar indices as "sorted";
- it highlights comparisons, sleeping between steps for a delay set by a
  speed slider.

This project models the delay policy and the three engines. Each engine is
a method over `seq<int>`. It returns the sorted sequence and a `Trace`
(module `Steps`), which records what the run makes observable:

- `snapshots`: every published array, in order;
- `finalized`: every index given the "sorted" mark, in order;
- `compares`: the number of highlighted comparisons.

Modules:

- `Sortedness`: sortedness, "same outside a range", the three-assignment
  swap, and permutation facts.
- `Steps`: the trace record and the predicates that describe it.
- `Delay`: `getDelay`.
- `BubbleEngine`: `bubbleSort`.
- `QuickEngine`: `quickSort`, `quickSortHelper` and `partition` (Lomuto
  scheme, last entry as pivot).
- `MergeEngine`: `mergeSort`, `mergeSortHelper` and `merge` (top-down, ties
  taken from the left run).
- `Visualizer`: all three engines agree on the final array.

In the source the ranges of `quickSortHelper`, `partition`, `merge` and
`mergeSortHelper` are inclusive. The model keeps those inclusive bounds in
the methods. The shared predicates use half-open ranges `[lo, hi)`.

Three behaviours of the code worth stating:

- Bubble sort marks index 0 twice for a non-empty array: once in the last
  outer pass and once after the loop (`SortingVisualizer.jsx:91` and `:94`).
  `BubbleSort` states the real log, which has `n + 1` entries and ends with
  a second 0. Quicksort and merge sort do mark each index exactly once.
- The comment at `SortingVisualizer.jsx:50` says speed 1 gives 200 ms. The
  formula gives 198 ms (`DelayOnSlider`).
- Merge sort does not publish only permutations of its input. A merge
  writes over the left run before the overwritten values are used, from the
  copies `L` and `R`. So a published array can repeat one value and lose
  another (`MergeSnapshotDuplicates`). Bubble sort and quicksort publish
  only permutations.

## Model

| member | source | states |
|---|---|---|
| Delay.GetDelay | src/SortingVisualizer/SortingVisualizer.jsx:49-52 | the delay is the larger of 1 and `200 - 2 * speed`: at least both, and equal to one of them |
| Delay.DelayNonIncreasing | src/SortingVisualizer/SortingVisualizer.jsx:49-52 | a higher speed setting never gives a longer delay |
| Delay.DelayStrictlyDecreasing | src/SortingVisualizer/SortingVisualizer.jsx:49-52 | up to speed 100, every increase of the speed strictly shortens the delay |
| Delay.DelayOnSlider | src/SortingVisualizer/SortingVisualizer.jsx:49-52 | on the slider range 1..100 the delay lies in 1..198; speed 1 gives 198 ms, 50 gives 100 ms, 100 gives 1 ms |
| Sortedness.Swap | src/SortingVisualizer/SortingVisualizer.jsx:74-76 | the swap with a temporary exchanges the two entries, leaves every other entry alone and keeps the multiset |
| Sortedness.SortedPermutationUnique | src/SortingVisualizer/SortingVisualizer.jsx:58-227 | two sorted permutations of the same array are equal, so all engines must end on the same array |
| BubbleEngine.CompareSwap | src/SortingVisualizer/SortingVisualizer.jsx:72-77 | after one compare-and-swap the pair is in order, and the right slot holds the larger of the two values |
| BubbleEngine.CompareAdjacent | src/SortingVisualizer/SortingVisualizer.jsx:65-89 | one inner step carries the running maximum one slot right, stays inside the pass range, keeps the multiset, and publishes only after a swap |
| BubbleEngine.Pass | src/SortingVisualizer/SortingVisualizer.jsx:65-89 | one outer pass moves the maximum of `[0, last]` to `last`, keeps that prefix below the sorted tail, changes nothing beyond `last`, publishes only permutations of the input, does not touch an already sorted array, and makes exactly `last` comparisons, one per inner iteration |
| BubbleEngine.BubbleSort | src/SortingVisualizer/SortingVisualizer.jsx:58-96 | the result is a sorted permutation of the input; `n(n-1)/2` comparisons, the sum of the passes' own counts; the marks are `n-1, n-2, …, 0` followed by a second 0 (none for the empty array), so exactly the indices `[0, n)` are marked; every published array is a permutation of the input, the last one is the result, and a sorted input is neither changed nor republished |
| QuickEngine.Scan | src/SortingVisualizer/SortingVisualizer.jsx:125-141 | after the scan, the slots up to `i` hold values below the pivot and the slots from `i + 1` to `high - 1` hold values at or above it; only `[low, high)` moves, the multiset is kept, every published array is a permutation of the input, and one comparison is made per scanned entry, `high - low` in all |
| QuickEngine.ScanSlot | src/SortingVisualizer/SortingVisualizer.jsx:129-140 | one scanned slot: an entry below the pivot is swapped to just after the front block, which grows by one, and the array is published; any other entry stays and nothing is published; either way the front block stays below the pivot and the back block at or above it |
| QuickEngine.Partition | src/SortingVisualizer/SortingVisualizer.jsx:118-155 | returns `p` in `[low, high]` with the old `a[high]` at `p`, everything left of `p` below it and everything right of it at or above it; only `[low, high]` moves; `p` alone is marked; the `high - low` comparisons are those the scan made; at least one publication and the last is the result |
| QuickEngine.QuickSortHelper | src/SortingVisualizer/SortingVisualizer.jsx:106-116 | sorts `[low, high]` as a permutation of it, touches nothing outside, and marks every index of the range exactly once (a single-entry range by the else-if branch, every other index as a pivot) and nothing else; an empty or single-entry range publishes nothing and compares nothing |
| QuickEngine.Joined | src/SortingVisualizer/SortingVisualizer.jsx:107-110 | after a partition, sorting the two sides separately leaves the whole range sorted |
| QuickEngine.QuickSort | src/SortingVisualizer/SortingVisualizer.jsx:98-104 | the result is a sorted permutation of the input; each index in `[0, n)` is marked exactly once (the empty array gets no mark); every published array is a permutation of the input and the last is the result; an empty or one-entry array publishes nothing and compares nothing |
| MergeEngine.MergeRuns | src/SortingVisualizer/SortingVisualizer.jsx:190-226 | the reference order of a merge, taking the left head on a tie as at line 196; its result is as long as both runs together (its order properties are the rows below) |
| MergeEngine.MergeRunsPermutation | src/SortingVisualizer/SortingVisualizer.jsx:190-226 | a merge writes every entry of both runs exactly once |
| MergeEngine.MergeRunsSorted | src/SortingVisualizer/SortingVisualizer.jsx:190-226 | merging two sorted runs gives a sorted sequence |
| MergeEngine.MergeRunsInOrder | src/SortingVisualizer/SortingVisualizer.jsx:196-202 | ties go left: when no entry of the right run is below an entry of the left run, the merge is the left run followed by the right run |
| MergeEngine.MergeRunsReversed | src/SortingVisualizer/SortingVisualizer.jsx:196-202 | when every entry of the right run is strictly below every entry of the left run, the merge is the right run followed by the left run |
| MergeEngine.WriteSmallerHead | src/SortingVisualizer/SortingVisualizer.jsx:190-210 | one round of the first merge loop writes exactly one value, the next value of the reference merge, to the next slot, advances exactly one of the two runs, and publishes the array |
| MergeEngine.CompareHeads | src/SortingVisualizer/SortingVisualizer.jsx:190-210 | the first loop stops when one run is used up; it has written the merged prefix over the input and published once per write, with one comparison per write |
| MergeEngine.DrainLeft | src/SortingVisualizer/SortingVisualizer.jsx:212-218 | copies the rest of the left run, which continues the merged prefix, publishing once per write |
| MergeEngine.DrainRight | src/SortingVisualizer/SortingVisualizer.jsx:220-226 | copies the rest of the right run, which completes the merge, publishing once per write |
| MergeEngine.Merge | src/SortingVisualizer/SortingVisualizer.jsx:178-227 | `[l, r]` ends as the merge of the two copied runs and nothing outside moves; there are `r - l + 1` publications, and publication `w` shows the input with the first `w + 1` merged values over `[l, l + w]`; every published array holds only input values; nothing is marked; the comparisons number at most the writes and at least the length of one run |
| MergeEngine.MergeSortHelper | src/SortingVisualizer/SortingVisualizer.jsx:170-176 | sorts `[l, r]` as a permutation of it and touches nothing outside; nothing is marked; every published array holds only input values and the last is the result; a range of at most one entry emits no step at all |
| MergeEngine.MergedHalves | src/SortingVisualizer/SortingVisualizer.jsx:173-175 | merging two sorted halves in place leaves the range a sorted permutation of what it held before |
| MergeEngine.MergeSort | src/SortingVisualizer/SortingVisualizer.jsx:157-168 | the result is a sorted permutation of the input; the indices `0..n-1` are marked once each, in order; every published array holds only input values and the last is the result; an empty or one-entry array publishes nothing and compares nothing |
| MergeEngine.MergeSnapshotDuplicates | src/SortingVisualizer/SortingVisualizer.jsx:196-204 | merging `[2, 1]` first publishes `[1, 1]`, which is not a permutation of the input |
| Visualizer.EnginesAgree | src/SortingVisualizer/SortingVisualizer.jsx:58-227 | bubble sort, quicksort and merge sort all return the same array, the sorted permutation of the input, and each run's last published array is that array |

## Left out

- Trace: each of the three logs keeps its own order, but the order of
  events across logs is not modelled. For example, the model does not
  record that `partition` publishes the pivot swap (line 146) before it
  marks the pivot (line 150).
- Timing: `sleep` and the `await`s between steps are left out. The model
  counts comparisons instead of sleeping; `getDelay` is modelled on its own.
- DOM class changes other than the "sorted" mark: the "comparing" and
  "swapping" highlights, their removal, the pivot highlight, and the
  approximate cleanup at lines 206-207 only affect colours.
- React state: the `isSorting` guard, `selectedAlgorithm`, and the fact that
  `setArray` is asynchronous. Each `setArray([...arr])` becomes a published
  snapshot in the trace.
- `resetArray` and `randomIntFromInterval`: they use floating-point
  randomness, which this model does not cover.
- The algorithm descriptions and the page layout: these are static text and
  markup.
- The slider's string value: the speed is taken as an integer.
- Arrays are `seq<int>` with unbounded integers. JavaScript numbers are
  doubles, but the visualizer only holds small integers, so no rounding
  happens.
- BubbleSort: stability is not stated. It only states that a sorted input is
  returned unchanged and is never republished.
- MergeSortHelper: it does not state the total number of comparisons. Only
  `Merge` bounds its own count, between the length of one run and the number
  of writes.
