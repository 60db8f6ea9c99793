/** The partition engine: quicksort with Lomuto's partition scheme and the
    last entry of each range as pivot. Ranges are inclusive `[low, high]`, as
    in the program; the top-level call is on `[0, n - 1]`. */
module QuickEngine {
  import opened Sortedness
  import opened Steps

  /** What the scan of `[low, high)` has established before slot `j`: only
      the scanned range moved, it is a rearrangement of `a`, the block up to
      `i` is below the pivot `a[high]`, the block from `i + 1` to `j - 1` is
      at or above it, and every swap was published. */
  ghost predicate ScanInvariant(a: seq<int>, r: seq<int>, snapshots: seq<seq<int>>, low: int, high: int, i: int, j: int) {
    0 <= low <= j <= high < |a| && low - 1 <= i < j &&
    SameOutside(a, r, low, high) && multiset(r) == multiset(a) &&
    Blocks(r, low, i, j, a[high]) &&
    AllPermutationsOf(snapshots, a) && Published(a, snapshots) == r
  }

  /** Slots `[low, i]` hold values below `pivot` and slots `(i, j)` values
      at or above it. */
  ghost predicate Blocks(r: seq<int>, low: int, i: int, j: int, pivot: int) {
    (forall k :: low <= k <= i && 0 <= k < |r| ==> r[k] < pivot) &&
    (forall k :: i < k < j && 0 <= k < |r| ==> r[k] >= pivot)
  }

  /** Swapping an entry below the pivot from slot `j` to slot `i + 1` grows
      the front block by one and shifts the back block one slot right. */
  lemma FrontGrows(r: seq<int>, next: seq<int>, low: int, i: int, j: int, pivot: int)
    requires 0 <= low && low - 1 <= i < j < |r| && r[j] < pivot && next == Swap(r, i + 1, j)
    requires Blocks(r, low, i, j, pivot)
    ensures Blocks(next, low, i + 1, j + 1, pivot)
  {
    forall k | low <= k <= i + 1
      ensures next[k] < pivot
    {
      if k <= i {
        assert next[k] == r[k];
      }
    }
    forall k | i + 1 < k < j + 1
      ensures next[k] >= pivot
    {
      if k < j {
        assert next[k] == r[k];
      } else {
        assert next[j] == r[i + 1];
      }
    }
  }

  /** Taking an entry below the pivot keeps the scan's invariant. */
  lemma ScanTakes(a: seq<int>, r: seq<int>, snapshots: seq<seq<int>>, low: int, high: int, i: int, j: int)
    requires ScanInvariant(a, r, snapshots, low, high, i, j) && j < high && r[j] < a[high]
    ensures ScanInvariant(a, Swap(r, i + 1, j), snapshots + [Swap(r, i + 1, j)], low, high, i + 1, j + 1)
  {
    var next := Swap(r, i + 1, j);
    FrontGrows(r, next, low, i, j, a[high]);
    assert SameOutside(a, next, low, high);
    assert multiset(next) == multiset(a);
  }

  /** Scans slot `j`: an entry below the pivot `a[high]` is swapped to the
      end of the front block, which grows by one, and the array is
      published; any other entry joins the back block where it is. */
  method ScanSlot(a: seq<int>, r: seq<int>, snapshots: seq<seq<int>>, low: int, high: int, i: int, j: int)
      returns (r': seq<int>, i': int, snapshots': seq<seq<int>>)
    requires ScanInvariant(a, r, snapshots, low, high, i, j) && j < high
    ensures ScanInvariant(a, r', snapshots', low, high, i', j + 1)
    ensures r[j] < a[high] ==> i' == i + 1 && r' == Swap(r, i + 1, j) && snapshots' == snapshots + [r']
    ensures r[j] >= a[high] ==> i' == i && r' == r && snapshots' == snapshots
  {
    if r[j] < a[high] {
      ScanTakes(a, r, snapshots, low, high, i, j);
      i' := i + 1;
      r' := Swap(r, i', j);
      snapshots' := snapshots + [r'];
    } else {
      r', i', snapshots' := r, i, snapshots;
    }
  }

  /** The scan of a partition: walks `j` over `[low, high)` and swaps every
      entry below the pivot `a[high]` to the end of the growing front block,
      publishing each swap. Returns `i`, the last slot of that block, and the
      number of comparisons, one per scanned entry. */
  method Scan(a: seq<int>, low: int, high: int) returns (r: seq<int>, i: int, snapshots: seq<seq<int>>, compares: nat)
    requires 0 <= low <= high < |a|
    ensures SameOutside(a, r, low, high) && multiset(r) == multiset(a)
    ensures low - 1 <= i < high
    ensures forall k :: low <= k <= i ==> r[k] < a[high]
    ensures forall k :: i < k < high ==> r[k] >= a[high]
    ensures AllPermutationsOf(snapshots, a) && Published(a, snapshots) == r
    ensures compares == high - low
  {
    r := a;
    snapshots := [];
    compares := 0;
    i := low - 1;
    var j := low;
    while j <= high - 1
      invariant ScanInvariant(a, r, snapshots, low, high, i, j)
      invariant compares == j - low
    {
      compares := compares + 1;
      r, i, snapshots := ScanSlot(a, r, snapshots, low, high, i, j);
      j := j + 1;
    }
  }

  /** Partitions `[low, high]` around the pivot `a[high]`: after the scan the
      pivot is swapped into slot `p` (published), `p` is marked sorted, and
      every entry left of `p` is below the pivot, every entry right of it at
      or above it. */
  method Partition(a: seq<int>, low: int, high: int) returns (r: seq<int>, p: int, t: Trace)
    requires 0 <= low <= high < |a|
    ensures SameOutside(a, r, low, high + 1)
    ensures low <= p <= high && r[p] == a[high]
    ensures forall k :: low <= k < p ==> r[k] < r[p]
    ensures forall k :: p < k <= high ==> r[k] >= r[p]
    ensures multiset(r[low..high + 1]) == multiset(a[low..high + 1]) && multiset(r) == multiset(a)
    ensures t.finalized == [p] && t.compares == high - low
    ensures AllPermutationsOf(t.snapshots, a) && |t.snapshots| >= 1
    ensures Published(a, t.snapshots) == r
  {
    var scanned, i, snapshots, compares := Scan(a, low, high);
    r := Swap(scanned, i + 1, high);
    snapshots := snapshots + [r];
    p := i + 1;
    t := Trace(snapshots, [p], compares);
    PermutationWithin(a, r, low, high + 1);
  }

  /** Sorts `[low, high]` of `a` in place: a range of two or more entries is
      partitioned and both sides are sorted recursively; a single entry is
      marked sorted; an empty range does nothing. */
  method QuickSortHelper(a: seq<int>, low: int, high: int) returns (r: seq<int>, t: Trace)
    requires 0 <= low <= high + 1 <= |a|
    ensures SameOutside(a, r, low, high + 1) && multiset(r) == multiset(a)
    ensures SortedBetween(r, low, high + 1)
    ensures NoDuplicates(t.finalized) && MarksExactly(t.finalized, low, high + 1)
    ensures AllPermutationsOf(t.snapshots, a) && Published(a, t.snapshots) == r
    ensures high <= low ==> t.snapshots == [] && t.compares == 0
    decreases high - low
  {
    if low < high {
      var r1, pi, t1 := Partition(a, low, high);
      var r2, t2 := QuickSortHelper(r1, low, pi - 1);
      var r3, t3 := QuickSortHelper(r2, pi + 1, high);
      r := r3;
      t := Then(Then(t1, t2), t3);
      Joined(a, r1, r2, r3, low, pi, high);
      PublishedThen(a, t1.snapshots, t2.snapshots);
      PublishedThen(a, t1.snapshots + t2.snapshots, t3.snapshots);
      NoDuplicatesThen(t1.finalized, t2.finalized);
      NoDuplicatesThen(t1.finalized + t2.finalized, t3.finalized);
    } else if low >= 0 && high >= 0 && low == high {
      r := a;
      t := Trace([], [low], 0);
    } else {
      r := a;
      t := NoSteps;
    }
  }

  /** The two recursive calls after a partition leave `[low, high]` sorted:
      everything left of the pivot stays below it and everything right of it
      stays at or above it, because each side is only permuted. */
  lemma Joined(a: seq<int>, r1: seq<int>, r2: seq<int>, r3: seq<int>, low: int, pi: int, high: int)
    requires 0 <= low <= pi <= high < |a| && |r1| == |a|
    requires forall k :: low <= k < pi ==> r1[k] < r1[pi]
    requires forall k :: pi < k <= high ==> r1[k] >= r1[pi]
    requires SameOutside(r1, r2, low, pi) && multiset(r2) == multiset(r1)
    requires SameOutside(r2, r3, pi + 1, high + 1) && multiset(r3) == multiset(r2)
    requires SortedBetween(r2, low, pi) && SortedBetween(r3, pi + 1, high + 1)
    ensures SortedBetween(r3, low, high + 1)
  {
    LeftStaysBelow(r1, r2, r3, low, pi, high);
    RightStaysAbove(r1, r2, r3, low, pi, high);
    JoinAround(r3, low, pi, high + 1);
  }

  /** Sorting the left side only permutes it, so it stays below the pivot;
      the right-hand call does not touch it. */
  lemma LeftStaysBelow(r1: seq<int>, r2: seq<int>, r3: seq<int>, low: int, pi: int, high: int)
    requires 0 <= low <= pi <= high < |r1|
    requires forall k :: low <= k < pi ==> r1[k] < r1[pi]
    requires SameOutside(r1, r2, low, pi) && multiset(r2) == multiset(r1)
    requires SameOutside(r2, r3, pi + 1, high + 1) && SortedBetween(r2, low, pi)
    ensures r3[pi] == r1[pi] && SortedBetween(r3, low, pi)
    ensures forall k :: low <= k < pi ==> r3[k] <= r3[pi]
  {
    PermutationWithin(r1, r2, low, pi);
    BoundsSurvivePermutation(r1, r2, low, pi, r1[pi]);
    assert forall k :: low <= k <= pi ==> r3[k] == r2[k];
  }

  /** Sorting the right side only permutes it, so it stays at or above the
      pivot, which the left-hand call did not move. */
  lemma RightStaysAbove(r1: seq<int>, r2: seq<int>, r3: seq<int>, low: int, pi: int, high: int)
    requires 0 <= low <= pi <= high < |r1|
    requires forall k :: pi < k <= high ==> r1[k] >= r1[pi]
    requires SameOutside(r1, r2, low, pi)
    requires SameOutside(r2, r3, pi + 1, high + 1) && multiset(r3) == multiset(r2)
    ensures forall k :: pi < k <= high ==> r3[k] >= r1[pi]
  {
    PermutationWithin(r2, r3, pi + 1, high + 1);
    BoundsSurvivePermutation(r2, r3, pi + 1, high + 1, r1[pi]);
  }

  /** Sorts a working copy of the whole array: the helper on `[0, n - 1]`. */
  method QuickSort(a: seq<int>) returns (r: seq<int>, t: Trace)
    ensures Sorted(r) && multiset(r) == multiset(a)
    ensures NoDuplicates(t.finalized) && MarksExactly(t.finalized, 0, |a|)
    ensures |a| == 0 ==> t.finalized == []
    ensures AllPermutationsOf(t.snapshots, a) && Published(a, t.snapshots) == r
    ensures |a| <= 1 ==> t.snapshots == [] && t.compares == 0
  {
    r, t := QuickSortHelper(a, 0, |a| - 1);
    if |t.finalized| > 0 {
      assert t.finalized[0] in t.finalized;
    }
  }
}
