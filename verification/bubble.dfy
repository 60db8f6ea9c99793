/** The exchange engine: bubble sort by adjacent compare-and-swap, with no
    early exit, marking one more index as sorted after every outer pass. */
module BubbleEngine {
  import opened Sortedness
  import opened Steps

  /** The arithmetic of the comparison count: pass `i` adds `n - i - 1`
      comparisons to the `i * (2n - i - 1) / 2` made before it. */
  lemma PassCount(n: int, i: int)
    ensures i * (2 * n - i - 1) + 2 * (n - i - 1) == (i + 1) * (2 * n - (i + 1) - 1)
  {
  }

  /** One compare-and-swap of a pass: `r[j]` and `r[j + 1]` are exchanged
      when the left one is strictly greater. */
  function CompareSwap(r: seq<int>, j: int): (next: seq<int>)
    requires 0 <= j < j + 1 < |r|
    ensures next == r || next == Swap(r, j, j + 1)
    ensures next[j] <= next[j + 1] && next[j + 1] == (if r[j] > r[j + 1] then r[j] else r[j + 1])
  {
    if r[j] > r[j + 1] then Swap(r, j, j + 1) else r
  }

  /** What a pass over `[0, last]` has established after comparing up to
      slot `j`: only the range moved, it is a rearrangement of `s`, `r[j]` is
      the largest so far, every swap was published, and a sorted `s` has not
      been touched. */
  ghost predicate PassInvariant(s: seq<int>, r: seq<int>, snapshots: seq<seq<int>>, j: int, last: int) {
    0 <= j <= last < |s| &&
    SameOutside(s, r, 0, last + 1) && multiset(r) == multiset(s) &&
    (forall x :: 0 <= x < j ==> r[x] <= r[j]) &&
    AllPermutationsOf(snapshots, s) && Published(s, snapshots) == r &&
    (Sorted(s) ==> r == s && snapshots == [])
  }

  /** One compare-and-swap carries the running maximum from `j` to `j + 1`
      and keeps the invariant, publishing the array only after a swap. */
  lemma CompareAdjacent(s: seq<int>, r: seq<int>, snapshots: seq<seq<int>>, j: int, last: int)
    requires PassInvariant(s, r, snapshots, j, last) && j < last
    ensures PassInvariant(s, CompareSwap(r, j),
      if r[j] > r[j + 1] then snapshots + [CompareSwap(r, j)] else snapshots, j + 1, last)
  {
    var next := CompareSwap(r, j);
    assert multiset(next) == multiset(s);
    forall x | 0 <= x < j + 1
      ensures next[x] <= next[j + 1]
    {
      if x < j {
        assert next[x] == r[x];
      }
    }
  }

  /** One outer pass: compares `(j, j + 1)` once for every `j < last`, swapping
      on a strict `>` only and publishing every swap. Afterwards `r[last]` is
      the maximum of `r[..last + 1]`; nothing at or above `last + 1` moves. */
  method Pass(s: seq<int>, last: int) returns (r: seq<int>, snapshots: seq<seq<int>>, compares: nat)
    requires 0 <= last < |s|
    requires forall x, y :: 0 <= x <= last < y < |s| ==> s[x] <= s[y]
    ensures SameOutside(s, r, 0, last + 1) && multiset(r) == multiset(s)
    ensures forall x :: 0 <= x < last ==> r[x] <= r[last]
    ensures forall x, y :: 0 <= x <= last < y < |s| ==> r[x] <= r[y]
    ensures AllPermutationsOf(snapshots, s) && Published(s, snapshots) == r
    ensures Sorted(s) ==> r == s && snapshots == []
    ensures compares == last
  {
    r := s;
    snapshots := [];
    compares := 0;
    var j := 0;
    while j < last
      invariant PassInvariant(s, r, snapshots, j, last)
      invariant compares == j
    {
      compares := compares + 1;
      CompareAdjacent(s, r, snapshots, j, last);
      if r[j] > r[j + 1] {
        r := CompareSwap(r, j);
        snapshots := snapshots + [r];
      }
      j := j + 1;
    }
    PrefixStaysBelow(s, r, last + 1);
  }

  /** Sorts a working copy of `a`. Pass `i` runs over `[0, n - i - 1]` and
      then marks index `n - i - 1` sorted; index 0 is marked once more after
      the last pass when the array is not empty. */
  method BubbleSort(a: seq<int>) returns (r: seq<int>, t: Trace)
    ensures Sorted(r) && multiset(r) == multiset(a)
    ensures t.compares == |a| * (|a| - 1) / 2
    ensures |a| == 0 ==> t.finalized == []
    ensures |a| > 0 ==> |t.finalized| == |a| + 1 && t.finalized[|a|] == 0
    ensures forall k :: 0 <= k < |a| ==> t.finalized[k] == |a| - 1 - k
    ensures MarksExactly(t.finalized, 0, |a|)
    ensures AllPermutationsOf(t.snapshots, a) && Published(a, t.snapshots) == r
    ensures Sorted(a) ==> r == a && t.snapshots == []
  {
    var n := |a|;
    r := a;
    var snapshots: seq<seq<int>> := [];
    var marks: seq<int> := [];
    var compares: nat := 0;
    var i := 0;
    while i < n
      invariant 0 <= i <= n && |r| == n
      invariant multiset(r) == multiset(a)
      invariant SortedBetween(r, n - i, n)
      invariant forall x, y :: 0 <= x < n - i <= y < n ==> r[x] <= r[y]
      invariant 2 * compares == i * (2 * n - i - 1)
      invariant |marks| == i && forall k :: 0 <= k < i ==> marks[k] == n - 1 - k
      invariant AllPermutationsOf(snapshots, a) && Published(a, snapshots) == r
      invariant Sorted(a) ==> r == a && snapshots == []
    {
      var passSnapshots, passCompares;
      r, passSnapshots, passCompares := Pass(r, n - i - 1);
      PublishedThen(a, snapshots, passSnapshots);
      snapshots := snapshots + passSnapshots;
      PassCount(n, i);
      compares := compares + passCompares;
      marks := marks + [n - i - 1];
      i := i + 1;
    }
    if n > 0 {
      marks := marks + [0];
    }
    t := Trace(snapshots, marks, compares);
    forall k | 0 <= k < n
      ensures k in marks
    {
      assert marks[n - 1 - k] == k;
    }
  }
}
