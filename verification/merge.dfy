/** The merge engine: top-down merge sort over inclusive ranges `[l, r]`,
    merging through copied left and right runs, ties taken from the left. */
module MergeEngine {
  import opened Sortedness
  import opened Steps

  /** The sequence a merge of two runs writes, front to back: the smaller
      head first, the left head when the heads are equal. */
  function MergeRuns(xs: seq<int>, ys: seq<int>): (m: seq<int>)
    ensures |m| == |xs| + |ys|
    decreases |xs| + |ys|
  {
    if |xs| == 0 then ys
    else if |ys| == 0 then xs
    else if xs[0] <= ys[0] then [xs[0]] + MergeRuns(xs[1..], ys)
    else [ys[0]] + MergeRuns(xs, ys[1..])
  }

  /** A merge writes every entry of both runs exactly once. */
  lemma {:induction false} MergeRunsPermutation(xs: seq<int>, ys: seq<int>)
    ensures multiset(MergeRuns(xs, ys)) == multiset(xs) + multiset(ys)
    decreases |xs| + |ys|
  {
    if |xs| == 0 {
      assert xs == [];
    } else if |ys| == 0 {
      assert ys == [];
    } else if xs[0] <= ys[0] {
      MergeRunsPermutation(xs[1..], ys);
      HeadAndRest(xs);
      assert MergeRuns(xs, ys) == [xs[0]] + MergeRuns(xs[1..], ys);
    } else {
      MergeRunsPermutation(xs, ys[1..]);
      HeadAndRest(ys);
      assert MergeRuns(xs, ys) == [ys[0]] + MergeRuns(xs, ys[1..]);
    }
  }

  lemma HeadAndRest(s: seq<int>)
    requires |s| > 0
    ensures multiset(s) == multiset{s[0]} + multiset(s[1..])
  {
    assert s == [s[0]] + s[1..];
  }

  /** A value no larger than any entry of either run is no larger than any
      entry of their merge. */
  lemma MergeRunsLowerBound(x: int, xs: seq<int>, ys: seq<int>)
    requires forall k :: 0 <= k < |xs| ==> x <= xs[k]
    requires forall k :: 0 <= k < |ys| ==> x <= ys[k]
    ensures forall k :: 0 <= k < |MergeRuns(xs, ys)| ==> x <= MergeRuns(xs, ys)[k]
  {
    var m := MergeRuns(xs, ys);
    MergeRunsPermutation(xs, ys);
    forall k | 0 <= k < |m|
      ensures x <= m[k]
    {
      assert m[k] in multiset(m);
      if m[k] in multiset(xs) {
        var q :| 0 <= q < |xs| && xs[q] == m[k];
      } else {
        var q :| 0 <= q < |ys| && ys[q] == m[k];
      }
    }
  }

  /** Merging two sorted runs gives a sorted sequence. */
  lemma {:induction false} MergeRunsSorted(xs: seq<int>, ys: seq<int>)
    requires Sorted(xs) && Sorted(ys)
    ensures Sorted(MergeRuns(xs, ys))
    decreases |xs| + |ys|
  {
    if |xs| > 0 && |ys| > 0 {
      if xs[0] <= ys[0] {
        MergeRunsSorted(xs[1..], ys);
        MergeRunsLowerBound(xs[0], xs[1..], ys);
        SortedCons(xs[0], MergeRuns(xs[1..], ys));
      } else {
        MergeRunsSorted(xs, ys[1..]);
        MergeRunsLowerBound(ys[0], xs, ys[1..]);
        SortedCons(ys[0], MergeRuns(xs, ys[1..]));
      }
    }
  }

  lemma SortedCons(x: int, s: seq<int>)
    requires Sorted(s) && forall k :: 0 <= k < |s| ==> x <= s[k]
    ensures Sorted([x] + s)
  {
    forall i, j | 0 <= i < j < |[x] + s|
      ensures ([x] + s)[i] <= ([x] + s)[j]
    {
      if i > 0 {
        assert ([x] + s)[i] == s[i - 1];
      }
      assert ([x] + s)[j] == s[j - 1];
    }
  }

  /** Ties go left: when no entry of the right run is below any entry of the
      left run, the merge is the left run followed by the right one. */
  lemma {:induction false} MergeRunsInOrder(xs: seq<int>, ys: seq<int>)
    requires forall x, y :: x in xs && y in ys ==> x <= y
    ensures MergeRuns(xs, ys) == xs + ys
    decreases |xs|
  {
    if |xs| > 0 && |ys| > 0 {
      assert xs[0] in xs && ys[0] in ys;
      assert forall x :: x in xs[1..] ==> x in xs;
      MergeRunsInOrder(xs[1..], ys);
      assert xs == [xs[0]] + xs[1..];
    }
  }

  /** When every entry of the right run is strictly below every entry of the
      left run, the merge is the right run followed by the left one. */
  lemma {:induction false} MergeRunsReversed(xs: seq<int>, ys: seq<int>)
    requires forall x, y :: x in xs && y in ys ==> y < x
    ensures MergeRuns(xs, ys) == ys + xs
    decreases |ys|
  {
    if |xs| > 0 && |ys| > 0 {
      assert xs[0] in xs && ys[0] in ys;
      assert forall y :: y in ys[1..] ==> y in ys;
      MergeRunsReversed(xs, ys[1..]);
      assert ys == [ys[0]] + ys[1..];
    }
  }

  /** `a` with the entries from `l` on overwritten by `w`. */
  function Overlay(a: seq<int>, l: int, w: seq<int>): (o: seq<int>)
    requires 0 <= l && l + |w| <= |a|
    ensures |o| == |a|
  {
    a[..l] + w + a[l + |w|..]
  }

  /** The overlay shows `w` on `[l, l + |w|)` and `a` everywhere else. */
  lemma OverlayShape(a: seq<int>, l: int, w: seq<int>)
    requires 0 <= l && l + |w| <= |a|
    ensures Overlay(a, l, w)[l..l + |w|] == w
    ensures SameOutside(a, Overlay(a, l, w), l, l + |w|)
  {
  }

  /** Writing the next merged value just past the overlay extends it. */
  lemma OverlayExtend(a: seq<int>, l: int, w: seq<int>, v: int)
    requires 0 <= l && l + |w| < |a|
    ensures Overlay(a, l, w)[l + |w| := v] == Overlay(a, l, w + [v])
  {
  }

  /** One step of the merge loop on the remaining runs `xs[i..]`, `ys[j..]`:
      the head that is written first, and what is left to merge after it. */
  lemma MergeStep(xs: seq<int>, ys: seq<int>, i: int, j: int)
    requires 0 <= i <= |xs| && 0 <= j <= |ys| && i + j < |xs| + |ys|
    ensures var rest := MergeRuns(xs[i..], ys[j..]);
      if i < |xs| && (j == |ys| || xs[i] <= ys[j]) then
        rest == [xs[i]] + MergeRuns(xs[i + 1..], ys[j..])
      else
        j < |ys| && rest == [ys[j]] + MergeRuns(xs[i..], ys[j + 1..])
  {
    if i < |xs| {
      assert xs[i..] == [xs[i]] + xs[i + 1..];
      assert xs[i..][1..] == xs[i + 1..];
    }
    if j < |ys| {
      assert ys[j..] == [ys[j]] + ys[j + 1..];
      assert ys[j..][1..] == ys[j + 1..];
    }
    if i < |xs| && j == |ys| {
      assert ys[j..] == [] && xs[i + 1..] == xs[i..][1..];
    }
  }

  /** The arrays the first `n` writes of a merge publish: write `w` shows
      `a` with the first `w + 1` merged values laid over it from slot `l`. */
  ghost function Snapshots(a: seq<int>, l: int, merged: seq<int>, n: nat): seq<seq<int>>
    requires 0 <= l && n <= |merged| && l + |merged| <= |a|
  {
    if n == 0 then [] else Snapshots(a, l, merged, n - 1) + [Overlay(a, l, merged[..n])]
  }

  lemma {:induction false} SnapshotsAt(a: seq<int>, l: int, merged: seq<int>, n: nat)
    requires 0 <= l && n <= |merged| && l + |merged| <= |a|
    ensures |Snapshots(a, l, merged, n)| == n
    ensures forall w :: 0 <= w < n ==> Snapshots(a, l, merged, n)[w] == Overlay(a, l, merged[..w + 1])
  {
    if n > 0 {
      SnapshotsAt(a, l, merged, n - 1);
    }
  }

  /** The state of a merge of runs `xs`, `ys` into `a` from slot `l` after
      `i` entries of `xs` and `j` of `ys` were written: `b` shows `a` with
      the first `i + j` values of `merged` laid over it, the rest of `merged`
      is the merge of what remains of the runs, and one array was published
      per write. */
  ghost predicate Written(a: seq<int>, l: int, merged: seq<int>, xs: seq<int>, ys: seq<int>,
                          i: int, j: int, b: seq<int>, snapshots: seq<seq<int>>)
  {
    && 0 <= l && 0 <= i <= |xs| && 0 <= j <= |ys| && l + |merged| <= |a|
    && |merged| == |xs| + |ys|
    && b == Overlay(a, l, merged[..i + j])
    && merged[i + j..] == MergeRuns(xs[i..], ys[j..])
    && snapshots == Snapshots(a, l, merged, i + j)
  }

  /** One write of the merge taking the left head, which is due when the
      right run is exhausted or the left head is no larger than the right
      one: the value goes to slot `l + i + j` and the array is published. */
  lemma AdvanceLeft(a: seq<int>, l: int, merged: seq<int>, xs: seq<int>, ys: seq<int>,
                    i: int, j: int, b: seq<int>, snapshots: seq<seq<int>>)
    requires Written(a, l, merged, xs, ys, i, j, b, snapshots)
    requires i < |xs| && (j == |ys| || xs[i] <= ys[j])
    ensures Written(a, l, merged, xs, ys, i + 1, j, b[l + i + j := xs[i]], snapshots + [b[l + i + j := xs[i]]])
  {
    MergeStep(xs, ys, i, j);
    assert merged[i + j..][1..] == merged[i + j + 1..];
    OverlayExtend(a, l, merged[..i + j], merged[i + j]);
    assert merged[..i + j] + [merged[i + j]] == merged[..i + j + 1];
  }

  /** One write of the merge taking the right head, which is due when the
      left run is exhausted or the right head is strictly smaller. */
  lemma AdvanceRight(a: seq<int>, l: int, merged: seq<int>, xs: seq<int>, ys: seq<int>,
                     i: int, j: int, b: seq<int>, snapshots: seq<seq<int>>)
    requires Written(a, l, merged, xs, ys, i, j, b, snapshots)
    requires j < |ys| && (i == |xs| || ys[j] < xs[i])
    ensures Written(a, l, merged, xs, ys, i, j + 1, b[l + i + j := ys[j]], snapshots + [b[l + i + j := ys[j]]])
  {
    MergeStep(xs, ys, i, j);
    assert merged[i + j..][1..] == merged[i + j + 1..];
    OverlayExtend(a, l, merged[..i + j], merged[i + j]);
    assert merged[..i + j] + [merged[i + j]] == merged[..i + j + 1];
  }

  /** One round of the first loop of a merge: compare the heads, write the
      smaller (the left one on a tie) to slot `l + i + j` and publish. */
  method WriteSmallerHead(a: seq<int>, l: int, ghost merged: seq<int>, xs: seq<int>, ys: seq<int>,
                          i: int, j: int, b: seq<int>, snapshots: seq<seq<int>>)
      returns (b': seq<int>, i': int, j': int, snapshots': seq<seq<int>>)
    requires Written(a, l, merged, xs, ys, i, j, b, snapshots)
    requires i < |xs| && j < |ys|
    ensures Written(a, l, merged, xs, ys, i', j', b', snapshots')
    ensures i' + j' == i + j + 1 && i <= i' && j <= j'
  {
    var k := l + i + j;
    if xs[i] <= ys[j] {
      AdvanceLeft(a, l, merged, xs, ys, i, j, b, snapshots);
      b' := b[k := xs[i]];
      i', j' := i + 1, j;
    } else {
      AdvanceRight(a, l, merged, xs, ys, i, j, b, snapshots);
      b' := b[k := ys[j]];
      i', j' := i, j + 1;
    }
    snapshots' := snapshots + [b'];
  }

  /** The first loop of a merge: while both runs have entries, write the
      smaller head. Stops when either run is used up; one compare per
      write. */
  method CompareHeads(a: seq<int>, l: int, ghost merged: seq<int>, xs: seq<int>, ys: seq<int>)
      returns (b: seq<int>, i: int, j: int, snapshots: seq<seq<int>>, compares: nat)
    requires 0 <= l && l + |xs| + |ys| <= |a| && merged == MergeRuns(xs, ys)
    ensures Written(a, l, merged, xs, ys, i, j, b, snapshots)
    ensures i == |xs| || j == |ys|
    ensures compares == i + j
  {
    b := a;
    assert b == Overlay(a, l, merged[..0]);
    assert xs[0..] == xs && ys[0..] == ys;
    snapshots := [];
    compares := 0;
    i, j := 0, 0;
    while i < |xs| && j < |ys|
      invariant Written(a, l, merged, xs, ys, i, j, b, snapshots)
      invariant compares == i + j
      decreases |xs| + |ys| - i - j
    {
      compares := compares + 1;
      b, i, j, snapshots := WriteSmallerHead(a, l, merged, xs, ys, i, j, b, snapshots);
    }
  }

  /** The second loop of a merge: once the right run is used up, copy the
      rest of the left run, publishing each write. */
  method DrainLeft(a: seq<int>, l: int, ghost merged: seq<int>, xs: seq<int>, ys: seq<int>,
                   i0: int, j: int, b0: seq<int>, snapshots0: seq<seq<int>>)
      returns (b: seq<int>, i: int, snapshots: seq<seq<int>>)
    requires Written(a, l, merged, xs, ys, i0, j, b0, snapshots0)
    requires i0 == |xs| || j == |ys|
    ensures Written(a, l, merged, xs, ys, i, j, b, snapshots) && i == |xs|
  {
    b, i, snapshots := b0, i0, snapshots0;
    var k := l + i + j;
    while i < |xs|
      invariant Written(a, l, merged, xs, ys, i, j, b, snapshots)
      invariant i0 <= i && k == l + i + j
    {
      AdvanceLeft(a, l, merged, xs, ys, i, j, b, snapshots);
      b := b[k := xs[i]];
      snapshots := snapshots + [b];
      i := i + 1;
      k := k + 1;
    }
  }

  /** The third loop of a merge: once the left run is used up, copy the rest
      of the right run, publishing each write. */
  method DrainRight(a: seq<int>, l: int, ghost merged: seq<int>, xs: seq<int>, ys: seq<int>,
                    i: int, j0: int, b0: seq<int>, snapshots0: seq<seq<int>>)
      returns (b: seq<int>, j: int, snapshots: seq<seq<int>>)
    requires Written(a, l, merged, xs, ys, i, j0, b0, snapshots0) && i == |xs|
    ensures Written(a, l, merged, xs, ys, i, j, b, snapshots) && j == |ys|
  {
    b, j, snapshots := b0, j0, snapshots0;
    var k := l + i + j;
    while j < |ys|
      invariant Written(a, l, merged, xs, ys, i, j, b, snapshots)
      invariant k == l + i + j
    {
      AdvanceRight(a, l, merged, xs, ys, i, j, b, snapshots);
      b := b[k := ys[j]];
      snapshots := snapshots + [b];
      j := j + 1;
      k := k + 1;
    }
  }

  /** Merges the sorted runs `[l, m]` and `[m + 1, r]` of `a` through copies
      `L` and `R`. Each of the `r - l + 1` writes to `[l, r]` is published, so
      write `w` publishes the original array with the first `w + 1` merged
      values laid over `[l, l + w]`. Only the first loop compares, and it
      runs until one of the runs is used up. */
  method Merge(a: seq<int>, l: int, m: int, r: int) returns (b: seq<int>, t: Trace)
    requires 0 <= l <= m <= r < |a|
    ensures SameOutside(a, b, l, r + 1)
    ensures b[l..r + 1] == MergeRuns(a[l..m + 1], a[m + 1..r + 1])
    ensures |t.snapshots| == r - l + 1
    ensures forall w :: 0 <= w < |t.snapshots| ==> t.snapshots[w] == Overlay(a, l, b[l..l + w + 1])
    ensures DrawnFrom(t.snapshots, a) && Published(a, t.snapshots) == b
    ensures t.finalized == [] && t.compares <= |t.snapshots|
    ensures t.compares >= m - l + 1 || t.compares >= r - m
  {
    var L := a[l..m + 1];
    var R := a[m + 1..r + 1];
    ghost var merged := MergeRuns(L, R);
    var b1, i, j, snapshots1, compares := CompareHeads(a, l, merged, L, R);
    var b2, i2, snapshots2 := DrainLeft(a, l, merged, L, R, i, j, b1, snapshots1);
    var snapshots3;
    b, j, snapshots3 := DrainRight(a, l, merged, L, R, i2, j, b2, snapshots2);
    assert merged[..i2 + j] == merged;
    MergeFinished(a, l, m, r, b, snapshots3);
    t := Trace(snapshots3, [], compares);
  }

  /** The published arrays of a finished merge, restated in terms of its
      result `b`: write `w` showed `b`'s first `w + 1` merged values over `a`. */
  lemma MergeFinished(a: seq<int>, l: int, m: int, r: int, b: seq<int>, snapshots: seq<seq<int>>)
    requires 0 <= l <= m <= r < |a|
    requires b == Overlay(a, l, MergeRuns(a[l..m + 1], a[m + 1..r + 1]))
    requires snapshots == Snapshots(a, l, MergeRuns(a[l..m + 1], a[m + 1..r + 1]), r - l + 1)
    ensures SameOutside(a, b, l, r + 1)
    ensures b[l..r + 1] == MergeRuns(a[l..m + 1], a[m + 1..r + 1])
    ensures |snapshots| == r - l + 1
    ensures forall w :: 0 <= w < |snapshots| ==> snapshots[w] == Overlay(a, l, b[l..l + w + 1])
    ensures DrawnFrom(snapshots, a) && Published(a, snapshots) == b
  {
    var merged := MergeRuns(a[l..m + 1], a[m + 1..r + 1]);
    OverlayShape(a, l, merged);
    SnapshotsAt(a, l, merged, r - l + 1);
    SnapshotsFromInput(a, l, m, r, merged, snapshots);
    assert merged[..r - l + 1] == merged;
    forall w | 0 <= w < |snapshots|
      ensures snapshots[w] == Overlay(a, l, b[l..l + w + 1])
    {
      assert b[l..l + w + 1] == b[l..r + 1][..w + 1];
    }
  }

  /** Every merged value is an entry of the merged range. */
  lemma MergedFromInput(a: seq<int>, l: int, m: int, r: int)
    requires 0 <= l <= m <= r < |a|
    ensures forall v :: v in MergeRuns(a[l..m + 1], a[m + 1..r + 1]) ==> v in a
  {
    assert a[l..r + 1] == a[l..m + 1] + a[m + 1..r + 1];
    MergeRunsPermutation(a[l..m + 1], a[m + 1..r + 1]);
    forall v | v in MergeRuns(a[l..m + 1], a[m + 1..r + 1])
      ensures v in a
    {
      assert v in multiset(a[l..r + 1]);
      var q :| 0 <= q < r + 1 - l && a[l..r + 1][q] == v;
      assert a[l + q] == v;
    }
  }

  /** Every published array of a merge holds only values of the input: the
      merged values are the entries of the two runs. */
  lemma SnapshotsFromInput(a: seq<int>, l: int, m: int, r: int, merged: seq<int>, snapshots: seq<seq<int>>)
    requires 0 <= l <= m <= r < |a|
    requires merged == MergeRuns(a[l..m + 1], a[m + 1..r + 1])
    requires forall w :: 0 <= w < |snapshots| ==> w < |merged| && snapshots[w] == Overlay(a, l, merged[..w + 1])
    ensures DrawnFrom(snapshots, a)
  {
    MergedFromInput(a, l, m, r);
    forall w, q | 0 <= w < |snapshots| && 0 <= q < |snapshots[w]|
      ensures snapshots[w][q] in a
    {
      var o := Overlay(a, l, merged[..w + 1]);
      OverlayShape(a, l, merged[..w + 1]);
      if l <= q < l + w + 1 {
        assert o[q] == o[l..l + w + 1][q - l] == merged[q - l];
      } else {
        assert o[q] == a[q];
      }
    }
  }

  /** Sorts `[l, r]` of `a` in place: splits at `m = l + floor((r - l) / 2)`,
      sorts `[l, m]` and `[m + 1, r]`, and merges them. A range of at most
      one entry is left alone and nothing is marked during the recursion. */
  method MergeSortHelper(a: seq<int>, l: int, r: int) returns (b: seq<int>, t: Trace)
    requires 0 <= l <= r + 1 <= |a|
    ensures SameOutside(a, b, l, r + 1) && multiset(b) == multiset(a)
    ensures SortedBetween(b, l, r + 1)
    ensures DrawnFrom(t.snapshots, a) && Published(a, t.snapshots) == b
    ensures t.finalized == []
    ensures r <= l ==> t == NoSteps
    decreases r - l
  {
    if l >= r {
      return a, NoSteps;
    }
    var m := l + (r - l) / 2;
    var b1, t1 := MergeSortHelper(a, l, m);
    var b2, t2 := MergeSortHelper(b1, m + 1, r);
    var b3, t3 := Merge(b2, l, m, r);
    b := b3;
    t := Then(Then(t1, t2), t3);
    MergedHalves(a, b1, b2, b3, l, m, r);
    DrawnFromPermutation(t2.snapshots, b1, a);
    DrawnFromPermutation(t3.snapshots, b2, a);
    DrawnFromThen(t1.snapshots, t2.snapshots, a);
    DrawnFromThen(t1.snapshots + t2.snapshots, t3.snapshots, a);
    PublishedThen(a, t1.snapshots, t2.snapshots);
    PublishedThen(a, t1.snapshots + t2.snapshots, t3.snapshots);
  }

  /** After both halves are sorted in place, merging them leaves `[l, r]` a
      sorted permutation of what it held before. */
  lemma MergedHalves(a: seq<int>, b1: seq<int>, b2: seq<int>, b3: seq<int>, l: int, m: int, r: int)
    requires 0 <= l <= m < r < |a|
    requires SameOutside(a, b1, l, m + 1) && multiset(b1) == multiset(a) && SortedBetween(b1, l, m + 1)
    requires SameOutside(b1, b2, m + 1, r + 1) && multiset(b2) == multiset(b1) && SortedBetween(b2, m + 1, r + 1)
    requires SameOutside(b2, b3, l, r + 1)
    requires b3[l..r + 1] == MergeRuns(b2[l..m + 1], b2[m + 1..r + 1])
    ensures SameOutside(a, b3, l, r + 1) && multiset(b3) == multiset(a)
    ensures SortedBetween(b3, l, r + 1)
  {
    MergedHalvesSorted(b1, b2, b3, l, m, r);
    MergedHalvesPermutation(b2, b3, l, m, r);
  }

  lemma MergedHalvesSorted(b1: seq<int>, b2: seq<int>, b3: seq<int>, l: int, m: int, r: int)
    requires 0 <= l <= m < r < |b1|
    requires SortedBetween(b1, l, m + 1)
    requires SameOutside(b1, b2, m + 1, r + 1) && SortedBetween(b2, m + 1, r + 1)
    requires |b3| == |b2| && b3[l..r + 1] == MergeRuns(b2[l..m + 1], b2[m + 1..r + 1])
    ensures SortedBetween(b3, l, r + 1)
  {
    var xs, ys := b2[l..m + 1], b2[m + 1..r + 1];
    assert xs == b1[l..m + 1];
    SortedBetweenSlice(b1, l, m + 1);
    SortedBetweenSlice(b2, m + 1, r + 1);
    MergeRunsSorted(xs, ys);
    SortedBetweenSlice(b3, l, r + 1);
  }

  lemma MergedHalvesPermutation(b2: seq<int>, b3: seq<int>, l: int, m: int, r: int)
    requires 0 <= l <= m < r < |b2|
    requires SameOutside(b2, b3, l, r + 1)
    requires b3[l..r + 1] == MergeRuns(b2[l..m + 1], b2[m + 1..r + 1])
    ensures multiset(b3) == multiset(b2)
  {
    MergeRunsPermutation(b2[l..m + 1], b2[m + 1..r + 1]);
    assert b2[l..r + 1] == b2[l..m + 1] + b2[m + 1..r + 1];
    PermutationWithin(b2, b3, l, r + 1);
  }

  /** Sorts a working copy of the whole array with the helper on `[0, n - 1]`,
      then marks every index sorted, in order. */
  method MergeSort(a: seq<int>) returns (r: seq<int>, t: Trace)
    ensures Sorted(r) && multiset(r) == multiset(a)
    ensures |t.finalized| == |a| && forall k :: 0 <= k < |a| ==> t.finalized[k] == k
    ensures NoDuplicates(t.finalized) && MarksExactly(t.finalized, 0, |a|)
    ensures DrawnFrom(t.snapshots, a) && Published(a, t.snapshots) == r
    ensures |a| <= 1 ==> t.snapshots == [] && t.compares == 0
  {
    var helperSteps;
    r, helperSteps := MergeSortHelper(a, 0, |a| - 1);
    var marks: seq<int> := [];
    var i := 0;
    while i < |r|
      invariant 0 <= i <= |r| && |marks| == i
      invariant forall k :: 0 <= k < i ==> marks[k] == k
    {
      marks := marks + [i];
      i := i + 1;
    }
    t := Trace(helperSteps.snapshots, marks, helperSteps.compares);
    forall k | 0 <= k < |a|
      ensures k in marks
    {
      assert marks[k] == k;
    }
  }

  /** Unlike the other two engines, merge sort can publish an array that is
      not a permutation of its input: merging `[2, 1]` first writes 1 over the
      2, and the first published array is `[1, 1]`. */
  lemma MergeSnapshotDuplicates()
    ensures MergeRuns([2], [1]) == [1, 2]
    ensures Overlay([2, 1], 0, MergeRuns([2], [1])[..1]) == [1, 1]
    ensures multiset(Overlay([2, 1], 0, MergeRuns([2], [1])[..1])) != multiset([2, 1])
  {
    assert MergeRuns([2], [1]) == [1] + MergeRuns([2], []);
    assert multiset([1, 1])[2] == 0;
  }
}
