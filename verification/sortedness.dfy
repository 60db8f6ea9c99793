/** Order and permutation vocabulary shared by the three sort engines.
    Index ranges are half-open, `[lo, hi)`, throughout. */
module Sortedness {

  /** `s` is in non-decreasing order. */
  predicate Sorted(s: seq<int>) {
    forall i, j :: 0 <= i < j < |s| ==> s[i] <= s[j]
  }

  /** The slice `s[lo..hi]` is in non-decreasing order. */
  predicate SortedBetween(s: seq<int>, lo: int, hi: int) {
    forall i, j :: 0 <= lo <= i < j < hi <= |s| ==> s[i] <= s[j]
  }

  /** `b` has the length of `a` and agrees with it outside `[lo, hi)`. */
  predicate SameOutside(a: seq<int>, b: seq<int>, lo: int, hi: int) {
    |a| == |b| && forall k :: 0 <= k < |a| && !(lo <= k < hi) ==> b[k] == a[k]
  }

  /** Exchange the entries at `i` and `j`: the three-assignment swap with a
      temporary that every engine performs in place. */
  function Swap(s: seq<int>, i: int, j: int): (r: seq<int>)
    requires 0 <= i < |s| && 0 <= j < |s|
    ensures |r| == |s| && r[i] == s[j] && r[j] == s[i]
    ensures forall k :: 0 <= k < |s| && k != i && k != j ==> r[k] == s[k]
    ensures multiset(r) == multiset(s)
  {
    s[i := s[j]][j := s[i]]
  }

  /** Sortedness of a range is sortedness of the corresponding slice. */
  lemma SortedBetweenSlice(s: seq<int>, lo: int, hi: int)
    requires 0 <= lo <= hi <= |s|
    ensures SortedBetween(s, lo, hi) <==> Sorted(s[lo..hi])
  {
    if Sorted(s[lo..hi]) {
      forall i, j | lo <= i < j < hi
        ensures s[i] <= s[j]
      {
        assert s[i] == s[lo..hi][i - lo] && s[j] == s[lo..hi][j - lo];
      }
    }
  }

  /** When `b` differs from `a` only inside `[lo, hi)`, `b` is a permutation
      of `a` exactly when its slice `[lo, hi)` is a permutation of `a`'s. */
  lemma PermutationWithin(a: seq<int>, b: seq<int>, lo: int, hi: int)
    requires 0 <= lo <= hi <= |a| && SameOutside(a, b, lo, hi)
    ensures multiset(a) == multiset(b) <==> multiset(a[lo..hi]) == multiset(b[lo..hi])
  {
    assert a == a[..lo] + a[lo..hi] + a[hi..];
    assert b == b[..lo] + b[lo..hi] + b[hi..];
    assert a[..lo] == b[..lo];
    assert a[hi..] == b[hi..];
    assert multiset(a) == multiset(a[..lo]) + multiset(a[lo..hi]) + multiset(a[hi..]);
    assert multiset(b) == multiset(a[..lo]) + multiset(b[lo..hi]) + multiset(a[hi..]);
    if multiset(a) == multiset(b) {
      forall v
        ensures multiset(a[lo..hi])[v] == multiset(b[lo..hi])[v]
      {
        assert multiset(a)[v] == multiset(b)[v];
      }
    }
  }

  /** Every entry of a permuted slice already occurred somewhere in the
      original slice. */
  lemma PermutedEntry(a: seq<int>, b: seq<int>, lo: int, hi: int, k: int)
    requires 0 <= lo <= k < hi <= |a| && hi <= |b|
    requires multiset(a[lo..hi]) == multiset(b[lo..hi])
    ensures exists q :: lo <= q < hi && a[q] == b[k]
  {
    assert b[k] == b[lo..hi][k - lo];
    assert b[k] in multiset(a[lo..hi]);
    var q :| 0 <= q < hi - lo && a[lo..hi][q] == b[k];
    assert a[lo + q] == b[k];
  }

  /** A bound that holds on every entry of a slice survives permuting it. */
  lemma BoundsSurvivePermutation(a: seq<int>, b: seq<int>, lo: int, hi: int, pivot: int)
    requires 0 <= lo <= hi <= |a| && hi <= |b|
    requires multiset(a[lo..hi]) == multiset(b[lo..hi])
    ensures (forall k :: lo <= k < hi ==> a[k] < pivot) ==> (forall k :: lo <= k < hi ==> b[k] < pivot)
    ensures (forall k :: lo <= k < hi ==> a[k] >= pivot) ==> (forall k :: lo <= k < hi ==> b[k] >= pivot)
  {
    forall k | lo <= k < hi
      ensures exists q :: lo <= q < hi && a[q] == b[k]
    {
      PermutedEntry(a, b, lo, hi, k);
    }
  }

  /** An upper bound that holds on every entry of a slice survives permuting
      it. */
  lemma UpperBoundSurvivesPermutation(a: seq<int>, b: seq<int>, lo: int, hi: int, bound: int)
    requires 0 <= lo <= hi <= |a| && hi <= |b|
    requires multiset(a[lo..hi]) == multiset(b[lo..hi])
    requires forall k :: lo <= k < hi ==> a[k] <= bound
    ensures forall k :: lo <= k < hi ==> b[k] <= bound
  {
    forall k | lo <= k < hi
      ensures b[k] <= bound
    {
      PermutedEntry(a, b, lo, hi, k);
    }
  }

  /** Permuting the prefix `[0, hi)` keeps it at or below everything after
      it. */
  lemma PrefixStaysBelow(s: seq<int>, r: seq<int>, hi: int)
    requires 0 <= hi <= |s| && SameOutside(s, r, 0, hi) && multiset(r) == multiset(s)
    requires forall x, y :: 0 <= x < hi <= y < |s| ==> s[x] <= s[y]
    ensures forall x, y :: 0 <= x < hi <= y < |r| ==> r[x] <= r[y]
  {
    PermutationWithin(s, r, 0, hi);
    forall y | hi <= y < |r|
      ensures forall x :: 0 <= x < hi ==> r[x] <= r[y]
    {
      UpperBoundSurvivesPermutation(s, r, 0, hi, s[y]);
    }
  }

  /** A range is sorted when both sides of a slot `p` are sorted, everything
      left of `p` is at most `s[p]` and everything right of it at least. */
  lemma JoinAround(s: seq<int>, lo: int, p: int, hi: int)
    requires 0 <= lo <= p < hi <= |s|
    requires SortedBetween(s, lo, p) && SortedBetween(s, p + 1, hi)
    requires forall k :: lo <= k < p ==> s[k] <= s[p]
    requires forall k :: p < k < hi ==> s[p] <= s[k]
    ensures SortedBetween(s, lo, hi)
  {
  }

  /** Two sorted permutations of each other start with the same value: the
      least one. */
  lemma SortedHeads(a: seq<int>, b: seq<int>)
    requires Sorted(a) && Sorted(b) && multiset(a) == multiset(b) && |a| > 0
    ensures |b| > 0 && a[0] == b[0]
  {
    assert a[0] in multiset(b);
    var p :| 0 <= p < |b| && b[p] == a[0];
    assert b[0] in multiset(a);
    var q :| 0 <= q < |a| && a[q] == b[0];
  }

  /** There is only one sorted arrangement of a multiset: two sorted
      permutations of each other are equal. */
  lemma {:induction false} SortedPermutationUnique(a: seq<int>, b: seq<int>)
    requires Sorted(a) && Sorted(b) && multiset(a) == multiset(b)
    ensures a == b
    decreases |a|
  {
    if |a| == 0 {
      assert |b| == |multiset(b)| == 0;
    } else {
      SortedHeads(a, b);
      assert a == [a[0]] + a[1..];
      assert b == [b[0]] + b[1..];
      forall v
        ensures multiset(a[1..])[v] == multiset(b[1..])[v]
      {
        assert multiset(a)[v] == multiset(b)[v];
      }
      SortedPermutationUnique(a[1..], b[1..]);
    }
  }
}
