/** What a sort run makes observable besides its result: the snapshots it
    publishes to the displayed array, the indices it marks as sorted, and the
    number of comparisons it highlights. */
module Steps {

  /** The observable record of one run, in emission order.
      - `snapshots`: every array published with `setArray`
      - `finalized`: every index that received the "sorted" mark
      - `compares`: every comparison step that was highlighted */
  datatype Trace = Trace(snapshots: seq<seq<int>>, finalized: seq<int>, compares: nat)

  /** A step that emits nothing. */
  const NoSteps := Trace([], [], 0)

  /** Run `t`, then `u`. */
  function Then(t: Trace, u: Trace): Trace {
    Trace(t.snapshots + u.snapshots, t.finalized + u.finalized, t.compares + u.compares)
  }

  /** The displayed array after the snapshots were published over `start`. */
  function Published(start: seq<int>, snapshots: seq<seq<int>>): seq<int> {
    if |snapshots| == 0 then start else snapshots[|snapshots| - 1]
  }

  lemma PublishedThen(start: seq<int>, s1: seq<seq<int>>, s2: seq<seq<int>>)
    ensures Published(Published(start, s1), s2) == Published(start, s1 + s2)
  {
  }

  /** Every snapshot is a rearrangement of `a`. */
  predicate AllPermutationsOf(snapshots: seq<seq<int>>, a: seq<int>) {
    forall w :: 0 <= w < |snapshots| ==> multiset(snapshots[w]) == multiset(a)
  }

  /** `s` has the length of `a` and only holds values that occur in `a`. */
  predicate ValuesFrom(s: seq<int>, a: seq<int>) {
    |s| == |a| && forall q :: 0 <= q < |s| ==> s[q] in a
  }

  /** Every snapshot only holds values of `a`, possibly repeated. */
  predicate DrawnFrom(snapshots: seq<seq<int>>, a: seq<int>) {
    forall w :: 0 <= w < |snapshots| ==> ValuesFrom(snapshots[w], a)
  }

  lemma DrawnFromPermutation(snapshots: seq<seq<int>>, a: seq<int>, b: seq<int>)
    requires DrawnFrom(snapshots, a) && multiset(a) == multiset(b)
    ensures DrawnFrom(snapshots, b)
  {
    forall w, q | 0 <= w < |snapshots| && 0 <= q < |snapshots[w]|
      ensures snapshots[w][q] in b
    {
      assert snapshots[w][q] in multiset(a);
    }
    assert |a| == |multiset(a)| == |multiset(b)| == |b|;
  }

  lemma DrawnFromThen(s1: seq<seq<int>>, s2: seq<seq<int>>, a: seq<int>)
    requires DrawnFrom(s1, a) && DrawnFrom(s2, a)
    ensures DrawnFrom(s1 + s2, a)
  {
    forall w | 0 <= w < |s1 + s2|
      ensures ValuesFrom((s1 + s2)[w], a)
    {
      if w < |s1| {
        assert (s1 + s2)[w] == s1[w];
      } else {
        assert (s1 + s2)[w] == s2[w - |s1|];
      }
    }
  }

  /** After the log, exactly the indices of `[lo, hi)` carry the "sorted"
      mark. */
  ghost predicate MarksExactly(log: seq<int>, lo: int, hi: int) {
    forall k :: k in log <==> lo <= k < hi
  }

  /** No index is marked twice. */
  predicate NoDuplicates(log: seq<int>) {
    forall i, j :: 0 <= i < j < |log| ==> log[i] != log[j]
  }

  lemma NoDuplicatesThen(x: seq<int>, y: seq<int>)
    requires NoDuplicates(x) && NoDuplicates(y)
    requires forall k :: k in x ==> k !in y
    ensures NoDuplicates(x + y)
  {
    forall i, j | 0 <= i < j < |x + y|
      ensures (x + y)[i] != (x + y)[j]
    {
      if j < |x| {
        assert (x + y)[i] == x[i] && (x + y)[j] == x[j];
      } else if i < |x| {
        assert (x + y)[i] == x[i] && (x + y)[j] == y[j - |x|];
        assert x[i] in x;
      } else {
        assert (x + y)[i] == y[i - |x|] && (x + y)[j] == y[j - |x|];
      }
    }
  }
}
