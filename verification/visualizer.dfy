/** The three buttons of the visualizer run three different engines over a
    working copy of the displayed array; whichever is chosen, the array shown
    at the end is the same. */
module Visualizer {
  import opened Sortedness
  import opened Steps
  import BubbleEngine
  import QuickEngine
  import MergeEngine

  /** Runs every engine on the same array: all three end on the one sorted
      permutation of it, and that is also what each of them left on
      display. */
  method EnginesAgree(a: seq<int>)
      returns (bubble: seq<int>, quick: seq<int>, merge: seq<int>,
               bubbleSteps: Trace, quickSteps: Trace, mergeSteps: Trace)
    ensures bubble == quick == merge
    ensures Sorted(bubble) && multiset(bubble) == multiset(a)
    ensures Published(a, bubbleSteps.snapshots) == bubble
    ensures Published(a, quickSteps.snapshots) == quick
    ensures Published(a, mergeSteps.snapshots) == merge
  {
    bubble, bubbleSteps := BubbleEngine.BubbleSort(a);
    quick, quickSteps := QuickEngine.QuickSort(a);
    merge, mergeSteps := MergeEngine.MergeSort(a);
    SortedPermutationUnique(bubble, quick);
    SortedPermutationUnique(quick, merge);
  }
}
