/** Order predicates on sequences of integers, shared by the slice, search and
    sorting modules. The Go routines are generic over ordered element types;
    this model instantiates the element type with `int`. */
module Ordering {

  /** Every element is at most every later element (ascending order, ties allowed). */
  ghost predicate Sorted(s: seq<int>) {
    forall i, j :: 0 <= i < j < |s| ==> s[i] <= s[j]
  }

  /** Adjacent pairs are in order; the form the inversion count speaks about. */
  ghost predicate AdjacentSorted(s: seq<int>) {
    forall i :: 1 <= i < |s| ==> s[i - 1] <= s[i]
  }

  /** Every element is strictly less than every later one. */
  ghost predicate StrictlyIncreasing(s: seq<int>) {
    forall i, j :: 0 <= i < j < |s| ==> s[i] < s[j]
  }

  /** No value occurs twice. */
  ghost predicate NoDuplicates(s: seq<int>) {
    forall i, j :: 0 <= i < j < |s| ==> s[i] != s[j]
  }

  /** Ordering of adjacent pairs extends to all pairs. */
  lemma {:induction false} AdjacentSortedIsSorted(s: seq<int>)
    ensures AdjacentSorted(s) <==> Sorted(s)
  {
    if AdjacentSorted(s) {
      forall i, j | 0 <= i < j < |s| ensures s[i] <= s[j] {
        var k := i;
        while k < j
          invariant i <= k <= j
          invariant s[i] <= s[k]
        {
          k := k + 1;
        }
      }
    }
  }
}
