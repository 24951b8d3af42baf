/** The two binary searches of algorithm.go over an ascending sequence. */
module Search {
  import opened Ordering

  /** BinSearch: on a non-empty sorted sequence, the largest index holding `e`,
      or -1 when `e` does not occur. */
  method BinSearch(items: seq<int>, e: int) returns (r: int)
    requires |items| >= 1
    requires Sorted(items)
    ensures -1 <= r < |items|
    ensures r == -1 <==> e !in items
    ensures r >= 0 ==> items[r] == e && forall k :: r < k < |items| ==> items[k] != e
  {
    var lo, hi := 0, |items|;
    while 1 < hi - lo
      invariant 0 <= lo < hi <= |items|
      invariant lo > 0 ==> items[lo] <= e
      invariant forall k :: hi <= k < |items| ==> e < items[k]
    {
      var mi := (lo + hi) / 2;
      if e < items[mi] {
        hi := mi;
      } else {
        lo := mi;
      }
    }
    // On exit the window [lo, hi) holds the single element items[lo].
    assert hi == lo + 1;
    if e == items[lo] {
      r := lo;
    } else {
      r := -1;
    }
  }

  /** The number of elements of `s` that are at most `e`. */
  function CountAtMost(s: seq<int>, e: int): nat {
    if s == [] then 0
    else CountAtMost(s[..|s| - 1], e) + (if s[|s| - 1] <= e then 1 else 0)
  }

  /** When the first `p` elements are at most `e` and the rest exceed it,
      exactly `p` elements are at most `e`. */
  lemma {:induction false} CountAtMostSplit(s: seq<int>, e: int, p: nat)
    requires p <= |s|
    requires forall k :: 0 <= k < p ==> s[k] <= e
    requires forall k :: p <= k < |s| ==> e < s[k]
    ensures CountAtMost(s, e) == p
  {
    if s != [] {
      if p == |s| {
        CountAtMostSplit(s[..|s| - 1], e, p - 1);
      } else {
        CountAtMostSplit(s[..|s| - 1], e, p);
      }
    }
  }

  /** BinSearch1: on a sorted sequence, the number of elements at most `e`,
      minus one; that is the largest index holding a value at most `e`, or -1. */
  method BinSearch1(items: seq<int>, e: int) returns (r: int)
    requires Sorted(items)
    ensures -1 <= r < |items|
    ensures r + 1 == CountAtMost(items, e)
    ensures forall k :: 0 <= k <= r ==> items[k] <= e
    ensures forall k :: r < k < |items| ==> e < items[k]
  {
    var lo, hi := 0, |items|;
    while lo < hi
      invariant 0 <= lo <= hi <= |items|
      invariant forall k :: 0 <= k < lo ==> items[k] <= e
      invariant forall k :: hi <= k < |items| ==> e < items[k]
    {
      var mi := (lo + hi) / 2;
      if e < items[mi] {
        hi := mi;
      } else {
        lo := mi + 1;
      }
    }
    CountAtMostSplit(items, e, lo);
    lo := lo - 1;
    r := lo;
  }
}
