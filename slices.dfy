/** The slice utilities of algorithm.go: indexed removal, the adjacent-inversion
    count, deduplication of unsorted input and in-place compaction of sorted input.
    A Go slice that the routine changes in place is an `array<int>` here together
    with the length of the slice the routine returns (a prefix of the same array). */
module Slices {
  import opened Ordering

  // ---------------------------------------------------------------------------
  // RemoveSlice

  /** `s` with the element at `index` taken out, the others keeping their order. */
  function Removed(s: seq<int>, index: nat): (r: seq<int>)
    requires index < |s|
    ensures |r| == |s| - 1
    ensures forall k :: 0 <= k < index ==> r[k] == s[k]
    ensures forall k :: index <= k < |r| ==> r[k] == s[k + 1]
  {
    s[..index] + s[index + 1..]
  }

  /** What is removed is exactly one occurrence of `s[index]`. */
  lemma RemovedMultiset(s: seq<int>, index: nat)
    requires index < |s|
    ensures multiset(Removed(s, index)) + multiset{s[index]} == multiset(s)
  {
    assert s == s[..index] + [s[index]] + s[index + 1..];
  }

  /** RemoveSlice: an index outside `[0, len)` is an error and leaves the slice
      as it was (`n` is then the old length); otherwise the elements after
      `index` move one place left inside the same array and the returned slice
      is its first `len - 1` places. The last place of the array keeps its value,
      as Go's `append` onto a prefix of the backing array does not touch it. */
  method RemoveSlice(a: array<int>, index: int) returns (n: nat, outOfRange: bool)
    modifies a
    ensures outOfRange <==> index < 0 || index >= a.Length
    ensures outOfRange ==> n == a.Length && a[..] == old(a[..])
    ensures !outOfRange ==> n == a.Length - 1 && a[..n] == Removed(old(a[..]), index)
    ensures !outOfRange ==> a[n] == old(a[n])
  {
    if index < 0 || index >= a.Length {
      return a.Length, true;
    }
    var k := index;
    while k < a.Length - 1
      invariant index <= k <= a.Length - 1
      invariant forall m :: 0 <= m < index ==> a[m] == old(a[m])
      invariant forall m :: index <= m < k ==> a[m] == old(a[m + 1])
      invariant forall m :: k <= m < a.Length ==> a[m] == old(a[m])
    {
      a[k] := a[k + 1];
      k := k + 1;
    }
    n, outOfRange := a.Length - 1, false;
  }

  // ---------------------------------------------------------------------------
  // DisorderedSlice

  /** The positions `i` in `[1, |s|)` where the pair `s[i - 1], s[i]` is out of order. */
  ghost function InversionPositions(s: seq<int>): set<int> {
    set i | 1 <= i < |s| && InversionAt(s, i)
  }

  /** The pair ending at position `i` is out of order. */
  ghost predicate InversionAt(s: seq<int>, i: int)
    requires 1 <= i < |s|
  {
    s[i - 1] > s[i]
  }

  /** Adjacent inversions counted over growing prefixes, as the loop counts them. */
  function Inversions(s: seq<int>): nat {
    if |s| < 2 then 0
    else Inversions(s[..|s| - 1]) + (if s[|s| - 2] > s[|s| - 1] then 1 else 0)
  }

  /** The count is the number of out-of-order adjacent pairs. */
  lemma {:induction false} InversionsCountPositions(s: seq<int>)
    ensures Inversions(s) == |InversionPositions(s)|
  {
    if |s| >= 2 {
      var p := s[..|s| - 1];
      InversionsCountPositions(p);
      var last := |s| - 1;
      assert InversionPositions(p) == InversionPositions(s) - {last};
      if s[last - 1] > s[last] {
        assert InversionPositions(s) == InversionPositions(p) + {last};
      } else {
        assert InversionPositions(s) == InversionPositions(p);
      }
    } else {
      assert InversionPositions(s) == {};
    }
  }

  /** No inversion exactly when the slice is in non-decreasing order. */
  lemma {:induction false} InversionsZeroIffSorted(s: seq<int>)
    ensures Inversions(s) == 0 <==> Sorted(s)
  {
    AdjacentSortedIsSorted(s);
    InversionsCountPositions(s);
    if Inversions(s) == 0 {
      forall i | 1 <= i < |s| ensures s[i - 1] <= s[i] {
        assert i !in InversionPositions(s);
      }
    } else {
      var i :| i in InversionPositions(s);
    }
  }

  /** DisorderedSlice: counts the out-of-order adjacent pairs; zero means sorted. */
  method DisorderedSlice(items: seq<int>) returns (n: nat)
    ensures n == |InversionPositions(items)|
    ensures n == 0 <==> Sorted(items)
    ensures n <= if |items| == 0 then 0 else |items| - 1
  {
    n := 0;
    var i := 1;
    while i < |items|
      invariant 1 <= i
      invariant |items| > 0 ==> i <= |items| && n == Inversions(items[..i])
      invariant |items| == 0 ==> n == 0
      invariant n <= i - 1
    {
      assert items[..i + 1][..i] == items[..i];
      if items[i - 1] > items[i] {
        n := n + 1;
      }
      i := i + 1;
    }
    if |items| > 0 {
      assert items[..i] == items;
    }
    InversionsCountPositions(items);
    InversionsZeroIffSorted(items);
  }

  // ---------------------------------------------------------------------------
  // DeduplicateSlice

  /** The first position at which `x` occurs in `s`. */
  function FirstIndex(s: seq<int>, x: int): (r: nat)
    requires x in s
    ensures r < |s| && s[r] == x
    ensures forall k :: 0 <= k < r ==> s[k] != x
  {
    var p := s[..|s| - 1];
    if x in p then FirstIndex(p, x) else |s| - 1
  }

  /** The values of `s` without repeats, each where it first occurs. */
  function Dedup(s: seq<int>): seq<int> {
    if s == [] then []
    else
      var p := Dedup(s[..|s| - 1]);
      if s[|s| - 1] in p then p else p + [s[|s| - 1]]
  }

  /** Deduplication keeps exactly the values of the input. */
  lemma {:induction false} DedupElements(s: seq<int>)
    ensures forall x :: x in Dedup(s) <==> x in s
  {
    if s != [] {
      var p := s[..|s| - 1];
      DedupElements(p);
      assert s == p + [s[|s| - 1]];
    }
  }

  /** Deduplication leaves no value twice. */
  lemma {:induction false} DedupNoDuplicates(s: seq<int>)
    ensures NoDuplicates(Dedup(s))
  {
    if s != [] {
      DedupNoDuplicates(s[..|s| - 1]);
    }
  }

  /** Deduplication lists values in the order of their first occurrence in the input. */
  lemma {:induction false} DedupFirstOccurrenceOrder(s: seq<int>)
    ensures forall x :: x in Dedup(s) ==> x in s
    ensures forall i, j :: 0 <= i < j < |Dedup(s)| ==>
      FirstIndex(s, Dedup(s)[i]) < FirstIndex(s, Dedup(s)[j])
  {
    DedupElements(s);
    if s != [] {
      var p, y := s[..|s| - 1], s[|s| - 1];
      DedupFirstOccurrenceOrder(p);
      DedupElements(p);
      var r, q := Dedup(s), Dedup(p);
      forall x | x in q ensures FirstIndex(s, x) == FirstIndex(p, x) {
      }
      forall i, j | 0 <= i < j < |r| ensures FirstIndex(s, r[i]) < FirstIndex(s, r[j]) {
        if j < |q| {
          assert r[i] == q[i] && r[j] == q[j];
        } else {
          assert r[i] == q[i] && r[j] == y && y !in p;
        }
      }
    }
  }

  /** DeduplicateSlice: one pass with a `seen` map, appending each value the
      first time it is met. */
  method DeduplicateSlice(items: seq<int>) returns (result: seq<int>)
    ensures result == Dedup(items)
    ensures forall x :: x in result <==> x in items
    ensures NoDuplicates(result)
    ensures forall i, j :: 0 <= i < j < |result| ==>
      FirstIndex(items, result[i]) < FirstIndex(items, result[j])
  {
    var seen: map<int, bool> := map[];
    result := [];
    var i := 0;
    while i < |items|
      invariant 0 <= i <= |items|
      invariant result == Dedup(items[..i])
      invariant forall x :: x in seen ==> seen[x]
      invariant forall x :: x in seen <==> x in result
    {
      var value := items[i];
      assert items[..i + 1][..i] == items[..i];
      if !(value in seen && seen[value]) {
        seen := seen[value := true];
        result := result + [value];
      }
      i := i + 1;
    }
    assert items[..i] == items;
    DedupElements(items);
    DedupNoDuplicates(items);
    DedupFirstOccurrenceOrder(items);
  }

  // ---------------------------------------------------------------------------
  // UniquelySlice

  /** `s` with every run of equal adjacent values collapsed to one value. */
  function Compact(s: seq<int>): seq<int> {
    if s == [] then []
    else
      var p := Compact(s[..|s| - 1]);
      if p != [] && p[|p| - 1] == s[|s| - 1] then p else p + [s[|s| - 1]]
  }

  /** Compaction keeps the values of the input, never grows it, keeps it
      non-empty, and ends with the input's last value. */
  lemma {:induction false} CompactShape(s: seq<int>)
    ensures forall x :: x in Compact(s) <==> x in s
    ensures |Compact(s)| <= |s|
    ensures s != [] ==> Compact(s) != [] && Compact(s)[|Compact(s)| - 1] == s[|s| - 1]
  {
    if s != [] {
      var p := s[..|s| - 1];
      CompactShape(p);
      assert s == p + [s[|s| - 1]];
    }
  }

  /** Compacting one more element either drops it, when it repeats the last
      value kept, or appends it. */
  lemma CompactPrefixStep(s: seq<int>, j: nat, kept: seq<int>)
    requires j < |s| && kept == Compact(s[..j]) && kept != []
    ensures kept[|kept| - 1] == s[j] ==> Compact(s[..j + 1]) == kept
    ensures kept[|kept| - 1] != s[j] ==> Compact(s[..j + 1]) == kept + [s[j]]
  {
    assert s[..j + 1][..j] == s[..j];
  }

  /** On sorted input compaction leaves a strictly increasing sequence. */
  lemma {:induction false} CompactSortedStrict(s: seq<int>)
    requires Sorted(s)
    ensures StrictlyIncreasing(Compact(s))
  {
    if s != [] {
      var p, y := s[..|s| - 1], s[|s| - 1];
      CompactSortedStrict(p);
      CompactShape(p);
      var q := Compact(p);
      if q != [] && q[|q| - 1] != y {
        assert q[|q| - 1] in p;
        forall k | 0 <= k < |q| ensures q[k] < y {
          assert q[k] in p;
        }
      }
    }
  }

  /** On sorted input, compacting in place and deduplicating with a map agree. */
  lemma {:induction false} CompactSortedIsDedup(s: seq<int>)
    requires Sorted(s)
    ensures Compact(s) == Dedup(s)
  {
    if s != [] {
      var p, y := s[..|s| - 1], s[|s| - 1];
      CompactSortedIsDedup(p);
      CompactShape(p);
      DedupElements(p);
      if p != [] {
        assert y in p <==> p[|p| - 1] == y by {
          if y in p {
            var k :| 0 <= k < |p| && p[k] == y;
            assert s[k] <= s[|p| - 1] <= s[|s| - 1];
          }
        }
      }
    }
  }

  /** UniquelySlice: keeps a write index `i` on the last value kept and copies each
      value that differs from it to the next place; the result is the first `n`
      places of the same array. Places from `n` on are left untouched. */
  method UniquelySlice(a: array<int>) returns (n: nat)
    requires a.Length >= 1
    modifies a
    ensures 1 <= n <= a.Length
    ensures a[..n] == Compact(old(a[..]))
    ensures a[n..] == old(a[n..])
  {
    ghost var s := a[..];
    var i := 0;
    var j := 1;
    ghost var kept := [s[0]];
    assert s[..1] == [s[0]];
    while j < a.Length
      invariant 0 <= i < j <= a.Length
      invariant kept == Compact(s[..j]) && |kept| == i + 1
      invariant forall k :: 0 <= k <= i ==> a[k] == kept[k]
      invariant forall k :: i < k < a.Length ==> a[k] == s[k]
    {
      CompactPrefixStep(s, j, kept);
      assert a[i] == kept[i] && a[j] == s[j];
      if a[i] != a[j] {
        i := i + 1;
        a[i] := a[j];
        kept := kept + [s[j]];
      }
      j := j + 1;
    }
    assert s[..j] == s;
    assert a[..i + 1] == kept;
    assert a[i + 1..] == s[i + 1..];
    n := i + 1;
  }
}
