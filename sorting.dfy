/** Merge sort from algorithm.go: recursive halving and a loop-based merge. */
module Sorting {
  import opened Ordering

  /** Two sorted sequences whose meeting point is in order concatenate to a sorted one. */
  lemma SortedConcat(a: seq<int>, b: seq<int>)
    requires Sorted(a) && Sorted(b)
    requires a != [] && b != [] ==> a[|a| - 1] <= b[0]
    ensures Sorted(a + b)
  {
    forall i, j | 0 <= i < j < |a + b| ensures (a + b)[i] <= (a + b)[j] {
      if i < |a| && |a| <= j {
        assert a[i] <= a[|a| - 1] && b[0] <= b[j - |a|];
      }
    }
  }

  /** The loop invariant of merge: `result` is a sorted arrangement of the first
      `i` elements of `left` and the first `j` of `right`, and no element still
      to be taken is below its last element. */
  ghost predicate MergeInvariant(result: seq<int>, left: seq<int>, right: seq<int>, i: nat, j: nat) {
    && i <= |left| && j <= |right|
    && |result| == i + j
    && multiset(result) == multiset(left[..i]) + multiset(right[..j])
    && Sorted(result)
    && (result != [] && i < |left| ==> result[|result| - 1] <= left[i])
    && (result != [] && j < |right| ==> result[|result| - 1] <= right[j])
  }

  /** Taking the head of `left` when it is the smaller one keeps the invariant. */
  lemma TakeLeft(result: seq<int>, left: seq<int>, right: seq<int>, i: nat, j: nat)
    requires Sorted(left) && MergeInvariant(result, left, right, i, j)
    requires i < |left| && j < |right| && left[i] < right[j]
    ensures MergeInvariant(result + [left[i]], left, right, i + 1, j)
  {
    SortedConcat(result, [left[i]]);
    assert left[..i + 1] == left[..i] + [left[i]];
  }

  /** Taking the head of `right` when it is not above the head of `left` keeps
      the invariant. */
  lemma TakeRight(result: seq<int>, left: seq<int>, right: seq<int>, i: nat, j: nat)
    requires Sorted(right) && MergeInvariant(result, left, right, i, j)
    requires i < |left| && j < |right| && right[j] <= left[i]
    ensures MergeInvariant(result + [right[j]], left, right, i, j + 1)
  {
    SortedConcat(result, [right[j]]);
    assert right[..j + 1] == right[..j] + [right[j]];
  }

  /** Once `right` is used up, appending the rest of `left` finishes the merge. */
  lemma FinishWithLeft(result: seq<int>, left: seq<int>, right: seq<int>, i: nat, j: nat)
    requires Sorted(left) && MergeInvariant(result, left, right, i, j)
    requires j == |right|
    ensures Sorted(result + left[i..])
    ensures multiset(result + left[i..]) == multiset(left) + multiset(right)
    ensures |result + left[i..]| == |left| + |right|
  {
    assert left == left[..i] + left[i..];
    assert right[..j] == right;
    SortedConcat(result, left[i..]);
  }

  /** Once `left` is used up, appending the rest of `right` finishes the merge. */
  lemma FinishWithRight(result: seq<int>, left: seq<int>, right: seq<int>, i: nat, j: nat)
    requires Sorted(right) && MergeInvariant(result, left, right, i, j)
    requires i == |left|
    ensures Sorted(result + right[j..])
    ensures multiset(result + right[j..]) == multiset(left) + multiset(right)
    ensures |result + right[j..]| == |left| + |right|
  {
    assert right == right[..j] + right[j..];
    assert left[..i] == left;
    SortedConcat(result, right[j..]);
  }

  /** merge: takes the smaller head at each step (the head of `right` on ties),
      then appends what is left of either input. The result holds the two inputs'
      elements, in order. */
  method Merge(left: seq<int>, right: seq<int>) returns (result: seq<int>)
    requires Sorted(left) && Sorted(right)
    ensures |result| == |left| + |right|
    ensures Sorted(result)
    ensures multiset(result) == multiset(left) + multiset(right)
  {
    result := [];
    var i, j := 0, 0;
    while i < |left| && j < |right|
      invariant MergeInvariant(result, left, right, i, j)
      decreases |left| + |right| - i - j
    {
      if left[i] < right[j] {
        TakeLeft(result, left, right, i, j);
        result := result + [left[i]];
        i := i + 1;
      } else {
        TakeRight(result, left, right, i, j);
        result := result + [right[j]];
        j := j + 1;
      }
    }
    if i < |left| {
      FinishWithLeft(result, left, right, i, j);
      result := result + left[i..];
    }
    if j < |right| {
      FinishWithRight(result, left, right, i, j);
      result := result + right[j..];
    }
    if i == |left| && j == |right| {
      // Both inputs were used up by the loop: nothing is left to append.
      FinishWithRight(result, left, right, i, j);
      assert result + right[j..] == result;
    }
  }

  /** MergeSort: a sorted permutation of the input; inputs of fewer than two
      elements come back as they are. */
  method MergeSort(items: seq<int>) returns (r: seq<int>)
    ensures Sorted(r)
    ensures multiset(r) == multiset(items)
    ensures |items| < 2 ==> r == items
    decreases |items|
  {
    if |items| < 2 {
      return items;
    }
    var mi := |items| / 2;
    var left := MergeSort(items[..mi]);
    var right := MergeSort(items[mi..]);
    assert items == items[..mi] + items[mi..];
    r := Merge(left, right);
  }

  /** Dropping the head of a sequence drops one occurrence of it from the multiset. */
  lemma MultisetTail(s: seq<int>)
    requires s != []
    ensures multiset(s[1..]) == multiset(s) - multiset{s[0]}
  {
    assert s == [s[0]] + s[1..];
  }

  /** A sorted arrangement of a multiset is unique, so the contract of MergeSort
      determines its result. */
  lemma {:induction false} SortedPermutationUnique(a: seq<int>, b: seq<int>)
    requires Sorted(a) && Sorted(b)
    requires multiset(a) == multiset(b)
    ensures a == b
  {
    if a != [] {
      assert |b| == |a| by {
        assert |multiset(a)| == |a| && |multiset(b)| == |b|;
      }
      assert a[0] in multiset(b) && b[0] in multiset(a) by {
        assert a[0] in multiset(a) && b[0] in multiset(b);
      }
      var ka :| 0 <= ka < |a| && a[ka] == b[0];
      var kb :| 0 <= kb < |b| && b[kb] == a[0];
      assert a[0] == b[0];
      MultisetTail(a);
      MultisetTail(b);
      SortedPermutationUnique(a[1..], b[1..]);
    } else {
      assert |multiset(b)| == 0;
    }
  }
}
