/**
 * Top-down merge sort (src/algorithm/merge-sort.ts): split at the middle,
 * sort both halves, and merge them. The input is never changed: the halves
 * are slices and the merge builds a new sequence.
 */
module MergeSort {
  import opened Sequences

  /**
   * What `merge` computes: repeatedly takes the smaller head, the right one
   * when neither is smaller, and appends what is left over.
   */
  function Merged(l: seq<int>, r: seq<int>): seq<int>
    decreases |l| + |r|
  {
    if l == [] then r
    else if r == [] then l
    else if l[0] < r[0] then [l[0]] + Merged(l[1..], r)
    else [r[0]] + Merged(l, r[1..])
  }

  /** What `mergeSort` computes: short sequences as they are, longer ones as the merge of their sorted halves. */
  function MergeSorted(a: seq<int>): seq<int>
    decreases |a|
  {
    if |a| <= 1 then a
    else Merged(MergeSorted(a[..|a| / 2]), MergeSorted(a[|a| / 2..]))
  }

  /** A merge holds the entries of both inputs, duplicates included, and no others. */
  lemma {:induction false} MergedElements(l: seq<int>, r: seq<int>)
    ensures multiset(Merged(l, r)) == multiset(l) + multiset(r)
    ensures |Merged(l, r)| == |l| + |r|
    decreases |l| + |r|
  {
    if l != [] && r != [] {
      if l[0] < r[0] {
        MergedElements(l[1..], r);
        assert l == [l[0]] + l[1..];
      } else {
        MergedElements(l, r[1..]);
        assert r == [r[0]] + r[1..];
      }
    }
  }

  /** Putting an entry no larger than any other in front keeps a sequence sorted. */
  lemma SortedCons(x: int, m: seq<int>)
    requires Sorted(m) && forall k :: 0 <= k < |m| ==> x <= m[k]
    ensures Sorted([x] + m)
  {
    forall i, j | 0 <= i < j < |m| + 1
      ensures ([x] + m)[i] <= ([x] + m)[j]
    {
      if i > 0 {
        assert ([x] + m)[i] == m[i - 1];
      }
      assert ([x] + m)[j] == m[j - 1];
    }
  }

  /** The merge of two sorted sequences is sorted. */
  lemma {:induction false} MergedSorted(l: seq<int>, r: seq<int>)
    requires Sorted(l) && Sorted(r)
    ensures Sorted(Merged(l, r))
    decreases |l| + |r|
  {
    if l != [] && r != [] {
      if l[0] < r[0] {
        var m := Merged(l[1..], r);
        MergedSorted(l[1..], r);
        MergedElements(l[1..], r);
        assert l == [l[0]] + l[1..];
        assert multiset(m) == multiset(l[1..]) + multiset(r);
        forall k | 0 <= k < |m|
          ensures l[0] <= m[k]
        {
          assert m[k] in multiset(l[1..]) + multiset(r);
          if m[k] in multiset(r) {
            SortedHeadLeast(r, m[k]);
          } else {
            SortedHeadLeast(l, m[k]);
          }
        }
        SortedCons(l[0], m);
      } else {
        var m := Merged(l, r[1..]);
        MergedSorted(l, r[1..]);
        MergedElements(l, r[1..]);
        assert r == [r[0]] + r[1..];
        assert multiset(m) == multiset(l) + multiset(r[1..]);
        forall k | 0 <= k < |m|
          ensures r[0] <= m[k]
        {
          assert m[k] in multiset(l) + multiset(r[1..]);
          if m[k] in multiset(l) {
            SortedHeadLeast(l, m[k]);
          } else {
            SortedHeadLeast(r, m[k]);
          }
        }
        SortedCons(r[0], m);
      }
    }
  }

  /** `mergeSort` returns a sorted rearrangement of its input, and short inputs as they are. */
  lemma {:induction false} MergeSortedSorts(a: seq<int>)
    ensures Sorted(MergeSorted(a)) && multiset(MergeSorted(a)) == multiset(a)
    ensures |a| <= 1 ==> MergeSorted(a) == a
    decreases |a|
  {
    if |a| > 1 {
      var mid := |a| / 2;
      MergeSortedSorts(a[..mid]);
      MergeSortedSorts(a[mid..]);
      MergedSorted(MergeSorted(a[..mid]), MergeSorted(a[mid..]));
      MergedElements(MergeSorted(a[..mid]), MergeSorted(a[mid..]));
      assert a == a[..mid] + a[mid..];
    }
  }

  /** One round of `merge`'s loop that takes the left head. */
  lemma TakeLeft(result: seq<int>, l: seq<int>, r: seq<int>)
    requires l != [] && r != [] && l[0] < r[0]
    ensures result + Merged(l, r) == (result + [l[0]]) + Merged(l[1..], r)
  {
  }

  /** One round of `merge`'s loop that takes the right head. */
  lemma TakeRight(result: seq<int>, l: seq<int>, r: seq<int>)
    requires l != [] && r != [] && !(l[0] < r[0])
    ensures result + Merged(l, r) == (result + [r[0]]) + Merged(l, r[1..])
  {
  }

  /** `merge`: the loop over both inputs, then the rest of each. */
  method Merge(left: seq<int>, right: seq<int>) returns (result: seq<int>)
    ensures result == Merged(left, right)
  {
    result := [];
    var leftIndex := 0;
    var rightIndex := 0;
    while leftIndex < |left| && rightIndex < |right|
      invariant 0 <= leftIndex <= |left| && 0 <= rightIndex <= |right|
      invariant result + Merged(left[leftIndex..], right[rightIndex..]) == Merged(left, right)
      decreases |left| - leftIndex + |right| - rightIndex
    {
      if left[leftIndex] < right[rightIndex] {
        TakeLeft(result, left[leftIndex..], right[rightIndex..]);
        assert left[leftIndex..][1..] == left[leftIndex + 1..];
        result := result + [left[leftIndex]];
        leftIndex := leftIndex + 1;
      } else {
        TakeRight(result, left[leftIndex..], right[rightIndex..]);
        assert right[rightIndex..][1..] == right[rightIndex + 1..];
        result := result + [right[rightIndex]];
        rightIndex := rightIndex + 1;
      }
    }
    result := result + left[leftIndex..] + right[rightIndex..];
  }

  /** `mergeSort`: sorts both halves and merges them, leaving the input as it was. */
  method Sort(a: seq<int>) returns (r: seq<int>)
    ensures r == MergeSorted(a)
    ensures Sorted(r) && multiset(r) == multiset(a)
    ensures |a| <= 1 ==> r == a
    decreases |a|
  {
    MergeSortedSorts(a);
    if |a| <= 1 {
      return a;
    }
    var middle := |a| / 2;
    var leftHalf := a[..middle];
    var rightHalf := a[middle..];
    var sortedLeft := Sort(leftHalf);
    var sortedRight := Sort(rightHalf);
    r := Merge(sortedLeft, sortedRight);
  }

  /** Sorting five entries, as the tests of src/algorithm/merge-sort.test.ts do. */
  method SortFive(x0: int, x1: int, x2: int, x3: int, x4: int) returns (r: seq<int>)
    ensures Sorted(r) && multiset(r) == multiset([x0, x1, x2, x3, x4])
  {
    r := Sort([x0, x1, x2, x3, x4]);
  }

  /** The entries of the reverse-sorted test, the input of `ReversedScenario`, are those of its expected output. */
  lemma ReversedElements()
    ensures multiset([5, 4, 3, 2, 1]) == multiset([1, 2, 3, 4, 5])
  {
  }

  /** The already-sorted test: a sorted input comes back as it was. */
  method AlreadySortedScenario() returns (r: seq<int>)
    ensures r == [1, 2, 3, 4, 5]
  {
    r := SortFive(1, 2, 3, 4, 5);
    SortedUnique(r, [1, 2, 3, 4, 5]);
  }

  /** The reverse-sorted test. */
  method ReversedScenario() returns (r: seq<int>)
    ensures r == [1, 2, 3, 4, 5]
  {
    r := SortFive(5, 4, 3, 2, 1);
    ReversedElements();
    SortedUnique(r, [1, 2, 3, 4, 5]);
  }

  /** The single-entry and empty tests: nothing to sort. */
  method ShortScenario() returns (single: seq<int>, empty: seq<int>)
    ensures single == [42] && empty == []
  {
    single := Sort([42]);
    empty := Sort([]);
  }
}
