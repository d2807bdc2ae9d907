/**
 * In-place quick sort (src/algorithm/quick-sort.ts): Lomuto partitioning
 * around the last entry of a window `[low, high]` (both ends included),
 * then the same on the two windows beside the pivot.
 */
module QuickSort {
  import opened Sequences

  /**
   * `t` is `s` with the window `[low, high)` rearranged: the same entries
   * overall, and every entry outside the window in place.
   */
  ghost predicate Permutes(t: seq<int>, s: seq<int>, low: int, high: int) {
    && |t| == |s| && 0 <= low <= high <= |s|
    && multiset(t) == multiset(s)
    && forall k :: 0 <= k < |s| && !(low <= k < high) ==> t[k] == s[k]
  }

  /** Rearranging a window inside a larger window rearranges the larger one. */
  lemma PermutesWiden(t: seq<int>, s: seq<int>, low: int, high: int, low': int, high': int)
    requires Permutes(t, s, low, high) && 0 <= low' <= low && high <= high' <= |s|
    ensures Permutes(t, s, low', high')
  {
  }

  lemma PermutesTrans(u: seq<int>, t: seq<int>, s: seq<int>, low: int, high: int)
    requires Permutes(u, t, low, high) && Permutes(t, s, low, high)
    ensures Permutes(u, s, low, high)
  {
  }

  /** Exchanging two entries of a window rearranges it. */
  lemma SwapPermutes(s: seq<int>, i: int, j: int, low: int, high: int)
    requires 0 <= low <= i < high <= |s| && low <= j < high
    ensures Permutes(s[i := s[j]][j := s[i]], s, low, high)
  {
    var t1 := s[i := s[j]];
    var t := t1[j := s[i]];
    forall x
      ensures multiset(t)[x] == multiset(s)[x]
    {
      assert multiset(t1)[x] == multiset(s)[x] - (if x == s[i] then 1 else 0) + (if x == s[j] then 1 else 0);
      assert multiset(t)[x] == multiset(t1)[x] - (if x == t1[j] then 1 else 0) + (if x == s[i] then 1 else 0);
    }
    assert multiset(t) == multiset(s);
  }

  /** The entries of a sequence are those before, inside and after a window. */
  lemma MultisetSplit(s: seq<int>, low: int, high: int)
    requires 0 <= low <= high <= |s|
    ensures multiset(s) == multiset(s[..low]) + multiset(s[low..high]) + multiset(s[high..])
  {
    assert s == s[..low] + s[low..high] + s[high..];
  }

  /** The window itself keeps its entries. */
  lemma PermutesWindow(t: seq<int>, s: seq<int>, low: int, high: int)
    requires Permutes(t, s, low, high)
    ensures multiset(t[low..high]) == multiset(s[low..high])
  {
    assert t[..low] == s[..low] && t[high..] == s[high..];
    MultisetSplit(t, low, high);
    MultisetSplit(s, low, high);
    var inside, inside' := multiset(t[low..high]), multiset(s[low..high]);
    forall x
      ensures inside[x] == inside'[x]
    {
      assert multiset(t)[x] == multiset(s[..low])[x] + inside[x] + multiset(s[high..])[x];
      assert multiset(s)[x] == multiset(s[..low])[x] + inside'[x] + multiset(s[high..])[x];
    }
  }

  /** The entries of a rearranged window are entries of the original. */
  lemma PermutesBounds(t: seq<int>, s: seq<int>, low: int, high: int, pivot: int)
    requires Permutes(t, s, low, high)
    ensures (forall k :: low <= k < high ==> s[k] < pivot) ==> forall k :: low <= k < high ==> t[k] < pivot
    ensures (forall k :: low <= k < high ==> pivot <= s[k]) ==> forall k :: low <= k < high ==> pivot <= t[k]
  {
    PermutesWindow(t, s, low, high);
    forall k | low <= k < high
      ensures exists m :: low <= m < high && t[k] == s[m]
    {
      assert t[k] == t[low..high][k - low];
      assert t[k] in multiset(s[low..high]);
      var m :| 0 <= m < high - low && s[low..high][m] == t[k];
      assert s[low + m] == t[k];
    }
  }

  /** A sorted left part, then the pivot, then a sorted right part not below it: sorted. */
  lemma SortedAround(s: seq<int>, low: int, p: int, high: int)
    requires 0 <= low <= p < high <= |s|
    requires Sorted(s[low..p]) && Sorted(s[p + 1..high])
    requires forall k :: low <= k < p ==> s[k] < s[p]
    requires forall k :: p < k < high ==> s[p] <= s[k]
    ensures Sorted(s[low..high])
  {
    forall i, j | low <= i < j < high
      ensures s[i] <= s[j]
    {
      if j < p {
        assert s[i] == s[low..p][i - low] && s[j] == s[low..p][j - low];
      } else if i > p {
        assert s[i] == s[p + 1..high][i - p - 1] && s[j] == s[p + 1..high][j - p - 1];
      }
    }
  }

  /**
   * `partition`: the pivot, the old last entry of the window, lands at `p`
   * with only smaller entries before it and none smaller after it.
   */
  method Partition(a: array<int>, low: int, high: int) returns (p: int)
    requires 0 <= low <= high < a.Length
    modifies a
    ensures low <= p <= high && a[p] == old(a[high])
    ensures forall k :: low <= k < p ==> a[k] < a[p]
    ensures forall k :: p < k <= high ==> a[p] <= a[k]
    ensures Permutes(a[..], old(a[..]), low, high + 1)
  {
    var pivot := a[high];
    var i := low - 1;
    for j := low to high
      invariant low - 1 <= i < j && a[high] == pivot
      invariant forall k :: low <= k <= i ==> a[k] < pivot
      invariant forall k :: i < k < j ==> pivot <= a[k]
      invariant Permutes(a[..], old(a[..]), low, high + 1)
    {
      i := PartitionStep(a, low, high, pivot, i, j);
    }
    Swap(a, i + 1, high, low, high + 1);
    return i + 1;
  }

  /** One round of `partition`'s loop: an entry below the pivot joins the lower part. */
  method PartitionStep(a: array<int>, low: int, high: int, pivot: int, i: int, j: int) returns (i': int)
    requires 0 <= low <= j < high < a.Length && low - 1 <= i < j && a[high] == pivot
    requires forall k :: low <= k <= i ==> a[k] < pivot
    requires forall k :: i < k < j ==> pivot <= a[k]
    modifies a
    ensures low - 1 <= i' <= j && a[high] == pivot
    ensures forall k :: low <= k <= i' ==> a[k] < pivot
    ensures forall k :: i' < k <= j ==> pivot <= a[k]
    ensures Permutes(a[..], old(a[..]), low, high + 1)
  {
    i' := i;
    if a[j] < pivot {
      i' := i + 1;
      Swap(a, i', j, low, high + 1);
    }
  }

  /** The destructuring swap of `partition`, inside the window `[low, high)`. */
  method Swap(a: array<int>, i: int, j: int, ghost low: int, ghost high: int)
    requires 0 <= low <= i < high <= a.Length && low <= j < high
    modifies a
    ensures a[..] == old(a[..])[i := old(a[j])][j := old(a[i])]
    ensures Permutes(a[..], old(a[..]), low, high)
  {
    a[i], a[j] := a[j], a[i];
    SwapPermutes(old(a[..]), i, j, low, high);
  }

  /** `quickSortRecursive`: sorts the window `[low, high]` and touches nothing outside it. */
  method QuickSortRange(a: array<int>, low: int, high: int)
    requires 0 <= low <= high + 1 <= a.Length
    modifies a
    ensures Sorted(a[low..high + 1])
    ensures Permutes(a[..], old(a[..]), low, high + 1)
    ensures low >= high ==> a[..] == old(a[..])
    decreases high - low
  {
    if low < high {
      var p := Partition(a, low, high);
      ghost var s1 := a[..];
      QuickSortRange(a, low, p - 1);
      ghost var s2 := a[..];
      QuickSortRange(a, p + 1, high);
      ghost var s3 := a[..];
      JoinSorted(s1, s2, s3, low, p, high + 1);
      PermutesWiden(s2, s1, low, p, low, high + 1);
      PermutesWiden(s3, s2, p + 1, high + 1, low, high + 1);
    } else {
      assert a[..] == old(a[..]);
    }
  }

  /** The proof step after both recursive calls of `quickSortRecursive`. */
  lemma JoinSorted(s1: seq<int>, s2: seq<int>, s3: seq<int>, low: int, p: int, high: int)
    requires 0 <= low <= p < high <= |s1|
    requires forall k :: low <= k < p ==> s1[k] < s1[p]
    requires forall k :: p < k < high ==> s1[p] <= s1[k]
    requires Permutes(s2, s1, low, p) && Sorted(s2[low..p])
    requires Permutes(s3, s2, p + 1, high) && Sorted(s3[p + 1..high])
    ensures Sorted(s3[low..high])
  {
    PermutesBounds(s2, s1, low, p, s1[p]);
    PermutesBounds(s3, s2, p + 1, high, s1[p]);
    assert s3[low..p] == s2[low..p];
    SortedAround(s3, low, p, high);
  }

  /** `quickSort`: sorts the whole array in place and hands back the same array. */
  method Sort(a: array<int>) returns (r: array<int>)
    modifies a
    ensures r == a && Sorted(a[..])
    ensures multiset(a[..]) == multiset(old(a[..]))
    ensures a.Length <= 1 ==> a[..] == old(a[..])
  {
    QuickSortRange(a, 0, a.Length - 1);
    assert a[..] == a[0..a.Length] && old(a[..]) == old(a[..])[0..a.Length];
    return a;
  }

  /** Sorting an array of five entries in place, as the tests of src/algorithm/quick-sort.test.ts do. */
  method SortFive(x0: int, x1: int, x2: int, x3: int, x4: int) returns (r: seq<int>)
    ensures Sorted(r) && multiset(r) == multiset([x0, x1, x2, x3, x4])
  {
    var a := new int[5] [x0, x1, x2, x3, x4];
    assert a[..] == [x0, x1, x2, x3, x4];
    var _ := Sort(a);
    r := a[..];
  }

  /** The entries of the reverse-sorted test, the input of `ReversedScenario`, are those of its expected output. */
  lemma ReversedElements()
    ensures multiset([5, 4, 3, 2, 1]) == multiset([1, 2, 3, 4, 5])
  {
  }

  /** The entries of the negative-numbers test, the input of `NegativesScenario`, are those of its expected output. */
  lemma NegativesElements()
    ensures multiset([3, -1, 0, -5, 2]) == multiset([-5, -1, 0, 2, 3])
  {
  }

  /** The already-sorted test: a sorted input comes back as it was. */
  method AlreadySortedScenario() returns (r: seq<int>)
    ensures r == [1, 2, 3, 4, 5]
  {
    r := SortFive(1, 2, 3, 4, 5);
    SortedUnique(r, [1, 2, 3, 4, 5]);
  }

  /** The reverse-sorted test. */
  method ReversedScenario() returns (r: seq<int>)
    ensures r == [1, 2, 3, 4, 5]
  {
    r := SortFive(5, 4, 3, 2, 1);
    ReversedElements();
    SortedUnique(r, [1, 2, 3, 4, 5]);
  }

  /** The negative-numbers test. */
  method NegativesScenario() returns (r: seq<int>)
    ensures r == [-5, -1, 0, 2, 3]
  {
    r := SortFive(3, -1, 0, -5, 2);
    NegativesElements();
    SortedUnique(r, [-5, -1, 0, 2, 3]);
  }

  /** The empty-array test: nothing to sort. */
  method EmptyScenario() returns (r: seq<int>)
    ensures r == []
  {
    var a := new int[0];
    var _ := Sort(a);
    r := a[..];
  }
}
