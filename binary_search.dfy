/**
 * Iterative binary search (src/algorithm/binary-search.ts): halves the
 * closed window `[left, right]` of a sorted array until the middle entry is
 * the target or the window is empty; -1 means not found.
 */
module BinarySearch {
  import opened Sequences

  /**
   * `binarySearch`: any index it returns holds the target, it returns -1 when
   * the target is absent, and on a sorted array it finds a present target.
   */
  method Search(a: seq<int>, target: int) returns (r: int)
    ensures r == -1 || (0 <= r < |a| && a[r] == target)
    ensures target !in a ==> r == -1
    ensures Sorted(a) && target in a ==> r != -1
  {
    var left := 0;
    var right := |a| - 1;
    while left <= right
      invariant 0 <= left && right < |a| && left <= right + 1
      invariant Sorted(a) ==> forall i :: 0 <= i < |a| && a[i] == target ==> left <= i <= right
      decreases right - left
    {
      var mid := left + (right - left) / 2;
      assert left <= mid <= right;
      if a[mid] == target {
        return mid;
      }
      if a[mid] < target {
        left := mid + 1;
      } else {
        right := mid - 1;
      }
    }
    return -1;
  }

  /** The arrays searched by `SearchScenario` are sorted, as `binarySearch` requires. */
  lemma SampleSorted()
    ensures Sorted([1, 3, 5, 7, 9, 11, 13]) && Sorted([1, 3, 5, 7, 9])
  {
  }

  /**
   * The tests of src/algorithm/binary-search.test.ts on numbers: a target in
   * the middle, at either end, absent, in an empty array and in a single entry.
   */
  method SearchScenario() returns (middle: int, first: int, last: int, absent: int, empty: int, single: int, singleAbsent: int)
    ensures middle == 3 && first == 0 && last == 4
    ensures absent == -1 && empty == -1
    ensures single == 0 && singleAbsent == -1
  {
    SampleSorted();
    middle := Search([1, 3, 5, 7, 9, 11, 13], 7);
    first := Search([1, 3, 5, 7, 9], 1);
    last := Search([1, 3, 5, 7, 9], 9);
    absent := Search([1, 3, 5, 7, 9], 4);
    empty := Search([], 5);
    single := Search([42], 42);
    singleAbsent := Search([42], 0);
  }
}
