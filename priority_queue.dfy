/**
 * A min-priority queue kept as a binary heap in a growable array
 * (src/priority-queue.ts): the entry at index i > 0 has its parent at
 * floor((i - 1) / 2), and no parent has a larger priority number than its
 * children, so the root holds a minimal priority.
 */
module PriorityQueues {
  import opened Wrappers

  /** An entry: a value and its priority, lower numbers first. */
  datatype HeapNode<T> = HeapNode(value: T, priority: int)

  /**
   * The parent index `Math.floor((i - 1) / 2)`. Dafny's `/` rounds toward
   * negative infinity for a positive divisor, so this agrees with the source
   * for every `i`, including -1 for `i == 0`.
   */
  function Parent(i: int): int {
    (i - 1) / 2
  }

  /** No parent has a larger priority number than its child. */
  ghost predicate IsHeap<T>(h: seq<HeapNode<T>>) {
    forall i :: 0 < i < |h| ==> h[Parent(i)].priority <= h[i].priority
  }

  /** The heap order holds at every child except `k`. */
  ghost predicate HeapExceptAt<T>(h: seq<HeapNode<T>>, k: int) {
    forall i :: 0 < i < |h| && i != k ==> h[Parent(i)].priority <= h[i].priority
  }

  /** The heap order holds below every parent except `k`. */
  ghost predicate HeapExceptBelow<T>(h: seq<HeapNode<T>>, k: int) {
    forall i :: 0 < i < |h| && Parent(i) != k ==> h[Parent(i)].priority <= h[i].priority
  }

  /** The children of `k` are not smaller than the parent of `k`, so `k` may be bypassed. */
  ghost predicate GrandparentBound<T>(h: seq<HeapNode<T>>, k: int)
    requires 0 <= k < |h|
  {
    k > 0 ==> forall i :: 0 < i < |h| && Parent(i) == k ==> h[Parent(k)].priority <= h[i].priority
  }

  /** Along the parent chain priorities never increase, so the root has a minimal priority. */
  lemma {:induction false} HeapRootIsMin<T>(h: seq<HeapNode<T>>, i: int)
    requires IsHeap(h) && 0 <= i < |h|
    ensures h[0].priority <= h[i].priority
    decreases i
  {
    if i > 0 {
      HeapRootIsMin(h, Parent(i));
    }
  }

  /** A heap, minimal entry at the root: for every entry of a non-empty heap there is none smaller. */
  lemma HeapMinimum<T>(h: seq<HeapNode<T>>)
    requires IsHeap(h) && |h| > 0
    ensures forall i :: 0 <= i < |h| ==> h[0].priority <= h[i].priority
  {
    forall i | 0 <= i < |h|
      ensures h[0].priority <= h[i].priority
    {
      HeapRootIsMin(h, i);
    }
  }

  /**
   * `extractMin` before its `siftDown`: the last entry moved to the root and
   * the old root dropped leaves the order intact below every other parent.
   */
  lemma PopRoot<T>(h0: seq<HeapNode<T>>)
    requires IsHeap(h0) && |h0| > 0
    ensures HeapExceptBelow(h0[0 := h0[|h0| - 1]][..|h0| - 1], 0)
    ensures multiset(h0[0 := h0[|h0| - 1]][..|h0| - 1]) == multiset(h0) - multiset{h0[0]}
  {
    var last := |h0| - 1;
    var hs := h0[0 := h0[last]][last := h0[0]];
    var h := h0[0 := h0[last]][..last];
    assert hs == h + [h0[0]];
    assert multiset(hs) == multiset(h0);
  }

  class PriorityQueue<T(==)> {
    var heap: seq<HeapNode<T>>

    ghost predicate Valid()
      reads this
    {
      IsHeap(heap)
    }

    /** The stored entries, regardless of their places in the array. */
    ghost function Entries(): multiset<HeapNode<T>>
      reads this
    {
      multiset(heap)
    }

    constructor ()
      ensures Valid() && heap == []
    {
      heap := [];
    }

    function IsEmpty(): (r: bool)
      reads this
      ensures r <==> Entries() == multiset{}
      ensures r <==> GetSize() == 0
    {
      assert |heap| > 0 ==> heap[0] in multiset(heap);
      |heap| == 0
    }

    function GetSize(): (r: nat)
      reads this
      ensures r == |Entries()|
    {
      |heap|
    }

    /** `push` then `siftUp`: one more entry, and the heap order restored. */
    method Insert(value: T, priority: int)
      requires Valid()
      modifies this
      ensures Valid()
      ensures Entries() == old(Entries()) + multiset{HeapNode(value, priority)}
      ensures GetSize() == old(GetSize()) + 1
    {
      heap := heap + [HeapNode(value, priority)];
      SiftUp(|heap| - 1);
    }

    /**
     * Removes an entry of minimal priority and returns its value; on an empty
     * queue, `None` with nothing changed.
     */
    method ExtractMin() returns (r: Option<T>)
      requires Valid()
      modifies this
      ensures Valid()
      ensures old(heap) == [] ==> r == None && heap == []
      ensures old(heap) != [] ==>
        && r == Some(old(heap)[0].value)
        && (forall i :: 0 <= i < |old(heap)| ==> old(heap)[0].priority <= old(heap)[i].priority)
        && Entries() == old(Entries()) - multiset{old(heap)[0]}
        && GetSize() == old(GetSize()) - 1
    {
      if IsEmpty() {
        return None;
      }
      HeapMinimum(heap);
      var node := SwapRootAndPop();
      if !IsEmpty() {
        SiftDown(0);
      }
      return Some(node.value);
    }

    /** The `swap` and `pop` of `extractMin`: the root leaves, the last entry takes its place. */
    method SwapRootAndPop() returns (node: HeapNode<T>)
      requires Valid() && heap != []
      modifies this
      ensures node == old(heap)[0] && |heap| == |old(heap)| - 1
      ensures Entries() == old(Entries()) - multiset{node}
      ensures heap != [] ==> HeapExceptBelow(heap, 0) && GrandparentBound(heap, 0)
    {
      ghost var h0 := heap;
      var last := |heap| - 1;
      Swap(0, last);
      node := heap[last];
      heap := heap[..last];
      PopRoot(h0);
      assert heap == h0[0 := h0[last]][..last];
    }

    /** The loop of `siftUp`: the entry at `index` climbs while it beats its parent. */
    method SiftUp(index: nat)
      requires index < |heap| && HeapExceptAt(heap, index) && GrandparentBound(heap, index)
      modifies this
      ensures Valid()
      ensures Entries() == old(Entries()) && |heap| == old(|heap|)
    {
      var k: int := index;
      var parentIndex := Parent(k);
      while k > 0 && heap[k].priority < heap[parentIndex].priority
        invariant 0 <= k < |heap| && parentIndex == Parent(k)
        invariant HeapExceptAt(heap, k) && GrandparentBound(heap, k)
        invariant Entries() == old(Entries()) && |heap| == old(|heap|)
        decreases k
      {
        SwapUp(k);
        k := parentIndex;
        parentIndex := Parent(k);
      }
    }

    /** One round of `siftUp`'s loop: the entry at `k` and its larger parent trade places. */
    method SwapUp(k: int)
      requires 0 < k < |heap| && heap[k].priority < heap[Parent(k)].priority
      requires HeapExceptAt(heap, k) && GrandparentBound(heap, k)
      modifies this
      ensures Entries() == old(Entries()) && |heap| == old(|heap|)
      ensures HeapExceptAt(heap, Parent(k)) && GrandparentBound(heap, Parent(k))
    {
      ghost var h := heap;
      var p := Parent(k);
      Swap(k, p);
      forall i | 0 < i < |heap| && i != p
        ensures heap[Parent(i)].priority <= heap[i].priority
      {
        if i == k {
        } else if Parent(i) == k {
          assert heap[Parent(i)] == h[p];
        } else if Parent(i) == p {
          assert heap[Parent(i)] == h[k];
        }
      }
    }

    /** `siftDown`: the entry at `index` sinks below its smaller child until neither child beats it. */
    method SiftDown(index: nat)
      requires index < |heap| && HeapExceptBelow(heap, index) && GrandparentBound(heap, index)
      modifies this
      ensures Valid()
      ensures Entries() == old(Entries()) && |heap| == old(|heap|)
      decreases |heap| - index
    {
      var leftChildIndex := 2 * index + 1;
      var rightChildIndex := 2 * index + 2;
      var smallestIndex := index;
      if leftChildIndex < |heap| && heap[leftChildIndex].priority < heap[smallestIndex].priority {
        smallestIndex := leftChildIndex;
      }
      if rightChildIndex < |heap| && heap[rightChildIndex].priority < heap[smallestIndex].priority {
        smallestIndex := rightChildIndex;
      }
      if smallestIndex != index {
        SwapDown(index, smallestIndex);
        SiftDown(smallestIndex);
      } else {
        forall i | 0 < i < |heap| && Parent(i) == index
          ensures heap[index].priority <= heap[i].priority
        {
          assert i == leftChildIndex || i == rightChildIndex;
        }
      }
    }

    /** One step of `siftDown`: the entry at `k` and its smallest child `s` trade places. */
    method SwapDown(k: nat, s: nat)
      requires k < s < |heap| && Parent(s) == k && heap[s].priority < heap[k].priority
      requires forall i :: 0 < i < |heap| && Parent(i) == k ==> heap[s].priority <= heap[i].priority
      requires HeapExceptBelow(heap, k) && GrandparentBound(heap, k)
      modifies this
      ensures Entries() == old(Entries()) && |heap| == old(|heap|)
      ensures HeapExceptBelow(heap, s) && GrandparentBound(heap, s)
    {
      ghost var h := heap;
      Swap(k, s);
      forall i | 0 < i < |heap| && Parent(i) != s
        ensures heap[Parent(i)].priority <= heap[i].priority
      {
        if i == s {
        } else if Parent(i) == k {
          assert heap[Parent(i)] == h[s];
        } else if i == k {
          assert heap[i] == h[s];
        }
      }
    }

    /** `swap`: exchanges two entries and so keeps the same entries. */
    method Swap(i: nat, j: nat)
      requires i < |heap| && j < |heap|
      modifies this
      ensures heap == old(heap)[i := old(heap)[j]][j := old(heap)[i]]
      ensures Entries() == old(Entries())
    {
      heap := heap[i := heap[j]][j := heap[i]];
    }
  }

  /**
   * The extraction test of src/priority-queue.test.ts: after inserting
   * priorities 10, 1 and 5, the entry with priority 1 comes out first and two
   * entries remain.
   */
  method ExtractScenario() returns (first: Option<string>, size: nat, empty: Option<string>)
    ensures first == Some("High Priority") && size == 2
    ensures empty == None
  {
    var pq := new PriorityQueue<string>();
    empty := pq.ExtractMin();
    pq.Insert("Low Priority", 10);
    pq.Insert("High Priority", 1);
    pq.Insert("Medium Priority", 5);
    ghost var h := pq.heap;
    first := pq.ExtractMin();
    size := pq.GetSize();
    assert h[0] in multiset(h);
    assert HeapNode("High Priority", 1) in multiset(h);
    ghost var i :| 0 <= i < |h| && h[i] == HeapNode("High Priority", 1);
    assert h[0].priority <= 1;
  }

  /** The first two tests: a new queue is empty, and three insertions give three entries. */
  method SizeScenario() returns (empty: bool, zero: nat, three: nat)
    ensures empty && zero == 0 && three == 3
  {
    var pq := new PriorityQueue<string>();
    empty := pq.IsEmpty();
    zero := pq.GetSize();
    pq.Insert("Task C", 3);
    pq.Insert("Task A", 1);
    pq.Insert("Task B", 2);
    three := pq.GetSize();
  }

  /** When one entry has a smaller priority than every other, `extractMin` returns that entry's value and removes it. */
  method ExtractLeast<T>(pq: PriorityQueue<T>, ghost least: HeapNode<T>) returns (r: Option<T>)
    requires pq.Valid() && least in pq.Entries()
    requires forall x :: x in pq.Entries() && x != least ==> least.priority < x.priority
    modifies pq
    ensures pq.Valid() && r == Some(least.value)
    ensures pq.Entries() == old(pq.Entries()) - multiset{least}
  {
    ghost var h := pq.heap;
    assert least in h;
    ghost var i :| 0 <= i < |h| && h[i] == least;
    assert h[0] in multiset(h);
    r := pq.ExtractMin();
    assert h[0].priority <= h[i].priority;
  }

  /**
   * The test of a sequence of insertions and extractions: priorities 5, 2
   * and 8, one extraction, then 1 and 6, and four extractions, each giving
   * the least priority left, until the queue is empty.
   */
  method SequenceScenario() returns (a: Option<string>, b: Option<string>, c: Option<string>, d: Option<string>, e: Option<string>, done: bool)
    ensures a == Some("Task 2") && b == Some("Task 4") && c == Some("Task 1")
    ensures d == Some("Task 5") && e == Some("Task 3") && done
  {
    var pq;
    pq, a := SequenceFirstRound();
    b := SequenceSecondRound(pq);
    c, d := SequenceDrain(pq);
    e := ExtractLeast(pq, HeapNode("Task 3", 8));
    done := pq.IsEmpty();
  }

  /** Priorities 5, 2 and 8 inserted, and the least extracted. */
  method SequenceFirstRound() returns (pq: PriorityQueue<string>, a: Option<string>)
    ensures fresh(pq) && pq.Valid() && a == Some("Task 2")
    ensures pq.Entries() == multiset{HeapNode("Task 1", 5), HeapNode("Task 3", 8)}
  {
    pq := new PriorityQueue<string>();
    pq.Insert("Task 1", 5);
    pq.Insert("Task 2", 2);
    pq.Insert("Task 3", 8);
    a := ExtractLeast(pq, HeapNode("Task 2", 2));
  }

  /** Priorities 1 and 6 added to 5 and 8, and the least extracted. */
  method SequenceSecondRound(pq: PriorityQueue<string>) returns (b: Option<string>)
    requires pq.Valid() && pq.Entries() == multiset{HeapNode("Task 1", 5), HeapNode("Task 3", 8)}
    modifies pq
    ensures pq.Valid() && b == Some("Task 4")
    ensures pq.Entries() == multiset{HeapNode("Task 1", 5), HeapNode("Task 3", 8), HeapNode("Task 5", 6)}
  {
    pq.Insert("Task 4", 1);
    pq.Insert("Task 5", 6);
    b := ExtractLeast(pq, HeapNode("Task 4", 1));
  }

  /** Priorities 5 and 6 extracted from 5, 6 and 8. */
  method SequenceDrain(pq: PriorityQueue<string>) returns (c: Option<string>, d: Option<string>)
    requires pq.Valid() && pq.Entries() == multiset{HeapNode("Task 1", 5), HeapNode("Task 3", 8), HeapNode("Task 5", 6)}
    modifies pq
    ensures pq.Valid() && c == Some("Task 1") && d == Some("Task 5")
    ensures pq.Entries() == multiset{HeapNode("Task 3", 8)}
  {
    c := ExtractLeast(pq, HeapNode("Task 1", 5));
    assert pq.Entries() == multiset{HeapNode("Task 3", 8), HeapNode("Task 5", 6)};
    d := ExtractLeast(pq, HeapNode("Task 5", 6));
  }

  /**
   * The test of equal priorities: the single least entry comes out first, and
   * the two entries that share a priority follow in either order.
   */
  method TieScenario() returns (first: Option<string>, second: Option<string>, third: Option<string>)
    ensures first == Some("B")
    ensures (second == Some("A") && third == Some("C")) || (second == Some("C") && third == Some("A"))
  {
    var pq := new PriorityQueue<string>();
    pq.Insert("A", 2);
    pq.Insert("B", 1);
    pq.Insert("C", 2);
    first := ExtractLeast(pq, HeapNode("B", 1));
    second, third := ExtractPair(pq, HeapNode("A", 2), HeapNode("C", 2));
  }

  /** Two entries left: the next two extractions give both values, in either order. */
  method ExtractPair<T>(pq: PriorityQueue<T>, ghost x: HeapNode<T>, ghost y: HeapNode<T>) returns (second: Option<T>, third: Option<T>)
    requires pq.Valid() && pq.Entries() == multiset{x, y}
    modifies pq
    ensures pq.Valid() && pq.Entries() == multiset{}
    ensures (second == Some(x.value) && third == Some(y.value)) || (second == Some(y.value) && third == Some(x.value))
  {
    ghost var h := pq.heap;
    assert h[0] in multiset(h);
    second := pq.ExtractMin();
    ghost var rest := if h[0] == x then y else x;
    assert pq.Entries() == multiset{rest};
    third := ExtractLeast(pq, rest);
  }
}
