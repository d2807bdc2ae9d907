/**
 * A singly linked list with head and tail references and a cached size
 * (src/linked-list.ts). Its abstract value is `Contents`, the sequence that
 * `toArray` produces; the ghost sequence `nodes` names the node objects of the
 * chain, in order, so that the invariant can speak of each link separately.
 */
module LinkedLists {
  import opened Wrappers
  import opened Sequences

  /** Everything before the first occurrence of `x` in `s`, then everything after it. */
  function RemoveFirst<T(==)>(s: seq<T>, x: T): (r: seq<T>)
    ensures x !in s ==> r == s
    ensures x in s ==> |r| == |s| - 1
  {
    if s == [] then []
    else if s[0] == x then s[1..]
    else [s[0]] + RemoveFirst(s[1..], x)
  }

  /** Removing the first `x` cuts exactly the element at its first position. */
  lemma {:induction false} RemoveFirstAt<T>(s: seq<T>, x: T, k: nat)
    requires k < |s| && s[k] == x && x !in s[..k]
    ensures RemoveFirst(s, x) == s[..k] + s[k + 1..]
  {
    if k > 0 {
      assert s[0] != x by { assert s[0] == s[..k][0]; }
      assert s[1..][..k - 1] == s[1..k];
      RemoveFirstAt(s[1..], x, k - 1);
      assert s[1..][..k - 1] + s[1..][k..] == s[1..k] + s[k + 1..];
      assert [s[0]] + (s[1..k] + s[k + 1..]) == s[..k] + s[k + 1..];
    }
  }

  /** A node's value is set once by its constructor; no operation of the list reassigns it. */
  class ListNode<T> {
    const value: T
    var next: ListNode?<T>

    constructor (value: T)
      ensures this.value == value && next == null
    {
      this.value := value;
      next := null;
    }
  }

  class LinkedList<T(==)> {
    var head: ListNode?<T>
    var tail: ListNode?<T>
    var size: nat

    ghost var nodes: seq<ListNode<T>>
    ghost var Contents: seq<T>
    ghost var Repr: set<object>

    /**
     * The chain from `head` runs through `nodes` in order and ends at `tail`,
     * whose `next` is null; `size` counts the nodes. So `head` and `tail` are
     * null together, exactly when the list is empty.
     */
    ghost predicate Valid()
      reads this, Repr
    {
      && this in Repr
      && (forall i :: 0 <= i < |nodes| ==> nodes[i] in Repr)
      && |Contents| == |nodes| && size == |nodes|
      && (forall i :: 0 <= i < |nodes| ==> nodes[i].value == Contents[i])
      && (forall i :: 0 <= i < |nodes| - 1 ==> nodes[i].next == nodes[i + 1])
      && Distinct(nodes)  // so the chain has no cycle
      && (if nodes == [] then head == null && tail == null
          else head == nodes[0] && tail == nodes[|nodes| - 1] && tail.next == null)
    }

    constructor ()
      ensures Valid() && fresh(Repr)
      ensures Contents == []
    {
      head, tail, size := null, null, 0;
      nodes, Contents := [], [];
      Repr := {this};
    }

    /** Links a fresh node after `tail`. */
    method Append(value: T)
      requires Valid()
      modifies Repr
      ensures Valid() && fresh(Repr - old(Repr))
      ensures Contents == old(Contents) + [value]
      ensures size == old(size) + 1
    {
      var newNode := new ListNode(value);
      if head == null || tail == null {
        head := newNode;
        tail := newNode;
      } else {
        tail.next := newNode;
        tail := newNode;
      }
      size := size + 1;
      nodes := nodes + [newNode];
      Contents := Contents + [value];
      Repr := Repr + {newNode};
    }

    /** Links a fresh node before `head`. */
    method Prepend(value: T)
      requires Valid()
      modifies Repr
      ensures Valid() && fresh(Repr - old(Repr))
      ensures Contents == [value] + old(Contents)
      ensures size == old(size) + 1
    {
      var newNode := new ListNode(value);
      if head == null {
        head := newNode;
        tail := newNode;
      } else {
        newNode.next := head;
        head := newNode;
      }
      size := size + 1;
      nodes := [newNode] + nodes;
      Contents := [value] + Contents;
      Repr := Repr + {newNode};
    }

    /** Unlinks the first node and returns its value; `None` on an empty list. */
    method DeleteHead() returns (r: Option<T>)
      requires Valid()
      modifies this
      ensures Valid() && Repr == old(Repr)
      ensures old(Contents) == [] ==> r == None && Contents == [] && size == 0
      ensures old(Contents) != [] ==>
        r == Some(old(Contents)[0]) && Contents == old(Contents)[1..] && size == old(size) - 1
    {
      if head == null {
        return None;
      }
      var deletedHeadValue := head.value;
      head := head.next;
      if head == null {
        tail := null;
      }
      size := size - 1;
      nodes := nodes[1..];
      Contents := Contents[1..];
      r := Some(deletedHeadValue);
    }

    function PeekHead(): (r: Option<T>)
      reads this, Repr
      requires Valid()
      ensures r == if Contents == [] then None else Some(Contents[0])
    {
      if head == null then None else Some(head.value)
    }

    /** The first node holding `value`, or null when no node does. */
    method Find(value: T) returns (r: ListNode?<T>)
      requires Valid()
      ensures r == null <==> value !in Contents
      ensures r != null ==>
        exists i :: 0 <= i < |nodes| && r == nodes[i] && Contents[i] == value && value !in Contents[..i]
    {
      var currentNode := head;
      ghost var k := 0;
      while currentNode != null
        invariant 0 <= k <= |nodes|
        invariant currentNode == if k == |nodes| then null else nodes[k]
        invariant value !in Contents[..k]
        decreases |nodes| - k
      {
        if currentNode.value == value {
          return currentNode;
        }
        assert Contents[..k + 1] == Contents[..k] + [Contents[k]];
        currentNode := currentNode.next;
        k := k + 1;
      }
      assert Contents[..k] == Contents;
      return null;
    }

    /**
     * Unlinks the first node holding `value`, re-pointing `tail` when that node
     * was the last one. As written, a match at the head returns the NEW head
     * (null when the list became empty) instead of the removed node.
     */
    method Delete(value: T) returns (r: ListNode?<T>)
      requires Valid()
      modifies Repr
      ensures Valid() && Repr == old(Repr)
      ensures Contents == RemoveFirst(old(Contents), value)
      ensures size == |Contents|
      ensures old(Contents) == [] ==> r == null
      ensures old(Contents) != [] && old(Contents)[0] == value ==>
        r == head && (r == null <==> Contents == []) && (r != null ==> r.value == Contents[0])
      ensures old(Contents) != [] && old(Contents)[0] != value ==>
        (r == null <==> value !in old(Contents)) && (r != null ==> r.value == value)
    {
      if head == null {
        return null;
      }
      if head.value == value {
        var _ := DeleteHead();
        return head;
      }
      r := DeleteAfterHead(value);
    }

    /**
     * The same removal, but returning the removed node itself, as the comment
     * on `delete` promises: null exactly when `value` was absent.
     */
    method DeleteReturningRemoved(value: T) returns (r: ListNode?<T>)
      requires Valid()
      modifies Repr
      ensures Valid() && Repr == old(Repr)
      ensures Contents == RemoveFirst(old(Contents), value)
      ensures size == |Contents|
      ensures r == null <==> value !in old(Contents)
      ensures r != null ==> r.value == value
    {
      if head == null {
        return null;
      }
      if head.value == value {
        r := head;
        var _ := DeleteHead();
        return r;
      }
      r := DeleteAfterHead(value);
    }

    /** The scan of `delete` past a head that does not match. */
    method DeleteAfterHead(value: T) returns (r: ListNode?<T>)
      requires Valid() && Contents != [] && Contents[0] != value
      modifies Repr
      ensures Valid() && Repr == old(Repr)
      ensures Contents == RemoveFirst(old(Contents), value)
      ensures size == |Contents|
      ensures r == null <==> value !in old(Contents)
      ensures r != null ==> r.value == value
    {
      var currentNode := head;
      ghost var k := 0;
      while currentNode.next != null
        invariant 0 <= k < |nodes| && currentNode == nodes[k]
        invariant currentNode.next == if k + 1 < |nodes| then nodes[k + 1] else null
        invariant value !in Contents[..k + 1]
        invariant Valid() && Repr == old(Repr) && Contents == old(Contents)
        decreases |nodes| - k
      {
        if currentNode.next.value == value {
          var deletedNode := currentNode.next;
          RemoveFirstAt(Contents, value, k + 1);
          UnlinkAfter(currentNode, k);
          return deletedNode;
        }
        assert Contents[..k + 2] == Contents[..k + 1] + [Contents[k + 1]];
        currentNode := currentNode.next;
        k := k + 1;
      }
      assert Contents[..k + 1] == Contents;
      return null;
    }

    /** Bypasses the node after `nodes[k]`, re-pointing `tail` if it was the last one. */
    method UnlinkAfter(currentNode: ListNode<T>, ghost k: nat)
      requires Valid() && k + 1 < |nodes| && currentNode == nodes[k]
      modifies this, currentNode
      ensures Valid() && Repr == old(Repr)
      ensures nodes == old(nodes[..k + 1] + nodes[k + 2..])
      ensures Contents == old(Contents[..k + 1] + Contents[k + 2..])
    {
      DistinctWithout(nodes, k + 1);
      ghost var ns := nodes;
      assert currentNode.next == ns[k + 1];
      assert k + 2 < |ns| ==> ns[k + 1].next == ns[k + 2];
      currentNode.next := currentNode.next.next;
      if currentNode.next == null {
        tail := currentNode;
      }
      size := size - 1;
      nodes := nodes[..k + 1] + nodes[k + 2..];
      assert forall i :: 0 <= i < |nodes| ==> nodes[i] == ns[if i <= k then i else i + 1];
      Contents := Contents[..k + 1] + Contents[k + 2..];
      assert forall i :: 0 <= i < |nodes| ==> nodes[i].value == Contents[i];
      assert forall i :: 0 <= i < |nodes| - 1 ==> nodes[i].next == nodes[i + 1] by {
        forall i | 0 <= i < |nodes| - 1
          ensures nodes[i].next == nodes[i + 1]
        {
          if i < k {
            assert nodes[i] == ns[i] != currentNode && nodes[i + 1] == ns[i + 1];
            assert old(ns[i].next) == ns[i + 1];
          } else if i > k {
            assert nodes[i] == ns[i + 1] != currentNode && nodes[i + 1] == ns[i + 2];
            assert old(ns[i + 1].next) == ns[i + 2];
          }
        }
      }
    }

    /** The values from head to tail. */
    method ToArray() returns (r: seq<T>)
      requires Valid()
      ensures r == Contents
    {
      r := [];
      var currentNode := head;
      ghost var k := 0;
      while currentNode != null
        invariant 0 <= k <= |nodes|
        invariant currentNode == if k == |nodes| then null else nodes[k]
        invariant r == Contents[..k]
        decreases |nodes| - k
      {
        r := r + [currentNode.value];
        currentNode := currentNode.next;
        k := k + 1;
      }
    }

    function GetSize(): (r: nat)
      reads this, Repr
      requires Valid()
      ensures r == |Contents|
    {
      size
    }

    function IsEmpty(): (r: bool)
      reads this, Repr
      requires Valid()
      ensures r <==> Contents == []
    {
      size == 0
    }
  }

  /** The tests of a new list: it is empty and its size is 0. */
  method NewListScenario() returns (empty: bool, size: nat)
    ensures empty && size == 0
  {
    var list := new LinkedList<int>();
    empty := list.IsEmpty();
    size := list.GetSize();
  }

  /** The append test: after 10 and 20 the list has two nodes, 10 at the head and 20 at the tail. */
  method AppendScenario() returns (size: nat, first: int, last: int)
    ensures size == 2 && first == 10 && last == 20
  {
    var list := new LinkedList<int>();
    list.Append(10);
    list.Append(20);
    size := list.GetSize();
    first := list.head.value;
    last := list.tail.value;
  }

  /** The prepend test: after 10 and 20 the list has two nodes, 20 at the head and 10 at the tail. */
  method PrependScenario() returns (size: nat, first: int, last: int)
    ensures size == 2 && first == 20 && last == 10
  {
    var list := new LinkedList<int>();
    list.Prepend(10);
    list.Prepend(20);
    size := list.GetSize();
    first := list.head.value;
    last := list.tail.value;
  }

  /** The `toArray` test: 10, 20, 30 appended come back in that order. */
  method ToArrayScenario() returns (values: seq<int>)
    ensures values == [10, 20, 30]
  {
    var list := new LinkedList<int>();
    list.Append(10);
    list.Append(20);
    list.Append(30);
    values := list.ToArray();
  }

  /**
   * The `deleteHead` and `peekHead` tests on 10, 20: peeking gives 10 and
   * keeps both values; deleting the head gives 10 and leaves 20 alone at the head.
   */
  method HeadScenario() returns (peeked: Option<int>, kept: nat, deleted: Option<int>, left: nat, first: int)
    ensures peeked == Some(10) && kept == 2
    ensures deleted == Some(10) && left == 1 && first == 20
  {
    var list := new LinkedList<int>();
    list.Append(10);
    list.Append(20);
    peeked := list.PeekHead();
    kept := list.GetSize();
    deleted := list.DeleteHead();
    left := list.GetSize();
    first := list.head.value;
  }

  /**
   * `delete` as written, on a match at the head: from [10] it answers null
   * although 10 was present, and from [10, 20] it answers the node holding 20.
   */
  method DeleteHeadAsWritten() returns (sole: ListNode?<int>, pair: ListNode?<int>)
    ensures sole == null
    ensures pair != null && pair.value == 20
  {
    var one := new LinkedList<int>();
    one.Append(10);
    sole := one.Delete(10);
    var two := new LinkedList<int>();
    two.Append(10);
    two.Append(20);
    pair := two.Delete(10);
  }

  /** The corrected removal on the same two lists answers the removed node both times. */
  method DeleteHeadCorrected() returns (sole: ListNode?<int>, pair: ListNode?<int>)
    ensures sole != null && sole.value == 10
    ensures pair != null && pair.value == 10
  {
    var one := new LinkedList<int>();
    one.Append(10);
    sole := one.DeleteReturningRemoved(10);
    var two := new LinkedList<int>();
    two.Append(10);
    two.Append(20);
    pair := two.DeleteReturningRemoved(10);
  }
}
