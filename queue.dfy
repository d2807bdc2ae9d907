/**
 * A FIFO queue that keeps all of its state in a linked list (src/queue.ts):
 * enqueue appends at the tail, dequeue removes the head.
 */
module Queues {
  import opened Wrappers
  import opened LinkedLists

  class Queue<T(==)> {
    var list: LinkedList<T>
    ghost var Repr: set<object>

    ghost predicate Valid()
      reads this, Repr
    {
      this in Repr && list in Repr && list.Repr <= Repr && this !in list.Repr && list.Valid()
    }

    /** The queued values, oldest first. */
    ghost function Contents(): seq<T>
      reads this, list
    {
      list.Contents
    }

    constructor ()
      ensures Valid() && fresh(Repr)
      ensures Contents() == []
    {
      list := new LinkedList<T>();
      new;
      Repr := {this} + list.Repr;
    }

    method Enqueue(value: T)
      requires Valid()
      modifies Repr
      ensures Valid() && fresh(Repr - old(Repr))
      ensures Contents() == old(Contents()) + [value]
    {
      list.Append(value);
      Repr := Repr + list.Repr;
    }

    /** Removes and returns the oldest value; `None`, with nothing changed, when empty. */
    method Dequeue() returns (r: Option<T>)
      requires Valid()
      modifies Repr
      ensures Valid() && Repr == old(Repr)
      ensures old(Contents()) == [] ==> r == None && Contents() == []
      ensures old(Contents()) != [] ==> r == Some(old(Contents())[0]) && Contents() == old(Contents())[1..]
    {
      r := list.DeleteHead();
    }

    function Peek(): (r: Option<T>)
      reads this, Repr
      requires Valid()
      ensures r == if Contents() == [] then None else Some(Contents()[0])
    {
      list.PeekHead()
    }

    function IsEmpty(): (r: bool)
      reads this, Repr
      requires Valid()
      ensures r <==> Contents() == []
      ensures r <==> GetSize() == 0
    {
      list.IsEmpty()
    }

    function GetSize(): (r: nat)
      reads this, Repr
      requires Valid()
      ensures r == |Contents()|
    {
      list.GetSize()
    }
  }

  /** A queue holding 'a', 'b' and 'c', enqueued in that order. */
  method SampleQueue() returns (q: Queue<char>)
    ensures q.Valid() && fresh(q.Repr) && q.Contents() == "abc"
  {
    q := new Queue<char>();
    q.Enqueue('a');
    q.Enqueue('b');
    q.Enqueue('c');
  }

  /** The FIFO test: after 'a', 'b', 'c', two dequeues give 'a' then 'b' and leave one value; a new queue dequeues `None`. */
  method FifoExample() returns (first: Option<char>, second: Option<char>, left: nat, onEmpty: Option<char>)
    ensures first == Some('a') && second == Some('b') && left == 1
    ensures onEmpty == None
  {
    var q := SampleQueue();
    first := q.Dequeue();
    second := q.Dequeue();
    left := q.GetSize();
    var empty := new Queue<char>();
    onEmpty := empty.Dequeue();
  }

  /**
   * The emptiness, enqueue and peek tests: a new queue is empty with size 0
   * and peeks `None`; after 'a' and 'b' it holds two values and peeks 'a'
   * without removing it.
   */
  method PeekExample() returns (empty: bool, zero: nat, peekEmpty: Option<char>, front: Option<char>, two: nat)
    ensures empty && zero == 0 && peekEmpty == None
    ensures front == Some('a') && two == 2
  {
    var q := new Queue<char>();
    empty := q.IsEmpty();
    zero := q.GetSize();
    peekEmpty := q.Peek();
    q.Enqueue('a');
    q.Enqueue('b');
    front := q.Peek();
    two := q.GetSize();
  }
}
