/**
 * A LIFO stack that keeps all of its state in a linked list (src/stack.ts):
 * push prepends at the head, pop removes the head.
 */
module Stacks {
  import opened Wrappers
  import opened LinkedLists

  class Stack<T(==)> {
    var list: LinkedList<T>
    ghost var Repr: set<object>

    ghost predicate Valid()
      reads this, Repr
    {
      this in Repr && list in Repr && list.Repr <= Repr && this !in list.Repr && list.Valid()
    }

    /** The stacked values, top first. */
    ghost function Contents(): seq<T>
      reads this, list
    {
      list.Contents
    }

    constructor ()
      ensures Valid() && fresh(Repr)
      ensures Contents() == []
    {
      list := new LinkedList<T>();
      new;
      Repr := {this} + list.Repr;
    }

    method Push(value: T)
      requires Valid()
      modifies Repr
      ensures Valid() && fresh(Repr - old(Repr))
      ensures Contents() == [value] + old(Contents())
    {
      list.Prepend(value);
      Repr := Repr + list.Repr;
    }

    /** Removes and returns the most recently pushed value; `None`, with nothing changed, when empty. */
    method Pop() returns (r: Option<T>)
      requires Valid()
      modifies Repr
      ensures Valid() && Repr == old(Repr)
      ensures old(Contents()) == [] ==> r == None && Contents() == []
      ensures old(Contents()) != [] ==> r == Some(old(Contents())[0]) && Contents() == old(Contents())[1..]
    {
      r := list.DeleteHead();
    }

    function Peek(): (r: Option<T>)
      reads this, Repr
      requires Valid()
      ensures r == if Contents() == [] then None else Some(Contents()[0])
    {
      list.PeekHead()
    }

    function IsEmpty(): (r: bool)
      reads this, Repr
      requires Valid()
      ensures r <==> Contents() == []
      ensures r <==> GetSize() == 0
    {
      list.IsEmpty()
    }

    function GetSize(): (r: nat)
      reads this, Repr
      requires Valid()
      ensures r == |Contents()|
    {
      list.GetSize()
    }
  }

  /** The LIFO test: after 10 and 20, pops give 20 then 10; and a new stack pops `None`. */
  method LifoExample() returns (first: Option<int>, second: Option<int>, onEmpty: Option<int>)
    ensures first == Some(20) && second == Some(10) && onEmpty == None
  {
    var s := new Stack<int>();
    s.Push(10);
    s.Push(20);
    first := s.Pop();
    second := s.Pop();
    var empty := new Stack<int>();
    onEmpty := empty.Pop();
  }

  /** The peek test: after 30 and 40, peek sees 40 and both values stay. */
  method PeekExample() returns (top: Option<int>, size: nat)
    ensures top == Some(40) && size == 2
  {
    var s := new Stack<int>();
    s.Push(30);
    s.Push(40);
    top := s.Peek();
    size := s.GetSize();
  }

  /** The emptiness and size tests, and peeking at a new stack. */
  method SizeExample() returns (newEmpty: bool, nonEmpty: bool, zero: nat, two: nat, peekEmpty: Option<int>)
    ensures newEmpty && !nonEmpty && zero == 0 && two == 2 && peekEmpty == None
  {
    var s := new Stack<int>();
    newEmpty := s.IsEmpty();
    zero := s.GetSize();
    peekEmpty := s.Peek();
    s.Push(1);
    nonEmpty := s.IsEmpty();
    s.Push(2);
    two := s.GetSize();
  }
}
