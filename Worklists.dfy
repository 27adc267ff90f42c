/*
  The two worklists of the maze search (MazeWorld.java:25-64). Both keep their
  items in a double-ended queue and both remove from its front; they differ
  only in where `add` puts the new item: the Stack at the front (last in,
  first out), the Queue at the back (first in, first out). The deque is
  modelled as a sequence whose index 0 is its front.
*/
module Worklists {

  class Stack<T> {
    var contents: seq<T>

    constructor ()
      ensures contents == []
    {
      contents := [];
    }

    function IsEmpty(): (r: bool)
      reads this
      ensures r <==> contents == []
    {
      |contents| == 0
    }

    /** add: addFirst on the deque. */
    method Add(item: T)
      modifies this
      ensures contents == [item] + old(contents)
    {
      contents := [item] + contents;
    }

    /** remove: removeFirst on the deque, which the callers only reach when it is not empty. */
    method Remove() returns (item: T)
      requires contents != []
      modifies this
      ensures item == old(contents)[0] && contents == old(contents)[1..]
    {
      item := contents[0];
      contents := contents[1..];
    }
  }

  class Queue<T> {
    var contents: seq<T>

    constructor ()
      ensures contents == []
    {
      contents := [];
    }

    function IsEmpty(): (r: bool)
      reads this
      ensures r <==> contents == []
    {
      |contents| == 0
    }

    /** add: addLast on the deque. */
    method Add(item: T)
      modifies this
      ensures contents == old(contents) + [item]
    {
      contents := contents + [item];
    }

    /** remove: removeFirst on the deque, which the callers only reach when it is not empty. */
    method Remove() returns (item: T)
      requires contents != []
      modifies this
      ensures item == old(contents)[0] && contents == old(contents)[1..]
    {
      item := contents[0];
      contents := contents[1..];
    }
  }

  /** Last in, first out: removing right after adding gives back the added item and the old contents. */
  method StackIsLifo<T>(s: Stack<T>, item: T) returns (got: T)
    modifies s
    ensures got == item && s.contents == old(s.contents)
  {
    s.Add(item);
    got := s.Remove();
  }

  /** First in, first out: a non-empty queue gives back its oldest item, and the added one waits at the back. */
  method QueueIsFifo<T>(q: Queue<T>, item: T) returns (got: T)
    requires q.contents != []
    modifies q
    ensures got == old(q.contents[0]) && q.contents == old(q.contents[1..]) + [item]
  {
    q.Add(item);
    got := q.Remove();
  }

  /** On an empty queue the added item comes straight back out. */
  method EmptyQueueReturnsItem<T>(q: Queue<T>, item: T) returns (got: T)
    requires q.contents == []
    modifies q
    ensures got == item && q.contents == []
  {
    q.Add(item);
    got := q.Remove();
  }
}
