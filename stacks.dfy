/**
 * Linked stacks (src/stacks.c): a singly linked chain of element references
 * from the top down, with an element counter.
 *
 * The chain is modelled by the sequence of its elements from the top (the
 * head node) to the bottom.
 */
module Stacks {
  import opened Visits

  class Stack<T> {
    /** The elements from top to bottom. */
    var items: seq<T>
    /** The element counter the C structure keeps. */
    var size: nat

    ghost predicate Valid()
      reads this
    {
      size == |items|
    }

    /** An empty stack. */
    constructor ()
      ensures Valid() && items == []
    {
      items := [];
      size := 0;
    }

    /** Link `x` in as the new top. */
    method Push(x: T)
      requires Valid()
      modifies this
      ensures Valid() && items == [x] + old(items)
    {
      items := [x] + items;
      size := size + 1;
    }

    /** Unlink the top and return it; the source does not check for an empty stack. */
    method Pop() returns (x: T)
      requires Valid() && items != []
      modifies this
      ensures Valid() && x == old(items)[0] && items == old(items)[1..]
    {
      x := items[0];
      items := items[1..];
      size := size - 1;
    }

    /** Whether the counter is 0. */
    function Empty(): (b: bool)
      reads this
      requires Valid()
      ensures b <==> items == []
    {
      size == 0
    }

    /** The number of elements, read from the counter. */
    function Size(): (n: nat)
      reads this
      requires Valid()
      ensures n == |items|
    {
      size
    }
  }

  /** Visit the elements from top to bottom; a NULL stack answers 1. */
  method Map<T, S>(s: Stack?<T>, apply: (S, T) -> (S, int), st: S) returns (r: Outcome<S>)
    ensures r == if s == null then Outcome(1, st) else Traverse(apply, s.items, st)
  {
    if s == null {
      return Outcome(1, st);
    }
    var i := 0;
    var cur := st;
    while i < |s.items|
      invariant 0 <= i <= |s.items|
      invariant Traverse(apply, s.items, st) == Traverse(apply, s.items[i..], cur)
    {
      assert s.items[i..][1..] == s.items[i + 1..];
      var (next, v) := apply(cur, s.items[i]);
      if v < 0 {
        return Outcome(-1, next);
      }
      cur := next;
      i := i + 1;
    }
    return Outcome(1, cur);
  }

  /** A push followed by a pop returns the pushed element and restores the stack. */
  method PushPop<T>(s: Stack<T>, x: T) returns (y: T)
    requires s.Valid()
    modifies s
    ensures y == x && s.Valid() && s.items == old(s.items)
  {
    s.Push(x);
    y := s.Pop();
  }
}
