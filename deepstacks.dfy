/**
 * Deep stacks (src/deepstacks.c): a linked stack whose nodes own a copy of
 * `size` bytes of the object pushed, with an element counter `nmems`.
 *
 * Objects are byte strings; pushing an object copies its first `size` bytes.
 * Popping hands the node's copy to the caller.
 */
module DeepStacks {
  import opened Visits
  import opened DeepQueues

  class DStack {
    /** The byte size of every element, fixed when the stack is created. */
    const size: nat
    /** The copies from top to bottom. */
    var items: seq<Bytes>
    /** The element counter the C structure keeps. */
    var nmems: nat

    ghost predicate Valid()
      reads this
    {
      nmems == |items| && Sized(items, size)
    }

    /** An empty stack of `size`-byte elements. */
    constructor (size: nat)
      ensures Valid() && this.size == size && items == []
    {
      this.size := size;
      items := [];
      nmems := 0;
    }

    /** Link a copy of the first `size` bytes of `x` in as the new top. */
    method Push(x: Bytes)
      requires Valid() && |x| >= size
      modifies this
      ensures Valid() && items == [x[..size]] + old(items)
    {
      items := [x[..size]] + items;
      nmems := nmems + 1;
    }

    /** Unlink the top and return its copy; the source does not check for an empty stack. */
    method Pop() returns (x: Bytes)
      requires Valid() && items != []
      modifies this
      ensures Valid() && x == old(items)[0] && |x| == size && items == old(items)[1..]
    {
      x := items[0];
      items := items[1..];
      nmems := nmems - 1;
    }

    /** Whether the counter is 0. */
    function Empty(): (b: bool)
      reads this
      requires Valid()
      ensures b <==> items == []
    {
      nmems == 0
    }

    /** The number of elements, read from the counter. */
    function Size(): (n: nat)
      reads this
      requires Valid()
      ensures n == |items|
    {
      nmems
    }
  }

  /** Visit the copies from top to bottom; a NULL stack answers 1. */
  method Map<S>(s: DStack?, apply: (S, Bytes) -> (S, int), st: S) returns (r: Outcome<S>)
    ensures r == if s == null then Outcome(1, st) else Traverse(apply, s.items, st)
  {
    if s == null {
      return Outcome(1, st);
    }
    var i := 0;
    var cur := st;
    while i < |s.items|
      invariant 0 <= i <= |s.items|
      invariant Traverse(apply, s.items, st) == Traverse(apply, s.items[i..], cur)
    {
      assert s.items[i..][1..] == s.items[i + 1..];
      var (next, v) := apply(cur, s.items[i]);
      if v < 0 {
        return Outcome(-1, next);
      }
      cur := next;
      i := i + 1;
    }
    return Outcome(1, cur);
  }

  /**
   * A push followed by a pop returns the pushed object's first `size` bytes
   * and restores the stack.
   */
  method PushPop(s: DStack, x: Bytes) returns (y: Bytes)
    requires s.Valid() && |x| >= s.size
    modifies s
    ensures y == x[..s.size] && s.Valid() && s.items == old(s.items)
  {
    s.Push(x);
    y := s.Pop();
  }
}
