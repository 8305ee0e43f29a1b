/**
 * Fixed-capacity stacks (include/staticstacks.h): a buffer with room for
 * `capacity + 1` elements of `size` bytes, a count `nmem`, and a `top`
 * pointer one past the last element.
 *
 * The buffer is an array of element slots; `top` is kept as its byte offset
 * from the start of the buffer, which is `nmem * size`. Popping returns the
 * value in the slot the C macro hands out a pointer to.
 */
module StaticStacks {
  class SStack<T(0)> {
    /** The byte size of every element. */
    const size: nat
    /** The most elements the stack is meant to hold. */
    const capacity: nat
    /** The buffer, one slot larger than the capacity as the source allocates it. */
    const x: array<T>
    /** The number of elements on the stack. */
    var nmem: nat
    /** The byte offset of `top` from `x`. */
    var top: nat

    ghost predicate Valid()
      reads this
    {
      x.Length == capacity + 1 && nmem <= capacity && top == nmem * size
    }

    /** The elements from the bottom up. */
    ghost function Contents(): seq<T>
      reads this, x
      requires Valid()
    {
      x[..nmem]
    }

    /** An empty stack for `capacity` elements of `size` bytes. */
    constructor (size: nat, capacity: nat)
      ensures Valid() && fresh(x)
      ensures this.size == size && this.capacity == capacity && Contents() == []
    {
      this.size := size;
      this.capacity := capacity;
      nmem := 0;
      x := new T[capacity + 1];
      top := 0;
    }

    /** Copy `e` to `top` and advance it; the source does not check the capacity. */
    method Push(e: T)
      requires Valid() && nmem < capacity
      modifies x, this
      ensures Valid() && Contents() == old(Contents()) + [e]
      ensures top == old(top) + size
    {
      x[nmem] := e;
      top := top + size;
      nmem := nmem + 1;
    }

    /** Move `top` back by one element and return that element; the source does not check for an empty stack. */
    method Pop() returns (e: T)
      requires Valid() && nmem > 0
      modifies this
      ensures Valid() && top == old(top) - size
      ensures e == old(Contents())[old(nmem) - 1] && Contents() == old(Contents())[..old(nmem) - 1]
    {
      nmem := nmem - 1;
      top := top - size;
      e := x[nmem];
    }

    /**
     * Whether `top` is at the start of the buffer. With elements of 0 bytes
     * `top` never moves, so such a stack always reads as empty.
     */
    function Empty(): (b: bool)
      reads this
      requires Valid()
      ensures b <==> nmem == 0 || size == 0
    {
      top == 0
    }

    /** The number of elements. */
    function Size(): (n: nat)
      reads this, x
      requires Valid()
      ensures n == |Contents()|
    {
      nmem
    }
  }

  /**
   * The library's own exercise of the stack: push 1, 2, 3, 4 onto a stack of
   * capacity 4 and pop until it reads as empty, which yields 4, 3, 2, 1.
   */
  method PushFourPopAll() returns (popped: seq<int>)
    ensures popped == [4, 3, 2, 1]
  {
    var s := new SStack<int>(4, 4);
    var val := [1, 2, 3, 4];
    var i := 0;
    while i < 4
      invariant 0 <= i <= 4 && s.Valid() && s.size == 4 && s.capacity == 4
      invariant s.Contents() == val[..i]
      modifies s, s.x
    {
      s.Push(val[i]);
      i := i + 1;
    }
    popped := [];
    while !s.Empty()
      invariant s.Valid() && s.size == 4
      invariant popped + Reverse(s.Contents()) == [4, 3, 2, 1]
      modifies s
      decreases s.nmem
    {
      var e := s.Pop();
      ReverseSnoc(s.Contents(), e);
      popped := popped + [e];
    }
  }

  /** The elements of `s` from last to first. */
  function Reverse<T>(s: seq<T>): (r: seq<T>)
    ensures |r| == |s|
    ensures forall i :: 0 <= i < |s| ==> r[i] == s[|s| - 1 - i]
  {
    if s == [] then [] else [s[|s| - 1]] + Reverse(s[..|s| - 1])
  }

  /** Reversing `s + [e]` puts `e` first. */
  lemma ReverseSnoc<T>(s: seq<T>, e: T)
    ensures Reverse(s + [e]) == [e] + Reverse(s)
  {
    assert (s + [e])[..|s|] == s;
  }
}
