/**
 * Dynamic arrays (src/arrays.c): a buffer of `capacity` element slots of
 * `size` bytes each, of which the first `nmem` are in use.
 *
 * Elements are abstract values; copying `size` bytes of an object into a
 * slot stores its value and comparing bytes compares values. The C buffer is
 * NULL for capacity 0, which here is an array of length 0. Slots past `nmem`
 * hold whatever was there; the model gives them the type's default value.
 */
module Arrays {
  import opened Visits

  /** `arrays_dynpush`'s new capacity for a full array of `n` elements. */
  function Grow(n: nat): (c: nat)
    ensures c > n
    ensures n >= 2 ==> 2 * c <= 3 * n && 3 * n < 2 * c + 2
  {
    if n == 0 then 1 else if n == 1 then 2 else (3 * n) / 2
  }

  /** The smaller of two counts. */
  function Min(a: nat, b: nat): (m: nat)
    ensures m <= a && m <= b && (m == a || m == b)
  {
    if a < b then a else b
  }

  class DynArray<T(0)> {
    /** The byte size of an element. */
    const size: nat
    /** The number of slots of the buffer. */
    var capacity: nat
    /** The number of slots in use. */
    var nmem: nat
    /** The buffer. */
    var x: array<T>

    /** The buffer has `capacity` slots and the used ones fit in it. */
    ghost predicate Valid()
      reads this
    {
      x.Length == capacity && nmem <= capacity
    }

    /** The elements in use, first to last. */
    ghost function Contents(): seq<T>
      reads this, x
      requires Valid()
    {
      x[..nmem]
    }

    /** An empty array with room for `capacity` elements of `size` bytes. */
    constructor (size: nat, capacity: nat)
      ensures Valid() && fresh(x)
      ensures this.size == size && this.capacity == capacity && nmem == 0
      ensures Contents() == []
    {
      this.size := size;
      nmem := 0;
      this.capacity := capacity;
      x := new T[capacity];
    }

    /** The number of elements in use. */
    function Nmem(): (n: nat)
      reads this, x
      requires Valid()
      ensures n == |Contents()|
    {
      nmem
    }

    /** The number of slots. */
    function Capacity(): (n: nat)
      reads this
      requires Valid()
      ensures n == x.Length && n >= nmem
    {
      capacity
    }

    /** The byte size of an element. */
    function Size(): (n: nat)
      ensures n == size
    {
      size
    }

    /** Slot `i`, which is element `i` when `i` is below `nmem`; the source does not check `i`. */
    method At(i: nat) returns (r: T)
      requires Valid() && i < capacity
      ensures i < nmem ==> r == Contents()[i]
      ensures r == x[i]
    {
      r := x[i];
    }

    /**
     * Copy `e` into the next slot; a full array answers -1 and does not
     * change.
     */
    method Push(e: T) returns (r: int)
      requires Valid()
      modifies x, `nmem
      ensures Valid() && x == old(x) && capacity == old(capacity)
      ensures old(nmem) == capacity ==> r == -1 && Contents() == old(Contents())
      ensures old(nmem) < capacity ==> r == 1 && Contents() == old(Contents()) + [e]
    {
      if nmem == capacity {
        return -1;
      }
      x[nmem] := e;
      nmem := nmem + 1;
      return 1;
    }

    /**
     * Set the capacity to `n`, keeping the slots below both capacities, and
     * leave `nmem` as it is: shrinking below `nmem` leaves an array whose
     * used slots do not fit its buffer.
     */
    method Resize(n: nat)
      modifies this
      ensures capacity == n && x.Length == n && fresh(x)
      ensures nmem == old(nmem)
      ensures x[..Min(n, old(x.Length))] == old(x[..Min(n, x.Length)])
      ensures Valid() <==> nmem <= n
    {
      capacity := n;
      var keep := Min(n, x.Length);
      var tmp := new T[n];
      forall k | 0 <= k < keep {
        tmp[k] := x[k];
      }
      x := tmp;
    }

    /** Copy `e` into the next slot, growing a full array first. */
    method DynPush(e: T)
      requires Valid()
      modifies this, x
      ensures Valid()
      ensures Contents() == old(Contents()) + [e]
      ensures capacity == if old(nmem) == old(capacity) then Grow(old(nmem)) else old(capacity)
    {
      if nmem == capacity {
        var n := Grow(nmem);
        Resize(n);
      }
      x[nmem] := e;
      nmem := nmem + 1;
    }

    /** Visit the elements in index order; -1 at the first negative answer, else 1. */
    method Map<S>(apply: (S, T) -> (S, int), st: S) returns (r: Outcome<S>)
      requires Valid()
      ensures r == Traverse(apply, Contents(), st)
    {
      var cur := st;
      var i := 0;
      while i < nmem
        invariant 0 <= i <= nmem
        invariant Traverse(apply, x[..i], st) == Outcome(1, cur)
      {
        var (st', v) := apply(cur, x[i]);
        TraverseAppend(apply, x[..i], [x[i]], st);
        assert x[..i] + [x[i]] == x[..i + 1];
        if v < 0 {
          assert x[..nmem] == x[..i + 1] + x[i + 1..nmem];
          TraverseAppend(apply, x[..i + 1], x[i + 1..nmem], st);
          return Outcome(-1, st');
        }
        cur := st';
        i := i + 1;
      }
      return Outcome(1, cur);
    }
  }

  /**
   * 1 when both arrays have the same element size and equal elements in
   * use, else -1.
   */
  method Equal<T(0, ==)>(a1: DynArray<T>, a2: DynArray<T>) returns (r: int)
    requires a1.Valid() && a2.Valid()
    ensures r == 1 <==> a1.size == a2.size && a1.Contents() == a2.Contents()
    ensures r == 1 || r == -1
  {
    if a1.nmem != a2.nmem || a1.size != a2.size {
      return -1;
    }
    var i := 0;
    while i < a1.nmem
      invariant 0 <= i <= a1.nmem
      invariant a1.x[..i] == a2.x[..i]
    {
      if a1.x[i] != a2.x[i] {
        assert a1.Contents()[i] != a2.Contents()[i];
        return -1;
      }
      i := i + 1;
    }
    return 1;
  }

  /** Drop the elements from index `n` on; a NULL array or an `n` not below `nmem` changes nothing. */
  method Reindex<T(0)>(a: DynArray?<T>, n: nat)
    requires a != null ==> a.Valid()
    modifies a
    ensures a != null ==> a.Valid() && a.x == old(a.x) && a.capacity == old(a.capacity)
    ensures a != null ==> a.Contents() == old(a.Contents())[..Min(n, old(a.nmem))]
  {
    if a == null || n >= a.nmem {
      return;
    }
    a.nmem := n;
  }
}
