/**
 * Deep priority queues (src/deepqueues.c): the same sorted chain as the
 * shallow queue, but every node owns a copy of `size` bytes of the object it
 * was given, so the queue keeps its elements after the caller's objects
 * change or go away.
 *
 * Objects are byte strings and a node's copy is a byte string of the queue's
 * element size; `staleTail` is as in the shallow queue.
 */
module DeepQueues {
  import opened Wrappers
  import opened Orders
  import opened Visits

  /** An object as the deep containers see it: its bytes. */
  type Bytes = seq<bv8>

  /** Every element of `s` is `n` bytes long. */
  ghost predicate Sized(s: seq<Bytes>, n: nat)
  {
    forall i :: 0 <= i < |s| ==> |s[i]| == n
  }

  /** Inserting an `n`-byte element into `n`-byte elements keeps them all `n` bytes. */
  lemma SizedInsert(cmp: (Bytes, Bytes) -> int, s: seq<Bytes>, x: Bytes, n: nat)
    requires Sized(s, n) && |x| == n
    ensures Sized(InsertSorted(cmp, s, x), n)
  {
    InsertSortedFrom(cmp, s, x);
  }

  /** Removing keeps every remaining element `n` bytes long. */
  lemma SizedRemove(cmp: (Bytes, Bytes) -> int, s: seq<Bytes>, x: Bytes, n: nat)
    requires Sized(s, n)
    ensures Sized(RemoveSorted(cmp, s, x), n)
  {
    var k := Rank(cmp, s, x);
    if k < |s| && cmp(x, s[k]) == 0 {
      var t := RemoveSorted(cmp, s, x);
      assert forall i :: 0 <= i < k ==> t[i] == s[i];
      assert forall i :: k <= i < |t| ==> t[i] == s[i + 1];
    }
  }

  class DQueue {
    /** The user's comparator. */
    const cmp: (Bytes, Bytes) -> int
    /** The byte size of every element, fixed when the queue is created. */
    const size: nat
    /** The elements from head to tail. */
    var nodes: seq<Bytes>
    /** The element counter the C structure keeps. */
    var nmems: nat
    /** The tail pointer is left pointing at a freed node (see the module comment). */
    var staleTail: bool

    ghost predicate Valid()
      reads this
    {
      TotalOrder(cmp) && Sorted(cmp, nodes) && nmems == |nodes| && (staleTail ==> nodes == [])
      && Sized(nodes, size)
    }

    /** An empty queue over `cmp` whose elements are `size` bytes long. */
    constructor (cmp: (Bytes, Bytes) -> int, size: nat)
      requires TotalOrder(cmp)
      ensures Valid() && this.cmp == cmp && this.size == size && nodes == [] && !staleTail
    {
      this.cmp := cmp;
      this.size := size;
      nodes := [];
      nmems := 0;
      staleTail := false;
    }

    /** The number of elements, read from the counter. */
    function Size(): (n: nat)
      reads this
      requires Valid()
      ensures n == |nodes|
    {
      nmems
    }

    /**
     * Link a copy of the `size` bytes of `x` in at its rank, unless an equal
     * element is already present: the tail is tried first, then the head, then
     * the body from the head on.
     */
    method Enqueue(x: Bytes)
      requires Valid() && |x| == size
      modifies this
      ensures Valid() && !staleTail
      ensures nodes == InsertSorted(cmp, old(nodes), x)
    {
      InsertSortedSorted(cmp, nodes, x);
      SizedInsert(cmp, nodes, x, size);
      ghost var t := InsertSorted(cmp, nodes, x);
      if nodes == [] {
        nodes := [x];
        assert nodes == t;
        nmems := 1;
        staleTail := false;
        return;
      }
      var s := nodes;
      var last := |s| - 1;
      var c := cmp(x, s[last]);
      RankAtTail(cmp, s, x);
      if c == 0 {
        return;
      } else if c == 1 {
        nodes := s + [x];
        assert nodes == t;
        nmems := nmems + 1;
        return;
      }
      c := cmp(x, s[0]);
      assert Laws(cmp, x, s[0], x);
      if c == -1 {
        RankIs(cmp, s, x, 0);
        nodes := [x] + s;
        assert nodes == t;
        nmems := nmems + 1;
        return;
      } else if c == 0 {
        RankIs(cmp, s, x, 0);
        return;
      }
      var i := 0;
      while i + 1 < |s|
        invariant 0 <= i < |s| && nodes == s && nmems == |s|
        invariant forall j :: 0 <= j <= i ==> cmp(x, s[j]) == 1
        decreases |s| - i
      {
        c := cmp(x, s[i + 1]);
        if c == -1 {
          RankIs(cmp, s, x, i + 1);
          nodes := s[..i + 1] + [x] + s[i + 1..];
          assert nodes == t;
          nmems := nmems + 1;
          return;
        } else if c == 0 {
          RankIs(cmp, s, x, i + 1);
          return;
        }
        assert Laws(cmp, x, s[i + 1], x);
        i := i + 1;
      }
      // The tail compared greater than `x`, so the body scan always stops at it.
      assert false;
    }

    /** Unlink and return the head, or None when the queue is empty. */
    method DequeueFront() returns (r: Option<Bytes>)
      requires Valid()
      modifies this
      ensures Valid() && staleTail == old(staleTail)
      ensures old(nodes) == [] ==> r == None && nodes == []
      ensures old(nodes) != [] ==> r == Some(old(nodes)[0]) && nodes == old(nodes)[1..]
    {
      if nodes == [] {
        return None;
      }
      r := Some(nodes[0]);
      nodes := nodes[1..];
      nmems := nmems - 1;
    }

    /** Unlink and return the tail, or None when the queue is empty. */
    method DequeueBack() returns (r: Option<Bytes>)
      requires Valid() && !staleTail
      modifies this
      ensures Valid() && !staleTail
      ensures old(nodes) == [] ==> r == None && nodes == []
      ensures old(nodes) != [] ==>
        r == Some(old(nodes)[|old(nodes)| - 1]) && nodes == old(nodes)[..|old(nodes)| - 1]
    {
      if nodes == [] {
        return None;
      }
      r := Some(nodes[|nodes| - 1]);
      nodes := nodes[..|nodes| - 1];
      nmems := nmems - 1;
    }
  }

  /** The stored copy equal to `x`; a NULL queue holds nothing. */
  method Find(q: DQueue?, x: Bytes) returns (r: Option<Bytes>)
    requires q != null ==> q.Valid()
    ensures r == if q == null then None else FindSorted(q.cmp, q.nodes, x)
  {
    if q == null {
      return None;
    }
    var i := 0;
    while i < |q.nodes|
      invariant 0 <= i <= |q.nodes|
      invariant forall j :: 0 <= j < i ==> q.cmp(x, q.nodes[j]) == 1
    {
      var c := q.cmp(x, q.nodes[i]);
      if c == -1 {
        RankIs(q.cmp, q.nodes, x, i);
        return None;
      } else if c == 0 {
        RankIs(q.cmp, q.nodes, x, i);
        return Some(q.nodes[i]);
      }
      assert Laws(q.cmp, x, q.nodes[i], x);
      i := i + 1;
    }
    RankIs(q.cmp, q.nodes, x, i);
    return None;
  }

  /**
   * Unlink and return the stored copy equal to `x`, trying the head, then
   * the tail, then the body. Taking out the only element through the head
   * branch leaves the tail pointer stale.
   */
  method Remove(q: DQueue?, x: Bytes) returns (r: Option<Bytes>)
    requires q != null ==> q.Valid()
    modifies q
    ensures q == null ==> r == None
    ensures q != null ==> q.Valid()
    ensures q != null ==> r == FindSorted(q.cmp, old(q.nodes), x)
    ensures q != null ==> q.nodes == RemoveSorted(q.cmp, old(q.nodes), x)
    ensures q != null ==> q.staleTail == (old(q.staleTail) || (|old(q.nodes)| == 1 && r.Some?))
  {
    if q == null || q.nodes == [] {
      return None;
    }
    var s, cmp := q.nodes, q.cmp;
    var last := |s| - 1;
    var k;
    var c := cmp(x, s[0]);
    assert Laws(cmp, x, s[0], x);
    if c == -1 {
      RankIs(cmp, s, x, 0);
      return None;
    } else if c == 0 {
      RankIs(cmp, s, x, 0);
      k := 0;
    } else {
      c := cmp(x, s[last]);
      RankAtTail(cmp, s, x);
      if c == 0 {
        k := last;
      } else if c == 1 {
        return None;
      } else {
        k := 1;
        while k != last
          invariant 1 <= k <= last
          invariant forall j :: 0 <= j < k ==> cmp(x, s[j]) == 1
          decreases last - k
        {
          c := cmp(x, s[k]);
          if c == -1 {
            RankIs(cmp, s, x, k);
            return None;
          } else if c == 0 {
            break;
          }
          assert Laws(cmp, x, s[k], x);
          k := k + 1;
        }
        RankIs(cmp, s, x, k);
        if k == last {
          return None;
        }
      }
    }
    // Unlink the node at position k; the head branch on a one-node queue
    // leaves the tail pointer behind.
    assert k < |s| && Rank(cmp, s, x) == k && cmp(x, s[k]) == 0;
    RemoveSortedSorted(cmp, s, x);
    SizedRemove(cmp, s, x, q.size);
    if k == 0 && last == 0 {
      q.staleTail := true;
    }
    assert RemoveSorted(cmp, s, x) == s[..k] + s[k + 1..];
    q.nodes := s[..k] + s[k + 1..];
    q.nmems := q.nmems - 1;
    return Some(s[k]);
  }

  /** Visit the elements from head to tail; a NULL queue answers 1. */
  method Map<S>(q: DQueue?, apply: (S, Bytes) -> (S, int), st: S) returns (r: Outcome<S>)
    ensures r == if q == null then Outcome(1, st) else Traverse(apply, q.nodes, st)
  {
    if q == null {
      return Outcome(1, st);
    }
    var i := 0;
    var cur := st;
    while i < |q.nodes|
      invariant 0 <= i <= |q.nodes|
      invariant Traverse(apply, q.nodes, st) == Traverse(apply, q.nodes[i..], cur)
    {
      assert q.nodes[i..][1..] == q.nodes[i + 1..];
      var (next, v) := apply(cur, q.nodes[i]);
      if v < 0 {
        return Outcome(-1, next);
      }
      cur := next;
      i := i + 1;
    }
    return Outcome(1, cur);
  }
}
