/**
 * Shallow chained hash tables (src/hashtabs.c): an array of optional queue
 * buckets whose length is a rung of the prime ladder, filled lazily.
 *
 * A bucket is None while its C pointer is NULL, and otherwise holds the
 * elements of its queue from head to tail. The queue operations the table
 * calls are applied through `InsertSorted`, `FindSorted` and `RemoveSorted`,
 * the functions the queue methods of module Queues are proved to compute.
 * `Contents()` views the buckets as sequences (a NULL bucket is empty). The
 * two counters behave as the C code makes them behave:
 *  - `size` grows on every insert, also when the bucket's queue ignored the
 *    element as a duplicate; `dropped` counts those inserts, so `size` is the
 *    number of stored elements plus `dropped`;
 *  - `load` grows when an insert creates a bucket and shrinks when a removal
 *    empties one, although the emptied bucket stays allocated and a later
 *    insert into it does not count it again. `load` is a 64-bit unsigned
 *    counter, which can wrap below zero.
 */
module HashTables {
  import opened Wrappers
  import opened Orders
  import opened Visits
  import opened Buckets
  import opened Primes

  /** A value of a 64-bit C `size_t`. */
  type SizeT = x: int | 0 <= x <= SizeMax

  /** `a++` on a `size_t`: the largest value wraps to 0. */
  function Inc(a: SizeT): (r: SizeT)
    ensures r == (a + 1) % (SizeMax + 1)
  {
    if a == SizeMax then 0 else a + 1
  }

  /** `a--` on a `size_t`: 0 wraps to the largest value. */
  function Dec(a: SizeT): (r: SizeT)
    ensures r == (a - 1) % (SizeMax + 1)
  {
    if a == 0 then SizeMax else a - 1
  }

  /** Incrementing and decrementing undo each other, across the wrap too. */
  lemma IncDec(a: SizeT)
    ensures Dec(Inc(a)) == a && Inc(Dec(a)) == a
  {
  }

  /** The elements of a bucket; a NULL bucket has none. */
  function Chain<T>(b: Option<seq<T>>): seq<T>
  {
    if b.Some? then b.value else []
  }

  /** The elements of every bucket of a bucket array. */
  function Chains<T>(bs: seq<Option<seq<T>>>): (c: seq<seq<T>>)
    ensures |c| == |bs| && forall i :: 0 <= i < |bs| ==> c[i] == Chain(bs[i])
  {
    seq(|bs|, i requires 0 <= i < |bs| => Chain(bs[i]))
  }

  /**
   * What the fields of a table say about its bucket array `bs`: every bucket
   * is a sorted chain, every element sits in the slot its hash selects and
   * `size` counts the elements plus the ignored duplicates.
   */
  ghost predicate Consistent<T>(cmp: (T, T) -> int, hash: T -> bv64, bs: seq<Option<seq<T>>>,
                                size: int, dropped: nat)
  {
    && AllSorted(cmp, Chains(bs)) && Placed(hash, Chains(bs))
    && size == |Flatten(Chains(bs))| + dropped
  }

  /**
   * Enqueueing `x` into the bucket of its slot, allocating the bucket first
   * when it is NULL, computes `TableInsert` and keeps the table consistent
   * with `size` one up and one more ignored duplicate exactly when the bucket
   * held `x` already.
   */
  lemma InsertKeeps<T(!new)>(cmp: (T, T) -> int, hash: T -> bv64, bs: seq<Option<seq<T>>>, x: T,
                             size: int, dropped: nat, nb: seq<Option<seq<T>>>, ndropped: nat)
    requires TotalOrder(cmp) && |bs| > 0 && Consistent(cmp, hash, bs, size, dropped)
    requires var h := Slot(hash, |bs|, x);
      && nb == bs[h := Some(InsertSorted(cmp, Chain(bs[h]), x))]
      && ndropped == (if Holds(cmp, Chain(bs[h]), x) then dropped + 1 else dropped)
    ensures Chains(nb) == TableInsert(cmp, hash, Chains(bs), x)
    ensures Consistent(cmp, hash, nb, size + 1, ndropped)
  {
    var c := Chains(bs);
    assert Chains(nb) == TableInsert(cmp, hash, c, x);
    TableInsertSpec(cmp, hash, c, x);
  }

  /**
   * Removing `x` from slot `i`, whose queue finds it, keeps the table
   * consistent with `size` one down; the bucket stays allocated.
   */
  lemma RemoveKeeps<T(!new)>(cmp: (T, T) -> int, hash: T -> bv64, bs: seq<Option<seq<T>>>, i: nat, x: T,
                             size: int, dropped: nat, nb: seq<Option<seq<T>>>)
    requires TotalOrder(cmp) && Consistent(cmp, hash, bs, size, dropped)
    requires i < |bs| && FindSorted(cmp, Chain(bs[i]), x).Some?
    requires nb == bs[i := Some(RemoveSorted(cmp, Chain(bs[i]), x))]
    ensures bs[i].Some? && size >= 1
    ensures Chains(nb) == Chains(bs)[i := nb[i].value]
    ensures Consistent(cmp, hash, nb, size - 1, dropped)
  {
    var c := Chains(bs);
    assert FindSorted(cmp, [], x) == None;
    assert Chains(nb) == c[i := nb[i].value];
    BucketRemoveSpec(cmp, hash, c, i, x);
  }

  /** The number of allocated buckets: those whose C pointer is not NULL. */
  function Allocated<T>(bs: seq<Option<seq<T>>>): (n: nat)
    ensures n <= |bs|
  {
    if bs == [] then 0 else (if bs[0].Some? then 1 else 0) + Allocated(bs[1..])
  }

  /** The number of non-empty buckets. */
  ghost function Occupied<T>(c: seq<seq<T>>): nat
  {
    if c == [] then 0 else (if c[0] != [] then 1 else 0) + Occupied(c[1..])
  }

  /** No allocated bucket holds an empty queue. */
  ghost predicate NoEmptyQueues<T>(bs: seq<Option<seq<T>>>)
  {
    forall i :: 0 <= i < |bs| && bs[i].Some? ==> bs[i].value != []
  }

  /** A bucket array of NULL buckets has none allocated. */
  lemma {:induction false} AllocatedNone<T>(bs: seq<Option<seq<T>>>)
    requires forall i :: 0 <= i < |bs| ==> bs[i].None?
    ensures Allocated(bs) == 0
  {
    if bs != [] {
      AllocatedNone(bs[1..]);
    }
  }

  /** Storing a queue in slot `h` allocates one more bucket exactly when the slot was NULL. */
  lemma {:induction false} AllocatedSet<T>(bs: seq<Option<seq<T>>>, h: nat, v: seq<T>)
    requires h < |bs|
    ensures Allocated(bs[h := Some(v)]) == Allocated(bs) + (if bs[h].None? then 1 else 0)
  {
    if h == 0 {
      assert bs[h := Some(v)][1..] == bs[1..];
    } else {
      assert bs[h := Some(v)][1..] == bs[1..][h - 1 := Some(v)];
      AllocatedSet(bs[1..], h - 1, v);
    }
  }

  /** When no allocated queue is empty, the allocated buckets are the non-empty ones. */
  lemma {:induction false} AllocatedOccupied<T>(bs: seq<Option<seq<T>>>)
    requires NoEmptyQueues(bs)
    ensures Allocated(bs) == Occupied(Chains(bs))
  {
    if bs != [] {
      assert Chains(bs)[1..] == Chains(bs[1..]);
      AllocatedOccupied(bs[1..]);
    }
  }

  /**
   * `load` counts the allocated buckets of `bs`, none of which holds an
   * empty queue, and the bucket count fits in a `size_t`; a removal that
   * empties a bucket breaks this.
   */
  ghost predicate Tallied<T>(load: SizeT, bs: seq<Option<seq<T>>>)
  {
    |bs| <= SizeMax && load == Allocated(bs) && NoEmptyQueues(bs)
  }

  /** A `size_t` count of NULL buckets is tallied by a `load` of 0. */
  lemma NoneTallied<T>(bs: seq<Option<seq<T>>>)
    requires |bs| <= SizeMax && forall i :: 0 <= i < |bs| ==> bs[i].None?
    ensures Tallied(0, bs)
  {
    AllocatedNone(bs);
  }

  /**
   * Storing the enqueue of `x` in its slot, and incrementing `load` when the
   * slot was NULL, keeps `load` tallied: the stored queue is never empty.
   */
  lemma InsertStep<T>(cmp: (T, T) -> int, hash: T -> bv64, bs: seq<Option<seq<T>>>, x: T,
                      nb: seq<Option<seq<T>>>, load: SizeT, nload: SizeT)
    requires |bs| > 0
    requires var h := Slot(hash, |bs|, x); nb == bs[h := Some(InsertSorted(cmp, Chain(bs[h]), x))]
    requires nload == if bs[Slot(hash, |bs|, x)].None? then Inc(load) else load
    ensures Tallied(load, bs) ==> Tallied(nload, nb)
  {
    var h := Slot(hash, |bs|, x);
    AllocatedSet(bs, h, InsertSorted(cmp, Chain(bs[h]), x));
  }

  class HashTable<T(!new)> {
    /** The user's comparator, handed to every bucket queue. */
    const cmp: (T, T) -> int
    /** The user's hash function. */
    const hash: T -> bv64
    /** The rung of the prime ladder giving the capacity. */
    const capIndex: nat
    /** The bucket array; a bucket is NULL until a first insert reaches its slot. */
    const A: array<Option<seq<T>>>
    /** The C `size` counter. */
    var size: nat
    /** The C `load` counter. */
    var load: SizeT
    /** Inserts the bucket queue ignored as duplicates. */
    ghost var dropped: nat

    ghost predicate Valid()
      reads this, A
    {
      && TotalOrder(cmp) && A.Length > 0
      && Consistent(cmp, hash, A[..], size, dropped)
    }

    /**
     * The capacity is the rung `capIndex` of the prime ladder. It depends on
     * constant fields only, so it holds for the whole life of a table.
     */
    ghost predicate Sized() {
      capIndex < NumPrimes && A.Length == Prime(capIndex)
    }

    /** The elements of every bucket, NULL buckets being empty. */
    ghost function Contents(): seq<seq<T>>
      reads this, A
    {
      Chains(A[..])
    }

    /**
     * An empty table able to hold `n` elements: its capacity is the first
     * rung of the ladder above `n`.
     */
    constructor (cmp: (T, T) -> int, hash: T -> bv64, n: nat)
      requires TotalOrder(cmp) && n < Prime(NumPrimes - 1)
      ensures Valid() && Sized() && fresh(A)
      ensures this.cmp == cmp && this.hash == hash
      ensures forall j :: 0 <= j < capIndex ==> Prime(j) <= n
      ensures n < Prime(capIndex)
      ensures Contents() == Empty(A.Length) && size == 0 && load == 0
      ensures forall j :: 0 <= j < A.Length ==> A[j].None?
    {
      var i := GetCapIndex(n);
      assert i < NumPrimes;
      this.cmp := cmp;
      this.hash := hash;
      capIndex := i;
      A := new Option<seq<T>>[Prime(i)](_ => None);
      size := 0;
      load := 0;
      dropped := 0;
      new;
      assert Chains(A[..]) == Empty(A.Length);
      FlattenEmpty(Chains(A[..]));
    }

    /** The number of buckets. */
    function Capacity(): (n: nat)
      reads this, A
      requires Valid() && Sized()
      ensures n == A.Length == |Contents()| && n == Prime(capIndex)
    {
      Prime(capIndex)
    }

    /** The `size` counter: the stored elements plus the ignored duplicates. */
    function Size(): (n: nat)
      reads this, A
      requires Valid()
      ensures n == |Flatten(Contents())| + dropped
      ensures n >= |Flatten(Contents())|
    {
      size
    }

    /** `size` over `load` rounded down, or 0 when `load` is 0. */
    function LoadFactor(): (r: nat)
      reads this
      ensures load == 0 ==> r == 0
      ensures load > 0 ==> r * load <= size < (r + 1) * load
    {
      if load == 0 then 0 else size / load
    }

    /**
     * Enqueue `x` into the bucket of its slot, allocating an empty bucket
     * first when it is NULL; `size` grows either way.
     */
    method Insert(x: T)
      requires Valid()
      modifies this, A
      ensures Valid()
      ensures Contents() == TableInsert(cmp, hash, old(Contents()), x)
      ensures size == old(size) + 1
      ensures load == if old(A[Slot(hash, A.Length, x)]).None? then Inc(old(load)) else old(load)
      ensures var h := Slot(hash, A.Length, x);
        A[..] == old(A[..])[h := Some(InsertSorted(cmp, Chain(old(A[h])), x))]
      ensures Tallied(old(load), old(A[..])) ==> Tallied(load, A[..])
    {
      var h := Slot(hash, A.Length, x);
      if A[h].None? {
        load := Inc(load);
        A[h] := Some([]);
      }
      if Holds(cmp, A[h].value, x) {
        dropped := dropped + 1;
      }
      A[h] := Some(InsertSorted(cmp, A[h].value, x));
      size := size + 1;
      InsertKeeps(cmp, hash, old(A[..]), x, old(size), old(dropped), A[..], dropped);
      InsertStep(cmp, hash, old(A[..]), x, A[..], old(load), load);
    }

    /** The element a scan of the buckets from slot 0 finds first. */
    method Find(x: T) returns (r: Option<T>)
      requires Valid()
      ensures r == TableFind(cmp, Contents(), x)
    {
      ghost var c := Contents();
      var i := 0;
      while i < A.Length
        invariant 0 <= i <= A.Length
        invariant forall j :: 0 <= j < i ==> FindSorted(cmp, c[j], x) == None
      {
        r := FindSorted(cmp, Chain(A[i]), x);
        if r.Some? {
          FirstHitIs(cmp, c, x, i);
          return;
        }
        i := i + 1;
      }
      FirstHitIs(cmp, c, x, A.Length);
      return None;
    }

    /**
     * Remove `x` from the bucket of slot `i`, whose queue holds it; `size`
     * shrinks, and `load` too when the queue is left empty. The emptied
     * queue stays allocated.
     */
    method RemoveAt(i: nat, x: T) returns (r: Option<T>)
      requires Valid() && i < A.Length && FindSorted(cmp, Contents()[i], x).Some?
      modifies this, A
      ensures Valid()
      ensures r == FindSorted(cmp, old(Contents())[i], x)
      ensures Contents() == old(Contents())[i := RemoveSorted(cmp, old(Contents())[i], x)]
      ensures size == old(size) - 1
      ensures load == if Contents()[i] == [] then Dec(old(load)) else old(load)
      ensures A[..] == old(A[..])[i := Some(RemoveSorted(cmp, Chain(old(A[i])), x))]
    {
      r := FindSorted(cmp, Chain(A[i]), x);
      var rest := RemoveSorted(cmp, Chain(A[i]), x);
      A[i] := Some(rest);
      RemoveKeeps(cmp, hash, old(A[..]), i, x, size, dropped, A[..]);
      size := size - 1;
      if |rest| == 0 {
        load := Dec(load);
      }
    }

    /**
     * Remove `x` from the first bucket, in slot order, whose queue holds it;
     * `size` shrinks, and `load` too when that queue is left empty.
     */
    method Remove(x: T) returns (r: Option<T>)
      requires Valid()
      modifies this, A
      ensures Valid()
      ensures r == TableFind(cmp, old(Contents()), x)
      ensures Contents() == TableRemove(cmp, old(Contents()), x)
      ensures size == if r.Some? then old(size) - 1 else old(size)
      ensures load == if r.Some? && Contents()[FirstHit(cmp, old(Contents()), x)] == []
        then Dec(old(load)) else old(load)
      ensures r.None? ==> A[..] == old(A[..])
      ensures r.Some? ==> var k := FirstHit(cmp, old(Contents()), x);
        k < A.Length && A[..] == old(A[..])[k := Some(RemoveSorted(cmp, Chain(old(A[k])), x))]
    {
      ghost var c := Contents();
      var i := 0;
      while i < A.Length && FindSorted(cmp, Chain(A[i]), x).None?
        invariant 0 <= i <= A.Length
        invariant forall j :: 0 <= j < i ==> FindSorted(cmp, c[j], x) == None
      {
        i := i + 1;
      }
      FirstHitIs(cmp, c, x, i);
      if i == A.Length {
        return None;
      }
      r := RemoveAt(i, x);
    }

    /** Insert the elements of `s` one after the other, as a visit of a bucket does. */
    method InsertEach(s: seq<T>)
      requires Valid()
      modifies this, A
      ensures Valid()
      ensures Contents() == InsertAll(cmp, hash, old(Contents()), s)
      ensures size == old(size) + |s|
      ensures Tallied(old(load), old(A[..])) ==> Tallied(load, A[..])
    {
      var j := 0;
      while j < |s|
        invariant 0 <= j <= |s|
        invariant Valid()
        invariant Contents() == InsertAll(cmp, hash, old(Contents()), s[..j])
        invariant size == old(size) + j
        invariant Tallied(old(load), old(A[..])) ==> Tallied(load, A[..])
      {
        assert s[..j + 1][..j] == s[..j];
        Insert(s[j]);
        j := j + 1;
      }
      assert s[..j] == s;
    }

    /**
     * Insert the elements of the buckets of `src`, bucket by bucket in slot
     * order, as the rehashing visit of another table's buckets does.
     */
    method InsertFrom(src: HashTable<T>)
      requires Valid() && src != this && src.A != A
      modifies this, A
      ensures Valid()
      ensures unchanged(src, src.A)
      ensures Contents() == InsertAll(cmp, hash, old(Contents()), Flatten(src.Contents()))
      ensures size == old(size) + |Flatten(src.Contents())|
      ensures Tallied(old(load), old(A[..])) ==> Tallied(load, A[..]) && load == Occupied(Contents())
    {
      ghost var c := src.Contents();
      ghost var xs: seq<T> := [];
      var i := 0;
      while i < src.A.Length
        invariant 0 <= i <= src.A.Length
        invariant Valid()
        invariant xs == Flatten(c[..i])
        invariant Contents() == InsertAll(cmp, hash, old(Contents()), xs) && size == old(size) + |xs|
        invariant Tallied(old(load), old(A[..])) ==> Tallied(load, A[..])
      {
        InsertEach(Chain(src.A[i]));
        InsertAllAppend(cmp, hash, old(Contents()), xs, c[i]);
        FlattenPrefix(c, i);
        xs := xs + c[i];
        i := i + 1;
      }
      FlattenWhole(c);
      if Tallied(old(load), old(A[..])) {
        AllocatedOccupied(A[..]);
      }
    }

    /** An empty table with this table's comparator and hash, one rung up the ladder. */
    method NextRung() returns (t: HashTable<T>)
      requires Valid() && Sized() && capIndex + 1 < NumPrimes
      ensures fresh(t) && fresh(t.A) && t.Valid() && t.Sized()
      ensures t.cmp == cmp && t.hash == hash && t.capIndex == capIndex + 1
      ensures t.Contents() == Empty(t.A.Length) && t.size == 0
      ensures t.load == 0 && forall j :: 0 <= j < t.A.Length ==> t.A[j].None?
      ensures Tallied(t.load, t.A[..])
    {
      PrimeIncreasing(capIndex, NumPrimes - 1);
      t := new HashTable(cmp, hash, A.Length);
      CapIndexOfPrime(capIndex, t.capIndex);
      NoneTallied(t.A[..]);
    }

    /**
     * A new table one rung up the ladder, with the same comparator and hash,
     * into which every element is inserted in visiting order. This table is
     * left as it is.
     */
    method Rehash() returns (t: HashTable<T>)
      requires Valid() && Sized() && capIndex + 1 < NumPrimes
      ensures fresh(t) && fresh(t.A) && t.Valid() && t.Sized()
      ensures t.cmp == cmp && t.hash == hash && t.capIndex == capIndex + 1
      ensures unchanged(this, A)
      ensures t.Contents() == InsertAll(cmp, hash, Empty(t.A.Length), Flatten(Contents()))
      ensures t.size == |Flatten(Contents())|
      ensures t.load == Occupied(t.Contents())
    {
      t := NextRung();
      assert t.capIndex == capIndex + 1 && t.Sized();
      t.InsertFrom(this);
      assert unchanged(this, A);
      assert t.Valid() && t.Contents() == InsertAll(cmp, hash, Empty(t.A.Length), Flatten(Contents()));
    }
  }

  /** A queue of `x` alone is what enqueueing `x` into an empty queue gives, and removing `x` empties it. */
  lemma Singleton<T(!new)>(cmp: (T, T) -> int, x: T)
    requires TotalOrder(cmp)
    ensures InsertSorted(cmp, [], x) == [x]
    ensures FindSorted(cmp, [], x) == None && FindSorted(cmp, [x], x) == Some(x)
    ensures RemoveSorted(cmp, [x], x) == []
  {
    assert Laws(cmp, x, x, x);
  }

  /**
   * Enqueueing `x` into slot `h` of a table of NULL buckets leaves `x` alone
   * in that bucket, where a scan finds it first.
   */
  lemma OnlyBucket<T(!new)>(cmp: (T, T) -> int, empty: seq<Option<seq<T>>>, h: nat, x: T)
    requires TotalOrder(cmp) && h < |empty|
    requires forall j :: 0 <= j < |empty| ==> empty[j].None?
    ensures var bs := empty[h := Some(InsertSorted(cmp, Chain(empty[h]), x))];
      && bs[h] == Some([x])
      && FirstHit(cmp, Chains(bs), x) == h && TableFind(cmp, Chains(bs), x) == Some(x)
  {
    var bs := empty[h := Some(InsertSorted(cmp, Chain(empty[h]), x))];
    Singleton(cmp, x);
    FirstHitIs(cmp, Chains(bs), x, h);
  }

  /**
   * Inserting `x` into a new table, removing it and inserting it again
   * leaves `load` at 1, then 0, then 0: the removal empties the bucket and
   * counts it out, but the bucket stays allocated, so the second insert does
   * not count it back in.
   */
  method ReinsertLoads<T(!new)>(cmp: (T, T) -> int, hash: T -> bv64, n: nat, x: T) returns (loads: seq<SizeT>)
    requires TotalOrder(cmp) && n < Prime(NumPrimes - 1)
    ensures loads == [1, 0, 0]
  {
    var t := new HashTable(cmp, hash, n);
    ghost var h := FirstInsert(t, x);
    var afterInsert := t.load;
    var r := t.Remove(x);
    var afterRemove := t.load;
    Singleton(cmp, x);
    assert t.A[h] == Some([]);
    t.Insert(x);
    loads := [afterInsert, afterRemove, t.load];
  }

  /** Inserting `x` into a table of NULL buckets allocates one bucket, holding `x` alone. */
  method FirstInsert<T(!new)>(t: HashTable<T>, x: T) returns (ghost h: nat)
    requires t.Valid() && t.load == 0
    requires forall j :: 0 <= j < t.A.Length ==> t.A[j].None?
    modifies t, t.A
    ensures t.Valid()
    ensures h == Slot(t.hash, t.A.Length, x)
    ensures t.A[h] == Some([x])
    ensures t.load == 1
    ensures FirstHit(t.cmp, t.Contents(), x) == h
    ensures TableFind(t.cmp, t.Contents(), x) == Some(x)
  {
    h := Slot(t.hash, t.A.Length, x);
    OnlyBucket(t.cmp, t.A[..], h, x);
    t.Insert(x);
  }

  /** Visit the buckets in slot order, each from head to tail; a NULL table answers 1. */
  method Map<T(!new), S>(t: HashTable?<T>, apply: (S, T) -> (S, int), st: S) returns (r: Outcome<S>)
    requires t != null ==> t.Valid()
    ensures r == if t == null then Outcome(1, st) else Traverse(apply, Flatten(t.Contents()), st)
  {
    if t == null {
      return Outcome(1, st);
    }
    ghost var c := t.Contents();
    var cur := st;
    var i := 0;
    while i < t.A.Length
      invariant 0 <= i <= t.A.Length
      invariant Traverse(apply, Flatten(c[..i]), st) == Outcome(1, cur)
    {
      r := Traverse(apply, Chain(t.A[i]), cur);
      assert c[..i + 1][..i] == c[..i];
      TraverseAppend(apply, Flatten(c[..i]), c[i], st);
      if r.code < 0 {
        assert c == c[..i + 1] + c[i + 1..];
        FlattenAppend(c[..i + 1], c[i + 1..]);
        TraverseAppend(apply, Flatten(c[..i + 1]), Flatten(c[i + 1..]), st);
        return;
      }
      cur := r.state;
      i := i + 1;
    }
    assert c[..i] == c;
    return Outcome(1, cur);
  }
}
