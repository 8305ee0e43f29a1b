/**
 * Deep chained hash tables (src/deephashtabs.c): the table of module
 * HashTables, but every bucket is a deep queue that stores a copy of `size`
 * bytes of each inserted object.
 *
 * The source keeps a single field, `size`, both as the byte size of the
 * elements and as the element counter: inserts and removals move it,
 * `dhashtabs_size` and `dhashtabs_loadfactor` report it, each new bucket
 * queue takes its current value as element size, and a rehash takes it as
 * the new table's byte size. `Written` and its functions
 * model that as written; class `DHashTable` models the table as its
 * declarations and documentation describe it, with `size` the byte size of
 * every element and `nmems` the counter. Buckets are values as in
 * HashTables; every bucket queue has element size `size`.
 */
module DeepHashTables {
  import opened Wrappers
  import opened Orders
  import opened Visits
  import opened Buckets
  import opened Primes
  import opened HashTables
  import opened DeepQueues

  /** Every bucket holds `n`-byte elements only. */
  ghost predicate AllSized(bs: seq<seq<Bytes>>, n: nat)
  {
    forall i :: 0 <= i < |bs| ==> Sized(bs[i], n)
  }

  /** Enqueueing an `n`-byte element into its bucket keeps every element `n` bytes long. */
  lemma InsertSized(cmp: (Bytes, Bytes) -> int, hash: Bytes -> bv64, bs: seq<seq<Bytes>>, x: Bytes, n: nat)
    requires |bs| > 0 && AllSized(bs, n) && |x| == n
    ensures AllSized(TableInsert(cmp, hash, bs, x), n)
  {
    SizedInsert(cmp, bs[Slot(hash, |bs|, x)], x, n);
  }

  /** Removing from one bucket keeps every element `n` bytes long. */
  lemma RemoveSized(cmp: (Bytes, Bytes) -> int, bs: seq<seq<Bytes>>, i: nat, x: Bytes, n: nat)
    requires i < |bs| && AllSized(bs, n)
    ensures AllSized(bs[i := RemoveSorted(cmp, bs[i], x)], n)
  {
    SizedRemove(cmp, bs[i], x, n);
  }

  /**
   * The deep table's counter and bucket element sizes as the source updates
   * them: `size` starts as the byte size of the elements and then counts
   * inserts and removals too; `widths[i]` is the element size of the queue
   * in slot `i`, None while the slot is NULL.
   */
  datatype Written = Written(size: nat, widths: seq<Option<nat>>)

  /** `dhashtabs_new` as written, for a table of capacity `cap` and byte size `size`. */
  function WrittenNew(cap: nat, size: nat): (w: Written)
    ensures w.size == size && |w.widths| == cap
    ensures forall i :: 0 <= i < cap ==> w.widths[i] == None
  {
    Written(size, seq(cap, _ => None))
  }

  /**
   * `dhashtabs_insert` as written, for an object whose slot is `h`: a NULL
   * slot gets a queue whose element size is the current `size` field, which
   * then grows by one.
   */
  function WrittenInsert(w: Written, h: nat): (r: Written)
    requires h < |w.widths|
    ensures r.size == w.size + 1 && |r.widths| == |w.widths|
    ensures r.widths[h] == if w.widths[h].None? then Some(w.size) else w.widths[h]
    ensures forall i :: 0 <= i < |w.widths| && i != h ==> r.widths[i] == w.widths[i]
  {
    Written(w.size + 1, if w.widths[h].None? then w.widths[h := Some(w.size)] else w.widths)
  }

  /**
   * As written, two inserts of `size`-byte objects into different slots of a
   * new table leave the second slot with a queue that copies `size + 1` bytes
   * from each object, one more than an object has, and `dhashtabs_size`
   * reports `size + 2` for two elements.
   */
  lemma WrittenWidthDrifts(cap: nat, size: nat, h1: nat, h2: nat)
    requires h1 < cap && h2 < cap && h1 != h2
    ensures var w := WrittenInsert(WrittenInsert(WrittenNew(cap, size), h1), h2);
      && w.widths[h1] == Some(size) && w.widths[h2] == Some(size + 1)
      && w.size == size + 2
  {
  }

  /**
   * `dhashtabs_remove` as written, after a hit: the `size` field drops by one
   * (wrapping at 0 as a `size_t` does), and the emptied queue keeps its slot
   * and its element size.
   */
  function WrittenRemove(w: Written): (r: Written)
    ensures r.widths == w.widths
    ensures w.size > 0 ==> r.size + 1 == w.size
    ensures w.size == 0 ==> r.size == SizeMax
  {
    Written(if w.size == 0 then SizeMax else w.size - 1, w.widths)
  }

  /** `dhashtabs_insert` as written, once per slot of `hs`, in order. */
  function WrittenInserts(w: Written, hs: seq<nat>): (r: Written)
    requires forall i :: 0 <= i < |hs| ==> hs[i] < |w.widths|
    ensures r.size == w.size + |hs| && |r.widths| == |w.widths|
    ensures forall i :: 0 <= i < |w.widths| && w.widths[i].Some? ==> r.widths[i] == w.widths[i]
    decreases |hs|
  {
    if hs == [] then w else WrittenInserts(WrittenInsert(w, hs[0]), hs[1..])
  }

  /**
   * `dhashtabs_rehash` as written: a new table of capacity `cap` whose byte
   * size is the old `size` field, into which `_rehash` inserts every element;
   * `hs` are the elements' new slots in visit order.
   */
  function WrittenRehash(w: Written, cap: nat, hs: seq<nat>): (r: Written)
    requires forall i :: 0 <= i < |hs| ==> hs[i] < cap
    ensures r.size == w.size + |hs| && |r.widths| == cap
  {
    WrittenInserts(WrittenNew(cap, w.size), hs)
  }

  /**
   * As written, two inserts and one removal leave one element in a new table,
   * yet `dhashtabs_size` reports `size + 1` and `dhashtabs_loadfactor`
   * divides that by `load`.
   */
  lemma WrittenSizeCounts(cap: nat, size: nat, h1: nat, h2: nat)
    requires h1 < cap && h2 < cap
    ensures WrittenRemove(WrittenInsert(WrittenInsert(WrittenNew(cap, size), h1), h2)).size == size + 1
  {
  }

  /**
   * As written, rehashing a table that holds one `size`-byte element builds
   * a table whose byte size is `size + 1`: the element's new queue copies
   * `size + 1` bytes from it, and the new table reports `size + 2`.
   */
  lemma WrittenRehashDrifts(cap: nat, size: nat, h1: nat, cap2: nat, h2: nat)
    requires h1 < cap && h2 < cap2
    ensures var w := WrittenRehash(WrittenInsert(WrittenNew(cap, size), h1), cap2, [h2]);
      && w.widths[h2] == Some(size + 1) && w.size == size + 2
  {
    var old1 := WrittenInsert(WrittenNew(cap, size), h1);
    var fresh1 := WrittenNew(cap2, old1.size);
    assert WrittenRehash(old1, cap2, [h2]) == WrittenInserts(WrittenInsert(fresh1, h2), []);
  }

  class DHashTable {
    /** The user's comparator, handed to every bucket queue. */
    const cmp: (Bytes, Bytes) -> int
    /** The user's hash function. */
    const hash: Bytes -> bv64
    /** The byte size of every element, and of every bucket queue's elements. */
    const size: nat
    /** The rung of the prime ladder giving the capacity. */
    const capIndex: nat
    /** The bucket array; a bucket is NULL until a first insert reaches its slot. */
    const A: array<Option<seq<Bytes>>>
    /** The number of inserts less the number of removals. */
    var nmems: nat
    /** The C `load` counter. */
    var load: SizeT
    /** Inserts the bucket queue ignored as duplicates. */
    ghost var dropped: nat

    ghost predicate Valid()
      reads this, A
    {
      && TotalOrder(cmp) && A.Length > 0
      && Consistent(cmp, hash, A[..], nmems, dropped)
      && AllSized(Chains(A[..]), size)
    }

    /** The capacity is the rung `capIndex` of the prime ladder, for the table's whole life. */
    ghost predicate Sized() {
      capIndex < NumPrimes && A.Length == Prime(capIndex)
    }

    /** The elements of every bucket, NULL buckets being empty. */
    ghost function Contents(): seq<seq<Bytes>>
      reads this, A
    {
      Chains(A[..])
    }

    /** An empty table able to hold `n` elements of `size` bytes each. */
    constructor (cmp: (Bytes, Bytes) -> int, hash: Bytes -> bv64, n: nat, size: nat)
      requires TotalOrder(cmp) && n < Prime(NumPrimes - 1)
      ensures Valid() && Sized() && fresh(A)
      ensures this.cmp == cmp && this.hash == hash && this.size == size
      ensures forall j :: 0 <= j < capIndex ==> Prime(j) <= n
      ensures n < Prime(capIndex)
      ensures Contents() == Empty(A.Length) && nmems == 0 && load == 0
      ensures forall j :: 0 <= j < A.Length ==> A[j].None?
    {
      var i := GetCapIndex(n);
      assert i < NumPrimes;
      this.cmp := cmp;
      this.hash := hash;
      this.size := size;
      capIndex := i;
      A := new Option<seq<Bytes>>[Prime(i)](_ => None);
      nmems := 0;
      load := 0;
      dropped := 0;
      new;
      assert Chains(A[..]) == Empty(A.Length);
      FlattenEmpty(Chains(A[..]));
    }

    /** The number of buckets. */
    function Capacity(): (n: nat)
      reads this, A
      requires Valid() && Sized()
      ensures n == A.Length == |Contents()| && n == Prime(capIndex)
    {
      Prime(capIndex)
    }

    /** The element counter: the stored elements plus the ignored duplicates. */
    function Size(): (n: nat)
      reads this, A
      requires Valid()
      ensures n == |Flatten(Contents())| + dropped
      ensures n >= |Flatten(Contents())|
    {
      nmems
    }

    /** The element counter over `load` rounded down, or 0 when `load` is 0. */
    function LoadFactor(): (r: nat)
      reads this
      ensures load == 0 ==> r == 0
      ensures load > 0 ==> r * load <= nmems < (r + 1) * load
    {
      if load == 0 then 0 else nmems / load
    }

    /**
     * Enqueue a copy of the `size` bytes of `x` into the bucket of its slot,
     * allocating an empty bucket queue first when it is NULL.
     */
    method Insert(x: Bytes)
      requires Valid() && |x| == size
      modifies this, A
      ensures Valid()
      ensures Contents() == TableInsert(cmp, hash, old(Contents()), x)
      ensures nmems == old(nmems) + 1
      ensures load == if old(A[Slot(hash, A.Length, x)]).None? then Inc(old(load)) else old(load)
      ensures var h := Slot(hash, A.Length, x);
        A[..] == old(A[..])[h := Some(InsertSorted(cmp, Chain(old(A[h])), x))]
      ensures Tallied(old(load), old(A[..])) ==> Tallied(load, A[..])
    {
      var h := Slot(hash, A.Length, x);
      if A[h].None? {
        load := Inc(load);
        A[h] := Some([]);
      }
      var copy := x[..size];
      assert copy == x;
      if Holds(cmp, A[h].value, copy) {
        dropped := dropped + 1;
      }
      A[h] := Some(InsertSorted(cmp, A[h].value, copy));
      nmems := nmems + 1;
      InsertKeeps(cmp, hash, old(A[..]), x, old(nmems), old(dropped), A[..], dropped);
      InsertSized(cmp, hash, old(Contents()), x, size);
      InsertStep(cmp, hash, old(A[..]), x, A[..], old(load), load);
    }

    /** The stored copy a scan of the buckets from slot 0 finds first. */
    method Find(x: Bytes) returns (r: Option<Bytes>)
      requires Valid()
      ensures r == TableFind(cmp, Contents(), x)
    {
      ghost var c := Contents();
      var i := 0;
      while i < A.Length
        invariant 0 <= i <= A.Length
        invariant forall j :: 0 <= j < i ==> FindSorted(cmp, c[j], x) == None
      {
        r := FindSorted(cmp, Chain(A[i]), x);
        if r.Some? {
          FirstHitIs(cmp, c, x, i);
          return;
        }
        i := i + 1;
      }
      FirstHitIs(cmp, c, x, A.Length);
      return None;
    }

    /**
     * Remove `x` from the bucket of slot `i`, whose queue holds it; `nmems`
     * shrinks, and `load` too when the queue is left empty.
     */
    method RemoveAt(i: nat, x: Bytes) returns (r: Option<Bytes>)
      requires Valid() && i < A.Length && FindSorted(cmp, Contents()[i], x).Some?
      modifies this, A
      ensures Valid()
      ensures r == FindSorted(cmp, old(Contents())[i], x)
      ensures Contents() == old(Contents())[i := RemoveSorted(cmp, old(Contents())[i], x)]
      ensures nmems == old(nmems) - 1
      ensures load == if Contents()[i] == [] then Dec(old(load)) else old(load)
      ensures A[..] == old(A[..])[i := Some(RemoveSorted(cmp, Chain(old(A[i])), x))]
    {
      r := FindSorted(cmp, Chain(A[i]), x);
      var rest := RemoveSorted(cmp, Chain(A[i]), x);
      A[i] := Some(rest);
      RemoveKeeps(cmp, hash, old(A[..]), i, x, nmems, dropped, A[..]);
      RemoveSized(cmp, old(Contents()), i, x, size);
      nmems := nmems - 1;
      if |rest| == 0 {
        load := Dec(load);
      }
    }

    /**
     * Remove `x` from the first bucket, in slot order, whose queue holds it;
     * `nmems` shrinks, and `load` too when that queue is left empty.
     */
    method Remove(x: Bytes) returns (r: Option<Bytes>)
      requires Valid()
      modifies this, A
      ensures Valid()
      ensures r == TableFind(cmp, old(Contents()), x)
      ensures Contents() == TableRemove(cmp, old(Contents()), x)
      ensures nmems == if r.Some? then old(nmems) - 1 else old(nmems)
      ensures load == if r.Some? && Contents()[FirstHit(cmp, old(Contents()), x)] == []
        then Dec(old(load)) else old(load)
      ensures r.None? ==> A[..] == old(A[..])
      ensures r.Some? ==> var k := FirstHit(cmp, old(Contents()), x);
        k < A.Length && A[..] == old(A[..])[k := Some(RemoveSorted(cmp, Chain(old(A[k])), x))]
    {
      ghost var c := Contents();
      var i := 0;
      while i < A.Length && FindSorted(cmp, Chain(A[i]), x).None?
        invariant 0 <= i <= A.Length
        invariant forall j :: 0 <= j < i ==> FindSorted(cmp, c[j], x) == None
      {
        i := i + 1;
      }
      FirstHitIs(cmp, c, x, i);
      if i == A.Length {
        return None;
      }
      r := RemoveAt(i, x);
    }

    /** Insert the `size`-byte elements of `s` one after the other. */
    method InsertEach(s: seq<Bytes>)
      requires Valid() && DeepQueues.Sized(s, size)
      modifies this, A
      ensures Valid()
      ensures Contents() == InsertAll(cmp, hash, old(Contents()), s)
      ensures nmems == old(nmems) + |s|
      ensures Tallied(old(load), old(A[..])) ==> Tallied(load, A[..])
    {
      var j := 0;
      while j < |s|
        invariant 0 <= j <= |s|
        invariant Valid()
        invariant Contents() == InsertAll(cmp, hash, old(Contents()), s[..j])
        invariant nmems == old(nmems) + j
        invariant Tallied(old(load), old(A[..])) ==> Tallied(load, A[..])
      {
        assert s[..j + 1][..j] == s[..j];
        assert |s[j]| == size;
        Insert(s[j]);
        assert Contents() == InsertAll(cmp, hash, old(Contents()), s[..j + 1]);
        j := j + 1;
      }
      assert s[..j] == s;
    }

    /**
     * Insert the elements of the buckets of `src`, whose elements have this
     * table's byte size, bucket by bucket in slot order.
     */
    method InsertFrom(src: DHashTable)
      requires Valid() && src.Valid() && src != this && src.A != A && src.size == size
      modifies this, A
      ensures Valid()
      ensures unchanged(src, src.A)
      ensures Contents() == InsertAll(cmp, hash, old(Contents()), Flatten(src.Contents()))
      ensures nmems == old(nmems) + |Flatten(src.Contents())|
      ensures Tallied(old(load), old(A[..])) ==> Tallied(load, A[..]) && load == Occupied(Contents())
    {
      ghost var c := src.Contents();
      ghost var xs: seq<Bytes> := [];
      var i := 0;
      while i < src.A.Length
        invariant 0 <= i <= src.A.Length
        invariant Valid()
        invariant xs == Flatten(c[..i])
        invariant Contents() == InsertAll(cmp, hash, old(Contents()), xs) && nmems == old(nmems) + |xs|
        invariant Tallied(old(load), old(A[..])) ==> Tallied(load, A[..])
      {
        InsertEach(Chain(src.A[i]));
        InsertAllAppend(cmp, hash, old(Contents()), xs, c[i]);
        FlattenPrefix(c, i);
        xs := xs + c[i];
        i := i + 1;
      }
      FlattenWhole(c);
      if Tallied(old(load), old(A[..])) {
        AllocatedOccupied(A[..]);
      }
    }

    /** An empty table with this table's comparator, hash and byte size, one rung up the ladder. */
    method NextRung() returns (t: DHashTable)
      requires Valid() && Sized() && capIndex + 1 < NumPrimes
      ensures fresh(t) && fresh(t.A) && t.Valid() && t.Sized()
      ensures t.cmp == cmp && t.hash == hash && t.size == size && t.capIndex == capIndex + 1
      ensures t.Contents() == Empty(t.A.Length) && t.nmems == 0
      ensures t.load == 0 && forall j :: 0 <= j < t.A.Length ==> t.A[j].None?
      ensures Tallied(t.load, t.A[..])
    {
      PrimeIncreasing(capIndex, NumPrimes - 1);
      t := new DHashTable(cmp, hash, A.Length, size);
      CapIndexOfPrime(capIndex, t.capIndex);
      NoneTallied(t.A[..]);
    }

    /**
     * A new table one rung up the ladder, with the same comparator, hash and
     * byte size, into which every element is inserted in visiting order.
     * This table is left as it is.
     */
    method Rehash() returns (t: DHashTable)
      requires Valid() && Sized() && capIndex + 1 < NumPrimes
      ensures fresh(t) && fresh(t.A) && t.Valid() && t.Sized()
      ensures t.cmp == cmp && t.hash == hash && t.size == size && t.capIndex == capIndex + 1
      ensures unchanged(this, A)
      ensures t.Contents() == InsertAll(cmp, hash, Empty(t.A.Length), Flatten(Contents()))
      ensures t.nmems == |Flatten(Contents())|
      ensures t.load == Occupied(t.Contents())
    {
      t := NextRung();
      t.InsertFrom(this);
      assert t.nmems == |Flatten(Contents())|;
    }
  }

  /**
   * The same sequence on the deep table: inserting `x` into a new table,
   * removing it and inserting it again leaves `load` at 1, then 0, then 0.
   */
  method ReinsertLoads(cmp: (Bytes, Bytes) -> int, hash: Bytes -> bv64, n: nat, x: Bytes) returns (loads: seq<SizeT>)
    requires TotalOrder(cmp) && n < Prime(NumPrimes - 1)
    ensures loads == [1, 0, 0]
  {
    var t := new DHashTable(cmp, hash, n, |x|);
    ghost var h := FirstInsert(t, x);
    var afterInsert := t.load;
    var r := t.Remove(x);
    var afterRemove := t.load;
    Singleton(cmp, x);
    assert t.A[h] == Some([]);
    t.Insert(x);
    loads := [afterInsert, afterRemove, t.load];
  }

  /** Inserting `x` into a table of NULL buckets allocates one bucket, holding `x` alone. */
  method FirstInsert(t: DHashTable, x: Bytes) returns (ghost h: nat)
    requires t.Valid() && t.load == 0 && |x| == t.size
    requires forall j :: 0 <= j < t.A.Length ==> t.A[j].None?
    modifies t, t.A
    ensures t.Valid()
    ensures h == Slot(t.hash, t.A.Length, x)
    ensures t.A[h] == Some([x])
    ensures t.load == 1
    ensures FirstHit(t.cmp, t.Contents(), x) == h
    ensures TableFind(t.cmp, t.Contents(), x) == Some(x)
  {
    h := Slot(t.hash, t.A.Length, x);
    OnlyBucket(t.cmp, t.A[..], h, x);
    t.Insert(x);
  }

  /** Visit the buckets in slot order, each from head to tail; a NULL table answers 1. */
  method Map<S>(t: DHashTable?, apply: (S, Bytes) -> (S, int), st: S) returns (r: Outcome<S>)
    requires t != null ==> t.Valid()
    ensures r == if t == null then Outcome(1, st) else Traverse(apply, Flatten(t.Contents()), st)
  {
    if t == null {
      return Outcome(1, st);
    }
    ghost var c := t.Contents();
    var cur := st;
    var i := 0;
    while i < t.A.Length
      invariant 0 <= i <= t.A.Length
      invariant Traverse(apply, Flatten(c[..i]), st) == Outcome(1, cur)
    {
      r := Traverse(apply, Chain(t.A[i]), cur);
      assert c[..i + 1][..i] == c[..i];
      TraverseAppend(apply, Flatten(c[..i]), c[i], st);
      if r.code < 0 {
        assert c == c[..i + 1] + c[i + 1..];
        FlattenAppend(c[..i + 1], c[i + 1..]);
        TraverseAppend(apply, Flatten(c[..i + 1]), Flatten(c[i + 1..]), st);
        return;
      }
      cur := r.state;
      i := i + 1;
    }
    assert c[..i] == c;
    return Outcome(1, cur);
  }
}
