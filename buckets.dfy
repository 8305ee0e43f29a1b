/**
 * The bucket array of a hash table, seen as a value: one sorted sequence per
 * slot, a NULL bucket being the empty sequence.
 *
 * Elements are placed by `hash(x) % capacity`. Look-ups and removals in the
 * C tables do not use the hash: they scan the buckets from slot 0 and stop
 * at the first bucket whose queue holds an equal element. The functions here
 * say what those scans and the inserts compute; the lemmas say what that
 * means for membership and for the element count.
 */
module Buckets {
  import opened Wrappers
  import opened Orders

  /** All elements, bucket by bucket: the order in which the table visits them. */
  function Flatten<T>(bs: seq<seq<T>>): seq<T>
  {
    if bs == [] then [] else Flatten(bs[..|bs| - 1]) + bs[|bs| - 1]
  }

  /** The slot of `x` in a table of capacity `n`. */
  function Slot<T>(hash: T -> bv64, n: nat, x: T): (i: nat)
    requires n > 0
    ensures i < n
  {
    (hash(x) as int) % n
  }

  /** Every element sits in the bucket its hash selects. */
  ghost predicate Placed<T>(hash: T -> bv64, bs: seq<seq<T>>)
  {
    |bs| > 0 && forall i, j {:trigger Slot(hash, |bs|, bs[i][j])} :: 0 <= i < |bs| && 0 <= j < |bs[i]| ==> Slot(hash, |bs|, bs[i][j]) == i
  }

  /** Every bucket is a valid queue chain. */
  ghost predicate AllSorted<T>(cmp: (T, T) -> int, bs: seq<seq<T>>)
  {
    forall i :: 0 <= i < |bs| ==> Sorted(cmp, bs[i])
  }

  /** The hash agrees with the comparator: equal elements hash alike. */
  ghost predicate Respects<T(!new)>(cmp: (T, T) -> int, hash: T -> bv64)
  {
    forall a, b :: cmp(a, b) == 0 ==> hash(a) == hash(b)
  }

  /** Some bucket holds an element equal to `y`. */
  ghost predicate TableHolds<T>(cmp: (T, T) -> int, bs: seq<seq<T>>, y: T)
  {
    exists i :: 0 <= i < |bs| && Holds(cmp, bs[i], y)
  }

  /** A table of `n` NULL buckets. */
  function Empty<T>(n: nat): (bs: seq<seq<T>>)
    ensures |bs| == n && forall i :: 0 <= i < n ==> bs[i] == []
  {
    seq(n, _ => [])
  }

  /** The first bucket whose queue finds `x`, or the capacity if none does. */
  function FirstHit<T>(cmp: (T, T) -> int, bs: seq<seq<T>>, x: T): (r: nat)
    ensures r <= |bs|
    ensures forall j :: 0 <= j < r ==> FindSorted(cmp, bs[j], x) == None
    ensures r < |bs| ==> FindSorted(cmp, bs[r], x).Some?
  {
    if bs == [] || FindSorted(cmp, bs[0], x).Some? then 0 else 1 + FirstHit(cmp, bs[1..], x)
  }

  /** What a scan from slot 0 finds. */
  function TableFind<T>(cmp: (T, T) -> int, bs: seq<seq<T>>, x: T): Option<T>
  {
    var i := FirstHit(cmp, bs, x);
    if i < |bs| then FindSorted(cmp, bs[i], x) else None
  }

  /** The buckets after removing from the first bucket that finds `x`. */
  function TableRemove<T>(cmp: (T, T) -> int, bs: seq<seq<T>>, x: T): seq<seq<T>>
  {
    var i := FirstHit(cmp, bs, x);
    if i < |bs| then bs[i := RemoveSorted(cmp, bs[i], x)] else bs
  }

  /** The buckets after enqueueing `x` into the bucket of its slot. */
  function TableInsert<T>(cmp: (T, T) -> int, hash: T -> bv64, bs: seq<seq<T>>, x: T): seq<seq<T>>
    requires |bs| > 0
  {
    var h := Slot(hash, |bs|, x);
    bs[h := InsertSorted(cmp, bs[h], x)]
  }

  /** The buckets after inserting `xs` one after the other. */
  function InsertAll<T>(cmp: (T, T) -> int, hash: T -> bv64, bs: seq<seq<T>>, xs: seq<T>): (r: seq<seq<T>>)
    requires |bs| > 0
    ensures |r| == |bs|
    decreases |xs|
  {
    if xs == [] then bs
    else TableInsert(cmp, hash, InsertAll(cmp, hash, bs, xs[..|xs| - 1]), xs[|xs| - 1])
  }

  /** A scan position with no hit before it and a hit at it (or the end) is the first hit. */
  lemma FirstHitIs<T>(cmp: (T, T) -> int, bs: seq<seq<T>>, x: T, i: nat)
    requires i <= |bs|
    requires forall j :: 0 <= j < i ==> FindSorted(cmp, bs[j], x) == None
    requires i < |bs| ==> FindSorted(cmp, bs[i], x).Some?
    ensures FirstHit(cmp, bs, x) == i
  {
  }

  lemma {:induction false} FlattenAppend<T>(bs: seq<seq<T>>, cs: seq<seq<T>>)
    ensures Flatten(bs + cs) == Flatten(bs) + Flatten(cs)
    decreases |cs|
  {
    if cs == [] {
      assert bs + cs == bs;
    } else {
      var n := |cs| - 1;
      assert (bs + cs)[..|bs + cs| - 1] == bs + cs[..n];
      FlattenAppend(bs, cs[..n]);
    }
  }

  /** The elements of the first `i + 1` buckets: those of the first `i`, then bucket `i`'s. */
  lemma FlattenPrefix<T>(bs: seq<seq<T>>, i: nat)
    requires i < |bs|
    ensures Flatten(bs[..i + 1]) == Flatten(bs[..i]) + bs[i]
  {
    assert bs[..i + 1][..i] == bs[..i];
  }

  /** Taking every bucket is taking the whole table. */
  lemma FlattenWhole<T>(bs: seq<seq<T>>)
    ensures Flatten(bs[..|bs|]) == Flatten(bs)
  {
    assert bs[..|bs|] == bs;
  }

  /** A table of empty buckets holds no elements. */
  lemma {:induction false} FlattenEmpty<T>(bs: seq<seq<T>>)
    requires forall i :: 0 <= i < |bs| ==> bs[i] == []
    ensures Flatten(bs) == []
    decreases |bs|
  {
    if bs != [] {
      FlattenEmpty(bs[..|bs| - 1]);
    }
  }

  /** Inserting `xs` and then `ys` is inserting `xs + ys`. */
  lemma {:induction false} InsertAllAppend<T>(cmp: (T, T) -> int, hash: T -> bv64, bs: seq<seq<T>>, xs: seq<T>, ys: seq<T>)
    requires |bs| > 0
    ensures InsertAll(cmp, hash, InsertAll(cmp, hash, bs, xs), ys) == InsertAll(cmp, hash, bs, xs + ys)
    decreases |ys|
  {
    if ys == [] {
      assert xs + ys == xs;
    } else {
      var n := |ys| - 1;
      assert (xs + ys)[..|xs + ys| - 1] == xs + ys[..n];
      InsertAllAppend(cmp, hash, bs, xs, ys[..n]);
    }
  }

  /** Replacing a bucket by elements that all belong to its slot keeps every element placed. */
  lemma PlacedUpdate<T>(hash: T -> bv64, bs: seq<seq<T>>, i: nat, s: seq<T>)
    requires Placed(hash, bs) && i < |bs|
    requires forall k :: 0 <= k < |s| ==> Slot(hash, |bs|, s[k]) == i
    ensures Placed(hash, bs[i := s])
  {
    var r := bs[i := s];
    forall a, b | 0 <= a < |r| && 0 <= b < |r[a]| ensures Slot(hash, |r|, r[a][b]) == a {
      if a != i {
        assert r[a][b] == bs[a][b];
      }
    }
  }

  /** Replacing one bucket changes the element count by the difference in its length. */
  lemma FlattenUpdate<T>(bs: seq<seq<T>>, i: nat, s: seq<T>)
    requires i < |bs|
    ensures |Flatten(bs[i := s])| + |bs[i]| == |Flatten(bs)| + |s|
  {
    assert [s][..0] == [] && [bs[i]][..0] == [];
    assert Flatten([s]) == s && Flatten([bs[i]]) == bs[i];
    assert bs == bs[..i] + [bs[i]] + bs[i + 1..];
    assert bs[i := s] == bs[..i] + [s] + bs[i + 1..];
    FlattenAppend(bs[..i] + [bs[i]], bs[i + 1..]);
    FlattenAppend(bs[..i], [bs[i]]);
    FlattenAppend(bs[..i] + [s], bs[i + 1..]);
    FlattenAppend(bs[..i], [s]);
  }

  lemma HoldsAppend<T>(cmp: (T, T) -> int, a: seq<T>, b: seq<T>, y: T)
    ensures Holds(cmp, a + b, y) <==> Holds(cmp, a, y) || Holds(cmp, b, y)
  {
    if Holds(cmp, a + b, y) {
      var i :| 0 <= i < |a + b| && cmp(y, (a + b)[i]) == 0;
      if i >= |a| {
        assert b[i - |a|] == (a + b)[i];
      }
    }
    if Holds(cmp, a, y) {
      var i :| 0 <= i < |a| && cmp(y, a[i]) == 0;
      assert (a + b)[i] == a[i];
    }
    if Holds(cmp, b, y) {
      var i :| 0 <= i < |b| && cmp(y, b[i]) == 0;
      assert (a + b)[i + |a|] == b[i];
    }
  }

  /** The visiting order holds exactly what the buckets hold. */
  lemma {:induction false} FlattenHolds<T>(cmp: (T, T) -> int, bs: seq<seq<T>>, y: T)
    ensures Holds(cmp, Flatten(bs), y) <==> TableHolds(cmp, bs, y)
    decreases |bs|
  {
    if bs != [] {
      var n := |bs| - 1;
      var init := bs[..n];
      FlattenHolds(cmp, init, y);
      HoldsAppend(cmp, Flatten(init), bs[n], y);
      if TableHolds(cmp, bs, y) {
        var i :| 0 <= i < |bs| && Holds(cmp, bs[i], y);
        if i < n {
          assert Holds(cmp, init[i], y);
        }
      }
      if TableHolds(cmp, init, y) {
        var i :| 0 <= i < n && Holds(cmp, init[i], y);
        assert Holds(cmp, bs[i], y);
      }
    }
  }

  /**
   * A scan from slot 0 finds `x` exactly when some bucket holds an equal
   * element, and what it finds is such an element.
   */
  lemma TableFindSpec<T(!new)>(cmp: (T, T) -> int, bs: seq<seq<T>>, x: T)
    requires TotalOrder(cmp) && AllSorted(cmp, bs)
    ensures TableFind(cmp, bs, x).None? <==> !TableHolds(cmp, bs, x)
    ensures TableFind(cmp, bs, x).Some? ==>
      cmp(x, TableFind(cmp, bs, x).value) == 0
      && exists i :: 0 <= i < |bs| && TableFind(cmp, bs, x).value in bs[i]
  {
    var i := FirstHit(cmp, bs, x);
    if i < |bs| {
      FindSortedSpec(cmp, bs[i], x);
    } else {
      forall j | 0 <= j < |bs| ensures !Holds(cmp, bs[j], x) {
        FindSortedSpec(cmp, bs[j], x);
      }
    }
  }

  /**
   * When the hash respects the comparator, the scan from slot 0 finds what
   * the queue of `x`'s own slot finds: no other bucket can hold an equal
   * element.
   */
  lemma TableFindInSlot<T(!new)>(cmp: (T, T) -> int, hash: T -> bv64, bs: seq<seq<T>>, x: T)
    requires TotalOrder(cmp) && AllSorted(cmp, bs) && Respects(cmp, hash) && Placed(hash, bs)
    ensures TableFind(cmp, bs, x) == FindSorted(cmp, bs[Slot(hash, |bs|, x)], x)
    ensures forall j :: 0 <= j < |bs| && j != Slot(hash, |bs|, x) ==> !Holds(cmp, bs[j], x)
  {
    var h := Slot(hash, |bs|, x);
    forall j | 0 <= j < |bs| && j != h
      ensures !Holds(cmp, bs[j], x) && FindSorted(cmp, bs[j], x) == None
    {
      FindSortedSpec(cmp, bs[j], x);
      forall k | 0 <= k < |bs[j]| ensures cmp(x, bs[j][k]) != 0 {
        assert Slot(hash, |bs|, bs[j][k]) == j;
      }
    }
    if FindSorted(cmp, bs[h], x).Some? {
      FirstHitIs(cmp, bs, x, h);
    } else {
      FirstHitIs(cmp, bs, x, |bs|);
    }
  }

  /**
   * Removing takes one element out of the first bucket that finds `x`, and
   * membership of everything not equal to `x` is unchanged.
   */
  lemma TableRemoveSpec<T(!new)>(cmp: (T, T) -> int, hash: T -> bv64, bs: seq<seq<T>>, x: T)
    requires TotalOrder(cmp) && AllSorted(cmp, bs)
    ensures AllSorted(cmp, TableRemove(cmp, bs, x))
    ensures Placed(hash, bs) ==> Placed(hash, TableRemove(cmp, bs, x))
    ensures |TableRemove(cmp, bs, x)| == |bs|
    ensures |Flatten(TableRemove(cmp, bs, x))| ==
      if TableFind(cmp, bs, x).Some? then |Flatten(bs)| - 1 else |Flatten(bs)|
    ensures forall y :: cmp(y, x) != 0 ==>
      (TableHolds(cmp, TableRemove(cmp, bs, x), y) <==> TableHolds(cmp, bs, y))
  {
    var i := FirstHit(cmp, bs, x);
    if i < |bs| {
      var r := TableRemove(cmp, bs, x);
      BucketRemoveSpec(cmp, hash, bs, i, x);
      forall y | cmp(y, x) != 0 ensures TableHolds(cmp, r, y) <==> TableHolds(cmp, bs, y) {
        RemoveSortedHolds(cmp, bs[i], x, y);
        if TableHolds(cmp, r, y) {
          var j :| 0 <= j < |r| && Holds(cmp, r[j], y);
          assert Holds(cmp, bs[j], y);
        }
        if TableHolds(cmp, bs, y) {
          var j :| 0 <= j < |bs| && Holds(cmp, bs[j], y);
          assert Holds(cmp, r[j], y);
        }
      }
    }
  }

  /**
   * Removing `x` from the queue of slot `i` keeps every bucket a valid chain
   * and every element in its slot, and takes one element off the count when
   * that queue finds `x`.
   */
  lemma BucketRemoveSpec<T(!new)>(cmp: (T, T) -> int, hash: T -> bv64, bs: seq<seq<T>>, i: nat, x: T)
    requires TotalOrder(cmp) && AllSorted(cmp, bs) && i < |bs|
    ensures AllSorted(cmp, bs[i := RemoveSorted(cmp, bs[i], x)])
    ensures Placed(hash, bs) ==> Placed(hash, bs[i := RemoveSorted(cmp, bs[i], x)])
    ensures |Flatten(bs[i := RemoveSorted(cmp, bs[i], x)])| ==
      if FindSorted(cmp, bs[i], x).Some? then |Flatten(bs)| - 1 else |Flatten(bs)|
  {
    var t := RemoveSorted(cmp, bs[i], x);
    RemoveSortedSorted(cmp, bs[i], x);
    RemoveSortedFrom(cmp, bs[i], x);
    FlattenUpdate(bs, i, t);
    if Placed(hash, bs) {
      forall k | 0 <= k < |t| ensures Slot(hash, |bs|, t[k]) == i {
        var m :| 0 <= m < |bs[i]| && bs[i][m] == t[k];
        assert Slot(hash, |bs|, bs[i][m]) == i;
      }
      PlacedUpdate(hash, bs, i, t);
    }
  }

  /**
   * When the hash respects the comparator, removing leaves no element equal
   * to `x` anywhere in the table.
   */
  lemma TableRemoveAll<T(!new)>(cmp: (T, T) -> int, hash: T -> bv64, bs: seq<seq<T>>, x: T)
    requires TotalOrder(cmp) && AllSorted(cmp, bs) && Respects(cmp, hash) && Placed(hash, bs)
    ensures !TableHolds(cmp, TableRemove(cmp, bs, x), x)
  {
    var i := FirstHit(cmp, bs, x);
    var r := TableRemove(cmp, bs, x);
    TableFindInSlot(cmp, hash, bs, x);
    TableFindSpec(cmp, bs, x);
    if i < |bs| {
      FindSortedSpec(cmp, bs[i], x);
      RemoveSortedContents(cmp, bs[i], x);
      assert forall j :: 0 <= j < |r| && j != i ==> r[j] == bs[j];
    }
  }

  /**
   * Inserting places `x` in its slot's bucket, which stays a valid chain; the
   * count grows by one unless that bucket already held an equal element.
   */
  lemma TableInsertSpec<T(!new)>(cmp: (T, T) -> int, hash: T -> bv64, bs: seq<seq<T>>, x: T)
    requires TotalOrder(cmp) && AllSorted(cmp, bs) && |bs| > 0
    ensures AllSorted(cmp, TableInsert(cmp, hash, bs, x))
    ensures Placed(hash, bs) ==> Placed(hash, TableInsert(cmp, hash, bs, x))
    ensures |Flatten(TableInsert(cmp, hash, bs, x))| ==
      if Holds(cmp, bs[Slot(hash, |bs|, x)], x) then |Flatten(bs)| else |Flatten(bs)| + 1
  {
    var h := Slot(hash, |bs|, x);
    var t := InsertSorted(cmp, bs[h], x);
    InsertSortedSorted(cmp, bs[h], x);
    InsertSortedFrom(cmp, bs[h], x);
    InsertSortedContents(cmp, bs[h], x);
    assert |multiset(t)| == |t| && |multiset(bs[h])| == |bs[h]|;
    FlattenUpdate(bs, h, t);
    if Placed(hash, bs) {
      forall k | 0 <= k < |t| ensures Slot(hash, |bs|, t[k]) == h {
        if t[k] != x {
          var m :| 0 <= m < |bs[h]| && bs[h][m] == t[k];
          assert Slot(hash, |bs|, bs[h][m]) == h;
        }
      }
      PlacedUpdate(hash, bs, h, t);
    }
  }

  /** Inserting adds to the membership exactly the elements equal to `x`. */
  lemma TableInsertHolds<T(!new)>(cmp: (T, T) -> int, hash: T -> bv64, bs: seq<seq<T>>, x: T, y: T)
    requires TotalOrder(cmp) && AllSorted(cmp, bs) && |bs| > 0
    ensures TableHolds(cmp, TableInsert(cmp, hash, bs, x), y) <==> TableHolds(cmp, bs, y) || cmp(y, x) == 0
  {
    var h := Slot(hash, |bs|, x);
    var r := TableInsert(cmp, hash, bs, x);
    InsertSortedHolds(cmp, bs[h], x, y);
    if TableHolds(cmp, r, y) {
      var j :| 0 <= j < |r| && Holds(cmp, r[j], y);
      if j != h {
        assert Holds(cmp, bs[j], y);
      }
    }
    if TableHolds(cmp, bs, y) {
      var j :| 0 <= j < |bs| && Holds(cmp, bs[j], y);
      assert Holds(cmp, r[j], y);
    }
    if cmp(y, x) == 0 {
      assert Holds(cmp, r[h], y);
    }
  }

  /** Inserting a sequence of elements adds exactly their membership. */
  lemma {:induction false} InsertAllSpec<T(!new)>(cmp: (T, T) -> int, hash: T -> bv64, bs: seq<seq<T>>, xs: seq<T>)
    requires TotalOrder(cmp) && AllSorted(cmp, bs) && |bs| > 0
    ensures AllSorted(cmp, InsertAll(cmp, hash, bs, xs))
    ensures Placed(hash, bs) ==> Placed(hash, InsertAll(cmp, hash, bs, xs))
    ensures forall y :: TableHolds(cmp, InsertAll(cmp, hash, bs, xs), y) <==>
      TableHolds(cmp, bs, y) || Holds(cmp, xs, y)
    decreases |xs|
  {
    if xs != [] {
      var n := |xs| - 1;
      var init := InsertAll(cmp, hash, bs, xs[..n]);
      InsertAllSpec(cmp, hash, bs, xs[..n]);
      TableInsertSpec(cmp, hash, init, xs[n]);
      assert xs == xs[..n] + [xs[n]];
      forall y ensures TableHolds(cmp, InsertAll(cmp, hash, bs, xs), y) <==>
        TableHolds(cmp, bs, y) || Holds(cmp, xs, y)
      {
        HoldsAppend(cmp, xs[..n], [xs[n]], y);
        TableInsertHolds(cmp, hash, init, xs[n], y);
        assert Holds(cmp, [xs[n]], y) <==> cmp(y, xs[n]) == 0;
      }
    }
  }

  /**
   * Rehashing inserts every element, in visiting order, into a table of
   * empty buckets: the new table holds what the old one held, with every
   * element in its slot.
   */
  lemma RehashSpec<T(!new)>(cmp: (T, T) -> int, hash: T -> bv64, bs: seq<seq<T>>, n: nat)
    requires TotalOrder(cmp) && AllSorted(cmp, bs) && n > 0
    ensures AllSorted(cmp, InsertAll(cmp, hash, Empty(n), Flatten(bs)))
    ensures Placed(hash, InsertAll(cmp, hash, Empty(n), Flatten(bs)))
    ensures forall y :: TableHolds(cmp, InsertAll(cmp, hash, Empty(n), Flatten(bs)), y) <==>
      TableHolds(cmp, bs, y)
  {
    var e: seq<seq<T>> := Empty(n);
    assert AllSorted(cmp, e) && Placed(hash, e);
    InsertAllSpec(cmp, hash, e, Flatten(bs));
    forall y ensures !TableHolds(cmp, e, y) && (Holds(cmp, Flatten(bs), y) <==> TableHolds(cmp, bs, y)) {
      FlattenHolds(cmp, bs, y);
    }
  }
}
