/**
 * The ordering that every queue (and so every hash-table bucket) relies on.
 *
 * A container is given a comparator `cmp` that reports -1, 0 or 1 and is
 * required to be a linear order. The three answers are required because the
 * C `switch` statements of enqueue and remove handle no other value. Two
 * elements with `cmp(a, b) == 0` count as the same element: a queue never
 * holds two of them. Such elements need not be identical values, which is
 * why `Find` returns the stored element.
 */
module Orders {
  import opened Wrappers

  /**
   * The comparator laws for three elements: answers are -1, 0 or 1, swapping
   * the arguments negates the answer, "below" is transitive, and elements
   * comparing equal compare alike with everything else.
   */
  ghost predicate Laws<T>(cmp: (T, T) -> int, a: T, b: T, c: T)
  {
    && -1 <= cmp(a, b) <= 1
    && cmp(a, b) == -cmp(b, a)
    && (cmp(a, b) == -1 && cmp(b, c) == -1 ==> cmp(a, c) == -1)
    && (cmp(a, b) == 0 ==> cmp(a, c) == cmp(b, c))
  }

  /**
   * The comparator is a linear order. Proofs use it one instance at a time,
   * by naming `Laws(cmp, a, b, c)` for the elements at hand.
   */
  ghost predicate TotalOrder<T(!new)>(cmp: (T, T) -> int)
  {
    forall a, b, c :: Laws(cmp, a, b, c)
  }

  /** Strictly increasing from head to tail: no two elements compare equal. */
  ghost predicate Sorted<T>(cmp: (T, T) -> int, s: seq<T>)
  {
    forall i, j {:trigger cmp(s[i], s[j])} :: 0 <= i < j < |s| ==> cmp(s[i], s[j]) == -1
  }

  /** `x` compares equal to some element of `s`. */
  ghost predicate Holds<T>(cmp: (T, T) -> int, s: seq<T>, x: T)
  {
    exists i :: 0 <= i < |s| && cmp(x, s[i]) == 0
  }

  /**
   * The number of leading elements of `s` that are below `x`: the position a
   * scan from the head stops at.
   */
  function Rank<T>(cmp: (T, T) -> int, s: seq<T>, x: T): (r: nat)
    ensures r <= |s|
    ensures forall j :: 0 <= j < r ==> cmp(x, s[j]) == 1
    ensures r < |s| ==> cmp(x, s[r]) != 1
  {
    if s == [] || cmp(x, s[0]) != 1 then 0 else 1 + Rank(cmp, s[1..], x)
  }

  /** The element of `s` that compares equal to `x`, if any. */
  function FindSorted<T>(cmp: (T, T) -> int, s: seq<T>, x: T): Option<T>
  {
    var k := Rank(cmp, s, x);
    if k < |s| && cmp(x, s[k]) == 0 then Some(s[k]) else None
  }

  /** `s` with `x` placed at its rank, unless an equal element is present. */
  function InsertSorted<T>(cmp: (T, T) -> int, s: seq<T>, x: T): seq<T>
  {
    var k := Rank(cmp, s, x);
    if k < |s| && cmp(x, s[k]) == 0 then s else s[..k] + [x] + s[k..]
  }

  /** `s` without the element that compares equal to `x`, if any. */
  function RemoveSorted<T>(cmp: (T, T) -> int, s: seq<T>, x: T): seq<T>
  {
    var k := Rank(cmp, s, x);
    if k < |s| && cmp(x, s[k]) == 0 then s[..k] + s[k + 1..] else s
  }

  /** A scan position with only smaller elements before it and none after is the rank. */
  lemma RankIs<T>(cmp: (T, T) -> int, s: seq<T>, x: T, k: nat)
    requires k <= |s|
    requires forall j :: 0 <= j < k ==> cmp(x, s[j]) == 1
    requires k < |s| ==> cmp(x, s[k]) != 1
    ensures Rank(cmp, s, x) == k
  {
  }

  /**
   * Comparing with the tail alone settles the rank of `x` when `x` is not
   * below the tail.
   */
  lemma RankAtTail<T(!new)>(cmp: (T, T) -> int, s: seq<T>, x: T)
    requires TotalOrder(cmp) && Sorted(cmp, s) && s != []
    ensures cmp(x, s[|s| - 1]) == 0 ==> Rank(cmp, s, x) == |s| - 1
    ensures cmp(x, s[|s| - 1]) == 1 ==> Rank(cmp, s, x) == |s|
  {
    var last := |s| - 1;
    if cmp(x, s[last]) == 0 {
      forall j | 0 <= j < last ensures cmp(x, s[j]) == 1 {
        assert cmp(s[j], s[last]) == -1;
        assert Laws(cmp, x, s[last], s[j]) && Laws(cmp, s[last], s[j], x);
      }
      RankIs(cmp, s, x, last);
    } else if cmp(x, s[last]) == 1 {
      forall j | 0 <= j < last ensures cmp(x, s[j]) == 1 {
        assert cmp(s[j], s[last]) == -1;
        assert Laws(cmp, x, s[last], x) && Laws(cmp, s[j], s[last], x) && Laws(cmp, x, s[j], x);
      }
      RankIs(cmp, s, x, |s|);
    }
  }

  /** In a sorted sequence everything from the rank on is at least `x`. */
  lemma AboveRank<T(!new)>(cmp: (T, T) -> int, s: seq<T>, x: T, j: int)
    requires TotalOrder(cmp) && Sorted(cmp, s)
    requires Rank(cmp, s, x) <= j < |s|
    ensures cmp(x, s[j]) != 1
    ensures Rank(cmp, s, x) < j ==> cmp(x, s[j]) == -1
  {
    var k := Rank(cmp, s, x);
    if k < j {
      assert cmp(s[k], s[j]) == -1;
      assert Laws(cmp, x, s[k], s[j]);
    }
  }

  /** `FindSorted` answers exactly the membership question, and returns a member. */
  lemma FindSortedSpec<T(!new)>(cmp: (T, T) -> int, s: seq<T>, x: T)
    requires TotalOrder(cmp) && Sorted(cmp, s)
    ensures FindSorted(cmp, s, x).None? <==> !Holds(cmp, s, x)
    ensures FindSorted(cmp, s, x).Some? ==>
      FindSorted(cmp, s, x).value in s && cmp(x, FindSorted(cmp, s, x).value) == 0
  {
    var k := Rank(cmp, s, x);
    if FindSorted(cmp, s, x).None? {
      forall i | 0 <= i < |s| ensures cmp(x, s[i]) != 0 {
        if i >= k {
          AboveRank(cmp, s, x, i);
        }
      }
    }
  }

  /** Position `i` of `s` after `x` is put at position `k`. */
  ghost function InsertedAt<T>(s: seq<T>, x: T, k: int, i: int): T
    requires 0 <= k <= |s| && 0 <= i <= |s|
  {
    if i < k then s[i] else if i == k then x else s[i - 1]
  }

  /** Any two positions of the inserted-into sequence are in order. */
  lemma InsertedPairOrdered<T(!new)>(cmp: (T, T) -> int, s: seq<T>, x: T, i: int, j: int)
    requires TotalOrder(cmp) && Sorted(cmp, s)
    requires Rank(cmp, s, x) == |s| || cmp(x, s[Rank(cmp, s, x)]) != 0
    requires 0 <= i < j <= |s|
    ensures cmp(InsertedAt(s, x, Rank(cmp, s, x), i), InsertedAt(s, x, Rank(cmp, s, x), j)) == -1
  {
    var k := Rank(cmp, s, x);
    if j == k {
      assert Laws(cmp, x, s[i], x);
    } else if i == k {
      AboveRank(cmp, s, x, j - 1);
      assert Laws(cmp, x, s[j - 1], x);
    }
  }

  /** Inserting keeps the sequence strictly increasing. */
  lemma InsertSortedSorted<T(!new)>(cmp: (T, T) -> int, s: seq<T>, x: T)
    requires TotalOrder(cmp) && Sorted(cmp, s)
    ensures Sorted(cmp, InsertSorted(cmp, s, x))
  {
    var k := Rank(cmp, s, x);
    if !(k < |s| && cmp(x, s[k]) == 0) {
      var t := InsertSorted(cmp, s, x);
      assert forall i :: 0 <= i < |t| ==> t[i] == InsertedAt(s, x, k, i);
      forall i, j | 0 <= i < j < |t| ensures cmp(t[i], t[j]) == -1 {
        InsertedPairOrdered(cmp, s, x, i, j);
      }
    }
  }

  /**
   * Inserting adds exactly `x` when no equal element is present and changes
   * nothing otherwise; either way `x` can then be found.
   */
  lemma InsertSortedContents<T(!new)>(cmp: (T, T) -> int, s: seq<T>, x: T)
    requires TotalOrder(cmp) && Sorted(cmp, s)
    ensures Holds(cmp, s, x) ==> InsertSorted(cmp, s, x) == s
    ensures !Holds(cmp, s, x) ==>
      multiset(InsertSorted(cmp, s, x)) == multiset(s) + multiset{x}
    ensures Holds(cmp, InsertSorted(cmp, s, x), x)
  {
    FindSortedSpec(cmp, s, x);
    var k := Rank(cmp, s, x);
    var t := InsertSorted(cmp, s, x);
    if !Holds(cmp, s, x) {
      assert t == s[..k] + [x] + s[k..];
      assert s == s[..k] + s[k..];
      assert multiset(t) == multiset(s[..k]) + multiset{x} + multiset(s[k..]);
      assert t[k] == x && Laws(cmp, x, x, x);
    } else {
      assert t == s && cmp(x, s[k]) == 0;
    }
  }

  /** Inserting adds nothing but `x`. */
  lemma InsertSortedFrom<T>(cmp: (T, T) -> int, s: seq<T>, x: T)
    ensures forall i :: 0 <= i < |InsertSorted(cmp, s, x)| ==>
      InsertSorted(cmp, s, x)[i] == x || InsertSorted(cmp, s, x)[i] in s
  {
    var k := Rank(cmp, s, x);
    if !(k < |s| && cmp(x, s[k]) == 0) {
      var t := InsertSorted(cmp, s, x);
      forall i | 0 <= i < |t| ensures t[i] == x || t[i] in s {
        if i < k {
          assert t[i] == s[i];
        } else if i > k {
          assert t[i] == s[i - 1];
        }
      }
    }
  }

  /**
   * Membership up to the comparator after inserting: what was there, and
   * whatever compares equal to `x`.
   */
  lemma InsertSortedHolds<T(!new)>(cmp: (T, T) -> int, s: seq<T>, x: T, y: T)
    requires TotalOrder(cmp) && Sorted(cmp, s)
    ensures Holds(cmp, InsertSorted(cmp, s, x), y) <==> Holds(cmp, s, y) || cmp(y, x) == 0
  {
    var k := Rank(cmp, s, x);
    var t := InsertSorted(cmp, s, x);
    if k < |s| && cmp(x, s[k]) == 0 {
      assert Laws(cmp, y, x, s[k]);
    } else {
      assert forall i :: 0 <= i < |t| ==> t[i] == InsertedAt(s, x, k, i);
      if Holds(cmp, t, y) {
        var i :| 0 <= i < |t| && cmp(y, t[i]) == 0;
        if i < k {
          assert cmp(y, s[i]) == 0;
        } else if i > k {
          assert cmp(y, s[i - 1]) == 0;
        }
      }
      if Holds(cmp, s, y) {
        var i :| 0 <= i < |s| && cmp(y, s[i]) == 0;
        if i < k {
          assert cmp(y, t[i]) == 0;
        } else {
          assert cmp(y, t[i + 1]) == 0;
        }
      }
      if cmp(y, x) == 0 {
        assert cmp(y, t[k]) == 0;
      }
    }
  }

  /** Removing leaves nothing that was not there. */
  lemma RemoveSortedFrom<T>(cmp: (T, T) -> int, s: seq<T>, x: T)
    ensures forall i :: 0 <= i < |RemoveSorted(cmp, s, x)| ==> RemoveSorted(cmp, s, x)[i] in s
    ensures |RemoveSorted(cmp, s, x)| == if FindSorted(cmp, s, x).Some? then |s| - 1 else |s|
  {
    var k := Rank(cmp, s, x);
    if k < |s| && cmp(x, s[k]) == 0 {
      var t := RemoveSorted(cmp, s, x);
      assert forall i :: 0 <= i < k ==> t[i] == s[i];
      assert forall i :: k <= i < |t| ==> t[i] == s[i + 1];
    }
  }

  /** Removing keeps the sequence strictly increasing. */
  lemma RemoveSortedSorted<T>(cmp: (T, T) -> int, s: seq<T>, x: T)
    requires Sorted(cmp, s)
    ensures Sorted(cmp, RemoveSorted(cmp, s, x))
  {
    var k := Rank(cmp, s, x);
    if k < |s| && cmp(x, s[k]) == 0 {
      var t := RemoveSorted(cmp, s, x);
      assert forall i :: 0 <= i < k ==> t[i] == s[i];
      assert forall i :: k <= i < |t| ==> t[i] == s[i + 1];
      forall i, j | 0 <= i < j < |t| ensures cmp(t[i], t[j]) == -1 {
        var i', j' := if i < k then i else i + 1, if j < k then j else j + 1;
        assert t[i] == s[i'] && t[j] == s[j'] && i' < j';
      }
    }
  }

  /** After removing, nothing equal to `x` is left. */
  lemma RemoveSortedMisses<T(!new)>(cmp: (T, T) -> int, s: seq<T>, x: T)
    requires TotalOrder(cmp) && Sorted(cmp, s)
    ensures !Holds(cmp, RemoveSorted(cmp, s, x), x)
  {
    var k := Rank(cmp, s, x);
    if k < |s| && cmp(x, s[k]) == 0 {
      var t := RemoveSorted(cmp, s, x);
      forall i | 0 <= i < |t| ensures cmp(x, t[i]) != 0 {
        if i < k {
          assert t[i] == s[i];
        } else {
          assert t[i] == s[i + 1];
          AboveRank(cmp, s, x, i + 1);
        }
      }
    } else {
      FindSortedSpec(cmp, s, x);
    }
  }

  /** Removing takes out the element `FindSorted` reports and nothing else. */
  lemma RemoveSortedTakes<T>(cmp: (T, T) -> int, s: seq<T>, x: T)
    ensures FindSorted(cmp, s, x).Some? ==>
      multiset(RemoveSorted(cmp, s, x)) + multiset{FindSorted(cmp, s, x).value} == multiset(s)
  {
    var k := Rank(cmp, s, x);
    if k < |s| && cmp(x, s[k]) == 0 {
      assert s == s[..k] + [s[k]] + s[k + 1..];
    }
  }

  /**
   * Removing takes out exactly the element `FindSorted` reports, after which
   * nothing equal to `x` is left.
   */
  lemma RemoveSortedContents<T(!new)>(cmp: (T, T) -> int, s: seq<T>, x: T)
    requires TotalOrder(cmp) && Sorted(cmp, s)
    ensures FindSorted(cmp, s, x).None? ==> RemoveSorted(cmp, s, x) == s
    ensures FindSorted(cmp, s, x).Some? ==>
      multiset(RemoveSorted(cmp, s, x)) + multiset{FindSorted(cmp, s, x).value} == multiset(s)
    ensures !Holds(cmp, RemoveSorted(cmp, s, x), x)
  {
    RemoveSortedTakes(cmp, s, x);
    RemoveSortedMisses(cmp, s, x);
  }

  /** Membership up to the comparator after removing: what was there, except `x`. */
  lemma RemoveSortedHolds<T(!new)>(cmp: (T, T) -> int, s: seq<T>, x: T, y: T)
    requires TotalOrder(cmp) && Sorted(cmp, s)
    ensures Holds(cmp, RemoveSorted(cmp, s, x), y) <==> Holds(cmp, s, y) && cmp(y, x) != 0
  {
    var k := Rank(cmp, s, x);
    var t := RemoveSorted(cmp, s, x);
    RemoveSortedContents(cmp, s, x);
    assert Laws(cmp, y, x, y) && Laws(cmp, x, y, x);
    if k < |s| && cmp(x, s[k]) == 0 {
      if Holds(cmp, t, y) {
        var i :| 0 <= i < |t| && cmp(y, t[i]) == 0;
        assert Laws(cmp, x, y, t[i]);
        assert t[i] == if i < k then s[i] else s[i + 1];
      }
      if Holds(cmp, s, y) && cmp(y, x) != 0 {
        var i :| 0 <= i < |s| && cmp(y, s[i]) == 0;
        assert Laws(cmp, y, s[i], x) && Laws(cmp, x, s[k], x);
        assert i != k;
        assert s[i] == if i < k then t[i] else t[i - 1];
      }
    } else {
      FindSortedSpec(cmp, s, x);
      if Holds(cmp, s, y) {
        var i :| 0 <= i < |s| && cmp(y, s[i]) == 0;
        assert Laws(cmp, x, y, s[i]);
      }
    }
  }

  /** Removing a freshly inserted element gives back the original sequence. */
  lemma RemoveInsert<T(!new)>(cmp: (T, T) -> int, s: seq<T>, x: T)
    requires TotalOrder(cmp) && Sorted(cmp, s)
    requires !Holds(cmp, s, x)
    ensures RemoveSorted(cmp, InsertSorted(cmp, s, x), x) == s
  {
    FindSortedSpec(cmp, s, x);
    var k := Rank(cmp, s, x);
    var t := InsertSorted(cmp, s, x);
    assert t[k] == x && Laws(cmp, x, x, x);
    RankIs(cmp, t, x, k);
    assert t[..k] + t[k + 1..] == s;
  }

  /** Inserting twice is inserting once. */
  lemma InsertSortedIdempotent<T(!new)>(cmp: (T, T) -> int, s: seq<T>, x: T)
    requires TotalOrder(cmp) && Sorted(cmp, s)
    ensures InsertSorted(cmp, InsertSorted(cmp, s, x), x) == InsertSorted(cmp, s, x)
  {
    InsertSortedSorted(cmp, s, x);
    InsertSortedContents(cmp, s, x);
    InsertSortedContents(cmp, InsertSorted(cmp, s, x), x);
  }
}
