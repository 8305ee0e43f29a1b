/**
 * The capacity ladder shared by both hash tables (`_primes` in src/hashtabs.c
 * and src/deephashtabs.c): 45 primes, each about one and a half times the
 * one before, followed by SIZE_MAX.
 */
module Primes {
  /** The number of primes on the ladder (NPRIMES). */
  const NumPrimes := 45
  /** SIZE_MAX of a 64-bit size_t, the entry after the last prime. */
  const SizeMax := 0xFFFF_FFFF_FFFF_FFFF

  /**
   * Entry `i` of the ladder. It is looked up rung by rung, so that a proof
   * about an unknown index does not unfold the whole table.
   */
  function Prime(i: nat): (p: nat)
    requires i <= NumPrimes
    ensures 11 <= p <= SizeMax
  {
    RungFrom(0, i)
  }

  /** Entry `i` of the ladder, found by stepping up from rung `k`. */
  function RungFrom(k: nat, i: nat): (p: nat)
    requires k <= i
    ensures 11 <= p <= SizeMax
    decreases i - k
  {
    if k == i then Rung(k) else RungFrom(k + 1, i)
  }

  /** The table of rungs: `_primes` entry by entry. */
  function Rung(i: nat): (p: nat)
    ensures 11 <= p <= SizeMax
  {
    match i
    case 0 => 11
    case 1 => 17
    case 2 => 29
    case 3 => 43
    case 4 => 67
    case 5 => 101
    case 6 => 151
    case 7 => 227
    case 8 => 347
    case 9 => 521
    case 10 => 787
    case 11 => 1181
    case 12 => 1777
    case 13 => 2671
    case 14 => 4007
    case 15 => 6011
    case 16 => 9029
    case 17 => 13553
    case 18 => 20333
    case 19 => 30509
    case 20 => 45763
    case 21 => 68659
    case 22 => 103001
    case 23 => 154501
    case 24 => 231779
    case 25 => 347671
    case 26 => 521519
    case 27 => 782297
    case 28 => 1173463
    case 29 => 1760203
    case 30 => 2640317
    case 31 => 3960497
    case 32 => 5940761
    case 33 => 8911141
    case 34 => 13366711
    case 35 => 20050081
    case 36 => 30075127
    case 37 => 45112693
    case 38 => 67669079
    case 39 => 101503627
    case 40 => 152255461
    case 41 => 228383273
    case 42 => 342574909
    case 43 => 513862367
    case 44 => 770793589
    case _ => SizeMax
  }

  /** Stepping up from any rung at or below `i` reaches the table's entry `i`. */
  lemma {:induction false} RungFromIs(k: nat, i: nat)
    requires k <= i
    ensures RungFrom(k, i) == Rung(i)
    decreases i - k
  {
    if k < i {
      RungFromIs(k + 1, i);
    }
  }

  /**
   * From rung `k` up, each entry is larger than the one before it and, up to
   * the last prime, more than 37/25 of it.
   */
  ghost predicate LadderFrom(k: nat)
    decreases NumPrimes - k
  {
    k >= NumPrimes ||
    (&& Rung(k) < Rung(k + 1)
     && (k + 1 < NumPrimes ==> 25 * Rung(k + 1) > 37 * Rung(k))
     && LadderFrom(k + 1))
  }

  /*
   * The ladder is checked entry by entry, nine rungs per lemma, from the top
   * down.
   */
  lemma LadderFrom36()
    ensures LadderFrom(36)
  {
  }

  lemma LadderFrom27()
    ensures LadderFrom(27)
  {
    LadderFrom36();
  }

  lemma LadderFrom18()
    ensures LadderFrom(18)
  {
    LadderFrom27();
  }

  lemma LadderFrom9()
    ensures LadderFrom(9)
  {
    LadderFrom18();
  }

  /** The whole ladder grows as `LadderFrom` says. */
  lemma Ladder()
    ensures LadderFrom(0)
  {
    LadderFrom9();
  }

  /** What holds from a rung holds from every rung above it. */
  lemma {:induction false} LadderFromAbove(k: nat, i: nat)
    requires k <= i && LadderFrom(k)
    ensures LadderFrom(i)
    decreases i - k
  {
    if k < i {
      LadderFromAbove(k + 1, i);
    }
  }

  /** Each rung is larger than the one before. */
  lemma PrimeStep(i: nat)
    requires i < NumPrimes
    ensures Prime(i) < Prime(i + 1)
  {
    Ladder();
    LadderFromAbove(0, i);
    RungFromIs(0, i);
    RungFromIs(0, i + 1);
  }

  /** The ladder is strictly increasing. */
  lemma {:induction false} PrimeIncreasing(i: nat, j: nat)
    requires i < j <= NumPrimes
    ensures Prime(i) < Prime(j)
    decreases j - i
  {
    PrimeStep(i);
    if i + 1 < j {
      PrimeIncreasing(i + 1, j);
    }
  }

  /**
   * Between primes each rung grows by more than 37/25 (1.48); it is below
   * one and a half at 29 to 43 and at six other steps.
   */
  lemma PrimeGrowth(i: nat)
    requires i + 1 < NumPrimes
    ensures 25 * Prime(i + 1) > 37 * Prime(i)
  {
    Ladder();
    LadderFromAbove(0, i);
    RungFromIs(0, i);
    RungFromIs(0, i + 1);
  }

  /**
   * The capacity index for a requested size `n`: the first rung above `n`,
   * or NumPrimes when `n` is at least the last prime.
   */
  method GetCapIndex(n: nat) returns (i: nat)
    ensures i <= NumPrimes
    ensures forall j :: 0 <= j < i ==> Prime(j) <= n
    ensures i < NumPrimes ==> n < Prime(i)
  {
    i := 0;
    while i < NumPrimes && n >= Prime(i)
      invariant i <= NumPrimes
      invariant forall j :: 0 <= j < i ==> Prime(j) <= n
    {
      i := i + 1;
    }
  }

  /**
   * The result of `GetCapIndex` is determined by `n`: only one index has the
   * properties it promises.
   */
  lemma CapIndexUnique(n: nat, i: nat, i': nat)
    requires i <= NumPrimes && i' <= NumPrimes
    requires forall j :: 0 <= j < i ==> Prime(j) <= n
    requires i < NumPrimes ==> n < Prime(i)
    requires forall j :: 0 <= j < i' ==> Prime(j) <= n
    requires i' < NumPrimes ==> n < Prime(i')
    ensures i == i'
  {
  }

  /**
   * Asking for a capacity equal to rung `i` yields index `i + 1`: rehashing
   * moves exactly one rung up the ladder.
   */
  lemma {:induction false} CapIndexOfPrime(i: nat, r: nat)
    requires i < NumPrimes && r <= NumPrimes
    requires forall j :: 0 <= j < r ==> Prime(j) <= Prime(i)
    requires r < NumPrimes ==> Prime(i) < Prime(r)
    ensures r == i + 1
  {
    forall j | 0 <= j < i + 1 ensures Prime(j) <= Prime(i) {
      if j < i {
        PrimeIncreasing(j, i);
      }
    }
    PrimeStep(i);
    CapIndexUnique(Prime(i), r, i + 1);
  }
}
