/**
 * Set words (include/bit_sets.h): a set over 0..63 packed into one unsigned
 * 64-bit word, element `i` being bit `i`, with the lookup tables and word
 * operations the bit sets are built from.
 *
 * Bit indices are ints, as in the source. Facts about a bit at a symbolic
 * index go through the word `Bit(i)` it selects: that word has exactly one
 * bit set, and the order of indices is the order of their words.
 */
module BitWords {
  /** One set word. */
  type Word = bv64

  /** `_BITT`: the power of two `2^i`, the word holding element `i` alone. */
  function Bit(i: nat): Word
    requires i < 64
  {
    (1 as Word) << (i as bv8)
  }

  /** `_BITTCOUNT`: the number of elements of a one-byte set. */
  function BitCount(b: bv8): nat
  {
    match b >> 4
    case 0 => (match b & 15 case 0 => 0 case 1 => 1 case 2 => 1 case 3 => 2 case 4 => 1 case 5 => 2 case 6 => 2 case 7 => 3 case 8 => 1 case 9 => 2 case 10 => 2 case 11 => 3 case 12 => 2 case 13 => 3 case 14 => 3 case _ => 4)
    case 1 => (match b & 15 case 0 => 1 case 1 => 2 case 2 => 2 case 3 => 3 case 4 => 2 case 5 => 3 case 6 => 3 case 7 => 4 case 8 => 2 case 9 => 3 case 10 => 3 case 11 => 4 case 12 => 3 case 13 => 4 case 14 => 4 case _ => 5)
    case 2 => (match b & 15 case 0 => 1 case 1 => 2 case 2 => 2 case 3 => 3 case 4 => 2 case 5 => 3 case 6 => 3 case 7 => 4 case 8 => 2 case 9 => 3 case 10 => 3 case 11 => 4 case 12 => 3 case 13 => 4 case 14 => 4 case _ => 5)
    case 3 => (match b & 15 case 0 => 2 case 1 => 3 case 2 => 3 case 3 => 4 case 4 => 3 case 5 => 4 case 6 => 4 case 7 => 5 case 8 => 3 case 9 => 4 case 10 => 4 case 11 => 5 case 12 => 4 case 13 => 5 case 14 => 5 case _ => 6)
    case 4 => (match b & 15 case 0 => 1 case 1 => 2 case 2 => 2 case 3 => 3 case 4 => 2 case 5 => 3 case 6 => 3 case 7 => 4 case 8 => 2 case 9 => 3 case 10 => 3 case 11 => 4 case 12 => 3 case 13 => 4 case 14 => 4 case _ => 5)
    case 5 => (match b & 15 case 0 => 2 case 1 => 3 case 2 => 3 case 3 => 4 case 4 => 3 case 5 => 4 case 6 => 4 case 7 => 5 case 8 => 3 case 9 => 4 case 10 => 4 case 11 => 5 case 12 => 4 case 13 => 5 case 14 => 5 case _ => 6)
    case 6 => (match b & 15 case 0 => 2 case 1 => 3 case 2 => 3 case 3 => 4 case 4 => 3 case 5 => 4 case 6 => 4 case 7 => 5 case 8 => 3 case 9 => 4 case 10 => 4 case 11 => 5 case 12 => 4 case 13 => 5 case 14 => 5 case _ => 6)
    case 7 => (match b & 15 case 0 => 3 case 1 => 4 case 2 => 4 case 3 => 5 case 4 => 4 case 5 => 5 case 6 => 5 case 7 => 6 case 8 => 4 case 9 => 5 case 10 => 5 case 11 => 6 case 12 => 5 case 13 => 6 case 14 => 6 case _ => 7)
    case 8 => (match b & 15 case 0 => 1 case 1 => 2 case 2 => 2 case 3 => 3 case 4 => 2 case 5 => 3 case 6 => 3 case 7 => 4 case 8 => 2 case 9 => 3 case 10 => 3 case 11 => 4 case 12 => 3 case 13 => 4 case 14 => 4 case _ => 5)
    case 9 => (match b & 15 case 0 => 2 case 1 => 3 case 2 => 3 case 3 => 4 case 4 => 3 case 5 => 4 case 6 => 4 case 7 => 5 case 8 => 3 case 9 => 4 case 10 => 4 case 11 => 5 case 12 => 4 case 13 => 5 case 14 => 5 case _ => 6)
    case 10 => (match b & 15 case 0 => 2 case 1 => 3 case 2 => 3 case 3 => 4 case 4 => 3 case 5 => 4 case 6 => 4 case 7 => 5 case 8 => 3 case 9 => 4 case 10 => 4 case 11 => 5 case 12 => 4 case 13 => 5 case 14 => 5 case _ => 6)
    case 11 => (match b & 15 case 0 => 3 case 1 => 4 case 2 => 4 case 3 => 5 case 4 => 4 case 5 => 5 case 6 => 5 case 7 => 6 case 8 => 4 case 9 => 5 case 10 => 5 case 11 => 6 case 12 => 5 case 13 => 6 case 14 => 6 case _ => 7)
    case 12 => (match b & 15 case 0 => 2 case 1 => 3 case 2 => 3 case 3 => 4 case 4 => 3 case 5 => 4 case 6 => 4 case 7 => 5 case 8 => 3 case 9 => 4 case 10 => 4 case 11 => 5 case 12 => 4 case 13 => 5 case 14 => 5 case _ => 6)
    case 13 => (match b & 15 case 0 => 3 case 1 => 4 case 2 => 4 case 3 => 5 case 4 => 4 case 5 => 5 case 6 => 5 case 7 => 6 case 8 => 4 case 9 => 5 case 10 => 5 case 11 => 6 case 12 => 5 case 13 => 6 case 14 => 6 case _ => 7)
    case 14 => (match b & 15 case 0 => 3 case 1 => 4 case 2 => 4 case 3 => 5 case 4 => 4 case 5 => 5 case 6 => 5 case 7 => 6 case 8 => 4 case 9 => 5 case 10 => 5 case 11 => 6 case 12 => 5 case 13 => 6 case 14 => 6 case _ => 7)
    case _ => (match b & 15 case 0 => 4 case 1 => 5 case 2 => 5 case 3 => 6 case 4 => 5 case 5 => 6 case 6 => 6 case 7 => 7 case 8 => 5 case 9 => 6 case 10 => 6 case 11 => 7 case 12 => 6 case 13 => 7 case 14 => 7 case _ => 8)
  }

  /** `_RIGHTBITT`: the smallest element of a one-byte set, or 64 for the empty byte. */
  function RightBit(b: bv8): nat
  {
    match b >> 4
    case 0 => (match b & 15 case 0 => 64 case 1 => 0 case 2 => 1 case 3 => 0 case 4 => 2 case 5 => 0 case 6 => 1 case 7 => 0 case 8 => 3 case 9 => 0 case 10 => 1 case 11 => 0 case 12 => 2 case 13 => 0 case 14 => 1 case _ => 0)
    case 1 => (match b & 15 case 0 => 4 case 1 => 0 case 2 => 1 case 3 => 0 case 4 => 2 case 5 => 0 case 6 => 1 case 7 => 0 case 8 => 3 case 9 => 0 case 10 => 1 case 11 => 0 case 12 => 2 case 13 => 0 case 14 => 1 case _ => 0)
    case 2 => (match b & 15 case 0 => 5 case 1 => 0 case 2 => 1 case 3 => 0 case 4 => 2 case 5 => 0 case 6 => 1 case 7 => 0 case 8 => 3 case 9 => 0 case 10 => 1 case 11 => 0 case 12 => 2 case 13 => 0 case 14 => 1 case _ => 0)
    case 3 => (match b & 15 case 0 => 4 case 1 => 0 case 2 => 1 case 3 => 0 case 4 => 2 case 5 => 0 case 6 => 1 case 7 => 0 case 8 => 3 case 9 => 0 case 10 => 1 case 11 => 0 case 12 => 2 case 13 => 0 case 14 => 1 case _ => 0)
    case 4 => (match b & 15 case 0 => 6 case 1 => 0 case 2 => 1 case 3 => 0 case 4 => 2 case 5 => 0 case 6 => 1 case 7 => 0 case 8 => 3 case 9 => 0 case 10 => 1 case 11 => 0 case 12 => 2 case 13 => 0 case 14 => 1 case _ => 0)
    case 5 => (match b & 15 case 0 => 4 case 1 => 0 case 2 => 1 case 3 => 0 case 4 => 2 case 5 => 0 case 6 => 1 case 7 => 0 case 8 => 3 case 9 => 0 case 10 => 1 case 11 => 0 case 12 => 2 case 13 => 0 case 14 => 1 case _ => 0)
    case 6 => (match b & 15 case 0 => 5 case 1 => 0 case 2 => 1 case 3 => 0 case 4 => 2 case 5 => 0 case 6 => 1 case 7 => 0 case 8 => 3 case 9 => 0 case 10 => 1 case 11 => 0 case 12 => 2 case 13 => 0 case 14 => 1 case _ => 0)
    case 7 => (match b & 15 case 0 => 4 case 1 => 0 case 2 => 1 case 3 => 0 case 4 => 2 case 5 => 0 case 6 => 1 case 7 => 0 case 8 => 3 case 9 => 0 case 10 => 1 case 11 => 0 case 12 => 2 case 13 => 0 case 14 => 1 case _ => 0)
    case 8 => (match b & 15 case 0 => 7 case 1 => 0 case 2 => 1 case 3 => 0 case 4 => 2 case 5 => 0 case 6 => 1 case 7 => 0 case 8 => 3 case 9 => 0 case 10 => 1 case 11 => 0 case 12 => 2 case 13 => 0 case 14 => 1 case _ => 0)
    case 9 => (match b & 15 case 0 => 4 case 1 => 0 case 2 => 1 case 3 => 0 case 4 => 2 case 5 => 0 case 6 => 1 case 7 => 0 case 8 => 3 case 9 => 0 case 10 => 1 case 11 => 0 case 12 => 2 case 13 => 0 case 14 => 1 case _ => 0)
    case 10 => (match b & 15 case 0 => 5 case 1 => 0 case 2 => 1 case 3 => 0 case 4 => 2 case 5 => 0 case 6 => 1 case 7 => 0 case 8 => 3 case 9 => 0 case 10 => 1 case 11 => 0 case 12 => 2 case 13 => 0 case 14 => 1 case _ => 0)
    case 11 => (match b & 15 case 0 => 4 case 1 => 0 case 2 => 1 case 3 => 0 case 4 => 2 case 5 => 0 case 6 => 1 case 7 => 0 case 8 => 3 case 9 => 0 case 10 => 1 case 11 => 0 case 12 => 2 case 13 => 0 case 14 => 1 case _ => 0)
    case 12 => (match b & 15 case 0 => 6 case 1 => 0 case 2 => 1 case 3 => 0 case 4 => 2 case 5 => 0 case 6 => 1 case 7 => 0 case 8 => 3 case 9 => 0 case 10 => 1 case 11 => 0 case 12 => 2 case 13 => 0 case 14 => 1 case _ => 0)
    case 13 => (match b & 15 case 0 => 4 case 1 => 0 case 2 => 1 case 3 => 0 case 4 => 2 case 5 => 0 case 6 => 1 case 7 => 0 case 8 => 3 case 9 => 0 case 10 => 1 case 11 => 0 case 12 => 2 case 13 => 0 case 14 => 1 case _ => 0)
    case 14 => (match b & 15 case 0 => 5 case 1 => 0 case 2 => 1 case 3 => 0 case 4 => 2 case 5 => 0 case 6 => 1 case 7 => 0 case 8 => 3 case 9 => 0 case 10 => 1 case 11 => 0 case 12 => 2 case 13 => 0 case 14 => 1 case _ => 0)
    case _ => (match b & 15 case 0 => 4 case 1 => 0 case 2 => 1 case 3 => 0 case 4 => 2 case 5 => 0 case 6 => 1 case 7 => 0 case 8 => 3 case 9 => 0 case 10 => 1 case 11 => 0 case 12 => 2 case 13 => 0 case 14 => 1 case _ => 0)
  }

  /** The masks `_FIRSTBIT` tests, named as in the source. */
  const MSK032: Word := 0x0000_0000_FFFF_FFFF
  const MSK00016: Word := 0x0000_0000_0000_FFFF
  const MSK01600: Word := 0x0000_FFFF_0000_0000
  const MSK00000008: Word := 0x0000_0000_0000_00FF
  const MSK00000800: Word := 0x0000_0000_00FF_0000
  const MSK00080000: Word := 0x0000_00FF_0000_0000
  const MSK08000000: Word := 0x00FF_0000_0000_0000
  const MSK64: Word := 0xFFFF_FFFF_FFFF_FFFE

  /** Whether element `i` is in `w`: the word test of `_ISELEMENT`. */
  predicate Has(w: Word, i: nat)
    requires i < 64
  {
    w & Bit(i) != 0
  }

  /** The elements of a word. */
  ghost function Elems(w: Word): set<nat>
  {
    set i: nat | i < 64 && Has(w, i)
  }

  /** Byte `k` of `x`, counting from the least significant: `(x >> 8k) & 0xFF`. */
  function Byte(x: Word, k: nat): bv8
    requires k < 8
  {
    match k
    case 0 => (x & 0xFF) as bv8
    case 1 => ((x >> 8) & 0xFF) as bv8
    case 2 => ((x >> 16) & 0xFF) as bv8
    case 3 => ((x >> 24) & 0xFF) as bv8
    case 4 => ((x >> 32) & 0xFF) as bv8
    case 5 => ((x >> 40) & 0xFF) as bv8
    case 6 => ((x >> 48) & 0xFF) as bv8
    case _ => ((x >> 56) & 0xFF) as bv8
  }

  /** `_POPCOUNT`: the table counts of the eight bytes, most significant first. */
  function Popcount(x: Word): nat
  {
    BitCount(Byte(x, 7)) + BitCount(Byte(x, 6)) + BitCount(Byte(x, 5)) + BitCount(Byte(x, 4))
    + BitCount(Byte(x, 3)) + BitCount(Byte(x, 2)) + BitCount(Byte(x, 1)) + BitCount(Byte(x, 0))
  }

  /**
   * `_FIRSTBITNZ`: narrow down to the lowest nonzero byte by halves, then look
   * its smallest element up in `_RIGHTBITT`.
   */
  function FirstBitNZ(x: Word): nat
    requires x != 0
  {
    if x & MSK032 != 0 then
      if x & MSK00016 != 0 then
        if x & MSK00000008 != 0 then RightBit(Byte(x, 0)) else 8 + RightBit(Byte(x, 1))
      else
        if x & MSK00000800 != 0 then 16 + RightBit(Byte(x, 2)) else 24 + RightBit(Byte(x, 3))
    else
      if x & MSK01600 != 0 then
        if x & MSK00080000 != 0 then 32 + RightBit(Byte(x, 4)) else 40 + RightBit(Byte(x, 5))
      else
        if x & MSK08000000 != 0 then 48 + RightBit(Byte(x, 6)) else 56 + RightBit(Byte(x, 7))
  }

  /** `_FIRSTBIT`: `_FIRSTBITNZ` for a nonzero word, 64 for the empty one. */
  function FirstBit(x: Word): nat
  {
    if x != 0 then FirstBitNZ(x) else 64
  }

  /** `_BITMASK`: the word `MSK64` shifted left by `x`. */
  function BitMask(x: nat): Word
    requires x < 64
  {
    MSK64 << x
  }

  // Indices and their words. The bit-vector facts are stated one direction
  // at a time: the solver settles those quickly.

  lemma IndexRoundTrip(i: nat)
    requires i < 64
    ensures (i as bv8) as int == i
  {
  }

  lemma IndexBelow(i: nat)
    requires i < 64
    ensures (i as bv8) < 64
  {
  }

  lemma IndexLess(b: bv8, c: bv8)
    requires b < 64 && c < 64 && b < c
    ensures (b as int) < (c as int)
  {
  }

  lemma IndexNotLess(b: bv8, c: bv8)
    requires b < 64 && c < 64 && b >= c
    ensures (b as int) >= (c as int)
  {
  }

  lemma IndexLt(i: nat, j: nat)
    requires i < 64 && j < 64
    ensures i < j <==> (i as bv8) < (j as bv8)
  {
    IndexRoundTrip(i);
    IndexRoundTrip(j);
    IndexBelow(i);
    IndexBelow(j);
    if (i as bv8) < (j as bv8) {
      IndexLess(i as bv8, j as bv8);
    } else {
      IndexNotLess(i as bv8, j as bv8);
    }
  }

  // One shifted by bit-vector amounts.

  lemma ShiftsLess(c: bv8, d: bv8)
    requires c < d < 64
    ensures (1 as Word) << c < (1 as Word) << d
  {
  }

  lemma ShiftsDisjoint(c: bv8, d: bv8)
    requires c < 64 && d < 64 && c != d
    ensures ((1 as Word) << c) & ((1 as Word) << d) == 0
  {
  }

  /** The order of indices is the order of their words. */
  lemma BitLess(i: nat, j: nat)
    requires i < j < 64
    ensures Bit(i) < Bit(j)
  {
    IndexBelow(j);
    IndexLt(i, j);
    ShiftsLess(i as bv8, j as bv8);
  }

  /** `Bit(i)` has exactly one bit set. */
  lemma BitSingle(i: nat)
    requires i < 64
    ensures Bit(i) != 0 && Bit(i) & (Bit(i) - 1) == 0
  {
    IndexBelow(i);
  }

  /** Distinct indices select disjoint words. */
  lemma BitsDisjoint(i: nat, j: nat)
    requires i < 64 && j < 64 && i != j
    ensures Bit(i) & Bit(j) == 0
  {
    IndexRoundTrip(i);
    IndexRoundTrip(j);
    IndexBelow(i);
    IndexBelow(j);
    ShiftsDisjoint(i as bv8, j as bv8);
  }

  // Membership after the word operations of the set macros.

  lemma HasOrNew(w: Word, i: nat)
    requires i < 64
    ensures Has(w | Bit(i), i)
  {
    BitSingle(i);
  }

  lemma HasOrKeep(w: Word, i: nat, j: nat)
    requires i < 64 && j < 64 && Has(w, j)
    ensures Has(w | Bit(i), j)
  {
  }

  lemma HasOrOut(w: Word, i: nat, j: nat)
    requires i < 64 && j < 64 && !Has(w, j) && i != j
    ensures !Has(w | Bit(i), j)
  {
    BitsDisjoint(i, j);
  }

  lemma HasOr(w: Word, i: nat, j: nat)
    requires i < 64 && j < 64
    ensures Has(w | Bit(i), j) <==> Has(w, j) || i == j
  {
    if i == j {
      HasOrNew(w, i);
    } else if Has(w, j) {
      HasOrKeep(w, i, j);
    } else {
      HasOrOut(w, i, j);
    }
  }

  lemma HasAndNotGone(w: Word, i: nat)
    requires i < 64
    ensures !Has(w & !Bit(i), i)
  {
  }

  lemma HasAndNotKeep(w: Word, i: nat, j: nat)
    requires i < 64 && j < 64 && Has(w, j) && i != j
    ensures Has(w & !Bit(i), j)
  {
    BitSingle(j);
    BitsDisjoint(i, j);
  }

  lemma HasAndNotOut(w: Word, i: nat, j: nat)
    requires i < 64 && j < 64 && !Has(w, j)
    ensures !Has(w & !Bit(i), j)
  {
  }

  lemma HasAndNot(w: Word, i: nat, j: nat)
    requires i < 64 && j < 64
    ensures Has(w & !Bit(i), j) <==> Has(w, j) && i != j
  {
    if i == j {
      HasAndNotGone(w, i);
    } else if Has(w, j) {
      HasAndNotKeep(w, i, j);
    } else {
      HasAndNotOut(w, i, j);
    }
  }

  lemma HasXorOn(w: Word, i: nat)
    requires i < 64 && !Has(w, i)
    ensures Has(w ^ Bit(i), i)
  {
    BitSingle(i);
  }

  lemma HasXorOff(w: Word, i: nat)
    requires i < 64 && Has(w, i)
    ensures !Has(w ^ Bit(i), i)
  {
    BitSingle(i);
  }

  lemma HasXorKeep(w: Word, i: nat, j: nat)
    requires i < 64 && j < 64 && Has(w, j) && i != j
    ensures Has(w ^ Bit(i), j)
  {
    BitsDisjoint(i, j);
  }

  lemma HasXorOut(w: Word, i: nat, j: nat)
    requires i < 64 && j < 64 && !Has(w, j) && i != j
    ensures !Has(w ^ Bit(i), j)
  {
    BitsDisjoint(i, j);
  }

  lemma HasXor(w: Word, i: nat, j: nat)
    requires i < 64 && j < 64
    ensures Has(w ^ Bit(i), j) <==> Has(w, j) != (i == j)
  {
    if i == j {
      if Has(w, i) {
        HasXorOff(w, i);
      } else {
        HasXorOn(w, i);
      }
    } else if Has(w, j) {
      HasXorKeep(w, i, j);
    } else {
      HasXorOut(w, i, j);
    }
  }

  lemma HasAndIn(v: Word, w: Word, j: nat)
    requires j < 64 && Has(v, j) && Has(w, j)
    ensures Has(v & w, j)
  {
    BitSingle(j);
  }

  lemma HasAndOutL(v: Word, w: Word, j: nat)
    requires j < 64 && !Has(v, j)
    ensures !Has(v & w, j)
  {
  }

  lemma HasAndOutR(v: Word, w: Word, j: nat)
    requires j < 64 && !Has(w, j)
    ensures !Has(v & w, j)
  {
  }

  lemma HasAnd(v: Word, w: Word, j: nat)
    requires j < 64
    ensures Has(v & w, j) <==> Has(v, j) && Has(w, j)
  {
    if !Has(v, j) {
      HasAndOutL(v, w, j);
    } else if !Has(w, j) {
      HasAndOutR(v, w, j);
    } else {
      HasAndIn(v, w, j);
    }
  }

  lemma MaskIsNeg(x: nat)
    requires x < 64
    ensures BitMask(x) == -(Bit(x) + Bit(x))
  {
    IndexBelow(x);
  }

  lemma BitMaskIn(x: nat, i: nat)
    requires x < i < 64
    ensures Has(BitMask(x), i)
  {
    MaskIsNeg(x);
    BitSingle(x);
    BitSingle(i);
    BitLess(x, i);
  }

  lemma BitMaskOwn(x: nat)
    requires x < 64
    ensures !Has(BitMask(x), x)
  {
    MaskIsNeg(x);
    BitSingle(x);
  }

  lemma BitMaskBelow(x: nat, i: nat)
    requires i < x < 64
    ensures !Has(BitMask(x), i)
  {
    MaskIsNeg(x);
    BitSingle(x);
    BitSingle(i);
    BitLess(i, x);
  }

  lemma BitMaskHas(x: nat, i: nat)
    requires x < 64 && i < 64
    ensures Has(BitMask(x), i) <==> i > x
  {
    if i > x {
      BitMaskIn(x, i);
    } else if i == x {
      BitMaskOwn(x);
    } else {
      BitMaskBelow(x, i);
    }
  }

  /** The empty word has no elements. */
  lemma HasZero(i: nat)
    requires i < 64
    ensures !Has(0, i)
  {
  }

  /** The word of all ones, as `_ALLBITS` stores it, has every element. */
  lemma HasAll(i: nat)
    requires i < 64
    ensures Has(0xFFFF_FFFF_FFFF_FFFF, i)
  {
    BitSingle(i);
  }

  // Bytes.

  /** The one-byte word holding element `j` alone. */
  function Bit8(j: nat): bv8
    requires j < 8
  {
    (1 as bv8) << (j as bv8)
  }

  /** Whether element `j` is in the one-byte set `b`. */
  ghost predicate Has8(b: bv8, j: nat)
    requires j < 8
  {
    b & Bit8(j) != 0
  }

  /** The membership of elements 0 to 7 in a byte. */
  ghost function Bits8(b: bv8): seq<bool>
  {
    seq(8, j requires 0 <= j < 8 => Has8(b, j))
  }

  /** The number of `true` entries among eight. */
  ghost function Ones8(m: seq<bool>): nat
    requires |m| == 8
  {
    (if m[0] then 1 else 0) + (if m[1] then 1 else 0) + (if m[2] then 1 else 0) + (if m[3] then 1 else 0)
    + (if m[4] then 1 else 0) + (if m[5] then 1 else 0) + (if m[6] then 1 else 0) + (if m[7] then 1 else 0)
  }

  /** The elements of a byte, counted one bit at a time. */
  ghost function Pop8(b: bv8): nat
  {
    Ones8(Bits8(b))
  }

  /** Every entry of `_BITTCOUNT` is the number of elements of its byte. */
  lemma BitCountTable(b: bv8)
    ensures BitCount(b) == Pop8(b)
  {
  }

  lemma IndexBelow8(j: nat)
    requires j < 8
    ensures (j as bv8) < 8
  {
  }

  lemma ByteBit0(x: Word, j: nat)
    requires j < 8
    ensures Has(x, 0 + j) <==> Has8(Byte(x, 0), j)
  {
    IndexBelow8(j);
    assert ((0 + j) as bv8) == 0 + (j as bv8);
  }

  lemma ByteBit1(x: Word, j: nat)
    requires j < 8
    ensures Has(x, 8 + j) <==> Has8(Byte(x, 1), j)
  {
    IndexBelow8(j);
    assert ((8 + j) as bv8) == 8 + (j as bv8);
  }

  lemma ByteBit2(x: Word, j: nat)
    requires j < 8
    ensures Has(x, 16 + j) <==> Has8(Byte(x, 2), j)
  {
    IndexBelow8(j);
    assert ((16 + j) as bv8) == 16 + (j as bv8);
  }

  lemma ByteBit3(x: Word, j: nat)
    requires j < 8
    ensures Has(x, 24 + j) <==> Has8(Byte(x, 3), j)
  {
    IndexBelow8(j);
    assert ((24 + j) as bv8) == 24 + (j as bv8);
  }

  lemma ByteBit4(x: Word, j: nat)
    requires j < 8
    ensures Has(x, 32 + j) <==> Has8(Byte(x, 4), j)
  {
    IndexBelow8(j);
    assert ((32 + j) as bv8) == 32 + (j as bv8);
  }

  lemma ByteBit5(x: Word, j: nat)
    requires j < 8
    ensures Has(x, 40 + j) <==> Has8(Byte(x, 5), j)
  {
    IndexBelow8(j);
    assert ((40 + j) as bv8) == 40 + (j as bv8);
  }

  lemma ByteBit6(x: Word, j: nat)
    requires j < 8
    ensures Has(x, 48 + j) <==> Has8(Byte(x, 6), j)
  {
    IndexBelow8(j);
    assert ((48 + j) as bv8) == 48 + (j as bv8);
  }

  lemma ByteBit7(x: Word, j: nat)
    requires j < 8
    ensures Has(x, 56 + j) <==> Has8(Byte(x, 7), j)
  {
    IndexBelow8(j);
    assert ((56 + j) as bv8) == 56 + (j as bv8);
  }

  /** Element `j` of byte `k` of the word is element `8 * k + j` of the word. */
  lemma ByteBit(x: Word, k: nat, j: nat)
    requires k < 8 && j < 8
    ensures Has(x, 8 * k + j) <==> Has8(Byte(x, k), j)
  {
    match k
    case 0 => ByteBit0(x, j);
    case 1 => ByteBit1(x, j);
    case 2 => ByteBit2(x, j);
    case 3 => ByteBit3(x, j);
    case 4 => ByteBit4(x, j);
    case 5 => ByteBit5(x, j);
    case 6 => ByteBit6(x, j);
    case _ => ByteBit7(x, j);
  }

  // Counting.

  /** The number of members of `S` below `n`. */
  ghost function CountBelow(S: set<nat>, n: nat): nat
  {
    if n == 0 then 0 else CountBelow(S, n - 1) + (if n - 1 in S then 1 else 0)
  }

  /** `CountBelow` is the size of the part of `S` below `n`. */
  lemma {:induction false} CountBelowCard(S: set<nat>, n: nat)
    ensures CountBelow(S, n) == |set i | i in S && i < n|
  {
    if n == 0 {
      assert (set i | i in S && i < n) == {};
    } else {
      CountBelowCard(S, n - 1);
      var fewer := set i | i in S && i < n - 1;
      if n - 1 in S {
        assert (set i | i in S && i < n) == fewer + {n - 1};
      } else {
        assert (set i | i in S && i < n) == fewer;
      }
    }
  }

  /** Eight members in a row whose membership `m` records add `Ones8(m)` to the count. */
  lemma CountEight(S: set<nat>, n: nat, m: seq<bool>)
    requires |m| == 8 && forall j :: 0 <= j < 8 ==> (n + j in S <==> m[j])
    ensures CountBelow(S, n + 8) == CountBelow(S, n) + Ones8(m)
  {
    assert n + 0 in S <==> m[0];
    assert n + 1 in S <==> m[1];
    assert n + 2 in S <==> m[2];
    assert n + 3 in S <==> m[3];
    assert n + 4 in S <==> m[4];
    assert n + 5 in S <==> m[5];
    assert n + 6 in S <==> m[6];
    assert n + 7 in S <==> m[7];
    assert CountBelow(S, n + 8) == CountBelow(S, n + 7) + (if n + 7 in S then 1 else 0);
    assert CountBelow(S, n + 7) == CountBelow(S, n + 6) + (if n + 6 in S then 1 else 0);
    assert CountBelow(S, n + 6) == CountBelow(S, n + 5) + (if n + 5 in S then 1 else 0);
    assert CountBelow(S, n + 5) == CountBelow(S, n + 4) + (if n + 4 in S then 1 else 0);
    assert CountBelow(S, n + 4) == CountBelow(S, n + 3) + (if n + 3 in S then 1 else 0);
    assert CountBelow(S, n + 3) == CountBelow(S, n + 2) + (if n + 2 in S then 1 else 0);
    assert CountBelow(S, n + 2) == CountBelow(S, n + 1) + (if n + 1 in S then 1 else 0);
    assert CountBelow(S, n + 1) == CountBelow(S, n) + (if n in S then 1 else 0);
  }

  /** The elements in byte `k` add `Pop8` of that byte to the count. */
  lemma CountByte(x: Word, k: nat)
    requires k < 8
    ensures CountBelow(Elems(x), 8 * k + 8) == CountBelow(Elems(x), 8 * k) + Pop8(Byte(x, k))
  {
    var m := Bits8(Byte(x, k));
    forall j | 0 <= j < 8
      ensures 8 * k + j in Elems(x) <==> m[j]
    {
      ByteBit(x, k, j);
    }
    CountEight(Elems(x), 8 * k, m);
  }

  /** The sum of `Pop8` over the eight bytes of `x`. */
  ghost function BytePops(x: Word): nat
  {
    Pop8(Byte(x, 7)) + Pop8(Byte(x, 6)) + Pop8(Byte(x, 5)) + Pop8(Byte(x, 4))
    + Pop8(Byte(x, 3)) + Pop8(Byte(x, 2)) + Pop8(Byte(x, 1)) + Pop8(Byte(x, 0))
  }

  /** `_POPCOUNT` adds the elements of every byte. */
  lemma PopcountBytes(x: Word)
    ensures Popcount(x) == BytePops(x)
  {
    BitCountTable(Byte(x, 0));
    BitCountTable(Byte(x, 1));
    BitCountTable(Byte(x, 2));
    BitCountTable(Byte(x, 3));
    BitCountTable(Byte(x, 4));
    BitCountTable(Byte(x, 5));
    BitCountTable(Byte(x, 6));
    BitCountTable(Byte(x, 7));
  }

  /** Counting the elements of the low four bytes. */
  lemma CountLowBytes(x: Word)
    ensures CountBelow(Elems(x), 32) == Pop8(Byte(x, 3)) + Pop8(Byte(x, 2)) + Pop8(Byte(x, 1)) + Pop8(Byte(x, 0))
  {
    CountByte(x, 0);
    CountByte(x, 1);
    CountByte(x, 2);
    CountByte(x, 3);
  }

  /** Counting the elements of the high four bytes on top of the low ones. */
  lemma CountHighBytes(x: Word)
    ensures CountBelow(Elems(x), 64)
            == CountBelow(Elems(x), 32) + Pop8(Byte(x, 7)) + Pop8(Byte(x, 6)) + Pop8(Byte(x, 5)) + Pop8(Byte(x, 4))
  {
    CountByte(x, 4);
    CountByte(x, 5);
    CountByte(x, 6);
    CountByte(x, 7);
  }

  /** Counting the elements byte by byte. */
  lemma CountBytes(x: Word)
    ensures CountBelow(Elems(x), 64) == BytePops(x)
  {
    CountLowBytes(x);
    CountHighBytes(x);
  }

  /** `_POPCOUNT(x)` is the number of elements of `x`. */
  lemma PopcountElems(x: Word)
    ensures Popcount(x) == |Elems(x)|
  {
    PopcountBytes(x);
    CountBytes(x);
    CountBelowCard(Elems(x), 64);
    assert (set i | i in Elems(x) && i < 64) == Elems(x);
  }

  // The smallest element.

  /** The bits below byte `k`. */
  function Below(k: nat): Word
    requires k < 8
  {
    match k
    case 0 => 0
    case 1 => 0xFF
    case 2 => 0xFFFF
    case 3 => 0xFF_FFFF
    case 4 => 0xFFFF_FFFF
    case 5 => 0xFF_FFFF_FFFF
    case 6 => 0xFFFF_FFFF_FFFF
    case _ => 0xFF_FFFF_FFFF_FFFF
  }

  /** Every entry of `_RIGHTBITT` for a nonzero byte selects its lowest set bit, `b & -b`. */
  lemma RightBitTable(b: bv8)
    requires b != 0
    ensures RightBit(b) < 8 && Bit8(RightBit(b)) == b & -b
  {
  }

  /** When nothing is set below byte `k` and byte `k` is not 0, the lowest set bit lies in byte `k`. */
  lemma ByteLowest(x: Word, k: nat)
    requires k < 8 && x & Below(k) == 0 && Byte(x, k) != 0
    ensures x & -x == ((Byte(x, k) & -Byte(x, k)) as Word) << (8 * k)
  {
    match k
    case 0 => { }
    case 1 => { }
    case 2 => { }
    case 3 => { }
    case 4 => { }
    case 5 => { }
    case 6 => { }
    case _ => { }
  }

  /** Element `j` of byte `k` is selected by the byte's word shifted into place. */
  lemma BitInByte(k: nat, j: nat)
    requires k < 8 && j < 8
    ensures Bit(8 * k + j) == (Bit8(j) as Word) << (8 * k)
  {
    match k
    case 0 => { match j case 0 => { } case 1 => { } case 2 => { } case 3 => { } case 4 => { } case 5 => { } case 6 => { } case _ => { } }
    case 1 => { match j case 0 => { } case 1 => { } case 2 => { } case 3 => { } case 4 => { } case 5 => { } case 6 => { } case _ => { } }
    case 2 => { match j case 0 => { } case 1 => { } case 2 => { } case 3 => { } case 4 => { } case 5 => { } case 6 => { } case _ => { } }
    case 3 => { match j case 0 => { } case 1 => { } case 2 => { } case 3 => { } case 4 => { } case 5 => { } case 6 => { } case _ => { } }
    case 4 => { match j case 0 => { } case 1 => { } case 2 => { } case 3 => { } case 4 => { } case 5 => { } case 6 => { } case _ => { } }
    case 5 => { match j case 0 => { } case 1 => { } case 2 => { } case 3 => { } case 4 => { } case 5 => { } case 6 => { } case _ => { } }
    case 6 => { match j case 0 => { } case 1 => { } case 2 => { } case 3 => { } case 4 => { } case 5 => { } case 6 => { } case _ => { } }
    case _ => { match j case 0 => { } case 1 => { } case 2 => { } case 3 => { } case 4 => { } case 5 => { } case 6 => { } case _ => { } }
  }

  /** The table entry of the lowest nonzero byte selects the lowest set bit of the word. */
  lemma LowestInByte(x: Word, k: nat)
    requires k < 8 && x & Below(k) == 0 && Byte(x, k) != 0
    ensures 8 * k + RightBit(Byte(x, k)) < 64
    ensures Bit(8 * k + RightBit(Byte(x, k))) == x & -x
  {
    RightBitTable(Byte(x, k));
    ByteLowest(x, k);
    BitInByte(k, RightBit(Byte(x, k)));
  }

  /** `_FIRSTBITNZ` on a word with an element in its low half. */
  lemma FirstBitNZLow(x: Word)
    requires x & MSK032 != 0
    ensures FirstBitNZ(x) < 64 && Bit(FirstBitNZ(x)) == x & -x
  {
    if x & MSK00016 != 0 {
      if x & MSK00000008 != 0 {
        LowestInByte(x, 0);
      } else {
        LowestInByte(x, 1);
      }
    } else {
      if x & MSK00000800 != 0 {
        LowestInByte(x, 2);
      } else {
        LowestInByte(x, 3);
      }
    }
  }

  /** `_FIRSTBITNZ` on a nonzero word whose low half is empty. */
  lemma FirstBitNZHigh(x: Word)
    requires x != 0 && x & MSK032 == 0
    ensures FirstBitNZ(x) < 64 && Bit(FirstBitNZ(x)) == x & -x
  {
    if x & MSK01600 != 0 {
      if x & MSK00080000 != 0 {
        LowestInByte(x, 4);
      } else {
        LowestInByte(x, 5);
      }
    } else {
      if x & MSK08000000 != 0 {
        LowestInByte(x, 6);
      } else {
        LowestInByte(x, 7);
      }
    }
  }

  /** `_FIRSTBITNZ(x)` selects the lowest set bit `x & -x` of a nonzero word. */
  lemma FirstBitNZSelects(x: Word)
    requires x != 0
    ensures FirstBitNZ(x) < 64 && Bit(FirstBitNZ(x)) == x & -x
  {
    if x & MSK032 != 0 {
      FirstBitNZLow(x);
    } else {
      FirstBitNZHigh(x);
    }
  }

  /** The index selecting the lowest set bit is an element. */
  lemma LowestHas(x: Word, i: nat)
    requires i < 64 && Bit(i) == x & -x
    ensures Has(x, i)
  {
    BitSingle(i);
  }

  /** A word with one bit set below the lowest set bit of `x` misses `x`. */
  lemma SingleBelowLowest(x: Word, C: Word)
    requires C < x & -x && C != 0 && C & (C - 1) == 0
    ensures x & C == 0
  {
  }

  /** The word of an index below the one selecting the lowest set bit lies below that bit. */
  lemma BitBelowLowest(x: Word, i: nat, j: nat)
    requires j < i < 64 && Bit(i) == x & -x
    ensures Bit(j) < x & -x
  {
    BitLess(j, i);
  }

  /** No index below the one selecting the lowest set bit is an element. */
  lemma LowestBelow(x: Word, i: nat, j: nat)
    requires j < i < 64 && Bit(i) == x & -x
    ensures !Has(x, j)
  {
    BitBelowLowest(x, i, j);
    BitSingle(j);
    SingleBelowLowest(x, Bit(j));
  }

  /** `_FIRSTBITNZ(x)` is the smallest element of a nonempty word. */
  lemma FirstBitNZLowest(x: Word)
    requires x != 0
    ensures FirstBitNZ(x) < 64 && Has(x, FirstBitNZ(x))
    ensures forall j :: 0 <= j < FirstBitNZ(x) ==> !Has(x, j)
  {
    FirstBitNZSelects(x);
    LowestHas(x, FirstBitNZ(x));
    forall j | 0 <= j < FirstBitNZ(x)
      ensures !Has(x, j)
    {
      LowestBelow(x, FirstBitNZ(x), j);
    }
  }

  /**
   * `_FIRSTBIT(x)` is the smallest element of `x`, or 64 exactly when `x` is
   * empty.
   */
  lemma FirstBitLowest(x: Word)
    ensures FirstBit(x) <= 64 && (FirstBit(x) == 64 <==> x == 0)
    ensures x != 0 ==> FirstBit(x) == FirstBitNZ(x) && Has(x, FirstBit(x))
    ensures forall j :: 0 <= j < FirstBit(x) && j < 64 ==> !Has(x, j)
  {
    if x != 0 {
      FirstBitNZLowest(x);
    } else {
      forall j | 0 <= j < 64
        ensures !Has(x, j)
      {
        HasZero(j);
      }
    }
  }

  /** A word is empty exactly when it is 0. */
  lemma ElemsEmpty(w: Word)
    ensures Elems(w) == {} <==> w == 0
  {
    if w != 0 {
      FirstBitNZLowest(w);
      assert FirstBitNZ(w) in Elems(w);
    } else {
      forall j | 0 <= j < 64
        ensures !Has(w, j)
      {
        HasZero(j);
      }
    }
  }

  // Whole-word operations.

  /** The elements of `v & w` are those of both words. */
  lemma ElemsAnd(v: Word, w: Word)
    ensures Elems(v & w) == Elems(v) * Elems(w)
  {
    forall j: nat | j < 64
      ensures j in Elems(v & w) <==> j in Elems(v) && j in Elems(w)
    {
      HasAnd(v, w, j);
    }
  }

  /** `_WINTERSECT`: the word of the elements two words share. */
  function WIntersect(v: Word, w: Word): (r: Word)
    ensures Elems(r) == Elems(v) * Elems(w)
  {
    ElemsAnd(v, w);
    v & w
  }

  /** `_WINTERSECTSIZE`: the number of elements two words share. */
  function WIntersectSize(v: Word, w: Word): (n: nat)
    ensures n == |Elems(v) * Elems(w)|
  {
    PopcountElems(WIntersect(v, w));
    Popcount(WIntersect(v, w))
  }

  /** Toggling an element of a word takes it out. */
  lemma ElemsToggleOff(w: Word, i: nat)
    requires i < 64 && Has(w, i)
    ensures Elems(w ^ Bit(i)) == Elems(w) - {i}
  {
    forall j: nat | j < 64
      ensures j in Elems(w ^ Bit(i)) <==> j in Elems(w) && j != i
    {
      HasXor(w, i, j);
    }
  }

  /**
   * `_TAKEBIT`: the smallest element of a nonempty word, and the word
   * without it.
   */
  method TakeBit(word: Word) returns (i: nat, rest: Word)
    requires word != 0
    ensures i in Elems(word) && forall j :: j in Elems(word) ==> i <= j
    ensures Elems(rest) == Elems(word) - {i}
  {
    i := FirstBitNZ(word);
    FirstBitNZLowest(word);
    rest := word ^ Bit(i);
    ElemsToggleOff(word, i);
  }
}
