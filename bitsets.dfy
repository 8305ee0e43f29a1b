/**
 * Bit sets (include/bit_sets.h, src/bit_sets.c): a set over 0 .. 64m-1
 * stored in an array of `m` set words, element `pos` being bit
 * `pos & 63` of word `pos >> 6`.
 *
 * The set an array of words stands for is `Members`; every macro and
 * routine is stated against it. A permutation `p` is a read-only table of
 * element indices.
 */
module BitSets {
  import opened BitWords

  // Positions.

  /** `_SETWD`: the word holding position `pos`. */
  function SetWd(pos: nat): (w: nat)
    ensures 64 * w <= pos < 64 * w + 64
  {
    pos / 64
  }

  /** `_SETBT`: the bit of its word that holds position `pos`. */
  function SetBt(pos: nat): (b: nat)
    ensures b < 64 && 64 * SetWd(pos) + b == pos
  {
    pos % 64
  }

  /** `_TIMESWORDSIZE`: the first position of word `w`. */
  function TimesWordSize(w: nat): (pos: nat)
    ensures SetWd(pos) == w && SetBt(pos) == 0
  {
    Position(w, 0);
    64 * w
  }

  /** Bit `b` of word `w` is position `64 * w + b`, and nothing else is. */
  lemma Position(w: nat, b: nat)
    requires b < 64
    ensures SetWd(64 * w + b) == w && SetBt(64 * w + b) == b
  {
  }

  /**
   * `_SETWORDSNEEDED`: the words for a set of `n` elements. The macro has no
   * type of its own; the model takes `n` to be a 64-bit `size_t`, on which
   * `((n - 1) >> 6) + 1` wraps around to `2^58` for `n == 0`. A signed
   * argument would give 0 there instead.
   */
  function SetWordsNeeded(n: nat): (m: nat)
    ensures n > 0 ==> 64 * (m - 1) < n <= 64 * m
    ensures n == 0 ==> m == 0x400_0000_0000_0000
  {
    if n == 0 then (0xFFFF_FFFF_FFFF_FFFF / 64) + 1 else (n - 1) / 64 + 1
  }

  // The set an array of words stands for.

  /** The elements of the words `ws`. */
  ghost function Members(ws: seq<Word>): set<nat>
  {
    set pos: nat | pos < 64 * |ws| && Has(ws[SetWd(pos)], SetBt(pos))
  }

  /** `_ISELEMENT`: whether position `pos` is in the set `s`. */
  predicate IsElement(s: array<Word>, pos: nat): (b: bool)
    reads s
    requires pos < 64 * s.Length
    ensures b <==> pos in Members(s[..])
  {
    Has(s[SetWd(pos)], SetBt(pos))
  }

  /** The word `v` with bit `b` set, `v | _BITT[b]`. */
  function SetBit(v: Word, b: nat): Word
    requires b < 64
  {
    v | Bit(b)
  }

  /** The word `v` with bit `b` cleared, `v & ~_BITT[b]`. */
  function ClearBit(v: Word, b: nat): Word
    requires b < 64
  {
    v & !Bit(b)
  }

  /** The word `v` with bit `b` toggled, `v ^ _BITT[b]`. */
  function ToggleBit(v: Word, b: nat): Word
    requires b < 64
  {
    v ^ Bit(b)
  }

  /** The words after `_ADDELEMENT(ws, pos)`. */
  function Added(ws: seq<Word>, pos: nat): seq<Word>
    requires pos < 64 * |ws|
  {
    ws[SetWd(pos) := SetBit(ws[SetWd(pos)], SetBt(pos))]
  }

  /** The words after `_DELELEMENT(ws, pos)`. */
  function Deleted(ws: seq<Word>, pos: nat): seq<Word>
    requires pos < 64 * |ws|
  {
    ws[SetWd(pos) := ClearBit(ws[SetWd(pos)], SetBt(pos))]
  }

  /** The words after `_FLIPELEMENT(ws, pos)`. */
  function Flipped(ws: seq<Word>, pos: nat): seq<Word>
    requires pos < 64 * |ws|
  {
    ws[SetWd(pos) := ToggleBit(ws[SetWd(pos)], SetBt(pos))]
  }

  /** Two positions with the same word and bit are the same. */
  lemma SamePosition(p: nat, q: nat)
    requires SetWd(p) == SetWd(q) && SetBt(p) == SetBt(q)
    ensures p == q
  {
  }

  /** Replacing word `w` leaves the membership of the positions of other words alone. */
  lemma OtherWord(ws: seq<Word>, w: nat, v: Word, q: nat)
    requires w < |ws| && q < 64 * |ws| && SetWd(q) != w
    ensures q in Members(ws[w := v]) <==> q in Members(ws)
  {
  }

  lemma AddedSame(ws: seq<Word>, pos: nat, q: nat)
    requires pos < 64 * |ws| && q < 64 * |ws| && SetWd(q) == SetWd(pos)
    ensures q in Members(Added(ws, pos)) <==> q in Members(ws) || q == pos
  {
    HasOr(ws[SetWd(pos)], SetBt(pos), SetBt(q));
    if SetBt(q) == SetBt(pos) {
      SamePosition(q, pos);
    }
  }

  /** Adding `pos` puts it in the set and changes no other position. */
  lemma AddedMembers(ws: seq<Word>, pos: nat)
    requires pos < 64 * |ws|
    ensures Members(Added(ws, pos)) == Members(ws) + {pos}
  {
    forall q: nat | q < 64 * |ws|
      ensures q in Members(Added(ws, pos)) <==> q in Members(ws) || q == pos
    {
      if SetWd(q) == SetWd(pos) {
        AddedSame(ws, pos, q);
      } else {
        OtherWord(ws, SetWd(pos), Added(ws, pos)[SetWd(pos)], q);
      }
    }
  }

  lemma DeletedOwn(ws: seq<Word>, pos: nat)
    requires pos < 64 * |ws|
    ensures pos !in Members(Deleted(ws, pos))
  {
    HasAndNotGone(ws[SetWd(pos)], SetBt(pos));
  }

  lemma DeletedKeep(ws: seq<Word>, pos: nat, q: nat)
    requires pos < 64 * |ws| && q < 64 * |ws| && SetWd(q) == SetWd(pos) && SetBt(q) != SetBt(pos)
    requires q in Members(ws)
    ensures q in Members(Deleted(ws, pos))
  {
    HasAndNotKeep(ws[SetWd(pos)], SetBt(pos), SetBt(q));
  }

  lemma DeletedOut(ws: seq<Word>, pos: nat, q: nat)
    requires pos < 64 * |ws| && q < 64 * |ws| && SetWd(q) == SetWd(pos) && q !in Members(ws)
    ensures q !in Members(Deleted(ws, pos))
  {
    HasAndNotOut(ws[SetWd(pos)], SetBt(pos), SetBt(q));
  }

  lemma DeletedSame(ws: seq<Word>, pos: nat, q: nat)
    requires pos < 64 * |ws| && q < 64 * |ws| && SetWd(q) == SetWd(pos)
    ensures q in Members(Deleted(ws, pos)) <==> q in Members(ws) && q != pos
  {
    if SetBt(q) == SetBt(pos) {
      SamePosition(q, pos);
      DeletedOwn(ws, pos);
    } else if q in Members(ws) {
      DeletedKeep(ws, pos, q);
    } else {
      DeletedOut(ws, pos, q);
    }
  }

  /** Deleting `pos` takes it out of the set and changes no other position. */
  lemma DeletedMembers(ws: seq<Word>, pos: nat)
    requires pos < 64 * |ws|
    ensures Members(Deleted(ws, pos)) == Members(ws) - {pos}
  {
    forall q: nat | q < 64 * |ws|
      ensures q in Members(Deleted(ws, pos)) <==> q in Members(ws) && q != pos
    {
      if SetWd(q) == SetWd(pos) {
        DeletedSame(ws, pos, q);
      } else {
        OtherWord(ws, SetWd(pos), Deleted(ws, pos)[SetWd(pos)], q);
      }
    }
  }

  lemma FlippedSame(ws: seq<Word>, pos: nat, q: nat)
    requires pos < 64 * |ws| && q < 64 * |ws| && SetWd(q) == SetWd(pos)
    ensures (q in Members(Flipped(ws, pos))) == ((q in Members(ws)) != (q == pos))
  {
    HasXor(ws[SetWd(pos)], SetBt(pos), SetBt(q));
    if SetBt(q) == SetBt(pos) {
      SamePosition(q, pos);
    }
  }

  /** Flipping `pos` toggles its membership and changes no other position. */
  lemma FlippedMembers(ws: seq<Word>, pos: nat)
    requires pos < 64 * |ws|
    ensures Members(Flipped(ws, pos)) == if pos in Members(ws) then Members(ws) - {pos} else Members(ws) + {pos}
  {
    forall q: nat | q < 64 * |ws|
      ensures (q in Members(Flipped(ws, pos))) == ((q in Members(ws)) != (q == pos))
    {
      if SetWd(q) == SetWd(pos) {
        FlippedSame(ws, pos, q);
      } else {
        OtherWord(ws, SetWd(pos), Flipped(ws, pos)[SetWd(pos)], q);
      }
    }
  }

  /** Flipping a position twice restores the words. */
  lemma FlipInvolution(ws: seq<Word>, pos: nat)
    requires pos < 64 * |ws|
    ensures Flipped(Flipped(ws, pos), pos) == ws
  {
    var w, v, B := SetWd(pos), ws[SetWd(pos)], Bit(SetBt(pos));
    XorTwice(v, B);
    assert Flipped(Flipped(ws, pos), pos) == ws[w := (v ^ B) ^ B];
  }

  lemma XorTwice(v: Word, B: Word)
    ensures (v ^ B) ^ B == v
  {
  }

  /** `_ADDELEMENT`. */
  method AddElement(s: array<Word>, pos: nat)
    requires pos < 64 * s.Length
    modifies s
    ensures s[..] == Added(old(s[..]), pos)
    ensures Members(s[..]) == old(Members(s[..])) + {pos}
  {
    s[SetWd(pos)] := SetBit(s[SetWd(pos)], SetBt(pos));
    AddedMembers(old(s[..]), pos);
  }

  /** `_DELELEMENT`. */
  method DelElement(s: array<Word>, pos: nat)
    requires pos < 64 * s.Length
    modifies s
    ensures s[..] == Deleted(old(s[..]), pos)
    ensures Members(s[..]) == old(Members(s[..])) - {pos}
  {
    s[SetWd(pos)] := ClearBit(s[SetWd(pos)], SetBt(pos));
    DeletedMembers(old(s[..]), pos);
  }

  /** `_FLIPELEMENT`. */
  method FlipElement(s: array<Word>, pos: nat)
    requires pos < 64 * s.Length
    modifies s
    ensures s[..] == Flipped(old(s[..]), pos)
    ensures Members(s[..]) == if pos in old(Members(s[..])) then old(Members(s[..])) - {pos} else old(Members(s[..])) + {pos}
  {
    s[SetWd(pos)] := ToggleBit(s[SetWd(pos)], SetBt(pos));
    FlippedMembers(old(s[..]), pos);
  }

  // Whole sets.

  /** `_EMPTYSET`: clear the first `m` words. */
  method EmptySet(s: array<Word>, m: nat)
    requires m <= s.Length
    modifies s
    ensures forall k :: 0 <= k < m ==> s[k] == 0
    ensures s[m..] == old(s[m..])
    ensures Members(s[..m]) == {}
  {
    for i := 0 to m
      invariant forall k :: 0 <= k < i ==> s[k] == 0
      invariant s[i..] == old(s[i..])
    {
      s[i] := 0;
    }
    forall q: nat | q in Members(s[..m])
      ensures false
    {
      HasZero(SetBt(q));
    }
  }

  /** `_ALLBITS`: fill the first `m` words. */
  method AllBits(s: array<Word>, m: nat)
    requires m <= s.Length
    modifies s
    ensures forall k :: 0 <= k < m ==> s[k] == 0xFFFF_FFFF_FFFF_FFFF
    ensures s[m..] == old(s[m..])
    ensures forall q: nat :: q in Members(s[..m]) <==> q < 64 * m
  {
    for i := 0 to m
      invariant forall k :: 0 <= k < i ==> s[k] == 0xFFFF_FFFF_FFFF_FFFF
      invariant s[i..] == old(s[i..])
    {
      s[i] := 0xFFFF_FFFF_FFFF_FFFF;
    }
    forall q: nat | q < 64 * m
      ensures q in Members(s[..m])
    {
      HasAll(SetBt(q));
    }
  }

  /** `_SETCPY`: copy the first `m` words of `s2` into `s1`. */
  method SetCpy(s1: array<Word>, s2: array<Word>, m: nat)
    requires m <= s1.Length && m <= s2.Length
    modifies s1
    ensures s1[..m] == old(s2[..m]) && s1[m..] == old(s1[m..])
    ensures Members(s1[..m]) == old(Members(s2[..m]))
  {
    for i := 0 to m
      invariant forall k :: 0 <= k < i ==> s1[k] == old(s2[k])
      invariant forall k :: i <= k < s1.Length ==> s1[k] == old(s1[k])
      invariant s1 != s2 ==> s2[..] == old(s2[..])
    {
      s1[i] := s2[i];
    }
  }

  // The set, word by word.

  /** The set `S` moved up by `d`. */
  ghost function Shift(S: set<nat>, d: nat): set<nat>
  {
    set x | x in S :: x + d
  }

  /** Moving a set keeps its size. */
  lemma {:induction false} ShiftCard(S: set<nat>, d: nat)
    ensures |Shift(S, d)| == |S|
    decreases |S|
  {
    if S == {} {
      assert Shift(S, d) == {};
    } else {
      var x :| x in S;
      ShiftCard(S - {x}, d);
      forall y | y in Shift(S, d)
        ensures y in Shift(S - {x}, d) + {x + d}
      {
        var z :| z in S && y == z + d;
        if z != x {
          assert z in S - {x};
        }
      }
      assert Shift(S, d) == Shift(S - {x}, d) + {x + d};
      assert x + d !in Shift(S - {x}, d);
    }
  }

  /** A position of the first word is its bit; a later one is a position of the rest, a word lower. */
  lemma MembersConsAt(ws: seq<Word>, q: nat)
    requires |ws| > 0
    ensures q < 64 ==> (q in Members(ws) <==> Has(ws[0], q))
    ensures q >= 64 ==> (q in Members(ws) <==> q - 64 in Members(ws[1..]))
  {
    if q < 64 {
      Position(0, q);
    } else {
      Position(SetWd(q) - 1, SetBt(q));
    }
  }

  /** The positions of the first word, and those of the rest moved up by a word. */
  lemma MembersCons(ws: seq<Word>)
    requires |ws| > 0
    ensures Members(ws) == Elems(ws[0]) + Shift(Members(ws[1..]), 64)
  {
    forall q: nat
      ensures q in Members(ws) <==> q in Elems(ws[0]) || q in Shift(Members(ws[1..]), 64)
    {
      MembersConsAt(ws, q);
      if q >= 64 && q - 64 in Members(ws[1..]) {
        assert q == (q - 64) + 64;
      }
    }
  }

  /** The number of elements of the words, word by word. */
  ghost function Total(ws: seq<Word>): nat
  {
    if ws == [] then 0 else |Elems(ws[0])| + Total(ws[1..])
  }

  /** `Total` adds over concatenation. */
  lemma {:induction false} TotalAppend(a: seq<Word>, b: seq<Word>)
    ensures Total(a + b) == Total(a) + Total(b)
  {
    if a == [] {
      assert a + b == b;
    } else {
      assert (a + b)[0] == a[0] && (a + b)[1..] == a[1..] + b;
      TotalAppend(a[1..], b);
    }
  }

  /** The set of the words has `Total` elements. */
  lemma {:induction false} MembersCard(ws: seq<Word>)
    ensures |Members(ws)| == Total(ws)
  {
    if ws == [] {
      assert Members(ws) == {};
    } else {
      MembersCons(ws);
      MembersCard(ws[1..]);
      ShiftCard(Members(ws[1..]), 64);
      assert Elems(ws[0]) * Shift(Members(ws[1..]), 64) == {};
    }
  }

  /** Position `64w + j` is in the set exactly when bit `j` of word `w` is. */
  lemma MemberAt(ws: seq<Word>, w: nat, j: nat)
    requires w < |ws| && j < 64
    ensures 64 * w + j in Members(ws) <==> j in Elems(ws[w])
  {
    Position(w, j);
  }

  /** The first `m` words hold the positions of the set below `64m`. */
  lemma MembersPrefix(ws: seq<Word>, m: nat, q: nat)
    requires m <= |ws| && q < 64 * m
    ensures q in Members(ws[..m]) <==> q in Members(ws)
  {
  }

  /** `bit_setsize`: the number of elements of the set in the first `m` words. */
  method SetSize(s: array<Word>, m: nat) returns (count: nat)
    requires m <= s.Length
    ensures count == |Members(s[..m])|
  {
    MembersCard(s[..m]);
    if m == 1 {
      PopcountElems(s[0]);
      assert Total(s[..1]) == |Elems(s[0])| + Total([]);
      return Popcount(s[0]);
    }
    count := 0;
    var i: int := m - 1;
    while i >= 0
      invariant -1 <= i < m
      invariant count == Total(s[i + 1..m])
      decreases i + 1
    {
      PopcountElems(s[i]);
      assert s[i..m][0] == s[i] && s[i..m][1..] == s[i + 1..m];
      count := count + Popcount(s[i]);
      i := i - 1;
    }
    assert s[0..m] == s[..m];
  }

  /** One more word adds its elements to `Total`. */
  lemma TotalSnoc(ws: seq<Word>, i: nat)
    requires i < |ws|
    ensures Total(ws[..i + 1]) == Total(ws[..i]) + |Elems(ws[i])|
  {
    assert ws[..i + 1] == ws[..i] + [ws[i]];
    TotalAppend(ws[..i], [ws[i]]);
    assert Total([ws[i]]) == |Elems(ws[i])| + Total([]);
  }

  /** A prefix has no more elements than the whole. */
  lemma TotalPrefix(ws: seq<Word>, i: nat)
    requires i <= |ws|
    ensures Total(ws[..i]) <= Total(ws)
  {
    assert ws == ws[..i] + ws[i..];
    TotalAppend(ws[..i], ws[i..]);
  }

  /** The words of both sets, word by word. */
  ghost function Ands(a: seq<Word>, b: seq<Word>): (c: seq<Word>)
    requires |a| == |b|
    ensures |c| == |a|
  {
    seq(|a|, i requires 0 <= i < |a| => WIntersect(a[i], b[i]))
  }

  /** The words of both sets hold the positions the two sets share. */
  lemma MembersAnds(a: seq<Word>, b: seq<Word>)
    requires |a| == |b|
    ensures Members(Ands(a, b)) == Members(a) * Members(b)
  {
    forall q: nat | q < 64 * |a|
      ensures q in Members(Ands(a, b)) <==> q in Members(a) && q in Members(b)
    {
      MemberAt(Ands(a, b), SetWd(q), SetBt(q));
      MemberAt(a, SetWd(q), SetBt(q));
      MemberAt(b, SetWd(q), SetBt(q));
    }
  }

  /**
   * `bit_intersect`: -1 as soon as the running count of shared elements
   * exceeds `num`, and 1 otherwise. The answer is therefore -1 exactly when
   * the sets share more than `num` elements.
   */
  method Intersect(s1: array<Word>, s2: array<Word>, m: nat, num: nat) returns (r: int)
    requires m <= s1.Length && m <= s2.Length
    ensures r == 1 || r == -1
    ensures r == -1 <==> |Members(s1[..m]) * Members(s2[..m])| > num
  {
    ghost var A := Ands(s1[..m], s2[..m]);
    MembersAnds(s1[..m], s2[..m]);
    MembersCard(A);
    var count := 0;
    for i := 0 to m
      invariant count == Total(A[..i]) && count <= num
    {
      TotalSnoc(A, i);
      count := count + WIntersectSize(s1[i], s2[i]);
      if count > num {
        TotalPrefix(A, i + 1);
        return -1;
      }
    }
    assert A[..m] == A;
    return 1;
  }

  // Scanning for the next element.

  /**
   * The scan of `bit_nextelement` is at word `w` with `x` left to look at:
   * `pos` lies before the end of word `w`, no element after `pos` lies
   * before word `w`, and `x` holds the elements of word `w` after `pos`.
   */
  ghost predicate Scanned(ws: seq<Word>, pos: int, w: nat, x: Word)
  {
    w < |ws| && pos < 64 * w + 64
    && (forall q :: q in Members(ws) && q > pos ==> q >= 64 * w)
    && (forall j: nat :: j in Elems(x) <==> j in Elems(ws[w]) && 64 * w + j > pos)
  }

  /** A negative `pos` starts the scan at the whole first word. */
  lemma ScanFirst(ws: seq<Word>, pos: int)
    requires |ws| > 0 && pos < 0
    ensures Scanned(ws, pos, 0, ws[0])
  {
  }

  /** The elements of `v` above `b`, `v & _BITMASK(b)`. */
  function MaskAbove(v: Word, b: nat): (r: Word)
    requires b < 64
    ensures forall j: nat :: j in Elems(r) <==> j in Elems(v) && j > b
  {
    ElemsBitMask(b);
    WIntersect(v, BitMask(b))
  }

  /** The elements of `_BITMASK(b)` are those above `b`. */
  lemma ElemsBitMask(b: nat)
    requires b < 64
    ensures forall j: nat :: j in Elems(BitMask(b)) <==> b < j < 64
  {
    forall j: nat | j < 64
      ensures Has(BitMask(b), j) <==> j > b
    {
      BitMaskHas(b, j);
    }
  }

  /** Otherwise the scan starts at the word of `pos`, masked above its bit. */
  lemma ScanFrom(ws: seq<Word>, pos: nat)
    requires pos < 64 * |ws|
    ensures Scanned(ws, pos, SetWd(pos), MaskAbove(ws[SetWd(pos)], SetBt(pos)))
  {
  }

  /**
   * `r` is the smallest element of `ws` after `pos`, or -1 when every
   * element is at most `pos`.
   */
  ghost predicate NextAfter(ws: seq<Word>, pos: int, r: int)
  {
    (r == -1 <==> forall q :: q in Members(ws) ==> q <= pos)
    && (r != -1 ==> pos < r < 64 * |ws| && r in Members(ws)
                    && forall q :: q in Members(ws) && q > pos ==> r <= q)
  }

  /** There is one answer, whichever way it is computed. */
  lemma NextAfterUnique(ws: seq<Word>, pos: int, r1: int, r2: int)
    requires NextAfter(ws, pos, r1) && NextAfter(ws, pos, r2)
    ensures r1 == r2
  {
  }

  /** In the first word, the word of `pos` is word 0 and its bit is `pos`. */
  lemma ScanFromFirst(ws: seq<Word>, pos: nat)
    requires |ws| > 0 && pos < 64
    ensures Scanned(ws, pos, 0, MaskAbove(ws[0], pos))
  {
    Position(0, pos);
    ScanFrom(ws, pos);
  }

  /** No element after `pos` lies below the smallest element of a nonempty `x`. */
  lemma ScanFoundLeast(ws: seq<Word>, pos: int, w: nat, x: Word, q: nat)
    requires Scanned(ws, pos, w, x) && x != 0 && q in Members(ws) && q > pos
    ensures 64 * w + FirstBitNZ(x) <= q
  {
    FirstBitNZLowest(x);
    if q < 64 * w + 64 {
      MemberAt(ws, w, q - 64 * w);
      assert q - 64 * w in Elems(x);
    }
  }

  /** A nonempty `x` holds the answer: its smallest element, in word `w`. */
  lemma ScanFound(ws: seq<Word>, pos: int, w: nat, x: Word, r: int)
    requires Scanned(ws, pos, w, x) && x != 0 && r == 64 * w + FirstBitNZ(x)
    ensures NextAfter(ws, pos, r)
  {
    FirstBitNZLowest(x);
    assert FirstBitNZ(x) in Elems(x);
    MemberAt(ws, w, FirstBitNZ(x));
    forall q | q in Members(ws) && q > pos
      ensures r <= q
    {
      ScanFoundLeast(ws, pos, w, x, q);
    }
  }

  /** An empty `x` moves the scan to the next word, or ends it without an element. */
  lemma ScanNext(ws: seq<Word>, pos: int, w: nat, x: Word)
    requires Scanned(ws, pos, w, x) && x == 0
    ensures w + 1 < |ws| ==> Scanned(ws, pos, w + 1, ws[w + 1])
    ensures w + 1 == |ws| ==> NextAfter(ws, pos, -1)
  {
    ElemsEmpty(x);
    forall q | q in Members(ws) && q > pos
      ensures q >= 64 * w + 64
    {
      if q < 64 * w + 64 {
        MemberAt(ws, w, q - 64 * w);
        assert false;
      }
    }
  }

  /**
   * `bit_nextelement`: the smallest element after `pos` (the smallest element
   * at all when `pos` is negative), or -1 when there is none. The one-word
   * branch and the general loop both meet this contract, which fixes the
   * answer (`NextAfterUnique`), so they agree.
   */
  method NextElement(s: array<Word>, m: nat, pos: int) returns (r: int)
    requires 1 <= m <= s.Length && pos < 64 * m
    ensures NextAfter(s[..m], pos, r)
  {
    ghost var ws := s[..m];
    var setwd: Word;
    if m == 1 {
      if pos < 0 {
        setwd := s[0];
        ScanFirst(ws, pos);
      } else {
        setwd := MaskAbove(s[0], pos);
        ScanFromFirst(ws, pos);
      }
      if setwd == 0 {
        ScanNext(ws, pos, 0, setwd);
        return -1;
      }
      r := FirstBitNZ(setwd);
      ScanFound(ws, pos, 0, setwd, r);
      return;
    }
    var w: nat;
    if pos < 0 {
      w := 0;
      setwd := s[0];
      ScanFirst(ws, pos);
    } else {
      w := SetWd(pos);
      setwd := MaskAbove(s[w], SetBt(pos));
      ScanFrom(ws, pos);
    }
    while true
      invariant Scanned(ws, pos, w, setwd)
      decreases m - w
    {
      if setwd != 0 {
        r := TimesWordSize(w) + FirstBitNZ(setwd);
        ScanFound(ws, pos, w, setwd, r);
        return;
      }
      ScanNext(ws, pos, w, setwd);
      w := w + 1;
      if w == m {
        return -1;
      }
      setwd := s[w];
    }
  }

  // Permutations.

  /** The image of the positions `S` under `p`. */
  ghost function Image(p: seq<nat>, S: set<nat>): set<nat>
  {
    set b | b in S && b < |p| :: p[b]
  }

  /** The positions of `M` below `n`. */
  ghost function Done(M: set<nat>, n: nat): set<nat>
  {
    set q | q in M && q < n
  }

  /**
   * The positions of `M` a scan has taken when it is at word `w` and the
   * bits `rest` of that word are still to come.
   */
  ghost function Taken(M: set<nat>, w: nat, rest: set<nat>): set<nat>
  {
    set q | q in M && q < 64 * w + 64 && (q < 64 * w || q - 64 * w !in rest)
  }

  /** With the whole word `w` still to come, the scan has taken the positions below it. */
  lemma TakenStart(ws: seq<Word>, w: nat)
    requires w < |ws|
    ensures Taken(Members(ws), w, Elems(ws[w])) == Done(Members(ws), 64 * w)
  {
    forall q | q in Taken(Members(ws), w, Elems(ws[w]))
      ensures q < 64 * w
    {
      if q >= 64 * w {
        MemberAt(ws, w, q - 64 * w);
        assert false;
      }
    }
  }

  /** Taking bit `b` of word `w` takes position `64w + b`, an element. */
  lemma TakenStep(ws: seq<Word>, w: nat, rest: set<nat>, b: nat)
    requires w < |ws| && b in rest && rest <= Elems(ws[w])
    ensures 64 * w + b in Members(ws)
    ensures Taken(Members(ws), w, rest - {b}) == Taken(Members(ws), w, rest) + {64 * w + b}
  {
    MemberAt(ws, w, b);
  }

  /** With nothing of word `w` to come, the scan has taken the positions below the next word. */
  lemma TakenEnd(M: set<nat>, w: nat)
    ensures Taken(M, w, {}) == Done(M, 64 * w + 64)
  {
  }

  /** Every element lies below the end of the words. */
  lemma DoneAll(ws: seq<Word>)
    ensures Done(Members(ws), 64 * |ws|) == Members(ws)
  {
  }

  /** Adding a position adds its image. */
  lemma ImageAdd(p: seq<nat>, S: set<nat>, q: nat)
    requires q < |p|
    ensures Image(p, S + {q}) == Image(p, S) + {p[q]}
  {
  }

  /** All words 0 hold no element. */
  lemma MembersZero(ws: seq<Word>)
    requires forall k :: 0 <= k < |ws| ==> ws[k] == 0
    ensures Members(ws) == {}
  {
    forall q: nat | q in Members(ws)
      ensures false
    {
      HasZero(SetBt(q));
    }
  }

  /** `_ADDELEMENT` below `64m` acts on the first `m` words alone. */
  lemma AddedPrefix(ws: seq<Word>, m: nat, pos: nat)
    requires m <= |ws| && pos < 64 * m
    ensures Added(ws, pos)[..m] == Added(ws[..m], pos)
    ensures Added(ws, pos)[m..] == ws[m..]
  {
  }

  /** In a one-word set, `_ADDELEMENT` is an `|=` of the bit on the word. */
  lemma AddedFirst(ws: seq<Word>, pos: nat)
    requires |ws| > 0 && pos < 64
    ensures Added(ws, pos) == ws[0 := SetBit(ws[0], pos)]
  {
    Position(0, pos);
  }

  /** `p` maps the positions `T` into `M`. */
  ghost predicate MapsInto(p: seq<nat>, T: set<nat>, M: set<nat>)
  {
    forall q :: q in T ==> q < |p| && p[q] in M
  }

  /** One step of `bit_permset`: taking bit `b` of word `w` adds the image of `64w + b`. */
  lemma PermSetStep(ws2: seq<Word>, p: seq<nat>, w: nat, rest: set<nat>, b: nat)
    requires w < |ws2| && b in rest && rest <= Elems(ws2[w]) && 64 * w + b < |p|
    ensures Image(p, Taken(Members(ws2), w, rest - {b})) == Image(p, Taken(Members(ws2), w, rest)) + {p[64 * w + b]}
  {
    TakenStep(ws2, w, rest, b);
    ImageAdd(p, Taken(Members(ws2), w, rest), 64 * w + b);
  }

  /** `_ADDELEMENT` below `64m` adds the position to the set in the first `m` words. */
  lemma AddedPrefixMembers(ws: seq<Word>, m: nat, pos: nat, after: seq<Word>)
    requires m <= |ws| && pos < 64 * m && after == Added(ws, pos)
    ensures Members(after[..m]) == Members(ws[..m]) + {pos}
    ensures after[m..] == ws[m..]
  {
    AddedPrefix(ws, m, pos);
    AddedMembers(ws[..m], pos);
  }

  /** A bit of word `w` whose image is not an element refutes the word. */
  lemma AutWordFails(full: seq<Word>, p: seq<nat>, m: nat, w: nat, b: nat)
    requires m <= |full| && 64 * w + b in Members(full[..m]) && 64 * w + b < |p|
    requires b < 64 && p[64 * w + b] < 64 * m && p[64 * w + b] !in Members(full)
    ensures !MapsInto(p, Done(Members(full[..m]), 64 * w + 64), Members(full[..m]))
  {
    MembersPrefix(full, m, p[64 * w + b]);
    assert 64 * w + b in Done(Members(full[..m]), 64 * w + 64);
  }

  /** One step of `bit_permaut`: the image of `64w + b` is an element. */
  lemma PermAutStep(ws: seq<Word>, p: seq<nat>, w: nat, rest: set<nat>, b: nat)
    requires w < |ws| && b in rest && rest <= Elems(ws[w])
    requires MapsInto(p, Taken(Members(ws), w, rest), Members(ws))
    requires 64 * w + b < |p| && p[64 * w + b] in Members(ws)
    ensures MapsInto(p, Taken(Members(ws), w, rest - {b}), Members(ws))
  {
    TakenStep(ws, w, rest, b);
  }

  /** One pass of the inner loop of `bit_permaut` that finds the image in the set keeps its invariant. */
  lemma AutWordStep(full: seq<Word>, ws: seq<Word>, p: seq<nat>, m: nat, w: nat, setw: Word, b: nat, rest: Word)
    requires m <= |full| && ws == full[..m] && w < m
    requires Elems(setw) <= Elems(ws[w]) && b in Elems(setw) && Elems(rest) == Elems(setw) - {b}
    requires MapsInto(p, Taken(Members(ws), w, Elems(setw)), Members(ws))
    requires 64 * w + b < |p| && p[64 * w + b] < 64 * m && p[64 * w + b] in Members(full)
    ensures Elems(rest) <= Elems(ws[w]) && |Elems(rest)| < |Elems(setw)|
    ensures MapsInto(p, Taken(Members(ws), w, Elems(rest)), Members(ws))
  {
    MembersPrefix(full, m, p[64 * w + b]);
    PermAutStep(ws, p, w, Elems(setw), b);
  }

  /** A word of the set scanned to its end. */
  lemma TakenAll(ws: seq<Word>, w: nat, x: Word)
    requires x == 0
    ensures Taken(Members(ws), w, Elems(x)) == Done(Members(ws), 64 * w + 64)
  {
    ElemsEmpty(x);
    TakenEnd(Members(ws), w);
  }

  /**
   * The one-word branch of `bit_permset`: clear the word of `s1`, then set
   * the bit `p[b]` for every bit `b` taken from the word of `s2`.
   */
  method PermSetOne(s1: array<Word>, s2: array<Word>, p: seq<nat>)
    requires s1 != s2 && 1 <= s1.Length && 1 <= s2.Length
    requires forall q :: q in Members(s2[..1]) ==> q < |p| && p[q] < 64
    modifies s1
    ensures Members(s1[..1]) == Image(p, Members(s2[..1]))
    ensures s1[1..] == old(s1[1..])
  {
    ghost var ws2 := s2[..1];
    s1[0] := 0;
    MembersZero(s1[..1]);
    var setw := s2[0];
    TakenStart(ws2, 0);
    while setw != 0
      invariant Elems(setw) <= Elems(ws2[0])
      invariant Members(s1[..1]) == Image(p, Taken(Members(ws2), 0, Elems(setw)))
      invariant s1[1..] == old(s1[1..])
      decreases |Elems(setw)|
    {
      var b, rest := TakeBit(setw);
      TakenStep(ws2, 0, Elems(setw), b);
      ghost var before := s1[..];
      AddedFirst(before, p[b]);
      s1[0] := SetBit(s1[0], p[b]);
      AddImagesStep(ws2, p, 1, 0, setw, b, rest, before, s1[..]);
      setw := rest;
    }
    TakenAll(ws2, 0, setw);
    DoneAll(ws2);
  }

  /** One pass of the inner loop of `bit_permset` keeps its invariant. */
  lemma AddImagesStep(ws2: seq<Word>, p: seq<nat>, m: nat, w: nat, setw: Word, b: nat, rest: Word,
                      before: seq<Word>, after: seq<Word>)
    requires m <= |before| && w < |ws2| && 64 * w + b < |p| && p[64 * w + b] < 64 * m
    requires Elems(setw) <= Elems(ws2[w]) && b in Elems(setw) && Elems(rest) == Elems(setw) - {b}
    requires Members(before[..m]) == Image(p, Taken(Members(ws2), w, Elems(setw)))
    requires after == Added(before, p[64 * w + b])
    ensures Elems(rest) <= Elems(ws2[w]) && |Elems(rest)| < |Elems(setw)|
    ensures Members(after[..m]) == Image(p, Taken(Members(ws2), w, Elems(rest)))
    ensures after[m..] == before[m..]
  {
    PermSetStep(ws2, p, w, Elems(setw), b);
    AddedPrefixMembers(before, m, p[64 * w + b], after);
  }

  /**
   * The inner loop of `bit_permset`: add to `s1` the image of every bit
   * taken from word `w` of `s2`.
   */
  method AddImages(s1: array<Word>, s2: array<Word>, p: seq<nat>, m: nat, w: nat)
    requires s1 != s2 && m <= s1.Length && m <= s2.Length && w < m
    requires forall q :: q in Members(s2[..m]) ==> q < |p| && p[q] < 64 * m
    requires Members(s1[..m]) == Image(p, Done(Members(s2[..m]), 64 * w))
    modifies s1
    ensures Members(s1[..m]) == Image(p, Done(Members(s2[..m]), 64 * w + 64))
    ensures s1[m..] == old(s1[m..])
  {
    ghost var ws2 := s2[..m];
    var setw := s2[w];
    TakenStart(ws2, w);
    while setw != 0
      invariant Elems(setw) <= Elems(ws2[w])
      invariant Members(s1[..m]) == Image(p, Taken(Members(ws2), w, Elems(setw)))
      invariant s1[m..] == old(s1[m..])
      decreases |Elems(setw)|
    {
      var b, rest := TakeBit(setw);
      TakenStep(ws2, w, Elems(setw), b);
      var pos := p[TimesWordSize(w) + b];
      ghost var before := s1[..];
      AddElement(s1, pos);
      AddImagesStep(ws2, p, m, w, setw, b, rest, before, s1[..]);
      setw := rest;
    }
    TakenAll(ws2, w, setw);
  }

  /**
   * `bit_permset`: make `s1` the image of `s2` under `p`. The source reads
   * `p` only at elements of `s2` and demands that their images be positions
   * of the set, and that `s1` and `s2` not be the same set.
   */
  method PermSet(s1: array<Word>, s2: array<Word>, p: seq<nat>, m: nat)
    requires s1 != s2 && m <= s1.Length && m <= s2.Length
    requires forall q :: q in Members(s2[..m]) ==> q < |p| && p[q] < 64 * m
    modifies s1
    ensures Members(s1[..m]) == Image(p, Members(s2[..m]))
    ensures s1[m..] == old(s1[m..])
  {
    if m == 1 {
      PermSetOne(s1, s2, p);
      return;
    }
    EmptySet(s1, m);
    for w := 0 to m
      invariant Members(s1[..m]) == Image(p, Done(Members(s2[..m]), 64 * w))
      invariant s1[m..] == old(s1[m..])
    {
      AddImages(s1, s2, p, m, w);
    }
    DoneAll(s2[..m]);
  }

  /**
   * The inner loop of `bit_permaut`: check that `p` maps every bit taken
   * from word `w` of `s` into `s`, stopping at the first that it does not.
   */
  method AutWord(s: array<Word>, p: seq<nat>, m: nat, w: nat) returns (ok: bool)
    requires m <= s.Length && w < m
    requires forall q :: q in Members(s[..m]) ==> q < |p| && p[q] < 64 * m
    requires MapsInto(p, Done(Members(s[..m]), 64 * w), Members(s[..m]))
    ensures ok <==> MapsInto(p, Done(Members(s[..m]), 64 * w + 64), Members(s[..m]))
  {
    ghost var ws := s[..m];
    var setw := s[w];
    TakenStart(ws, w);
    while setw != 0
      invariant Elems(setw) <= Elems(ws[w])
      invariant MapsInto(p, Taken(Members(ws), w, Elems(setw)), Members(ws))
      decreases |Elems(setw)|
    {
      var b, rest := TakeBit(setw);
      TakenStep(ws, w, Elems(setw), b);
      var pos := p[TimesWordSize(w) + b];
      if !IsElement(s, pos) {
        AutWordFails(s[..], p, m, w, b);
        return false;
      }
      AutWordStep(s[..], ws, p, m, w, setw, b, rest);
      setw := rest;
    }
    TakenAll(ws, w, setw);
    return true;
  }

  /**
   * `bit_permaut`: 1 when `p` maps every element of the set into the set,
   * -1 otherwise. The source reads `p` only at elements of `s` and demands
   * that their images be positions of the set. Its one-word branch is the
   * inner loop at word 0, where `p[b]` is `p[_TIMESWORDSIZE(0) + b]`.
   */
  method PermAut(s: array<Word>, p: seq<nat>, m: nat) returns (r: int)
    requires m <= s.Length
    requires forall q :: q in Members(s[..m]) ==> q < |p| && p[q] < 64 * m
    ensures r == 1 || r == -1
    ensures r == 1 <==> forall q :: q in Members(s[..m]) ==> p[q] in Members(s[..m])
  {
    DoneAll(s[..m]);
    if m == 1 {
      var ok := AutWord(s, p, 1, 0);
      return if ok then 1 else -1;
    }
    for w := 0 to m
      invariant MapsInto(p, Done(Members(s[..m]), 64 * w), Members(s[..m]))
    {
      var ok := AutWord(s, p, m, w);
      if !ok {
        return -1;
      }
    }
    return 1;
  }
}
