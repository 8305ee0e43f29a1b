/**
 * The standard hash offered by both hash tables (`hashtabs_stdhash` and
 * `dhashtabs_stdhash`) for arrays of 32-bit unsigned integers: a version of
 * Boost's `hash_combine`. All arithmetic is on 64-bit unsigned words and
 * wraps around, which `bv64` does by itself.
 */
module StdHash {
  /** One array element, widened to 64 bits and scrambled. */
  function Mix(v: bv32): bv64
  {
    var x0 := v as bv64;
    var x1 := ((x0 >> 16) ^ x0) * 0x45d9f3b;
    var x2 := ((x1 >> 16) ^ x1) * 0x45d9f3b;
    (x2 >> 16) ^ x2
  }

  /** The running seed after combining one more element into it. */
  function Combine(seed: bv64, v: bv32): bv64
  {
    seed ^ (Mix(v) + 0x9e3779b9 + (seed << 6) + (seed >> 2))
  }

  /** The seed after combining the elements of `xs` into `seed`, first to last. */
  function CombineAll(seed: bv64, xs: seq<bv32>): bv64
  {
    if xs == [] then seed else Combine(CombineAll(seed, xs[..|xs| - 1]), xs[|xs| - 1])
  }

  /**
   * The element count `n` read as a 64-bit word: the source reads the same
   * `size_t` both as the count and as the initial seed.
   */
  function ToWord(n: nat): (w: bv64)
    ensures n == 0 ==> w == 0
  {
    if n == 0 then 0 else ToWord(n - 1) + 1
  }

  /**
   * The hash of an array of `|xs|` elements: the seed starts as the element
   * count, so the empty array hashes to 0.
   */
  function HashOf(xs: seq<bv32>): (h: bv64)
    ensures xs == [] ==> h == 0
  {
    CombineAll(ToWord(|xs|), xs)
  }

  /**
   * Hash the first `n` elements of `a`. The source reads `n` elements
   * unchecked, so `n` must not exceed the array.
   */
  method Hash(a: array<bv32>, n: nat) returns (h: bv64)
    requires n <= a.Length
    ensures h == HashOf(a[..n])
  {
    h := ToWord(n);
    var i := 0;
    while i < n
      invariant 0 <= i <= n
      invariant h == CombineAll(ToWord(n), a[..i])
    {
      assert a[..i + 1][..i] == a[..i];
      h := Combine(h, a[i]);
      i := i + 1;
    }
    assert a[..n][..i] == a[..i];
  }

  /** Combining a concatenation is combining its parts in turn. */
  lemma {:induction false} CombineAllAppend(seed: bv64, xs: seq<bv32>, ys: seq<bv32>)
    ensures CombineAll(seed, xs + ys) == CombineAll(CombineAll(seed, xs), ys)
    decreases |ys|
  {
    if ys == [] {
      assert xs + ys == xs;
    } else {
      var n := |ys| - 1;
      assert (xs + ys)[..|xs + ys| - 1] == xs + ys[..n];
      CombineAllAppend(seed, xs, ys[..n]);
    }
  }
}
