/**
 * Population counts over windows of 64-bit word arrays and next-power-of-two
 * rounding, as in hppcrt-core's BitUtil.
 *
 * Java's `long` words are `bv64` values and Java's `int` is `bv32` where the
 * source shifts and wraps; array indices and counters are unbounded integers
 * constrained to Java's `int` range where the source relies on it.
 */
module BitUtil {

  // ---------------------------------------------------------------------------
  // Java integer ranges
  // ---------------------------------------------------------------------------

  /** The values of a Java `int`. */
  predicate IsInt32(x: int) {
    -0x8000_0000 <= x < 0x8000_0000
  }

  /** The result of a Java `int` addition: the exact sum wrapped into the `int` range. */
  function WrapInt32(x: int): (r: int)
    ensures IsInt32(r)
    ensures (r - x) % 0x1_0000_0000 == 0
    ensures IsInt32(x) ==> r == x
  {
    (x + 0x8000_0000) % 0x1_0000_0000 - 0x8000_0000
  }

  // ---------------------------------------------------------------------------
  // Long.bitCount and window sums
  // ---------------------------------------------------------------------------

  /** A word with exactly one bit set. */
  predicate IsPowerOfTwo32(x: bv32) {
    x != 0 && x & (x - 1) == 0
  }

  predicate IsPowerOfTwo64(x: bv64) {
    x != 0 && x & (x - 1) == 0
  }

  /**
   * The number of set bits of `w` at the position of the single bit `m` and at every lower
   * position (zero when `m` is zero).
   */
  function CountFrom(w: bv64, m: bv64): nat
    decreases m
  {
    if m == 0 then 0 else (if w & m != 0 then 1 else 0) + CountFrom(w, m >> 1)
  }

  /** `Long.bitCount(w)`: the number of set bits among all 64 positions of `w`. */
  function BitCount(w: bv64): (r: nat)
    ensures w == 0 ==> r == 0
  {
    ZeroHasNoBits(0x8000_0000_0000_0000);
    CountFrom(w, 0x8000_0000_0000_0000)
  }

  /** `and`, `or`, `and not` and `xor` of two words, the combinations the window counts use. */
  function And(x: bv64, y: bv64): bv64 { x & y }
  function Or(x: bv64, y: bv64): bv64 { x | y }
  function AndNot(x: bv64, y: bv64): bv64 { x & !y }
  function Xor(x: bv64, y: bv64): bv64 { x ^ y }

  /** The index window `[lo, hi)` of a `for (i = lo; i < hi; ++i)` loop is inside `s`, or empty. */
  predicate InWindow<T>(s: seq<T>, lo: int, hi: int) {
    hi <= lo || (0 <= lo && hi <= |s|)
  }

  /** The sum of `BitCount(s[i])` for `lo <= i < hi` (zero when the window is empty). */
  function PopRange(s: seq<bv64>, lo: int, hi: int): nat
    requires InWindow(s, lo, hi)
    decreases hi - lo
  {
    if hi <= lo then 0 else PopRange(s, lo, hi - 1) + BitCount(s[hi - 1])
  }

  /** The sum of `BitCount(op(a[i], b[i]))` for `lo <= i < hi` (zero when the window is empty). */
  function PopRangeWith(a: seq<bv64>, b: seq<bv64>, lo: int, hi: int, op: (bv64, bv64) -> bv64): nat
    requires InWindow(a, lo, hi) && InWindow(b, lo, hi)
    decreases hi - lo
  {
    if hi <= lo then 0 else PopRangeWith(a, b, lo, hi - 1, op) + BitCount(op(a[hi - 1], b[hi - 1]))
  }

  // ---------------------------------------------------------------------------
  // Facts about the counts
  // ---------------------------------------------------------------------------

  lemma {:induction false} ZeroHasNoBits(m: bv64)
    ensures CountFrom(0, m) == 0
    decreases m
  {
    if m != 0 {
      ZeroHasNoBits(m >> 1);
    }
  }

  /** Halving a single-bit mask moves it one position down, or past position 0. */
  lemma HalfSingle(m: bv64)
    requires IsPowerOfTwo64(m)
    ensures m >> 1 == 0 || IsPowerOfTwo64(m >> 1)
  {
  }

  /** How `or` and `and` act on the one bit position selected by `m`. */
  lemma MaskedOr(x: bv64, y: bv64, m: bv64)
    requires IsPowerOfTwo64(m)
    ensures (x | y) & m != 0 <==> x & m != 0 || y & m != 0
  {
  }

  lemma MaskedAnd(x: bv64, y: bv64, m: bv64)
    requires IsPowerOfTwo64(m)
    ensures (x & y) & m != 0 <==> x & m != 0 && y & m != 0
  {
  }

  /** |x or y| + |x and y| == |x| + |y|, over the positions from `m` down. */
  lemma {:induction false} CountUnion(x: bv64, y: bv64, m: bv64)
    requires m == 0 || IsPowerOfTwo64(m)
    ensures CountFrom(x | y, m) + CountFrom(x & y, m) == CountFrom(x, m) + CountFrom(y, m)
    decreases m
  {
    if m != 0 {
      MaskedOr(x, y, m);
      MaskedAnd(x, y, m);
      HalfSingle(m);
      CountUnion(x, y, m >> 1);
    }
  }

  /** `x and not y` and `x and y` split `x` into two disjoint parts. */
  lemma SplitByMask(x: bv64, y: bv64)
    ensures (x & !y) | (x & y) == x
    ensures (x & !y) & (x & y) == 0
    ensures y & x == x & y
  {
  }

  /** `x xor y` is the disjoint union of `x and not y` and `y and not x`. */
  lemma XorAsUnion(x: bv64, y: bv64)
    ensures (x & !y) | (y & !x) == x ^ y
    ensures (x & !y) & (y & !x) == 0
  {
  }

  /** Per word: |x or y| + |x and y| == |x| + |y|. */
  lemma BitCountUnion(x: bv64, y: bv64)
    ensures BitCount(x | y) + BitCount(x & y) == BitCount(x) + BitCount(y)
  {
    CountUnion(x, y, 0x8000_0000_0000_0000);
  }

  /** The counts of two words with no common bit add up. */
  lemma BitCountDisjoint(a: bv64, b: bv64)
    requires a & b == 0
    ensures BitCount(a | b) == BitCount(a) + BitCount(b)
  {
    BitCountUnion(a, b);
  }

  /** Per word: |x and not y| + |x and y| == |x|. */
  lemma BitCountAndNot(x: bv64, y: bv64)
    ensures BitCount(x & !y) + BitCount(x & y) == BitCount(x)
  {
    SplitByMask(x, y);
    BitCountDisjoint(x & !y, x & y);
  }

  /** Per word: |x xor y| + 2|x and y| == |x| + |y|. */
  lemma BitCountXor(x: bv64, y: bv64)
    ensures BitCount(x ^ y) + 2 * BitCount(x & y) == BitCount(x) + BitCount(y)
  {
    XorAsUnion(x, y);
    BitCountDisjoint(x & !y, y & !x);
    BitCountAndNot(x, y);
    BitCountAndNot(y, x);
    SplitByMask(x, y);
  }

  /** The three identities, stated on the combinations the window counts use. */
  lemma BitCountInclusionExclusion(x: bv64, y: bv64)
    ensures BitCount(Or(x, y)) + BitCount(And(x, y)) == BitCount(x) + BitCount(y)
    ensures BitCount(Xor(x, y)) + 2 * BitCount(And(x, y)) == BitCount(x) + BitCount(y)
    ensures BitCount(AndNot(x, y)) + BitCount(And(x, y)) == BitCount(x)
  {
    BitCountUnion(x, y);
    BitCountXor(x, y);
    BitCountAndNot(x, y);
  }

  /**
   * Over a window: pop_union + pop_intersect == pop_array(a) + pop_array(b),
   * pop_xor + 2 * pop_intersect == pop_array(a) + pop_array(b), and
   * pop_andnot + pop_intersect == pop_array(a).
   */
  lemma {:induction false} PopRangeInclusionExclusion(a: seq<bv64>, b: seq<bv64>, lo: int, hi: int)
    requires InWindow(a, lo, hi) && InWindow(b, lo, hi)
    ensures PopRangeWith(a, b, lo, hi, Or) + PopRangeWith(a, b, lo, hi, And)
            == PopRange(a, lo, hi) + PopRange(b, lo, hi)
    ensures PopRangeWith(a, b, lo, hi, Xor) + 2 * PopRangeWith(a, b, lo, hi, And)
            == PopRange(a, lo, hi) + PopRange(b, lo, hi)
    ensures PopRangeWith(a, b, lo, hi, AndNot) + PopRangeWith(a, b, lo, hi, And)
            == PopRange(a, lo, hi)
    decreases hi - lo
  {
    if hi > lo {
      PopRangeInclusionExclusion(a, b, lo, hi - 1);
      BitCountInclusionExclusion(a[hi - 1], b[hi - 1]);
    }
  }

  // ---------------------------------------------------------------------------
  // pop_array, pop_intersect, pop_union, pop_andnot, pop_xor
  // ---------------------------------------------------------------------------

  /**
   * What a window count returns: the count, or the `ArrayIndexOutOfBoundsException` Java throws
   * when the loop indexes outside an array.
   */
  datatype Outcome = Counted(popCount: int) | IndexOutOfBounds

  /**
   * `pop_array`: the number of set bits in `arr[wordOffset .. wordOffset + numWords)`. A window
   * that is not empty and leaves the array throws.
   */
  method PopArray(arr: array<bv64>, wordOffset: int, numWords: int) returns (r: Outcome)
    requires IsInt32(wordOffset) && IsInt32(numWords)
    ensures r.IndexOutOfBounds? <==> !InWindow(arr[..], wordOffset, WrapInt32(wordOffset + numWords))
    ensures r.Counted? ==> r.popCount == PopRange(arr[..], wordOffset, WrapInt32(wordOffset + numWords))
  {
    var popCount := 0;
    var i, end := wordOffset, WrapInt32(wordOffset + numWords);
    while i < end
      invariant i == wordOffset || (0 <= wordOffset < i <= end && i <= arr.Length)
      invariant popCount == PopRange(arr[..], wordOffset, i)
    {
      // The bounds check of `arr[i]`.
      if i < 0 || i >= arr.Length {
        return IndexOutOfBounds;
      }
      popCount := popCount + BitCount(arr[i]);
      i := i + 1;
    }
    return Counted(popCount);
  }

  /**
   * The loop shared by `pop_intersect`, `pop_union`, `pop_andnot` and `pop_xor`:
   * sums `BitCount(op(arr1[i], arr2[i]))` over the window, reading both arrays only. A window
   * that is not empty and leaves either array throws.
   */
  method PopCombined(arr1: array<bv64>, arr2: array<bv64>, wordOffset: int, numWords: int,
                     op: (bv64, bv64) -> bv64) returns (r: Outcome)
    requires IsInt32(wordOffset) && IsInt32(numWords)
    ensures r.IndexOutOfBounds? <==> !(InWindow(arr1[..], wordOffset, WrapInt32(wordOffset + numWords))
                                       && InWindow(arr2[..], wordOffset, WrapInt32(wordOffset + numWords)))
    ensures r.Counted? ==> r.popCount == PopRangeWith(arr1[..], arr2[..], wordOffset, WrapInt32(wordOffset + numWords), op)
  {
    var popCount := 0;
    var i, end := wordOffset, WrapInt32(wordOffset + numWords);
    while i < end
      invariant i == wordOffset || (0 <= wordOffset < i <= end && i <= arr1.Length && i <= arr2.Length)
      invariant popCount == PopRangeWith(arr1[..], arr2[..], wordOffset, i, op)
    {
      // The bounds checks of `arr1[i]` and `arr2[i]`.
      if i < 0 || i >= arr1.Length || i >= arr2.Length {
        return IndexOutOfBounds;
      }
      popCount := popCount + BitCount(op(arr1[i], arr2[i]));
      i := i + 1;
    }
    return Counted(popCount);
  }

  /** `pop_intersect`: the cardinality of the intersection of the two windows. */
  method PopIntersect(arr1: array<bv64>, arr2: array<bv64>, wordOffset: int, numWords: int) returns (r: Outcome)
    requires IsInt32(wordOffset) && IsInt32(numWords)
    ensures r.IndexOutOfBounds? <==> !(InWindow(arr1[..], wordOffset, WrapInt32(wordOffset + numWords))
                                       && InWindow(arr2[..], wordOffset, WrapInt32(wordOffset + numWords)))
    ensures r.Counted? ==> r.popCount == PopRangeWith(arr1[..], arr2[..], wordOffset, WrapInt32(wordOffset + numWords), And)
  {
    r := PopCombined(arr1, arr2, wordOffset, numWords, And);
  }

  /** `pop_union`: the cardinality of the union of the two windows. */
  method PopUnion(arr1: array<bv64>, arr2: array<bv64>, wordOffset: int, numWords: int) returns (r: Outcome)
    requires IsInt32(wordOffset) && IsInt32(numWords)
    ensures r.IndexOutOfBounds? <==> !(InWindow(arr1[..], wordOffset, WrapInt32(wordOffset + numWords))
                                       && InWindow(arr2[..], wordOffset, WrapInt32(wordOffset + numWords)))
    ensures r.Counted? ==> r.popCount == PopRangeWith(arr1[..], arr2[..], wordOffset, WrapInt32(wordOffset + numWords), Or)
  {
    r := PopCombined(arr1, arr2, wordOffset, numWords, Or);
  }

  /** `pop_andnot`: the cardinality of the first window minus the second. */
  method PopAndNot(arr1: array<bv64>, arr2: array<bv64>, wordOffset: int, numWords: int) returns (r: Outcome)
    requires IsInt32(wordOffset) && IsInt32(numWords)
    ensures r.IndexOutOfBounds? <==> !(InWindow(arr1[..], wordOffset, WrapInt32(wordOffset + numWords))
                                       && InWindow(arr2[..], wordOffset, WrapInt32(wordOffset + numWords)))
    ensures r.Counted? ==> r.popCount == PopRangeWith(arr1[..], arr2[..], wordOffset, WrapInt32(wordOffset + numWords), AndNot)
  {
    r := PopCombined(arr1, arr2, wordOffset, numWords, AndNot);
  }

  /** `pop_xor`: the cardinality of the symmetric difference of the two windows. */
  method PopXor(arr1: array<bv64>, arr2: array<bv64>, wordOffset: int, numWords: int) returns (r: Outcome)
    requires IsInt32(wordOffset) && IsInt32(numWords)
    ensures r.IndexOutOfBounds? <==> !(InWindow(arr1[..], wordOffset, WrapInt32(wordOffset + numWords))
                                       && InWindow(arr2[..], wordOffset, WrapInt32(wordOffset + numWords)))
    ensures r.Counted? ==> r.popCount == PopRangeWith(arr1[..], arr2[..], wordOffset, WrapInt32(wordOffset + numWords), Xor)
  {
    r := PopCombined(arr1, arr2, wordOffset, numWords, Xor);
  }

  // ---------------------------------------------------------------------------
  // nextHighestPowerOfTwo
  // ---------------------------------------------------------------------------

  /** Java's arithmetic (sign-propagating) right shift `x >> k` on an `int`. */
  function Sar32(x: bv32, k: bv32): bv32
    requires k < 32
  {
    if x & 0x8000_0000 == 0 then x >> k else !((!x) >> k)
  }

  /** Java's arithmetic (sign-propagating) right shift `x >> k` on a `long`. */
  function Sar64(x: bv64, k: bv64): bv64
    requires k < 64
  {
    if x & 0x8000_0000_0000_0000 == 0 then x >> k else !((!x) >> k)
  }


  /** One step `v |= v >> k` of the cascade. */
  function OrShift32(v: bv32, k: bv32): bv32
    requires k < 32
  {
    v | Sar32(v, k)
  }

  function OrShift64(v: bv64, k: bv64): bv64
    requires k < 64
  {
    v | Sar64(v, k)
  }

  /** The five or-shift steps of `nextHighestPowerOfTwo(int)`, by 1, 2, 4, 8 and 16. */
  function OrShiftCascade32(v: bv32): bv32 {
    OrShift32(OrShift32(OrShift32(OrShift32(OrShift32(v, 1), 2), 4), 8), 16)
  }

  /** The six or-shift steps of `nextHighestPowerOfTwo(long)`, by 1, 2, 4, 8, 16 and 32. */
  function OrShiftCascade64(v: bv64): bv64 {
    OrShift64(OrShift64(OrShift64(OrShift64(OrShift64(OrShift64(v, 1), 2), 4), 8), 16), 32)
  }

  /**
   * What `nextHighestPowerOfTwo(int)` promises, with `v` and `r` read as Java `int`s: 0 maps to 0;
   * every v in [1, 2^30] maps to the least power of two that is at least v (a power of two in
   * [v, 2v)); v in (2^30, 2^31 - 1] overflows to Integer.MIN_VALUE, which maps to itself; every
   * other negative v maps to 0.
   */
  predicate PowerOfTwoCeiling32(v: bv32, r: bv32) {
    && (v == 0 ==> r == 0)
    && (1 <= v <= 0x4000_0000 ==> IsPowerOfTwo32(r) && v <= r < 2 * v)
    && (0x4000_0000 < v <= 0x8000_0000 ==> r == 0x8000_0000)
    && (0x8000_0000 < v ==> r == 0)
  }

  /** The same promise for `nextHighestPowerOfTwo(long)`, with 2^62 and Long.MIN_VALUE. */
  predicate PowerOfTwoCeiling64(v: bv64, r: bv64) {
    && (v == 0 ==> r == 0)
    && (1 <= v <= 0x4000_0000_0000_0000 ==> IsPowerOfTwo64(r) && v <= r < 2 * v)
    && (0x4000_0000_0000_0000 < v <= 0x8000_0000_0000_0000 ==> r == 0x8000_0000_0000_0000)
    && (0x8000_0000_0000_0000 < v ==> r == 0)
  }

  // Each case of the promise, proved on the bits of decrement, cascade and increment. These
  // lemmas model nothing of their own: the cases of CascadeKeepsPromise32/64, and the bands of
  // magnitudes of the 64-bit case, are separate lemmas only to keep each bit-level proof
  // obligation small enough for the solver.

  lemma CascadeZero32()
    ensures OrShiftCascade32(0 - 1) + 1 == 0
  {
  }

  lemma CascadeRoundsToPowerOfTwo32(v: bv32)
    ensures 1 <= v <= 0x4000_0000 ==> IsPowerOfTwo32(OrShiftCascade32(v - 1) + 1)
  {
  }

  lemma CascadeRoundsUp32(v: bv32)
    ensures 1 <= v <= 0x4000_0000 ==> v <= OrShiftCascade32(v - 1) + 1
  {
  }

  lemma CascadeBelowDouble32(v: bv32)
    ensures 1 <= v <= 0x4000_0000 ==> OrShiftCascade32(v - 1) + 1 < 2 * v
  {
  }

  lemma CascadeOverflows32(v: bv32)
    ensures 0x4000_0000 < v <= 0x8000_0000 ==> OrShiftCascade32(v - 1) + 1 == 0x8000_0000
  {
  }

  lemma CascadeNegative32(v: bv32)
    ensures 0x8000_0000 < v ==> OrShiftCascade32(v - 1) + 1 == 0
  {
  }

  /** Decrement, cascade, increment keeps the promise of `nextHighestPowerOfTwo(int)` on every input. */
  lemma CascadeKeepsPromise32(v: bv32)
    ensures PowerOfTwoCeiling32(v, OrShiftCascade32(v - 1) + 1)
  {
    CascadeZero32();
    CascadeRoundsToPowerOfTwo32(v);
    CascadeRoundsUp32(v);
    CascadeBelowDouble32(v);
    CascadeOverflows32(v);
    CascadeNegative32(v);
  }

  lemma CascadeZero64()
    ensures OrShiftCascade64(0 - 1) + 1 == 0
  {
  }

  lemma CascadeRoundsToPowerOfTwoLow64(v: bv64)
    ensures 1 <= v <= 0x8000_0000 ==> IsPowerOfTwo64(OrShiftCascade64(v - 1) + 1)
  {
  }

  lemma CascadeRoundsToPowerOfTwoHigh64(v: bv64)
    ensures 0x8000_0000 < v <= 0x4000_0000_0000_0000 ==> IsPowerOfTwo64(OrShiftCascade64(v - 1) + 1)
  {
  }

  lemma CascadeRoundsUpBand0_64(v: bv64)
    ensures 1 <= v <= 0x8000_0000 ==> v <= OrShiftCascade64(v - 1) + 1
  {
  }

  lemma CascadeRoundsUpBand1_64(v: bv64)
    ensures 0x8000_0000 < v <= 0x80_0000_0000 ==> v <= OrShiftCascade64(v - 1) + 1
  {
  }

  lemma CascadeRoundsUpBand2_64(v: bv64)
    ensures 0x80_0000_0000 < v <= 0x800_0000_0000 ==> v <= OrShiftCascade64(v - 1) + 1
  {
  }

  lemma CascadeRoundsUpBand3_64(v: bv64)
    ensures 0x800_0000_0000 < v <= 0x8000_0000_0000 ==> v <= OrShiftCascade64(v - 1) + 1
  {
  }

  lemma CascadeRoundsUpBand4_64(v: bv64)
    ensures 0x8000_0000_0000 < v <= 0x8_0000_0000_0000 ==> v <= OrShiftCascade64(v - 1) + 1
  {
  }

  lemma CascadeRoundsUpBand5_64(v: bv64)
    ensures 0x8_0000_0000_0000 < v <= 0x80_0000_0000_0000 ==> v <= OrShiftCascade64(v - 1) + 1
  {
  }

  lemma CascadeRoundsUpBand6_64(v: bv64)
    ensures 0x80_0000_0000_0000 < v <= 0x800_0000_0000_0000 ==> v <= OrShiftCascade64(v - 1) + 1
  {
  }

  lemma CascadeRoundsUpBand7_64(v: bv64)
    ensures 0x800_0000_0000_0000 < v <= 0x4000_0000_0000_0000 ==> v <= OrShiftCascade64(v - 1) + 1
  {
  }

  lemma CascadeBelowDoubleBand0_64(v: bv64)
    ensures 1 <= v <= 0x8000_0000 ==> OrShiftCascade64(v - 1) + 1 < 2 * v
  {
  }

  lemma CascadeBelowDoubleBand1_64(v: bv64)
    ensures 0x8000_0000 < v <= 0x80_0000_0000 ==> OrShiftCascade64(v - 1) + 1 < 2 * v
  {
  }

  lemma CascadeBelowDoubleBand2_64(v: bv64)
    ensures 0x80_0000_0000 < v <= 0x8000_0000_0000 ==> OrShiftCascade64(v - 1) + 1 < 2 * v
  {
  }

  lemma CascadeBelowDoubleBand3_64(v: bv64)
    ensures 0x8000_0000_0000 < v <= 0x80_0000_0000_0000 ==> OrShiftCascade64(v - 1) + 1 < 2 * v
  {
  }

  lemma CascadeBelowDoubleBand4_64(v: bv64)
    ensures 0x80_0000_0000_0000 < v <= 0x4000_0000_0000_0000 ==> OrShiftCascade64(v - 1) + 1 < 2 * v
  {
  }

  lemma CascadeOverflows64(v: bv64)
    ensures 0x4000_0000_0000_0000 < v <= 0x8000_0000_0000_0000 ==> OrShiftCascade64(v - 1) + 1 == 0x8000_0000_0000_0000
  {
  }

  lemma CascadeNegative64(v: bv64)
    ensures 0x8000_0000_0000_0000 < v ==> OrShiftCascade64(v - 1) + 1 == 0
  {
  }

  /** Decrement, cascade, increment keeps the promise of `nextHighestPowerOfTwo(long)` on every input. */
  lemma CascadeKeepsPromise64(v: bv64)
    ensures PowerOfTwoCeiling64(v, OrShiftCascade64(v - 1) + 1)
  {
    CascadeZero64();
    CascadeRoundsToPowerOfTwoLow64(v);
    CascadeRoundsToPowerOfTwoHigh64(v);
    CascadeRoundsUpBand0_64(v);
    CascadeRoundsUpBand1_64(v);
    CascadeRoundsUpBand2_64(v);
    CascadeRoundsUpBand3_64(v);
    CascadeRoundsUpBand4_64(v);
    CascadeRoundsUpBand5_64(v);
    CascadeRoundsUpBand6_64(v);
    CascadeRoundsUpBand7_64(v);
    CascadeBelowDoubleBand0_64(v);
    CascadeBelowDoubleBand1_64(v);
    CascadeBelowDoubleBand2_64(v);
    CascadeBelowDoubleBand3_64(v);
    CascadeBelowDoubleBand4_64(v);
    CascadeOverflows64(v);
    CascadeNegative64(v);
  }

  /** `nextHighestPowerOfTwo(int)`: `v--`, the or-shift cascade, `v++`. */
  method NextHighestPowerOfTwoInt(v0: bv32) returns (v: bv32)
    ensures PowerOfTwoCeiling32(v0, v)
  {
    v := v0 - 1;
    v := OrShift32(v, 1);
    v := OrShift32(v, 2);
    v := OrShift32(v, 4);
    v := OrShift32(v, 8);
    v := OrShift32(v, 16);
    v := v + 1;
    CascadeKeepsPromise32(v0);
  }

  /** `nextHighestPowerOfTwo(long)`: `v--`, the or-shift cascade, `v++`. */
  method NextHighestPowerOfTwoLong(v0: bv64) returns (v: bv64)
    ensures PowerOfTwoCeiling64(v0, v)
  {
    v := v0 - 1;
    v := OrShift64(v, 1);
    v := OrShift64(v, 2);
    v := OrShift64(v, 4);
    v := OrShift64(v, 8);
    v := OrShift64(v, 16);
    v := OrShift64(v, 32);
    v := v + 1;
    CascadeKeepsPromise64(v0);
  }
}
