/**
 * The 32-bit helpers of the trie: population count, masks, hash fragments and
 * child positions. Hashes, bitmaps, fragments and bit indices are `bv32`, like
 * the `unsigned int`s of the C code; counts and positions are `nat`.
 */
module Bits {

  /** Bits of hash consumed per trie level, and the fragment mask. */
  const BITS: nat := 5
  const MASK: bv32 := 31

  /** Levels 0..MAX_DEPTH have a fragment; 5 * 6 = 30 is the last shift below 32. */
  const MAX_DEPTH: nat := 6

  // ---------------------------------------------------------------------------
  // Reading a small bit-vector as a natural number
  // ---------------------------------------------------------------------------

  /** The value of the low six bits of `y` (every count here is below 64), bit by bit. */
  function ToNat(y: bv32): nat {
    (if y & 1 != 0 then 1 else 0) + (if y & 2 != 0 then 2 else 0) + (if y & 4 != 0 then 4 else 0)
    + (if y & 8 != 0 then 8 else 0) + (if y & 16 != 0 then 16 else 0) + (if y & 32 != 0 then 32 else 0)
  }

  /** Adding small bit-vectors never wraps, so it agrees with adding their values. */
  lemma ToNatAdd(a: bv32, b: bv32)
    requires a <= 16 && b <= 16
    ensures ToNat(a + b) == ToNat(a) + ToNat(b)
  {
  }

  // ---------------------------------------------------------------------------
  // Individual bits and the reference bit count
  // ---------------------------------------------------------------------------

  /** Bit `i` of `b`, as 0 or 1. */
  function BitValue(b: bv32, i: bv32): bv32
    requires i < 32
  {
    (b >> i) & 1
  }

  /** Whether bit `i` of `b` is set. */
  predicate Bit(b: bv32, i: bv32)
    requires i < 32
  {
    BitValue(b, i) == 1
  }

  lemma BitValueNat(b: bv32, i: bv32)
    requires i < 32
    ensures BitValue(b, i) <= 1
    ensures ToNat(BitValue(b, i)) == if Bit(b, i) then 1 else 0
  {
  }

  /** The number of set bits of `b` in positions `0 .. n-1`: the reference for popcount. */
  function CountBelow(b: bv32, n: bv32): nat
    requires n <= 32
    decreases n
  {
    if n == 0 then 0 else CountBelow(b, n - 1) + (if Bit(b, n - 1) then 1 else 0)
  }

  /**
   * The word width. It is a function rather than a literal so that a count
   * over the whole word is unfolded one bit at a time, on demand.
   */
  function Width(): bv32 {
    32
  }

  /**
   * The number of set bits in the whole word: popcount, as the trie uses it.
   * The C computes it with the parallel count below, which
   * `ParallelCountIsPopcount` proves equal to this one.
   */
  function Popcount(b: bv32): nat {
    CountBelow(b, Width())
  }

  // ---------------------------------------------------------------------------
  // popcount (hamt.c:156-166): the parallel bit count, stage by stage, with the
  // masks 0x55555555, 0x33333333 and 0x0F0F0F0F of the C code
  // ---------------------------------------------------------------------------

  /** First stage: subtracting the odd bits, shifted down, leaves in every 2-bit lane the count of its two bits. */
  function Pairs(x: bv32): bv32 {
    x - ((x >> 1) & 0x5555_5555)
  }

  /** Second stage: adjacent 2-bit counts are added, so every 4-bit lane holds its count. */
  function Nibbles(y: bv32): bv32 {
    (y & 0x3333_3333) + ((y >> 2) & 0x3333_3333)
  }

  /** Third stage: adjacent 4-bit counts are added, so every byte holds its count. */
  function Bytes(y: bv32): bv32 {
    (y & 0x0F0F_0F0F) + ((y >> 4) & 0x0F0F_0F0F)
  }

  /** Last stage: the four byte counts are folded together and the low six bits kept. */
  function Total(y: bv32): bv32 {
    var t := y + (y >> 8);
    (t + (t >> 16)) & 0x3F
  }

  /** popcount as the C computes it, stage by stage. */
  function ParallelCount(bits: bv32): nat {
    ToNat(Total(Bytes(Nibbles(Pairs(bits)))))
  }

  lemma PairsLane(x: bv32, o: bv32)
    requires o < 32 && o & 1 == 0
    ensures (Pairs(x) >> o) & 3 == BitValue(x, o) + BitValue(x, o + 1)
  {
    // one lane at a time, so that every case shifts by a constant
    if o < 8 {
      if o == 0 {} else if o == 2 {} else if o == 4 {} else {}
    } else if o < 16 {
      if o == 8 {} else if o == 10 {} else if o == 12 {} else {}
    } else if o < 24 {
      if o == 16 {} else if o == 18 {} else if o == 20 {} else {}
    } else {
      if o == 24 {} else if o == 26 {} else if o == 28 {} else {}
    }
  }

  lemma NibblesLane(y: bv32, o: bv32)
    requires o < 32 && o & 3 == 0
    ensures (Nibbles(y) >> o) & 15 == ((y >> o) & 3) + ((y >> (o + 2)) & 3)
  {
    if o < 16 {
      if o == 0 {} else if o == 4 {} else if o == 8 {} else {}
    } else {
      if o == 16 {} else if o == 20 {} else if o == 24 {} else {}
    }
  }

  lemma BytesLane(y: bv32, o: bv32)
    requires o < 32 && o & 7 == 0
    ensures (Bytes(y) >> o) & 255 == ((y >> o) & 15) + ((y >> (o + 4)) & 15)
  {
    if o == 0 {} else if o == 8 {} else if o == 16 {} else {}
  }

  /** Two lanes of at most `m` each add up without carrying out of their lane. */
  lemma SumLanes(l: bv32, a: bv32, b: bv32, m: bv32)
    requires m <= 16 && a <= m && b <= m && l == a + b
    ensures l <= 2 * m && ToNat(l) == ToNat(a) + ToNat(b)
  {
    ToNatAdd(a, b);
  }

  lemma CountTwo(x: bv32, i: bv32)
    requires i <= 30
    ensures CountBelow(x, i + 2) == CountBelow(x, i)
      + (if Bit(x, i) then 1 else 0) + (if Bit(x, i + 1) then 1 else 0)
  {
    assert (i + 2) - 1 == i + 1;
    assert (i + 1) - 1 == i;
  }

  /** After the first stage, the 2-bit lane at bit `o` counts bits `o` and `o+1`. */
  lemma PairsCount(x: bv32, o: bv32)
    requires o < 32 && o & 1 == 0
    ensures (Pairs(x) >> o) & 3 <= 2
    ensures ToNat((Pairs(x) >> o) & 3) == CountBelow(x, o + 2) - CountBelow(x, o)
  {
    PairsLane(x, o);
    BitValueNat(x, o);
    BitValueNat(x, o + 1);
    SumLanes((Pairs(x) >> o) & 3, BitValue(x, o), BitValue(x, o + 1), 1);
    CountTwo(x, o);
  }

  // The bit-vector facts and the counting facts of each later stage are kept in
  // separate lemmas: the solver handles either kind cheaply, but not both at once.

  lemma NibblesFacts(x: bv32, o: bv32)
    requires o < 32 && o & 3 == 0
    ensures (Pairs(x) >> o) & 3 <= 2 && (Pairs(x) >> (o + 2)) & 3 <= 2
    ensures (Nibbles(Pairs(x)) >> o) & 15 == ((Pairs(x) >> o) & 3) + ((Pairs(x) >> (o + 2)) & 3)
  {
    NibblesLane(Pairs(x), o);
    PairsCount(x, o);
    PairsCount(x, o + 2);
  }

  lemma NibblesSum(x: bv32, o: bv32)
    requires o < 32 && o & 3 == 0
    ensures (Nibbles(Pairs(x)) >> o) & 15 <= 4
    ensures ToNat((Nibbles(Pairs(x)) >> o) & 15) == ToNat((Pairs(x) >> o) & 3) + ToNat((Pairs(x) >> (o + 2)) & 3)
  {
    NibblesFacts(x, o);
    SumLanes((Nibbles(Pairs(x)) >> o) & 15, (Pairs(x) >> o) & 3, (Pairs(x) >> (o + 2)) & 3, 2);
  }

  /** After the second stage, the 4-bit lane at bit `o` counts bits `o .. o+3`. */
  lemma NibblesCount(x: bv32, o: bv32)
    requires o < 32 && o & 3 == 0
    ensures (Nibbles(Pairs(x)) >> o) & 15 <= 4
    ensures ToNat((Nibbles(Pairs(x)) >> o) & 15) == CountBelow(x, o + 4) - CountBelow(x, o)
  {
    NibblesSum(x, o);
    PairsCount(x, o);
    PairsCount(x, o + 2);
    assert (o + 2) + 2 == o + 4;
  }

  lemma BytesFacts(x: bv32, o: bv32)
    requires o < 32 && o & 7 == 0
    ensures (Nibbles(Pairs(x)) >> o) & 15 <= 4 && (Nibbles(Pairs(x)) >> (o + 4)) & 15 <= 4
    ensures (Bytes(Nibbles(Pairs(x))) >> o) & 255
      == ((Nibbles(Pairs(x)) >> o) & 15) + ((Nibbles(Pairs(x)) >> (o + 4)) & 15)
  {
    BytesLane(Nibbles(Pairs(x)), o);
    NibblesSum(x, o);
    NibblesSum(x, o + 4);
  }

  lemma BytesSum(x: bv32, o: bv32)
    requires o < 32 && o & 7 == 0
    ensures (Bytes(Nibbles(Pairs(x))) >> o) & 255 <= 8
    ensures ToNat((Bytes(Nibbles(Pairs(x))) >> o) & 255)
      == ToNat((Nibbles(Pairs(x)) >> o) & 15) + ToNat((Nibbles(Pairs(x)) >> (o + 4)) & 15)
  {
    BytesFacts(x, o);
    var q := Nibbles(Pairs(x));
    SumLanes((Bytes(q) >> o) & 255, (q >> o) & 15, (q >> (o + 4)) & 15, 4);
  }

  /** After the third stage, the byte at bit `o` counts bits `o .. o+7`. */
  lemma BytesCount(x: bv32, o: bv32)
    requires o < 32 && o & 7 == 0
    ensures (Bytes(Nibbles(Pairs(x))) >> o) & 255 <= 8
    ensures ToNat((Bytes(Nibbles(Pairs(x))) >> o) & 255) == CountBelow(x, o + 8) - CountBelow(x, o)
  {
    BytesSum(x, o);
    NibblesCount(x, o);
    NibblesCount(x, o + 4);
    assert (o + 4) + 4 == o + 8;
  }

  lemma BytesBound(x: bv32, o: bv32)
    requires o < 32 && o & 7 == 0
    ensures (Bytes(Nibbles(Pairs(x))) >> o) & 255 <= 8
  {
    BytesSum(x, o);
  }

  /** Four byte counts of at most 8 add up without wrapping. */
  lemma Add4(b0: bv32, b1: bv32, b2: bv32, b3: bv32)
    requires b0 <= 8 && b1 <= 8 && b2 <= 8 && b3 <= 8
    ensures ToNat((b0 + b1) + (b2 + b3)) == ToNat(b0) + ToNat(b1) + ToNat(b2) + ToNat(b3)
  {
    ToNatAdd(b0, b1);
    ToNatAdd(b2, b3);
    ToNatAdd(b0 + b1, b2 + b3);
  }

  /** The last stage adds the four bytes, none of which is above 8, without carries. */
  lemma TotalSum(y: bv32)
    requires y & 255 <= 8 && (y >> 8) & 255 <= 8 && (y >> 16) & 255 <= 8 && (y >> 24) & 255 <= 8
    ensures Total(y) == ((y & 255) + ((y >> 8) & 255)) + (((y >> 16) & 255) + ((y >> 24) & 255))
  {
  }

  /** ... and so its value is the sum of the values of the four bytes. */
  lemma TotalNat(y: bv32)
    requires y & 255 <= 8 && (y >> 8) & 255 <= 8 && (y >> 16) & 255 <= 8 && (y >> 24) & 255 <= 8
    ensures ToNat(Total(y)) == ToNat(y & 255) + ToNat((y >> 8) & 255) + ToNat((y >> 16) & 255) + ToNat((y >> 24) & 255)
  {
    TotalSum(y);
    Add4(y & 255, (y >> 8) & 255, (y >> 16) & 255, (y >> 24) & 255);
  }

  /** The reference count, split at the byte boundaries. */
  lemma CountByBytes(x: bv32)
    ensures Popcount(x) == (CountBelow(x, 8) - CountBelow(x, 0)) + (CountBelow(x, 16) - CountBelow(x, 8))
      + (CountBelow(x, 24) - CountBelow(x, 16)) + (CountBelow(x, 32) - CountBelow(x, 24))
  {
  }

  /** The parallel count is the sum of the byte counts left by the third stage. */
  lemma ParallelBytes(x: bv32)
    ensures var y := Bytes(Nibbles(Pairs(x)));
      ParallelCount(x) == ToNat(y & 255) + ToNat((y >> 8) & 255) + ToNat((y >> 16) & 255) + ToNat((y >> 24) & 255)
  {
    var y := Bytes(Nibbles(Pairs(x)));
    BytesBound(x, 0);
    BytesBound(x, 8);
    BytesBound(x, 16);
    BytesBound(x, 24);
    assert y >> 0 == y;
    TotalNat(y);
  }

  /** The byte counts together count every set bit. */
  lemma BytesOnes(x: bv32)
    ensures var y := Bytes(Nibbles(Pairs(x)));
      ToNat(y & 255) + ToNat((y >> 8) & 255) + ToNat((y >> 16) & 255) + ToNat((y >> 24) & 255) == Popcount(x)
  {
    var y := Bytes(Nibbles(Pairs(x)));
    BytesCount(x, 0);
    BytesCount(x, 8);
    BytesCount(x, 16);
    BytesCount(x, 24);
    assert y >> 0 == y;
    CountByBytes(x);
  }

  /** The C's parallel count counts the set bits. */
  lemma ParallelCountIsPopcount(bits: bv32)
    ensures ParallelCount(bits) == Popcount(bits)
  {
    ParallelBytes(bits);
    BytesOnes(bits);
  }

  // ---------------------------------------------------------------------------
  // Masks, fragments and positions (hamt.c:182-197)
  // ---------------------------------------------------------------------------

  /** The single-bit mask for fragment `f`. */
  function Mask(f: bv32): bv32
    requires f < 32
  {
    1 << f
  }

  /** The shift `BITS * depth` of a fragment, as a 32-bit amount. */
  function Shift(depth: nat): (s: bv32)
    requires depth <= MAX_DEPTH
    ensures s <= 30
  {
    match depth
    case 0 => 0
    case 1 => 5
    case 2 => 10
    case 3 => 15
    case 4 => 20
    case 5 => 25
    case _ => 30
  }

  /** The 5-bit fragment of `hash` used at `depth`: always a valid slot index. */
  function Frag(hash: bv32, depth: nat): (f: bv32)
    requires depth <= MAX_DEPTH
    ensures f < 32
  {
    (hash >> Shift(depth)) & MASK
  }

  /** The index of fragment `f`'s child in a branch with `bitmap`: popcount of the bits below `f`. */
  function Position(bitmap: bv32, f: bv32): nat
    requires f < 32
  {
    Popcount(bitmap & (Mask(f) - 1))
  }

  /** The C's test `bitmap & get_mask(f)`, read as a truth value: bit `f` is set. */
  function MaskSet(b: bv32, f: bv32): (r: bool)
    requires f < 32
    ensures r == Bit(b, f)
  {
    MaskTest(b, f);
    b & Mask(f) != 0
  }

  lemma MaskTest(b: bv32, f: bv32)
    requires f < 32
    ensures (b & Mask(f) != 0) <==> Bit(b, f)
  {
  }

  lemma MaskBit(f: bv32, i: bv32)
    requires f < 32 && i < 32
    ensures Bit(Mask(f), i) <==> i == f
  {
  }

  lemma LowBit(b: bv32, f: bv32, i: bv32)
    requires f < 32 && i < 32
    ensures Bit(b & (Mask(f) - 1), i) <==> Bit(b, i) && i < f
  {
  }

  lemma SetBit(b: bv32, f: bv32, i: bv32)
    requires f < 32 && i < 32
    ensures Bit(b | Mask(f), i) <==> Bit(b, i) || i == f
  {
  }

  lemma ClearBit(b: bv32, f: bv32, i: bv32)
    requires f < 32 && i < 32
    ensures Bit(b & !Mask(f), i) <==> Bit(b, i) && i != f
  {
  }

  /** Words that agree on bits `0 .. f-1` have the same count below any `n <= f`. */
  lemma {:induction false} CountSame(a: bv32, b: bv32, f: bv32, n: bv32)
    requires n <= f <= 32
    requires forall i: bv32 :: i < f ==> (Bit(a, i) <==> Bit(b, i))
    ensures CountBelow(a, n) == CountBelow(b, n)
    decreases n
  {
    if n != 0 {
      CountSame(a, b, f, n - 1);
    }
  }

  /** No set bit at or above `f`: the count does not grow from `f` to `n`. */
  lemma {:induction false} CountFlat(a: bv32, f: bv32, n: bv32)
    requires f <= n <= 32
    requires forall i: bv32 :: f <= i < 32 ==> !Bit(a, i)
    ensures CountBelow(a, n) == CountBelow(a, f)
    decreases n
  {
    if n != f {
      CountFlat(a, f, n - 1);
    }
  }

  /** The bound `n` passes the bit `f` exactly when `n - 1` is `f` or already past it. */
  lemma PastStep(f: bv32, n: bv32)
    requires 0 < n <= 32
    ensures f < n <==> f < n - 1 || f == n - 1
  {
  }

  /** `a` is `b` with the clear bit `f` set: one more below `n` once `n` is past `f`. */
  lemma {:induction false} CountOneMore(a: bv32, b: bv32, f: bv32, n: bv32)
    requires f < 32 && n <= 32 && !Bit(b, f)
    requires forall i: bv32 :: i < 32 ==> (Bit(a, i) <==> Bit(b, i) || i == f)
    ensures CountBelow(a, n) == CountBelow(b, n) + (if f < n then 1 else 0)
  {
    if n <= f {
      CountSame(a, b, f, n);
    } else {
      CountOneMoreAbove(a, b, f, n);
    }
  }

  lemma {:induction false} CountOneMoreAbove(a: bv32, b: bv32, f: bv32, n: bv32)
    requires f < n <= 32 && !Bit(b, f)
    requires forall i: bv32 :: i < 32 ==> (Bit(a, i) <==> Bit(b, i) || i == f)
    ensures CountBelow(a, n) == CountBelow(b, n) + 1
    decreases n
  {
    if n - 1 == f {
      CountSame(a, b, f, f);
    } else {
      CountOneMoreAbove(a, b, f, n - 1);
    }
  }

  /** The count is monotonic in its bound. */
  lemma {:induction false} CountMono(b: bv32, m: bv32, n: bv32)
    requires m <= n <= 32
    ensures CountBelow(b, m) <= CountBelow(b, n)
    decreases n
  {
    if n != m {
      CountMono(b, m, n - 1);
    }
  }

  /** `Position` counts exactly the set bits of the bitmap below `f`. */
  lemma PositionIsCount(b: bv32, f: bv32)
    requires f < 32
    ensures Position(b, f) == CountBelow(b, f)
  {
    var low := b & (Mask(f) - 1);
    forall i: bv32 | i < 32
      ensures Bit(low, i) <==> Bit(b, i) && i < f
    {
      LowBit(b, f, i);
    }
    CountFlat(low, f, 32);
    CountSame(low, b, f, f);
  }

  /** One step of the count, at a bound given as `f + 1`. */
  lemma CountStep(b: bv32, f: bv32)
    requires f < 32
    ensures f + 1 <= 32
    ensures CountBelow(b, f + 1) == CountBelow(b, f) + (if Bit(b, f) then 1 else 0)
  {
    assert (f + 1) - 1 == f;
  }

  /** The set bits below a set bit are fewer than all set bits. */
  lemma CountBelowOnes(b: bv32, f: bv32)
    requires f < 32 && Bit(b, f)
    ensures CountBelow(b, f) < Popcount(b)
  {
    CountStep(b, f);
    CountMono(b, f + 1, 32);
  }

  /** A set bit's position is a valid index into the branch's children. */
  lemma PositionBelowPopcount(b: bv32, f: bv32)
    requires f < 32 && Bit(b, f)
    ensures Position(b, f) < Popcount(b)
  {
    PositionIsCount(b, f);
    CountStep(b, f);
    CountMono(b, f + 1, 32);
  }

  /** Positions of set bits follow the order of the bits, so distinct set bits have distinct positions. */
  lemma PositionOrder(b: bv32, f: bv32, g: bv32)
    requires f < g < 32 && Bit(b, f)
    ensures Position(b, f) < Position(b, g)
  {
    PositionIsCount(b, f);
    PositionIsCount(b, g);
    CountStep(b, f);
    CountMono(b, f + 1, g);
  }

  /** A position is at most the number of children. */
  lemma PositionAtMost(b: bv32, f: bv32)
    requires f < 32
    ensures Position(b, f) <= Popcount(b)
  {
    PositionIsCount(b, f);
    CountMono(b, f, 32);
  }

  /** Positions never decrease with the fragment. */
  lemma PositionMono(b: bv32, f: bv32, g: bv32)
    requires f <= g < 32
    ensures Position(b, f) <= Position(b, g)
  {
    PositionIsCount(b, f);
    PositionIsCount(b, g);
    CountMono(b, f, g);
  }

  /** Two set bits with the same position are the same bit. */
  lemma PositionInjective(b: bv32, f: bv32, g: bv32)
    requires f < 32 && g < 32 && Bit(b, f) && Bit(b, g)
    requires Position(b, f) == Position(b, g)
    ensures f == g
  {
    if f < g {
      PositionOrder(b, f, g);
    } else if g < f {
      PositionOrder(b, g, f);
    }
  }

  /** Setting a clear bit `f` moves the positions above `f` up by one and adds one to popcount. */
  lemma SetPositions(b: bv32, f: bv32, g: bv32)
    requires f < 32 && g < 32 && !Bit(b, f)
    ensures Position(b | Mask(f), g) == Position(b, g) + (if f < g then 1 else 0)
    ensures Popcount(b | Mask(f)) == Popcount(b) + 1
  {
    var s := b | Mask(f);
    forall i: bv32 | i < 32
      ensures Bit(s, i) <==> Bit(b, i) || i == f
    {
      SetBit(b, f, i);
    }
    CountOneMore(s, b, f, g);
    CountOneMore(s, b, f, 32);
    PositionIsCount(s, g);
    PositionIsCount(b, g);
  }

  /** Clearing a set bit and setting it again gives the word back. */
  lemma ClearSet(b: bv32, f: bv32)
    requires f < 32 && Bit(b, f)
    ensures !Bit(b & !Mask(f), f) && (b & !Mask(f)) | Mask(f) == b
  {
  }

  /** Clearing a set bit `f` moves the positions above `f` down by one and removes one from popcount. */
  lemma ClearPositions(b: bv32, f: bv32, g: bv32)
    requires f < 32 && g < 32 && Bit(b, f)
    ensures Position(b & !Mask(f), g) + (if f < g then 1 else 0) == Position(b, g)
    ensures Popcount(b & !Mask(f)) + 1 == Popcount(b)
  {
    ClearSet(b, f);
    SetPositions(b & !Mask(f), f, g);
  }

  /** The bitmap of a single fragment: one child, at position 0. */
  lemma OneBit(f: bv32, g: bv32)
    requires f < 32 && g < 32
    ensures Popcount(Mask(f)) == 1 && Bit(Mask(f), f)
    ensures Position(Mask(f), g) == if f < g then 1 else 0
  {
    assert 0 | Mask(f) == Mask(f);
    assert !Bit(0, f);
    SetPositions(0, f, g);
    assert Position(0, g) == 0 by {
      assert 0 & (Mask(g) - 1) == 0;
      EmptyCount();
    }
    MaskBit(f, f);
  }

  /**
   * The bitmap of two distinct fragments (hamt.c:307) has two bits, and the
   * child with the smaller fragment comes first.
   */
  lemma TwoBitsCount(f1: bv32, f2: bv32)
    requires f1 < 32 && f2 < 32 && f1 != f2
    ensures Popcount(Mask(f1) | Mask(f2)) == 2
  {
    OneBit(f1, f1);
    MaskBit(f1, f2);
    SetPositions(Mask(f1), f2, f1);
  }

  lemma TwoBitsFirst(f1: bv32, f2: bv32)
    requires f1 < 32 && f2 < 32 && f1 != f2
    ensures Position(Mask(f1) | Mask(f2), f1) == if f2 < f1 then 1 else 0
  {
    OneBit(f1, f1);
    MaskBit(f1, f2);
    SetPositions(Mask(f1), f2, f1);
  }

  lemma TwoBitsSecond(f1: bv32, f2: bv32)
    requires f1 < 32 && f2 < 32 && f1 != f2
    ensures Position(Mask(f1) | Mask(f2), f2) == if f1 < f2 then 1 else 0
  {
    OneBit(f1, f2);
    MaskBit(f1, f2);
    SetPositions(Mask(f1), f2, f2);
  }

  lemma TwoBitsSet(f1: bv32, f2: bv32, g: bv32)
    requires f1 < 32 && f2 < 32 && g < 32
    ensures Bit(Mask(f1) | Mask(f2), g) <==> g == f1 || g == f2
  {
    SetBit(Mask(f1), f2, g);
    MaskBit(f1, g);
  }

  // ---------------------------------------------------------------------------
  // Empty bitmaps
  // ---------------------------------------------------------------------------

  /** The bits of `x` below `n`; for `n == 32` the whole word. */
  function LowBits(x: bv32, n: bv32): bv32
    requires n <= 32
  {
    if n == 32 then x else x & ((1 << n) - 1)
  }

  lemma LowBitsStep(x: bv32, n: bv32)
    requires n < 32 && LowBits(x, n) == 0 && !Bit(x, n)
    ensures LowBits(x, n + 1) == 0
  {
  }

  lemma {:induction false} CountZero(x: bv32, n: bv32)
    requires n <= 32 && CountBelow(x, n) == 0
    ensures LowBits(x, n) == 0
    decreases n
  {
    if n != 0 {
      CountZero(x, n - 1);
      LowBitsStep(x, n - 1);
    }
  }

  lemma XorBit(a: bv32, b: bv32, g: bv32)
    requires g < 32
    ensures Bit(a ^ b, g) <==> Bit(a, g) != Bit(b, g)
  {
  }

  lemma {:induction false} NoBitsBelow(x: bv32, n: bv32)
    requires n <= 32 && forall g: bv32 :: g < n ==> !Bit(x, g)
    ensures CountBelow(x, n) == 0
    decreases n
  {
    if n != 0 {
      NoBitsBelow(x, n - 1);
    }
  }

  /** Two words with the same bits are equal. */
  lemma SameBits(a: bv32, b: bv32)
    requires forall g: bv32 :: g < 32 ==> (Bit(a, g) <==> Bit(b, g))
    ensures a == b
  {
    var x := a ^ b;
    forall g: bv32 | g < 32
      ensures !Bit(x, g)
    {
      XorBit(a, b, g);
    }
    NoBitsBelow(x, 32);
    CountZero(x, 32);
  }

  /** Below the `n`-th bit's count there is a set bit that many set bits are below. */
  lemma {:induction false} CountedBitBelow(b: bv32, i: nat, n: bv32) returns (g: bv32)
    requires n <= 32 && i < CountBelow(b, n)
    ensures g < n && Bit(b, g) && CountBelow(b, g) == i
    decreases n
  {
    var m := n - 1;
    assert CountBelow(b, n) == CountBelow(b, m) + (if Bit(b, m) then 1 else 0);
    if i < CountBelow(b, m) {
      g := CountedBitBelow(b, i, m);
    } else {
      g := m;
    }
  }

  /** Every index below the popcount numbers the child of some set bit. */
  lemma CountedBit(b: bv32, i: nat) returns (g: bv32)
    requires i < Popcount(b)
    ensures g < 32 && Bit(b, g) && CountBelow(b, g) == i
  {
    g := CountedBitBelow(b, i, Width());
  }

  /** The empty bitmap has no set bits. */
  lemma EmptyCount()
    ensures Popcount(0) == 0
  {
    NoBitsBelow(0, Width());
  }

  /** Only the empty bitmap has popcount 0. */
  lemma PopcountZero(x: bv32)
    ensures Popcount(x) == 0 <==> x == 0
  {
    if Popcount(x) == 0 {
      CountZero(x, 32);
    } else if x == 0 {
      EmptyCount();
    }
  }

  // ---------------------------------------------------------------------------
  // Hashes that agree on their first fragments
  // ---------------------------------------------------------------------------

  /** `h1` and `h2` have the same fragments at every depth below `d`. */
  predicate Agree(h1: bv32, h2: bv32, d: nat) {
    forall e: nat :: e < d && e <= MAX_DEPTH ==> Frag(h1, e) == Frag(h2, e)
  }

  /** The seven fragments cover the whole word: hashes that agree on all of them are equal. */
  lemma AgreeAll(h1: bv32, h2: bv32)
    requires Agree(h1, h2, MAX_DEPTH + 1)
    ensures h1 == h2
  {
    assert Frag(h1, 0) == Frag(h2, 0);
    assert Frag(h1, 1) == Frag(h2, 1);
    assert Frag(h1, 2) == Frag(h2, 2);
    assert Frag(h1, 3) == Frag(h2, 3);
    assert Frag(h1, 4) == Frag(h2, 4);
    assert Frag(h1, 5) == Frag(h2, 5);
    assert Frag(h1, 6) == Frag(h2, 6);
  }

  /** Two different hashes part at some depth from 0 to 6. */
  lemma Parting(h1: bv32, h2: bv32, d: nat)
    requires h1 != h2 && Agree(h1, h2, d)
    ensures d <= MAX_DEPTH
  {
    if d > MAX_DEPTH {
      AgreeAll(h1, h2);
    }
  }

  /** Agreement extends by one level when the next fragments are equal too. */
  lemma AgreeMore(h1: bv32, h2: bv32, d: nat)
    requires d <= MAX_DEPTH && Agree(h1, h2, d) && Frag(h1, d) == Frag(h2, d)
    ensures Agree(h1, h2, d + 1)
  {
  }

  /**
   * The unsigned loop counter `n` as a 32-bit word, counted up one step at a
   * time (the C's `++i`).
   */
  function FragOf(n: nat): bv32 {
    if n == 0 then 0 else FragOf(n - 1) + 1
  }

  /** Counting up to at most 32 never wraps around. */
  lemma {:induction false} FragOfValue(n: nat)
    requires n <= 32
    ensures FragOf(n) as int == n
  {
    if n != 0 {
      FragOfValue(n - 1);
    }
  }

  lemma FragOfBound(n: nat)
    requires n <= 32
    ensures FragOf(n) <= 32 && (n < 32 ==> FragOf(n) < 32)
  {
    FragOfValue(n);
  }

  /** The counted word below 32 is the index converted to `bv32`. */
  lemma FragOfCast(n: nat)
    requires n < 32
    ensures FragOf(n) == n as bv32
  {
    FragOfValue(n);
  }

  /** A slot index below 32 survives the round trip through `bv32`. */
  lemma FragIndex(j: int)
    requires 0 <= j < 32
    ensures (j as bv32) as int == j
  {
    FragOfCast(j);
    FragOfValue(j);
  }
}
