/**
 * compress_array_to_branch (hamt.c:643-662): an array node left with few
 * children becomes a branch again. The spread of a branch over slots is in
 * `Children`; this module is its inverse.
 */
module Compression {
  import opened Bits
  import opened Nodes
  import opened Children


  /** Whether slot `i` survives compression: it is not the slot `idx` being dropped, and it is non-empty. */
  predicate Kept<T>(ss: seq<Option<T>>, idx: bv32, i: bv32)
    requires |ss| == 32 && i < 32
  {
    i != idx && ss[i].Some?
  }

  /** The bitmap of the surviving slots among the first `i`. */
  function GatherBits<T>(ss: seq<Option<T>>, idx: bv32, i: bv32): bv32
    requires |ss| == 32 && i <= 32
    decreases i
  {
    if i == 0 then 0
    else GatherBits(ss, idx, i - 1) | (if Kept(ss, idx, i - 1) then Mask(i - 1) else 0)
  }

  /** The children of the surviving slots among the first `i`, in slot order. */
  function Gather<T>(ss: seq<Option<T>>, idx: bv32, i: bv32): seq<T>
    requires |ss| == 32 && i <= 32
    decreases i
  {
    if i == 0 then []
    else Gather(ss, idx, i - 1) + (if Kept(ss, idx, i - 1) then [ss[i - 1].value] else [])
  }

  /** One more slot, a surviving one: its bit is set and its child appended. */
  lemma GatherKeep<T>(ss: seq<Option<T>>, idx: bv32, i: bv32)
    requires |ss| == 32 && i < 32 && Kept(ss, idx, i)
    ensures i + 1 <= 32
    ensures GatherBits(ss, idx, i + 1) == GatherBits(ss, idx, i) | Mask(i)
    ensures Gather(ss, idx, i + 1) == Gather(ss, idx, i) + [ss[i].value]
  {
  }

  /** One more slot, a dropped one: nothing changes. */
  lemma GatherSkip<T>(ss: seq<Option<T>>, idx: bv32, i: bv32)
    requires |ss| == 32 && i < 32 && !Kept(ss, idx, i)
    ensures i + 1 <= 32
    ensures GatherBits(ss, idx, i + 1) == GatherBits(ss, idx, i)
    ensures Gather(ss, idx, i + 1) == Gather(ss, idx, i)
  {
  }

  /** The bitmap of the branch that replaces an array node with slots `ss`, dropping slot `idx`. */
  function CompressBits<T>(ss: seq<Option<T>>, idx: bv32): bv32
    requires |ss| == 32
  {
    GatherBits(ss, idx, Width())
  }

  /** The children of that branch. */
  function CompressChildren<T>(ss: seq<Option<T>>, idx: bv32): seq<T>
    requires |ss| == 32
  {
    Gather(ss, idx, Width())
  }

  /** Bit `g` of the gathered bitmap is set exactly for the surviving slots below `i`. */
  lemma {:induction false} GatherBitsIs<T>(ss: seq<Option<T>>, idx: bv32, i: bv32, g: bv32)
    requires |ss| == 32 && i <= 32 && g < 32
    ensures Bit(GatherBits(ss, idx, i), g) <==> g < i && Kept(ss, idx, g)
    decreases i
  {
    if i != 0 {
      var m := i - 1;
      var b := GatherBits(ss, idx, m);
      GatherBitsIs(ss, idx, m, g);
      PastStep(g, i);
      if Kept(ss, idx, m) {
        assert GatherBits(ss, idx, i) == b | Mask(m);
        SetBit(b, m, g);
      } else {
        assert GatherBits(ss, idx, i) == b;
      }
    }
  }

  /** The gathered children below `i` are as many as the gathered bitmap's bits below `i`. */
  lemma {:induction false} GatherCount<T>(ss: seq<Option<T>>, idx: bv32, i: bv32)
    requires |ss| == 32 && i <= 32
    ensures |Gather(ss, idx, i)| == CountBelow(CompressBits(ss, idx), i)
    decreases i
  {
    if i != 0 {
      GatherCount(ss, idx, i - 1);
      GatherBitsIs(ss, idx, Width(), i - 1);
    }
  }

  /** More slots gather at least as many children. */
  lemma {:induction false} GatherMono<T>(ss: seq<Option<T>>, idx: bv32, i: bv32, j: bv32)
    requires |ss| == 32 && i <= j <= 32
    ensures |Gather(ss, idx, i)| <= |Gather(ss, idx, j)|
    decreases j
  {
    if i < j {
      GatherMono(ss, idx, i, j - 1);
    }
  }

  /** A surviving slot `g` below `i` holds the child numbered by the survivors below `g`. */
  lemma {:induction false} GatherAt<T>(ss: seq<Option<T>>, idx: bv32, i: bv32, g: bv32)
    requires |ss| == 32 && g < i <= 32 && Kept(ss, idx, g)
    ensures |Gather(ss, idx, g)| < |Gather(ss, idx, i)|
    ensures Gather(ss, idx, i)[|Gather(ss, idx, g)|] == ss[g].value
    decreases i
  {
    if g < i - 1 {
      GatherAt(ss, idx, i - 1, g);
    }
  }

  /**
   * Compression undoes the spreading: the gathered children, read back
   * through the gathered bitmap, give every slot except `idx`, which comes
   * back empty.
   */
  lemma GatherSlots<T>(ss: seq<Option<T>>, idx: bv32)
    requires |ss| == 32
    ensures |CompressChildren(ss, idx)| == Popcount(CompressBits(ss, idx))
    ensures forall g: bv32 :: g < 32 ==>
      BitSlot(CompressBits(ss, idx), CompressChildren(ss, idx), g) == if g == idx then None else ss[g]
  {
    var b, cs := CompressBits(ss, idx), CompressChildren(ss, idx);
    GatherCount(ss, idx, Width());
    forall g: bv32 | g < 32
      ensures BitSlot(b, cs, g) == if g == idx then None else ss[g]
    {
      GatherBitsIs(ss, idx, Width(), g);
      if Kept(ss, idx, g) {
        GatherCount(ss, idx, g);
        GatherAt(ss, idx, Width(), g);
      }
    }
  }

  /** A spread branch keeps exactly the slots of its bits. */
  lemma SpreadKept<T>(bitmap: bv32, cs: seq<T>, idx: bv32, g: bv32)
    requires |cs| == Popcount(bitmap) && idx < 32 && !Bit(bitmap, idx) && g < 32
    ensures Kept(SpreadSlots(bitmap, cs), idx, g) <==> Bit(bitmap, g)
  {
  }

  /** Compressing a spread branch, dropping a slot it does not use, gives back its bitmap. */
  lemma GatherSpreadBits<T>(bitmap: bv32, cs: seq<T>, idx: bv32)
    requires |cs| == Popcount(bitmap) && idx < 32 && !Bit(bitmap, idx)
    ensures CompressBits(SpreadSlots(bitmap, cs), idx) == bitmap
  {
    var ss := SpreadSlots(bitmap, cs);
    var b := CompressBits(ss, idx);
    forall g: bv32 | g < 32
      ensures Bit(b, g) <==> Bit(bitmap, g)
    {
      GatherBitsIs(ss, idx, Width(), g);
      SpreadKept(bitmap, cs, idx, g);
    }
    SameBits(b, bitmap);
  }

  /** Two branches with the same bitmap whose slots agree have the same children. */
  lemma SameChildren<T>(bitmap: bv32, cs: seq<T>, ds: seq<T>)
    requires |cs| == Popcount(bitmap) && |ds| == Popcount(bitmap)
    requires forall g: bv32 :: g < 32 ==> BitSlot(bitmap, cs, g) == BitSlot(bitmap, ds, g)
    ensures cs == ds
  {
    forall i | 0 <= i < |cs|
      ensures cs[i] == ds[i]
    {
      var g := CountedBit(bitmap, i);
      BitSlotSet(bitmap, cs, g);
      BitSlotSet(bitmap, ds, g);
    }
  }

  /**
   * Spreading a branch and compressing it again, dropping a slot the branch
   * does not use, gives back the branch.
   */
  lemma GatherSpread<T>(bitmap: bv32, cs: seq<T>, idx: bv32)
    requires |cs| == Popcount(bitmap) && idx < 32 && !Bit(bitmap, idx)
    ensures CompressBits(SpreadSlots(bitmap, cs), idx) == bitmap
    ensures CompressChildren(SpreadSlots(bitmap, cs), idx) == cs
  {
    var ss := SpreadSlots(bitmap, cs);
    GatherSpreadBits(bitmap, cs, idx);
    GatherSlots(ss, idx);
    SameChildren(bitmap, CompressChildren(ss, idx), cs);
  }

  /** The packed buffer of the compression loop after the slots below `i`: its first `j` entries. */
  ghost predicate PackedTo<T>(ss: seq<Option<T>>, idx: bv32, i: bv32, p: seq<T>, j: nat)
  {
    |ss| == 32 && i <= 32 && |p| == MAX_BRANCH_SIZE && j <= |p| && p[..j] == Gather(ss, idx, i)
  }

  /** Writing entry `j` extends the first `j` entries by one. */
  lemma UpdateNext<T>(p: seq<T>, j: nat, x: T)
    requires j < |p|
    ensures p[j := x][..j + 1] == p[..j] + [x]
  {
  }

  /** A surviving slot's child is appended; the buffer has room for it. */
  lemma {:induction false} PackKeep<T>(ss: seq<Option<T>>, idx: bv32, i: bv32, p: seq<T>, j: nat)
    requires i < 32 && PackedTo(ss, idx, i, p, j) && |CompressChildren(ss, idx)| <= MAX_BRANCH_SIZE
    requires Kept(ss, idx, i)
    ensures j < |p| && PackedTo(ss, idx, i + 1, p[j := ss[i].value], j + 1)
  {
    GatherKeep(ss, idx, i);
    GatherMono(ss, idx, i + 1, Width());
    UpdateNext(p, j, ss[i].value);
  }

  /**
   * The loop of compress_array_to_branch (hamt.c:643-662). New children go
   * into a fresh buffer of MAX_BRANCH_SIZE entries, so the slots other than
   * `idx` may hold at most that many. For every non-empty slot `i` other than
   * `idx` it appends the child and sets bit `i` of the bitmap.
   */
  method Compress<T(0)>(idx: bv32, children: array<Option<T>>) returns (bitmap: bv32, packed: array<T>, size: nat)
    requires children.Length == 32
    requires |CompressChildren(children[..], idx)| <= MAX_BRANCH_SIZE
    ensures fresh(packed) && packed.Length == MAX_BRANCH_SIZE
    ensures bitmap == CompressBits(children[..], idx)
    ensures size <= MAX_BRANCH_SIZE && packed[..size] == CompressChildren(children[..], idx)
  {
    ghost var ss := children[..];
    packed := new T[MAX_BRANCH_SIZE];
    var j: nat := 0;
    bitmap := 0;
    var i: bv32 := 0;
    while i < 32
      invariant i <= 32 && bitmap == GatherBits(ss, idx, i)
      invariant PackedTo(ss, idx, i, packed[..], j)
    {
      if i != idx && children[i].Some? {
        GatherKeep(ss, idx, i);
        PackKeep(ss, idx, i, packed[..], j);
        packed[j] := children[i].value;
        j := j + 1;
        bitmap := bitmap | Mask(i);
      } else {
        GatherSkip(ss, idx, i);
      }
      i := i + 1;
    }
    size := j;
  }
}
