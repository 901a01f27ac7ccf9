/**
 * The children arrays (hamt.c:212-260, 339-355, 643-662).
 *
 * A branch's or collision's children are a packed sequence, and an array
 * node's are 32 slots, `None` where the C holds NULL. The transition rules
 * in `Insert` and `Remove` are written against the sequence functions of this
 * module. The methods are the C's index loops over arrays, and each is proved
 * to compute its sequence function.
 */
module Children {
  import opened Bits
  import opened Nodes

  // ---------------------------------------------------------------------------
  // Packed children: splice in, cut out
  // ---------------------------------------------------------------------------

  /** `s` with `x` spliced in at index `p`. Entries at `p` and beyond move up one place. */
  function InsertAt<T>(s: seq<T>, p: nat, x: T): (r: seq<T>)
    requires p <= |s|
    ensures |r| == |s| + 1 && r[p] == x
    ensures forall i :: 0 <= i < p ==> r[i] == s[i]
    ensures forall i :: p < i < |r| ==> r[i] == s[i - 1]
  {
    s[..p] + [x] + s[p..]
  }

  /** `s` without its entry at index `p`. Later entries move down one place. */
  function RemoveAt<T>(s: seq<T>, p: nat): (r: seq<T>)
    requires p < |s|
    ensures |r| == |s| - 1
    ensures forall i :: 0 <= i < p ==> r[i] == s[i]
    ensures forall i :: p <= i < |r| ==> r[i] == s[i + 1]
  {
    s[..p] + s[p + 1..]
  }

  /** Cutting out what was spliced in gives back the original sequence. */
  lemma RemoveInsert<T>(s: seq<T>, p: nat, x: T)
    requires p <= |s|
    ensures RemoveAt(InsertAt(s, p, x), p) == s
  {
    var r := RemoveAt(InsertAt(s, p, x), p);
    assert forall i :: 0 <= i < |s| ==> r[i] == s[i];
  }

  /** Splicing a removed entry back in at its index gives back the original sequence. */
  lemma InsertRemove<T>(s: seq<T>, p: nat)
    requires p < |s|
    ensures InsertAt(RemoveAt(s, p), p, s[p]) == s
  {
    var r := InsertAt(RemoveAt(s, p), p, s[p]);
    assert forall i :: 0 <= i < |s| ==> r[i] == s[i];
  }

  // ---------------------------------------------------------------------------
  // Packed children under a bitmap: each entry at the position of its bit
  // ---------------------------------------------------------------------------

  /**
   * Children `r` under bitmap `rb` hold exactly the bits `f1` and `f2`, with
   * `x1` at the position of `f1` and `x2` at the position of `f2`.
   */
  ghost predicate Paired<T>(rb: bv32, r: seq<T>, f1: bv32, x1: T, f2: bv32, x2: T)
    requires f1 < 32 && f2 < 32
  {
    && |r| == Popcount(rb) == 2
    && (forall g: bv32 :: g < 32 ==> (Bit(rb, g) <==> g == f1 || g == f2))
    && Position(rb, f1) < 2 && r[Position(rb, f1)] == x1
    && Position(rb, f2) < 2 && r[Position(rb, f2)] == x2
  }

  /** Two entries on two distinct bits, listed in ascending bit order, sit at the positions of their bits. */
  lemma PairOrder<T>(f1: bv32, x1: T, f2: bv32, x2: T)
    requires f1 < 32 && f2 < 32 && f1 != f2
    ensures Paired(Mask(f1) | Mask(f2), if f1 < f2 then [x1, x2] else [x2, x1], f1, x1, f2, x2)
  {
    var bm := Mask(f1) | Mask(f2);
    TwoBitsCount(f1, f2);
    TwoBitsFirst(f1, f2);
    TwoBitsSecond(f1, f2);
    forall g: bv32 | g < 32
      ensures Bit(bm, g) <==> g == f1 || g == f2
    {
      TwoBitsSet(f1, f2, g);
    }
  }

  /**
   * Children `r` under bitmap `rb` are those of bitmap `b` over `cs` with `x`
   * added under the clear bit `f`: the bitmap gains `f`, `x` sits at the
   * position of `f`, and every old entry at the position of its own bit.
   */
  ghost predicate SplicedUnder<T>(rb: bv32, r: seq<T>, b: bv32, f: bv32, cs: seq<T>, x: T)
    requires f < 32
  {
    && rb == b | Mask(f) && |r| == |cs| + 1
    && Position(rb, f) < |r| && r[Position(rb, f)] == x
    && (forall g: bv32 :: g < 32 && Bit(b, g) ==>
          Position(b, g) < |cs| && Position(rb, g) < |r| && r[Position(rb, g)] == cs[Position(b, g)])
  }

  /** Splicing `x` in at the position of a clear bit `f` lays every entry out under the bitmap that gains `f`. */
  lemma SpliceAt<T>(b: bv32, f: bv32, cs: seq<T>, x: T)
    requires f < 32 && !Bit(b, f) && |cs| == Popcount(b)
    ensures Position(b, f) <= |cs| && SplicedUnder(b | Mask(f), InsertAt(cs, Position(b, f), x), b, f, cs, x)
  {
    PositionAtMost(b, f);
    SetPositions(b, f, f);
    forall g: bv32 | g < 32 && Bit(b, g)
      ensures Position(b, g) < |cs| && Position(b | Mask(f), g) < |cs| + 1
      ensures InsertAt(cs, Position(b, f), x)[Position(b | Mask(f), g)] == cs[Position(b, g)]
    {
      SpliceEntry(b, f, g, cs, x);
    }
  }

  /** Every old entry ends up at the position of its bit in the new bitmap. */
  lemma SpliceEntry<T>(b: bv32, f: bv32, g: bv32, cs: seq<T>, x: T)
    requires f < 32 && g < 32 && !Bit(b, f) && Bit(b, g) && |cs| == Popcount(b) && Position(b, f) <= |cs|
    ensures Position(b, g) < |cs| && Position(b | Mask(f), g) < |cs| + 1
    ensures InsertAt(cs, Position(b, f), x)[Position(b | Mask(f), g)] == cs[Position(b, g)]
  {
    if g < f {
      SpliceBelow(b, f, g, cs, x);
    } else {
      SpliceAbove(b, f, g, cs, x);
    }
  }

  /** An entry whose bit lies below `f` keeps its position. */
  lemma SpliceBelow<T>(b: bv32, f: bv32, g: bv32, cs: seq<T>, x: T)
    requires g < f < 32 && !Bit(b, f) && Bit(b, g) && |cs| == Popcount(b) && Position(b, f) <= |cs|
    ensures Position(b, g) < |cs| && Position(b | Mask(f), g) == Position(b, g)
    ensures InsertAt(cs, Position(b, f), x)[Position(b, g)] == cs[Position(b, g)]
  {
    SetPositions(b, f, g);
    PositionOrder(b, g, f);
  }

  /** An entry whose bit lies above `f` moves up by one. */
  lemma SpliceAbove<T>(b: bv32, f: bv32, g: bv32, cs: seq<T>, x: T)
    requires f <= g < 32 && !Bit(b, f) && Bit(b, g) && |cs| == Popcount(b) && Position(b, f) <= |cs|
    ensures Position(b, g) < |cs| && Position(b | Mask(f), g) == Position(b, g) + 1
    ensures InsertAt(cs, Position(b, f), x)[Position(b, g) + 1] == cs[Position(b, g)]
  {
    assert f < g;
    SetPositions(b, f, g);
    PositionBelowPopcount(b, g);
    PositionMono(b, f, g);
  }

  /**
   * insert_child (hamt.c:216-231). It copies the first `size` children into
   * a temporary with `child` at `position`, then writes the `size + 1`
   * entries back over the buffer. The buffer must have room for them.
   */
  method InsertChild<T>(children: array<T>, child: T, position: nat, size: nat)
    requires position <= size < children.Length
    modifies children
    ensures children[..size + 1] == InsertAt(old(children[..size]), position, child)
    ensures forall k :: size < k < children.Length ==> children[k] == old(children[k])
  {
    ghost var spliced := InsertAt(children[..size], position, child);
    var temp := new T[size + 1](_ => child);
    var i, j := 0, 0;
    while j < position
      invariant i == j <= position
      invariant forall k :: 0 <= k < i ==> temp[k] == spliced[k]
      modifies temp
    {
      temp[i] := children[j];
      i, j := i + 1, j + 1;
    }
    temp[i] := child;
    i := i + 1;
    while j < size
      invariant position <= j <= size && i == j + 1
      invariant forall k :: 0 <= k < i ==> temp[k] == spliced[k]
      modifies temp
    {
      temp[i] := children[j];
      i, j := i + 1, j + 1;
    }
    var n := 0;
    while n < size + 1
      invariant n <= size + 1
      invariant forall k :: 0 <= k < n ==> children[k] == spliced[k]
      invariant forall k :: n <= k < children.Length ==> children[k] == old(children[k])
      modifies children
    {
      children[n] := temp[n];
      n := n + 1;
    }
  }

  /**
   * insert_child on a buffer of fixed size, as the C calls it in place: the
   * `size + 1` entries it writes back fit exactly when `size` is below the
   * buffer's length, and then the buffer starts with the old children and
   * `child` spliced in at `position`, the rest untouched. When they do not
   * fit, the last entry lands past the end of the buffer, and the result is
   * `None`.
   */
  function InsertChildAsWritten<T>(buffer: seq<T>, child: T, position: nat, size: nat): (r: Option<seq<T>>)
    requires position <= size <= |buffer|
    ensures r.Some? <==> size < |buffer|
    ensures r.Some? ==> |r.value| == |buffer| && r.value[..size + 1] == InsertAt(buffer[..size], position, child)
    ensures r.Some? ==> r.value[size + 1..] == buffer[size + 1..]
  {
    if size < |buffer| then Some(InsertAt(buffer[..size], position, child) + buffer[size + 1..]) else None
  }

  /** The size of a pointer, `sizeof(hamt_node_t *)`, on a 64-bit target. */
  const NODE_REF_SIZE: nat := 8

  /**
   * The number of slots remove_child allocates for `size` children: it asks
   * `alloc_children` for `sizeof(pointer) * (size - 1)` entries, and
   * `alloc_children` scales by the pointer size again. With the 8-byte
   * pointers of `NODE_REF_SIZE` that is room for the remaining children, and
   * for a full branch's when three or more were there, but only 8 slots
   * when two children become one.
   */
  function RemoveChildSlots(size: nat): (slots: nat)
    requires 1 <= size
    ensures slots >= size - 1
    ensures size >= 3 ==> slots >= MAX_BRANCH_SIZE
    ensures size == 2 ==> slots == 8 < MAX_BRANCH_SIZE
  {
    NODE_REF_SIZE * (size - 1)
  }

  /**
   * remove_child (hamt.c:236-252): a fresh buffer of `RemoveChildSlots(size)`
   * entries that starts with the first `size` children except the one at
   * `position`.
   */
  method RemoveChild<T(0)>(children: array<T>, position: nat, size: nat) returns (r: array<T>)
    requires position < size <= children.Length
    ensures fresh(r) && r.Length == RemoveChildSlots(size)
    ensures r[..size - 1] == RemoveAt(children[..size], position)
  {
    r := new T[RemoveChildSlots(size)];
    var i, j := 0, 0;
    while j < position
      invariant i == j <= position
      invariant r[..i] == children[..j]
    {
      r[i] := children[j];
      i, j := i + 1, j + 1;
    }
    j := j + 1;
    while j < size
      invariant position < j <= size && i == j - 1
      invariant r[..i] == children[..position] + children[position + 1..j]
    {
      r[i] := children[j];
      assert children[position + 1..j + 1] == children[position + 1..j] + [children[j]];
      i, j := i + 1, j + 1;
    }
  }

  /** replace_child (hamt.c:257-260): overwrites one entry in place. */
  method ReplaceChild<T>(children: array<T>, child: T, position: nat)
    requires position < children.Length
    modifies children
    ensures children[..] == old(children[..])[position := child]
  {
    children[position] := child;
  }

  // ---------------------------------------------------------------------------
  // From packed children to 32 slots: expand_branch_to_array_node
  // ---------------------------------------------------------------------------

  /**
   * The slot for fragment `f` of a branch with `bitmap` and children `cs`:
   * NULL unless bit `f` is set, and otherwise the child numbered by the set
   * bits below `f`.
   */
  function BitSlot<T>(bitmap: bv32, cs: seq<T>, f: bv32): Option<T>
    requires f < 32 && |cs| == Popcount(bitmap)
  {
    if Bit(bitmap, f) then
      CountBelowOnes(bitmap, f);
      Some(cs[CountBelow(bitmap, f)])
    else None
  }

  /** The slot of a set bit holds a child. */
  lemma BitSlotSet<T>(bitmap: bv32, cs: seq<T>, f: bv32)
    requires f < 32 && |cs| == Popcount(bitmap) && Bit(bitmap, f)
    ensures CountBelow(bitmap, f) < |cs| && BitSlot(bitmap, cs, f) == Some(cs[CountBelow(bitmap, f)])
  {
    CountBelowOnes(bitmap, f);
  }

  /** The 32 slots that hold a branch's children, each at the fragment of its bit. */
  function SpreadSlots<T>(bitmap: bv32, cs: seq<T>): (r: seq<Option<T>>)
    requires |cs| == Popcount(bitmap)
    ensures |r| == 32
    ensures forall f: bv32 :: f < 32 ==> r[f] == BitSlot(bitmap, cs, f)
  {
    seq(32, j requires 0 <= j < 32 => BitSlot(bitmap, cs, j as bv32))
  }

  /** The 32 slots of the array node that replaces a full branch: its children, and `child` at `idx`. */
  function ExpandSlots<T>(idx: bv32, child: T, bitmap: bv32, cs: seq<T>): (r: seq<Option<T>>)
    requires idx < 32 && |cs| == Popcount(bitmap)
    ensures |r| == 32 && r[idx] == Some(child)
    ensures forall f: bv32 :: f < 32 && f != idx ==> r[f] == BitSlot(bitmap, cs, f)
  {
    SpreadSlots(bitmap, cs)[idx := Some(child)]
  }

  /** Two 32-entry sequences that agree at every fragment are equal. */
  lemma SameSlots<T>(s: seq<T>, t: seq<T>)
    requires |s| == |t| == 32
    requires forall f: bv32 :: f < 32 ==> s[f] == t[f]
    ensures s == t
  {
    forall j | 0 <= j < 32
      ensures s[j] == t[j]
    {
      FragIndex(j);
      assert s[j as bv32] == t[j as bv32];
    }
  }

  /** The loop's `bit` after `n` iterations of `bit >>= 1`. */
  function BitAfter(bitmap: bv32, n: nat): bv32 {
    if n == 0 then bitmap else BitAfter(bitmap, n - 1) >> 1
  }

  /** The loop's `count` after `n` iterations: one more for every odd `bit`. */
  function CountAfter(bitmap: bv32, n: nat): nat {
    if n == 0 then 0 else CountAfter(bitmap, n - 1) + (if BitAfter(bitmap, n - 1) & 1 == 1 then 1 else 0)
  }

  /** Shifting right by one more place, and the lowest bit of the shifted word. */
  lemma ShiftStep(b: bv32, i: bv32)
    requires i < 32
    ensures (b >> i) >> 1 == b >> (i + 1)
    ensures (b >> i) & 1 == 1 <==> Bit(b, i)
  {
  }

  /** After `n` iterations `bit` is the bitmap shifted right by `n`. */
  lemma {:induction false} BitAfterIs(b: bv32, n: nat)
    requires n <= 32
    ensures FragOf(n) <= 32 && BitAfter(b, n) == b >> FragOf(n)
  {
    FragOfBound(n);
    if n != 0 {
      BitAfterIs(b, n - 1);
      FragOfBound(n - 1);
      ShiftStep(b, FragOf(n - 1));
    }
  }

  /** After `n` iterations `count` is the number of set bits below `n`. */
  lemma {:induction false} CountAfterIs(b: bv32, n: nat)
    requires n <= 32
    ensures FragOf(n) <= 32 && CountAfter(b, n) == CountBelow(b, FragOf(n))
  {
    FragOfBound(n);
    if n != 0 {
      CountAfterIs(b, n - 1);
      FragOfBound(n - 1);
      BitAfterIs(b, n - 1);
      ShiftStep(b, FragOf(n - 1));
      CountStep(b, FragOf(n - 1));
    }
  }

  /** The odd `bit` of iteration `j` is bit `j` of the bitmap, and `count` then numbers its child. */
  lemma BitAfterBit(b: bv32, j: nat)
    requires j < 32
    ensures BitAfter(b, j) & 1 == 1 <==> Bit(b, j as bv32)
    ensures CountAfter(b, j) == CountBelow(b, j as bv32)
  {
    BitAfterIs(b, j);
    CountAfterIs(b, j);
    FragOfCast(j);
    ShiftStep(b, FragOf(j));
  }

  /** An odd `bit` picks a child that exists. */
  lemma CountAfterBound(b: bv32, j: nat)
    requires j < 32 && BitAfter(b, j) & 1 == 1
    ensures CountAfter(b, j) < Popcount(b)
  {
    BitAfterBit(b, j);
    CountBelowOnes(b, j as bv32);
  }

  /** Once `bit` is 0 it stays 0, and `count` stays as it is. */
  lemma {:induction false} BitAfterStays(b: bv32, n: nat, j: nat)
    requires n <= j && BitAfter(b, n) == 0
    ensures BitAfter(b, j) == 0 && CountAfter(b, j) == CountAfter(b, n)
    decreases j
  {
    if j > n {
      BitAfterStays(b, n, j - 1);
    }
  }

  /** The loop stops by the 32nd iteration: a word shifted right 32 times is 0. */
  lemma BitAfterLive(b: bv32, n: nat)
    requires BitAfter(b, n) != 0
    ensures n < 32
  {
    if n >= 32 {
      BitAfterIs(b, 32);
      FragOfValue(32);
      BitAfterStays(b, 32, n);
    }
  }

  /** Once `bit` is 0, `count` is the number of children. */
  lemma CountAfterDone(b: bv32, n: nat)
    requires n <= 32 && BitAfter(b, n) == 0
    ensures CountAfter(b, n) == Popcount(b)
  {
    BitAfterStays(b, n, 32);
    CountAfterIs(b, 32);
    FragOfValue(32);
  }

  /** Slot `j` once the loop has run `i` iterations: still NULL unless `j < i` and bit `j` is set. */
  function FilledSlot<T>(bitmap: bv32, cs: seq<T>, i: nat, j: nat): Option<T>
    requires j < 32 && |cs| == Popcount(bitmap)
  {
    if j < i && BitAfter(bitmap, j) & 1 == 1 then
      CountAfterBound(bitmap, j);
      Some(cs[CountAfter(bitmap, j)])
    else None
  }

  /** Once `bit` is 0, every slot the loop has filled in is the branch's slot for that fragment. */
  lemma FilledFinal<T>(bitmap: bv32, cs: seq<T>, i: nat, j: nat)
    requires j < 32 && |cs| == Popcount(bitmap) && BitAfter(bitmap, i) == 0
    ensures FilledSlot(bitmap, cs, i, j) == BitSlot(bitmap, cs, j as bv32)
  {
    BitAfterBit(bitmap, j);
    if j >= i {
      BitAfterStays(bitmap, i, j);
    }
  }

  /** The slots hold what the loop has filled in during its first `i` iterations. */
  ghost predicate FilledTo<T>(s: seq<Option<T>>, bitmap: bv32, cs: seq<T>, i: nat)
    requires |cs| == Popcount(bitmap)
  {
    |s| == 32 && forall j :: 0 <= j < 32 ==> s[j] == FilledSlot(bitmap, cs, i, j)
  }

  /** Iteration `i` with an odd `bit` stores the next child in slot `i`. */
  lemma FillStep<T>(s: seq<Option<T>>, bitmap: bv32, cs: seq<T>, i: nat)
    requires i < 32 && |cs| == Popcount(bitmap) && FilledTo(s, bitmap, cs, i)
    requires BitAfter(bitmap, i) & 1 == 1
    ensures CountAfter(bitmap, i) < |cs|
    ensures FilledTo(s[i := Some(cs[CountAfter(bitmap, i)])], bitmap, cs, i + 1)
  {
    CountAfterBound(bitmap, i);
  }

  /** Iteration `i` with an even `bit` leaves the slots as they are. */
  lemma FillSkip<T>(s: seq<Option<T>>, bitmap: bv32, cs: seq<T>, i: nat)
    requires i < 32 && |cs| == Popcount(bitmap) && FilledTo(s, bitmap, cs, i)
    requires BitAfter(bitmap, i) & 1 != 1
    ensures FilledTo(s, bitmap, cs, i + 1)
  {
  }

  /** Once `bit` is 0, the slots are the branch's children spread out. */
  lemma FillDone<T>(s: seq<Option<T>>, bitmap: bv32, cs: seq<T>, i: nat)
    requires |cs| == Popcount(bitmap) && FilledTo(s, bitmap, cs, i) && BitAfter(bitmap, i) == 0
    ensures s == SpreadSlots(bitmap, cs)
  {
    var t := SpreadSlots(bitmap, cs);
    forall j | 0 <= j < 32
      ensures s[j] == t[j]
    {
      FilledFinal(bitmap, cs, i, j);
    }
  }

  /**
   * The loop of expand_branch_to_array_node (hamt.c:344-351). It shifts the
   * bitmap right until it is empty. For every odd `bit` it stores the next
   * packed child in slot `i`. The count of children it returns is that of
   * the set bits.
   */
  method Spread<T>(bitmap: bv32, children: array<T>) returns (slots: array<Option<T>>, count: nat)
    requires Popcount(bitmap) <= children.Length
    ensures fresh(slots)
    ensures slots[..] == SpreadSlots(bitmap, children[..Popcount(bitmap)])
    ensures count == Popcount(bitmap)
  {
    ghost var cs := children[..Popcount(bitmap)];
    slots := new Option<T>[32](_ => None);
    var bit := bitmap;
    var i: nat := 0;
    count := 0;
    while bit != 0
      invariant i <= 32 && bit == BitAfter(bitmap, i)
      invariant count == CountAfter(bitmap, i)
      invariant slots.Length == 32 && FilledTo(slots[..], bitmap, cs, i)
      decreases 32 - i
    {
      BitAfterLive(bitmap, i);
      if bit & 1 == 1 {
        FillStep(slots[..], bitmap, cs, i);
        slots[i] := Some(children[count]);
      } else {
        FillSkip(slots[..], bitmap, cs, i);
      }
      count := count + if bit & 1 == 1 then 1 else 0;
      bit := bit >> 1;
      i := i + 1;
    }
    CountAfterDone(bitmap, i);
    FillDone(slots[..], bitmap, cs, i);
  }

  /**
   * expand_branch_to_array_node (hamt.c:339-355): the branch's children
   * spread over 32 slots, then the new child at `idx`, one more in the count.
   */
  method Expand<T>(idx: bv32, child: T, bitmap: bv32, children: array<T>) returns (slots: array<Option<T>>, count: nat)
    requires idx < 32 && Popcount(bitmap) <= children.Length
    ensures fresh(slots)
    ensures slots[..] == ExpandSlots(idx, child, bitmap, children[..Popcount(bitmap)])
    ensures count == Popcount(bitmap) + 1
  {
    slots, count := Spread(bitmap, children);
    slots[idx] := Some(child);
    count := count + 1;
  }
}
