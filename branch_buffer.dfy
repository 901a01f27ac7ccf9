/**
 * The buffer a branch keeps after losing a child, and how later insertions
 * overrun it.
 *
 * When a branch's child empties and the branch keeps other children,
 * handle_branch_removal cuts the child out with remove_child (hamt.c:610-611),
 * and the branch it returns keeps the buffer remove_child allocated:
 * `RemoveChildSlots(size)` entries, only 8 when two children become one.
 * handle_branch_insert later splices new children into that same buffer in
 * place (hamt.c:379-381), and insert_child writes `size + 1` entries back
 * (hamt.c:230). The model's branch holds up to MAX_BRANCH_SIZE children in
 * any case; this module shows keys that make the C write a ninth child into
 * the 8 slots.
 */
module BranchBuffers {
  import opened Bits
  import opened Hash
  import opened Nodes
  import opened Children
  import opened Insertion
  import opened InsertProofs
  import opened Removal
  import opened RemoveProofs
  import opened HamtMap

  /** "@": hash 64, fragment 0 at depth 0. */
  const At: Key := [64]
  /** "A": hash 65, fragment 1 at depth 0 and 2 at depth 1. */
  const UpperA: Key := [65]
  /** "a": hash 97, fragment 1 at depth 0 and 3 at depth 1. */
  const LowerA: Key := [97]

  /** The keys that build `Fork`. */
  const Forked: seq<Key> := [At, UpperA, LowerA]

  /** The trie that setting "@", "A" and "a" builds: a branch whose second child is a branch. */
  function Fork<V>(value: V): Node<V> {
    Branch(3, [Leaf(64, At, value), Branch(12, [Leaf(65, UpperA, value), Leaf(97, LowerA, value)])])
  }

  /** The root after setting `Forked` into an empty map and then removing "@". */
  function Emptied<V(==)>(value: V): (r: Option<Node<V>>)
    ensures RootWF(r)
    ensures RootContents(r) == RootContents(SetAll(None, Forked, value)) - {At}
  {
    UprootedCorrect(SetAll(None, Forked, value), At);
    Uprooted(SetAll(None, Forked, value), At)
  }

  /** Setting "@", "A" and "a" into an empty map builds `Fork`. */
  lemma ForkBuilt<V>(value: V)
    ensures SetAll(None, Forked, value) == Some(Fork(value))
  {
    assert HashOf(At) == 64 && HashOf(UpperA) == 65 && HashOf(LowerA) == 97;
    var one := Leaf(64, At, value);
    PlantedCorrect(None, At, value);
    assert Planted(None, At, value) == one;
    var two := Branch(3, [one, Leaf(65, UpperA, value)]);
    PlantedCorrect(Some(one), UpperA, value);
    assert Planted(Some(one), UpperA, value) == two by {
      MergeShape(0, 64, one, 65, Leaf(65, UpperA, value));
    }
    ForkThird(two, value);
    var ks := [At, UpperA, LowerA];
    assert ks[1..] == [UpperA, LowerA] && ks[1..][1..] == [LowerA] && ks[1..][1..][1..] == [];
    assert SetAll(None, ks, value) == SetAll(Some(one), [UpperA, LowerA], value);
    assert SetAll(Some(one), [UpperA, LowerA], value) == SetAll(Some(two), [LowerA], value);
    assert SetAll(Some(two), [LowerA], value) == SetAll(Some(Fork(value)), [], value);
  }

  /** "a" goes down the branch of "@" and "A" to the leaf of "A", and is merged with it one level down. */
  lemma ForkThird<V>(two: Node<V>, value: V)
    requires two == Branch(3, [Leaf(64, At, value), Leaf(65, UpperA, value)]) && RootWF(Some(two))
    ensures Planted(Some(two), LowerA, value) == Fork(value)
  {
    var upper, lower := Leaf(65, UpperA, value), Leaf(97, LowerA, value);
    assert HashOf(UpperA) == 65 && HashOf(LowerA) == 97;
    PositionIsCount(3, 1);
    MaskTest(3, 1);
    assert Frag(97, 0) == 1 && Frag(65, 1) == 2 && Frag(97, 1) == 3;
    UnderRoot(two, 97);
    assert Planted(Some(two), LowerA, value) == Insert(two, 0, 97, LowerA, value);
    assert Position(3, 1) == 1;
    assert Insert(two, 0, 97, LowerA, value) == Branch(3, [Leaf(64, At, value), Insert(upper, 1, 97, LowerA, value)]);
    assert Insert(upper, 1, 97, LowerA, value) == MergeLeaves(1, 65, upper, 97, lower);
    MergeShape(1, 65, upper, 97, lower);
    assert Mask(2) | Mask(3) == 12;
    assert MergeLeaves(1, 65, upper, 97, lower) == Branch(12, [upper, lower]);
  }

  /**
   * Removing "@" from `Fork` empties its first child. Its sibling is a
   * branch, not a leaf, so the C cuts the child out with remove_child of two
   * children and keeps a branch of one child.
   */
  lemma ForkCut<V>(value: V)
    ensures RootWF(Some(Fork(value)))
    ensures Uprooted(Some(Fork(value)), At) == Some(Branch(2, [Fork(value).children[1]]))
  {
    ForkBuilt(value);
    var n := Fork(value);
    assert HashOf(At) == 64 && Frag(64, 0) == 0;
    PositionIsCount(3, 0);
    var p := BranchRemoveSet(n, 0, 64, At);
    assert p == 0;
    assert Remove(n.children[0], 1, 64, At) == None;
    assert Uprooted(Some(n), At) == BranchRebuild(n, 0, None);
    assert Popcount(3) == 2 by { TwoBitsCount(0, 1); assert Mask(0) | Mask(1) == 3; }
    ForkRebuilt(n);
  }

  /** The C's removal of the first child of `Fork`: two children, a branch left as the second. */
  lemma ForkRebuilt<V>(n: Node<V>)
    requires n.Branch? && n.bitmap == 3 && |n.children| == Popcount(3) == 2 && n.children[1].Branch?
    ensures BranchRebuild(n, 0, None) == Some(Branch(2, [n.children[1]]))
  {
    PositionIsCount(3, 0);
    assert Position(3, 0) == 0;
    assert 3 & !Mask(0) == 2;
    assert !IsLeaf(n.children[1]);
    assert RemoveAt(n.children, 0) == [n.children[1]];
  }

  /** At the root, a key whose bit is clear in a branch of fewer than 16 children is spliced in at its position. */
  lemma RootSplice<V>(n: Node<V>, key: Key, value: V)
    requires n.Branch? && RootWF(Some(n)) && !Bit(n.bitmap, KeyFrag(key, 0)) && |n.children| < MAX_BRANCH_SIZE
    ensures Position(n.bitmap, KeyFrag(key, 0)) <= |n.children|
    ensures Planted(Some(n), key, value)
         == Branch(n.bitmap | Mask(KeyFrag(key, 0)), InsertAt(n.children, Position(n.bitmap, KeyFrag(key, 0)), Leaf(HashOf(key), key, value)))
  {
    var h := HashOf(key);
    var f := Frag(h, 0);
    UnderRoot(n, h);
    assert InsertPre(n, 0, h, key);
    assert Popcount(n.bitmap) == |n.children|;
    MaskTest(n.bitmap, f);
    PositionAtMost(n.bitmap, f);
    assert Planted(Some(n), key, value) == BranchInsert(n, 0, h, key, value);
  }

  /** Keys whose fragments at depth 0 are distinct and clear in `b`. */
  ghost predicate FreshFrags(b: bv32, ks: seq<Key>) {
    (forall i :: 0 <= i < |ks| ==> !Bit(b, KeyFrag(ks[i], 0)))
    && (forall i, j :: 0 <= i < j < |ks| ==> KeyFrag(ks[i], 0) != KeyFrag(ks[j], 0))
  }

  /** Keys that a root branch takes by splicing alone: fresh fragments and room for all. */
  ghost predicate Spliceable<V>(n: Node<V>, ks: seq<Key>) {
    n.Branch? && RootWF(Some(n)) && |n.children| + |ks| <= MAX_BRANCH_SIZE && FreshFrags(n.bitmap, ks)
  }

  /** After the first key's bit is set, the other keys' fragments are still fresh. */
  lemma RestClear(b: bv32, ks: seq<Key>)
    requires ks != [] && FreshFrags(b, ks)
    ensures !Bit(b, KeyFrag(ks[0], 0))
    ensures FreshFrags(b | Mask(KeyFrag(ks[0], 0)), ks[1..])
  {
    RestBits(b, ks);
    RestDistinct(ks);
  }

  /** The bits of the other keys stay clear when the first key's bit is set. */
  lemma RestBits(b: bv32, ks: seq<Key>)
    requires ks != [] && forall i :: 0 <= i < |ks| ==> KeyFrag(ks[i], 0) != KeyFrag(ks[0], 0) || i == 0
    requires forall i :: 0 <= i < |ks| ==> !Bit(b, KeyFrag(ks[i], 0))
    ensures forall i :: 0 <= i < |ks[1..]| ==> !Bit(b | Mask(KeyFrag(ks[0], 0)), KeyFrag(ks[1..][i], 0))
  {
    var f := KeyFrag(ks[0], 0);
    forall i | 0 <= i < |ks[1..]|
      ensures !Bit(b | Mask(f), KeyFrag(ks[1..][i], 0))
    {
      assert ks[1..][i] == ks[i + 1];
      SetBit(b, f, KeyFrag(ks[i + 1], 0));
    }
  }

  /** The other keys' fragments stay distinct. */
  lemma RestDistinct(ks: seq<Key>)
    requires ks != [] && forall i, j :: 0 <= i < j < |ks| ==> KeyFrag(ks[i], 0) != KeyFrag(ks[j], 0)
    ensures forall i, j :: 0 <= i < j < |ks[1..]| ==> KeyFrag(ks[1..][i], 0) != KeyFrag(ks[1..][j], 0)
  {
    forall i, j | 0 <= i < j < |ks[1..]|
      ensures KeyFrag(ks[1..][i], 0) != KeyFrag(ks[1..][j], 0)
    {
      assert ks[1..][i] == ks[i + 1] && ks[1..][j] == ks[j + 1];
    }
  }

  /** Setting a key whose bit is clear in a root branch with room gives a branch of one more child, with that bit set. */
  lemma SpliceStep<V>(n: Node<V>, key: Key, value: V) returns (m: Node<V>)
    requires n.Branch? && RootWF(Some(n)) && !Bit(n.bitmap, KeyFrag(key, 0)) && |n.children| < MAX_BRANCH_SIZE
    ensures m == Planted(Some(n), key, value) && m.Branch? && RootWF(Some(m))
    ensures m.bitmap == n.bitmap | Mask(KeyFrag(key, 0)) && |m.children| == |n.children| + 1
  {
    RootSplice(n, key, value);
    PlantedCorrect(Some(n), key, value);
    m := Planted(Some(n), key, value);
  }

  /**
   * Keys whose fragments at depth 0 are distinct and clear in a root branch
   * are spliced in one after another: the branch gains one child per key.
   */
  lemma {:induction false} SpliceRun<V>(n: Node<V>, ks: seq<Key>, value: V)
    requires Spliceable(n, ks)
    ensures var r := SetAll(Some(n), ks, value);
      r.Some? && r.value.Branch? && |r.value.children| == |n.children| + |ks|
    decreases |ks|
  {
    if ks != [] {
      RestClear(n.bitmap, ks);
      var m := SpliceStep(n, ks[0], value);
      SpliceRun(m, ks[1..], value);
      assert SetAll(Some(n), ks, value) == SetAll(Some(m), ks[1..], value);
    }
  }

  /** "B" to "I": hashes 66 to 73, fragments 2 to 9 at depth 0. */
  const Letters: seq<Key> := [[66], [67], [68], [69], [70], [71], [72], [73]]

  /** A one-letter key of a character from "@" to "_" hashes to the character, and its fragment is the character less 64. */
  lemma LetterFrag(c: bv8)
    requires 64 <= c < 96
    ensures HashOf([c]) == c as bv32 && KeyFrag([c], 0) == c as bv32 - 64
  {
    assert [c][0] == c && [c][1..] == [];
    assert HashOf([c]) == HashFrom(Step(0, c), []) == Step(0, c);
    assert Step(0, c) == c as bv32;
    assert Shift(0) == 0;
  }

  /** The letters' fragments are 2 to 9, in order. */
  lemma LetterFrags()
    ensures forall i :: 0 <= i < |Letters| ==> KeyFrag(Letters[i], 0) as int == i + 2
  {
    forall i | 0 <= i < |Letters|
      ensures KeyFrag(Letters[i], 0) as int == i + 2
    {
      if i == 0 { LetterFrag(66); } else if i == 1 { LetterFrag(67); }
      else if i == 2 { LetterFrag(68); } else if i == 3 { LetterFrag(69); }
      else if i == 4 { LetterFrag(70); } else if i == 5 { LetterFrag(71); }
      else if i == 6 { LetterFrag(72); } else { LetterFrag(73); }
    }
  }

  /** Fragments from 2 upwards are clear in the bitmap 2. */
  lemma AboveOne(f: bv32)
    requires 2 <= f < 32
    ensures !Bit(2, f)
  {
  }

  /** The letters' fragments, and those of the first seven, are distinct and clear in the bitmap 2 of the cut root. */
  lemma LettersFresh()
    ensures FreshFrags(2, Letters) && FreshFrags(2, Letters[..7])
  {
    LetterFrags();
    forall i | 0 <= i < |Letters|
      ensures !Bit(2, KeyFrag(Letters[i], 0))
    {
      AboveOne(KeyFrag(Letters[i], 0));
    }
    assert forall i :: 0 <= i < 7 ==> Letters[..7][i] == Letters[i];
  }

  /**
   * Set "@", "A" and "a", remove "@", then set "B" to "H": the root is the
   * branch that remove_child left with RemoveChildSlots(2) slots, and it now
   * holds that many children, so the C's insert_child of "I" at any position
   * writes past the buffer. The model's branch takes "I" as a ninth child.
   */
  lemma NinthChildOverflows<V>(value: V)
    ensures var cut := Emptied(value);
      var r := SetAll(cut, Letters[..7], value);
      && cut == Some(Branch(2, [Fork(value).children[1]]))
      && r.Some? && r.value.Branch? && |r.value.children| == RemoveChildSlots(2)
      && (forall p :: 0 <= p <= |r.value.children| ==>
            InsertChildAsWritten(r.value.children, Leaf(HashOf(Letters[7]), Letters[7], value), p, |r.value.children|).None?)
      && var all := SetAll(cut, Letters, value);
         all.Some? && all.value.Branch? && |all.value.children| == 9
  {
    ForkBuilt(value);
    ForkCut(value);
    var n := Branch(2, [Fork(value).children[1]]);
    assert Emptied(value) == Some(n);
    LettersFresh();
    SpliceRun(n, Letters[..7], value);
    SpliceRun(n, Letters, value);
  }

  /** After the removal the map holds "A" and "a". */
  lemma EmptiedContents<V>(value: V)
    ensures RootContents(Emptied(value)) == map[UpperA := value, LowerA := value]
  {
    SetAllContents(None, Forked, value);
    var built := RootContents(SetAll(None, Forked, value));
    assert KeySet(Forked) == {At, UpperA, LowerA};
    assert built.Keys == {At, UpperA, LowerA};
    assert At != UpperA && At != LowerA;
  }

  /** What the map then holds: "A", "a" and the eight letters, each mapped to `value`. */
  lemma NinthChildContents<V>(value: V)
    ensures var all := SetAll(Emptied(value), Letters, value);
      RootContents(all).Keys == {UpperA, LowerA} + KeySet(Letters)
      && forall k :: k in RootContents(all) ==> RootContents(all)[k] == value
  {
    EmptiedContents(value);
    SetAllContents(Emptied(value), Letters, value);
  }
}
