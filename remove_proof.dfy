/**
 * Removal is correct: removing a key from a well-formed node gives either
 * NULL, when the key was the node's only entry, or a well-formed node that
 * holds the other entries; and a node without the key comes back unchanged.
 * The collapse rules of hamt.c:559-616 and hamt.c:697-702 are stated as the
 * shapes they produce.
 */
module RemoveProofs {
  import opened Bits
  import opened Hash
  import opened Nodes
  import opened Children
  import opened Compression
  import opened Insertion
  import opened InsertProofs
  import opened Removal

  /**
   * `r` is what removing `key` from `n` at `depth` should give: NULL exactly
   * when nothing but `key` was there, and otherwise a well-formed node with
   * all the other entries.
   */
  ghost predicate Removed<V>(r: Option<Node<V>>, n: Node<V>, depth: nat, key: Key) {
    match r
    case None => Contents(n) - {key} == map[]
    case Some(m) => WF(m, depth) && Contents(m) == Contents(n) - {key}
  }

  // ---------------------------------------------------------------------------
  // Maps without a key
  // ---------------------------------------------------------------------------

  lemma MinusAbsent<V>(m: map<Key, V>, k: Key)
    requires k !in m
    ensures m - {k} == m
  {
  }

  /** Cutting a key out of a union where the right operand does not hold it. */
  lemma MinusLeft<V>(a: map<Key, V>, b: map<Key, V>, k: Key)
    requires k !in b
    ensures (a + b) - {k} == (a - {k}) + b
  {
  }

  /** Cutting a key out of a union where the left operand does not hold it. */
  lemma MinusRight<V>(a: map<Key, V>, b: map<Key, V>, k: Key)
    requires k !in a
    ensures (a + b) - {k} == a + (b - {k})
  {
  }

  lemma PlusEmpty<V>(a: map<Key, V>, e: map<Key, V>)
    requires e == map[]
    ensures a + e == a
  {
  }

  // ---------------------------------------------------------------------------
  // Unions without a key
  // ---------------------------------------------------------------------------

  /**
   * Cutting out the node `p` that holds nothing but `key`, where no other
   * node holds `key`, removes `key` from the union.
   */
  lemma {:induction false} UnionCut<V>(cs: seq<Node<V>>, p: nat, key: Key)
    requires p < |cs| && Contents(cs[p]) - {key} == map[]
    requires forall j :: 0 <= j < |cs| && j != p ==> key !in Contents(cs[j])
    ensures Union(RemoveAt(cs, p)) == Union(cs) - {key}
    decreases |cs|
  {
    var last := |cs| - 1;
    var init := cs[..last];
    var rest := RemoveAt(cs, p);
    assert Union(cs) == Union(init) + Contents(cs[last]);
    if p == last {
      assert rest == init;
      UnionOut(init, key);
      MinusRight(Union(init), Contents(cs[p]), key);
      PlusEmpty(Union(init), Contents(cs[p]) - {key});
    } else {
      assert rest[..|rest| - 1] == RemoveAt(init, p);
      assert rest[|rest| - 1] == cs[last];
      assert Union(rest) == Union(RemoveAt(init, p)) + Contents(cs[last]);
      UnionCut(init, p, key);
      MinusLeft(Union(init), Contents(cs[last]), key);
    }
  }

  /**
   * Replacing node `p` by one holding its entries but `key`, where no other
   * node holds `key`, removes `key` from the union.
   */
  lemma {:induction false} UnionReplaceCut<V>(cs: seq<Node<V>>, p: nat, c2: Node<V>, key: Key)
    requires p < |cs| && Contents(c2) == Contents(cs[p]) - {key}
    requires forall j :: 0 <= j < |cs| && j != p ==> key !in Contents(cs[j])
    ensures Union(cs[p := c2]) == Union(cs) - {key}
    decreases |cs|
  {
    var cs2 := cs[p := c2];
    var last := |cs| - 1;
    var init := cs[..last];
    if p == last {
      assert cs2[..last] == init;
      UnionOut(init, key);
      MinusRight(Union(init), Contents(cs[p]), key);
    } else {
      assert cs2[..last] == init[p := c2];
      UnionReplaceCut(init, p, c2, key);
      MinusLeft(Union(init), Contents(cs[last]), key);
    }
  }

  // ---------------------------------------------------------------------------
  // Leaves and collisions (hamt.c:551-570, 627-634)
  // ---------------------------------------------------------------------------

  lemma LeafRemoveCorrect<V>(n: Node<V>, depth: nat, hash: bv32, key: Key)
    requires n.Leaf? && RemovePre(n, depth, hash, key)
    ensures Removed(LeafRemove(n, depth, hash, key), n, depth, key)
  {
  }

  /** A collision that loses one of more than two members is still a collision. */
  lemma CutMembersWF<V>(n: Node<V>, depth: nat, i: nat)
    requires n.Collision? && WF(n, depth) && i < |n.members| && 2 < |n.members|
    ensures WF(Collision(n.hash, RemoveAt(n.members, i)), depth)
  {
    var ms := n.members;
    var rest := RemoveAt(ms, i);
    forall j, k | 0 <= j < k < |rest|
      ensures rest[j].key != rest[k].key
    {
      var jj := if j < i then j else j + 1;
      var kk := if k < i then k else k + 1;
      assert rest[j] == ms[jj] && rest[k] == ms[kk] && jj < kk;
    }
  }

  /** Cutting out the member that holds the key removes exactly that entry. */
  lemma CollisionCut<V>(n: Node<V>, depth: nat, i: nat, key: Key)
    requires n.Collision? && WF(n, depth) && Scan(n.members, key) == Some(i)
    ensures Union(RemoveAt(n.members, i)) == Contents(n) - {key}
  {
    var ms := n.members;
    forall j | 0 <= j < |ms| && j != i
      ensures key !in Contents(ms[j])
    {
      if j < i {
        assert ms[j].key != ms[i].key;
      } else {
        assert ms[i].key != ms[j].key;
      }
    }
    UnionCut(ms, i, key);
  }

  lemma CollisionRemoveCorrect<V>(n: Node<V>, depth: nat, hash: bv32, key: Key)
    requires n.Collision? && RemovePre(n, depth, hash, key)
    ensures Removed(CollisionRemove(n, depth, hash, key), n, depth, key)
  {
    var ms := n.members;
    CollisionRoute(n, depth, key);
    if n.hash == hash {
      match Scan(ms, key)
      case Some(i) =>
        CollisionCut(n, depth, i, key);
        var rest := RemoveAt(ms, i);
        if |ms| - 1 > 1 {
          CutMembersWF(n, depth, i);
        } else {
          assert rest == [rest[0]];
          UnionOne(rest[0]);
        }
      case None =>
        MinusAbsent(Contents(n), key);
    } else {
      if key in Contents(n) {
        LeafHashes(n, depth, key);
      }
      MinusAbsent(Contents(n), key);
    }
  }

  // ---------------------------------------------------------------------------
  // Branches (hamt.c:576-620)
  // ---------------------------------------------------------------------------

  /** A node that loses an entry stays routed where it was. */
  lemma RoutedSub<V>(c2: Node<V>, c: Node<V>, d: nat, b: bv32, p: nat, key: Key)
    requires d <= MAX_DEPTH && Routed(c, d, b, p) && Contents(c2) == Contents(c) - {key}
    ensures Routed(c2, d, b, p)
  {
  }

  /**
   * Clearing the set bit `f` moves a child routed to `i`, other than the
   * child of `f`, down one place exactly when it comes after `f`'s.
   */
  lemma RoutedUnshift<V>(c: Node<V>, d: nat, b: bv32, f: bv32, i: nat)
    requires d <= MAX_DEPTH && f < 32 && Bit(b, f) && Routed(c, d, b, i) && i != Position(b, f)
    ensures Routed(c, d, b & !Mask(f), if Position(b, f) < i then i - 1 else i)
  {
    forall k | k in Contents(c)
      ensures Bit(b & !Mask(f), KeyFrag(k, d))
      ensures Position(b & !Mask(f), KeyFrag(k, d)) == if Position(b, f) < i then i - 1 else i
    {
      var g := KeyFrag(k, d);
      ClearBit(b, f, g);
      ClearPositions(b, f, g);
      if f < g {
        PositionOrder(b, f, g);
      } else if g < f {
        PositionOrder(b, g, f);
      }
    }
  }

  /** Child `i` of the cut branch is routed to `i` by the bitmap without `f`. */
  lemma CutRouted<V>(b: bv32, cs: seq<Node<V>>, d: nat, f: bv32, i: nat)
    requires BranchRouting(b, cs, d) && f < 32 && Bit(b, f) && Position(b, f) < |cs|
    requires i < |cs| - 1
    ensures Routed(RemoveAt(cs, Position(b, f))[i], d, b & !Mask(f), i)
  {
    var p := Position(b, f);
    if i < p {
      RoutedUnshift(cs[i], d, b, f, i);
    } else {
      RoutedUnshift(cs[i + 1], d, b, f, i + 1);
    }
  }

  /** Every child of the cut branch is routed to its index by the bitmap without `f`. */
  lemma CutAllRouted<V>(b: bv32, cs: seq<Node<V>>, d: nat, f: bv32)
    requires BranchRouting(b, cs, d) && f < 32 && Bit(b, f) && Position(b, f) < |cs|
    ensures forall i :: 0 <= i < |cs| - 1 ==> Routed(RemoveAt(cs, Position(b, f))[i], d, b & !Mask(f), i)
  {
    forall i | 0 <= i < |cs| - 1
      ensures Routed(RemoveAt(cs, Position(b, f))[i], d, b & !Mask(f), i)
    {
      CutRouted(b, cs, d, f, i);
    }
  }

  /** Cutting a node out of well-formed nodes leaves well-formed nodes. */
  lemma CutKeepsWF<V>(cs: seq<Node<V>>, p: nat, d: nat)
    requires p < |cs| && forall j :: 0 <= j < |cs| ==> WF(cs[j], d)
    ensures forall i :: 0 <= i < |cs| - 1 ==> WF(RemoveAt(cs, p)[i], d)
  {
  }

  /** A branch whose emptied child is cut out, with some bit left, is well formed. */
  lemma CutWF<V>(b: bv32, cs: seq<Node<V>>, d: nat, f: bv32)
    requires BranchRouting(b, cs, d) && |cs| <= MAX_BRANCH_SIZE
    requires forall j :: 0 <= j < |cs| ==> WF(cs[j], d + 1)
    requires f < 32 && Bit(b, f) && b & !Mask(f) != 0
    ensures Position(b, f) < |cs|
    ensures WF(Branch(b & !Mask(f), RemoveAt(cs, Position(b, f))), d)
  {
    PositionBelowPopcount(b, f);
    ClearPositions(b, f, f);
    PopcountZero(b & !Mask(f));
    CutKeepsWF(cs, Position(b, f), d + 1);
    CutAllRouted(b, cs, d, f);
    BranchWF(b & !Mask(f), RemoveAt(cs, Position(b, f)), d);
  }

  /** A key whose bit is clear is not in the branch, which stays as it is. */
  lemma BranchAbsentCorrect<V>(n: Node<V>, depth: nat, hash: bv32, key: Key)
    requires n.Branch? && RemovePre(n, depth, hash, key) && !Bit(n.bitmap, Frag(hash, depth))
    ensures Removed(BranchRemove(n, depth, hash, key), n, depth, key)
  {
    MaskTest(n.bitmap, Frag(hash, depth));
    BranchRoute(n, depth, key);
    MinusAbsent(Contents(n), key);
  }

  lemma EmptiedShape<V>(n: Node<V>, f: bv32)
    requires n.Branch? && f < 32 && Bit(n.bitmap, f) && |n.children| == Popcount(n.bitmap)
    requires n.bitmap & !Mask(f) == 0
    ensures BranchRebuild(n, f, None) == None
  {
    PositionBelowPopcount(n.bitmap, f);
  }

  lemma SiblingShape<V>(n: Node<V>, f: bv32)
    requires n.Branch? && f < 32 && Bit(n.bitmap, f) && |n.children| == Popcount(n.bitmap) == 2
    requires Position(n.bitmap, f) < 2
    requires n.bitmap & !Mask(f) != 0 && IsLeaf(n.children[1 - Position(n.bitmap, f)])
    ensures BranchRebuild(n, f, None) == Some(n.children[1 - Position(n.bitmap, f)])
  {
  }

  lemma CutShape<V>(n: Node<V>, f: bv32)
    requires n.Branch? && f < 32 && Bit(n.bitmap, f) && |n.children| == Popcount(n.bitmap)
    requires Position(n.bitmap, f) < |n.children| && n.bitmap & !Mask(f) != 0
    requires !(Popcount(n.bitmap) == 2 && IsLeaf(n.children[1 - Position(n.bitmap, f)]))
    ensures BranchRebuild(n, f, None) == Some(Branch(n.bitmap & !Mask(f), RemoveAt(n.children, Position(n.bitmap, f))))
  {
  }

  /** A branch whose child for the key held nothing else and was its only child empties. */
  lemma BranchEmptied<V>(n: Node<V>, depth: nat, f: bv32, key: Key)
    requires n.Branch? && WF(n, depth) && KeyFrag(key, depth) == f && Bit(n.bitmap, f)
    requires Position(n.bitmap, f) < |n.children|
    requires Contents(n.children[Position(n.bitmap, f)]) - {key} == map[]
    requires n.bitmap & !Mask(f) == 0
    ensures Removed(None, n, depth, key)
  {
    var cs, pos := n.children, Position(n.bitmap, f);
    KeyOnlyAt(n, depth, pos, key);
    UnionCut(cs, pos, key);
    ClearPositions(n.bitmap, f, f);
    PopcountZero(n.bitmap & !Mask(f));
    assert RemoveAt(cs, pos) == [];
  }

  /** The leaf sibling of an emptied child of a two-child branch holds the other entries (hamt.c:600-603). */
  lemma BranchSibling<V>(n: Node<V>, depth: nat, f: bv32, key: Key)
    requires n.Branch? && WF(n, depth) && KeyFrag(key, depth) == f && Bit(n.bitmap, f)
    requires Position(n.bitmap, f) < |n.children| == 2
    requires Contents(n.children[Position(n.bitmap, f)]) - {key} == map[]
    requires IsLeaf(n.children[1 - Position(n.bitmap, f)])
    ensures Removed(Some(n.children[1 - Position(n.bitmap, f)]), n, depth, key)
  {
    var cs, pos := n.children, Position(n.bitmap, f);
    assert Union(RemoveAt(cs, pos)) == Contents(n) - {key} by {
      KeyOnlyAt(n, depth, pos, key);
      UnionCut(cs, pos, key);
    }
    assert RemoveAt(cs, pos) == [cs[1 - pos]];
    UnionOne(cs[1 - pos]);
    LeafAnyDepth(cs[1 - pos], depth + 1, depth);
  }

  /** Cutting out an emptied child, with some bit left, leaves the other entries (hamt.c:606-608). */
  lemma BranchCut<V>(n: Node<V>, depth: nat, f: bv32, key: Key)
    requires n.Branch? && WF(n, depth) && KeyFrag(key, depth) == f && Bit(n.bitmap, f)
    requires Position(n.bitmap, f) < |n.children|
    requires Contents(n.children[Position(n.bitmap, f)]) - {key} == map[]
    requires n.bitmap & !Mask(f) != 0
    ensures Removed(Some(Branch(n.bitmap & !Mask(f), RemoveAt(n.children, Position(n.bitmap, f)))), n, depth, key)
  {
    var r := Branch(n.bitmap & !Mask(f), RemoveAt(n.children, Position(n.bitmap, f)));
    assert Contents(r) == Contents(n) - {key} by {
      KeyOnlyAt(n, depth, Position(n.bitmap, f), key);
      UnionCut(n.children, Position(n.bitmap, f), key);
    }
    assert WF(r, depth) by {
      CutWF(n.bitmap, n.children, depth, f);
    }
  }

  /** A child that held nothing but the key clears its bit (hamt.c:595-608). */
  lemma BranchGoneCorrect<V>(n: Node<V>, depth: nat, f: bv32, key: Key)
    requires n.Branch? && WF(n, depth) && KeyFrag(key, depth) == f && Bit(n.bitmap, f)
    requires Position(n.bitmap, f) < |n.children|
    requires Contents(n.children[Position(n.bitmap, f)]) - {key} == map[]
    ensures Removed(BranchRebuild(n, f, None), n, depth, key)
  {
    var b, cs, pos := n.bitmap, n.children, Position(n.bitmap, f);
    if b & !Mask(f) == 0 {
      GoneEmptied(n, depth, f, key);
    } else if Popcount(b) == 2 && IsLeaf(cs[1 - pos]) {
      GoneSibling(n, depth, f, key);
    } else {
      GoneCut(n, depth, f, key);
    }
  }

  lemma GoneEmptied<V>(n: Node<V>, depth: nat, f: bv32, key: Key)
    requires n.Branch? && WF(n, depth) && KeyFrag(key, depth) == f && Bit(n.bitmap, f)
    requires Position(n.bitmap, f) < |n.children|
    requires Contents(n.children[Position(n.bitmap, f)]) - {key} == map[]
    requires n.bitmap & !Mask(f) == 0
    ensures Removed(BranchRebuild(n, f, None), n, depth, key)
  {
    EmptiedShape(n, f);
    BranchEmptied(n, depth, f, key);
  }

  lemma GoneSibling<V>(n: Node<V>, depth: nat, f: bv32, key: Key)
    requires n.Branch? && WF(n, depth) && KeyFrag(key, depth) == f && Bit(n.bitmap, f)
    requires Position(n.bitmap, f) < |n.children| == 2
    requires Contents(n.children[Position(n.bitmap, f)]) - {key} == map[]
    requires n.bitmap & !Mask(f) != 0 && IsLeaf(n.children[1 - Position(n.bitmap, f)])
    ensures Removed(BranchRebuild(n, f, None), n, depth, key)
  {
    SiblingShape(n, f);
    BranchSibling(n, depth, f, key);
  }

  lemma GoneCut<V>(n: Node<V>, depth: nat, f: bv32, key: Key)
    requires n.Branch? && WF(n, depth) && KeyFrag(key, depth) == f && Bit(n.bitmap, f)
    requires Position(n.bitmap, f) < |n.children| && n.bitmap & !Mask(f) != 0
    requires !(Popcount(n.bitmap) == 2 && IsLeaf(n.children[1 - Position(n.bitmap, f)]))
    requires Contents(n.children[Position(n.bitmap, f)]) - {key} == map[]
    ensures Removed(BranchRebuild(n, f, None), n, depth, key)
  {
    CutShape(n, f);
    BranchCut(n, depth, f, key);
  }

  /** The sole child of a branch, now a leaf or collision, holds the other entries (hamt.c:614-616). */
  lemma BranchLift<V>(n: Node<V>, depth: nat, f: bv32, key: Key, c2: Node<V>)
    requires n.Branch? && WF(n, depth) && KeyFrag(key, depth) == f && Bit(n.bitmap, f)
    requires Position(n.bitmap, f) < |n.children| == 1
    requires IsLeaf(c2) && WF(c2, depth + 1) && Contents(c2) == Contents(n.children[Position(n.bitmap, f)]) - {key}
    ensures Removed(Some(c2), n, depth, key)
  {
    var cs := n.children;
    assert cs == [cs[0]];
    UnionOne(cs[0]);
    LeafAnyDepth(c2, depth + 1, depth);
  }

  /** Replacing the child that lost the key leaves the other entries (hamt.c:618-619). */
  lemma BranchReplaceCut<V>(n: Node<V>, depth: nat, f: bv32, key: Key, c2: Node<V>)
    requires n.Branch? && WF(n, depth) && KeyFrag(key, depth) == f && Bit(n.bitmap, f)
    requires Position(n.bitmap, f) < |n.children|
    requires WF(c2, depth + 1) && Contents(c2) == Contents(n.children[Position(n.bitmap, f)]) - {key}
    ensures Removed(Some(Branch(n.bitmap, n.children[Position(n.bitmap, f) := c2])), n, depth, key)
  {
    var b, cs := n.bitmap, n.children;
    var pos := Position(b, f);
    KeyOnlyAt(n, depth, pos, key);
    UnionReplaceCut(cs, pos, c2, key);
    RoutedSub(c2, cs[pos], depth, b, pos, key);
    ReplaceWF(n, depth, pos, c2);
  }

  /** A child that lost the key replaces the old one, or lifts a sole leaf (hamt.c:610-619). */
  lemma BranchChangedCorrect<V>(n: Node<V>, depth: nat, f: bv32, key: Key, c2: Node<V>)
    requires n.Branch? && WF(n, depth) && KeyFrag(key, depth) == f && Bit(n.bitmap, f)
    requires Position(n.bitmap, f) < |n.children| && c2 != n.children[Position(n.bitmap, f)]
    requires WF(c2, depth + 1) && Contents(c2) == Contents(n.children[Position(n.bitmap, f)]) - {key}
    ensures Removed(BranchRebuild(n, f, Some(c2)), n, depth, key)
  {
    if Popcount(n.bitmap) == 1 && IsLeaf(c2) {
      BranchLift(n, depth, f, key, c2);
    } else {
      BranchReplaceCut(n, depth, f, key, c2);
    }
  }

  /** Whatever the child became, the branch is rebuilt correctly (hamt.c:587-619). */
  lemma BranchRebuildCorrect<V>(n: Node<V>, depth: nat, f: bv32, key: Key, next: Option<Node<V>>)
    requires n.Branch? && WF(n, depth) && KeyFrag(key, depth) == f && Bit(n.bitmap, f)
    requires Position(n.bitmap, f) < |n.children|
    requires Removed(next, n.children[Position(n.bitmap, f)], depth + 1, key)
    ensures Removed(BranchRebuild(n, f, next), n, depth, key)
  {
    var child := n.children[Position(n.bitmap, f)];
    if next == Some(child) {
      assert key !in Contents(child) by {
        assert Contents(child) == Contents(child) - {key};
      }
      BranchRoute(n, depth, key);
      MinusAbsent(Contents(n), key);
    } else if next.None? {
      BranchGoneCorrect(n, depth, f, key);
    } else {
      BranchChangedCorrect(n, depth, f, key, next.value);
    }
  }

  // ---------------------------------------------------------------------------
  // Array nodes (hamt.c:643-707)
  // ---------------------------------------------------------------------------

  /** A key is found in the array node with slot `f` cut where the old one has it, except `key`. */
  lemma SlotCutGet<V>(n: Node<V>, d: nat, c: nat, ts: seq<Option<Node<V>>>, f: bv32, x: Option<Node<V>>, key: Key, k: Key)
    requires n.ArrayNode? && SlotRouting(n.slots, d) && SlotSet(ts, n.slots, f, x) && SlotRouting(ts, d)
    requires KeyFrag(key, d) == f && SlotContents(ts, f) == SlotContents(n.slots, f) - {key}
    ensures Get(Contents(ArrayNode(c, ts)), k) == Get(Contents(n) - {key}, k)
  {
    ArrayRoute(n, d, k);
    ArrayRoute(ArrayNode(c, ts), d, k);
  }

  /** Slot `f` losing `key`, and no other change, removes `key` from the array node. */
  lemma SlotCut<V>(n: Node<V>, d: nat, c: nat, ts: seq<Option<Node<V>>>, f: bv32, x: Option<Node<V>>, key: Key)
    requires n.ArrayNode? && SlotRouting(n.slots, d) && SlotSet(ts, n.slots, f, x) && SlotRouting(ts, d)
    requires KeyFrag(key, d) == f && SlotContents(ts, f) == SlotContents(n.slots, f) - {key}
    ensures Contents(ArrayNode(c, ts)) == Contents(n) - {key}
  {
    forall k
      ensures Get(Contents(ArrayNode(c, ts)), k) == Get(Contents(n) - {key}, k)
    {
      SlotCutGet(n, d, c, ts, f, x, key, k);
    }
    MapExt(Contents(ArrayNode(c, ts)), Contents(n) - {key});
  }

  /** Clearing the emptied slot of an array node that keeps more than 8 children (hamt.c:700-702). */
  lemma ArrayClear<V>(n: Node<V>, depth: nat, f: bv32, key: Key)
    requires n.ArrayNode? && WF(n, depth) && KeyFrag(key, depth) == f && n.slots[f].Some?
    requires Contents(n.slots[f].value) - {key} == map[] && n.count - 1 > MIN_ARRAY_NODE_SIZE
    ensures Removed(Some(ArrayNode(n.count - 1, n.slots[f := None])), n, depth, key)
  {
    var ts := n.slots[f := None];
    Cleared(n, depth, f, key, ts);
    ArrayWF(n.count - 1, ts, depth);
    SlotCut(n, depth, n.count - 1, ts, f, None, key);
  }

  /** The slots of an array node whose slot `f` held nothing but `key`, with `f` emptied. */
  lemma Cleared<V>(n: Node<V>, depth: nat, f: bv32, key: Key, ts: seq<Option<Node<V>>>)
    requires n.ArrayNode? && WF(n, depth) && f < 32 && n.slots[f].Some?
    requires Contents(n.slots[f].value) - {key} == map[] && ts == n.slots[f := None]
    ensures SlotSet(ts, n.slots, f, None) && SlotRouting(ts, depth)
    ensures forall g: bv32 :: g < 32 && ts[g].Some? ==> WF(ts[g].value, depth + 1)
    ensures SomeCount(ts, 32) + 1 == n.count
    ensures SlotContents(ts, f) == SlotContents(n.slots, f) - {key}
  {
    SlotSetIs(n.slots, f, None);
    SomeCountChange(n.slots, ts, f, 32);
  }

  /** Replacing the child that lost the key (hamt.c:704-705). */
  lemma ArrayReplaceCut<V>(n: Node<V>, depth: nat, f: bv32, key: Key, c2: Node<V>)
    requires n.ArrayNode? && WF(n, depth) && KeyFrag(key, depth) == f && n.slots[f].Some?
    requires WF(c2, depth + 1) && Contents(c2) == Contents(n.slots[f].value) - {key}
    ensures Removed(Some(ArrayNode(n.count, n.slots[f := Some(c2)])), n, depth, key)
  {
    var ts := n.slots[f := Some(c2)];
    SlotSetIs(n.slots, f, Some(c2));
    assert OnFrag(c2, depth, f);
    SlotSetWF(n, depth, ts, f, c2);
    SlotCut(n, depth, n.count, ts, f, Some(c2), key);
  }

  /** `cs` under bitmap `b` fills exactly the slots `ts`: the branch form of those slots. */
  ghost predicate Packs<V>(b: bv32, cs: seq<Node<V>>, ts: seq<Option<Node<V>>>) {
    |ts| == 32 && |cs| == Popcount(b)
    && forall g: bv32 :: g < 32 ==> BitSlot(b, cs, g) == ts[g]
  }

  /** Compression packs the slots with `idx` emptied. */
  lemma CompressPacks<V>(ss: seq<Option<Node<V>>>, ts: seq<Option<Node<V>>>, idx: bv32)
    requires SlotSet(ts, ss, idx, None)
    ensures Packs(CompressBits(ss, idx), CompressChildren(ss, idx), ts)
  {
    GatherSlots(ss, idx);
  }

  /** Packed slots count as many children as the branch has. */
  lemma PacksCount<V>(b: bv32, cs: seq<Node<V>>, ts: seq<Option<Node<V>>>)
    requires Packs(b, cs, ts)
    ensures SomeCount(ts, 32) == |cs|
  {
    forall g: bv32 | g < 32
      ensures ts[g].Some? <==> Bit(b, g)
    {
      assert BitSlot(b, cs, g) == ts[g];
    }
    SlotsCount(ts, b, 32);
    assert Width() == 32;
  }

  /** Child `i` of the packed branch is slot `g` of the slots, for the `i`-th set bit `g`. */
  lemma PackedChild<V>(b: bv32, cs: seq<Node<V>>, ts: seq<Option<Node<V>>>, d: nat, i: nat)
    requires Packs(b, cs, ts) && SlotRouting(ts, d)
    requires forall g: bv32 :: g < 32 && ts[g].Some? ==> WF(ts[g].value, d + 1)
    requires i < |cs|
    ensures WF(cs[i], d + 1) && Routed(cs[i], d, b, i)
  {
    var g := CountedBit(b, i);
    BitSlotSet(b, cs, g);
    assert ts[g] == Some(cs[i]);
    PositionIsCount(b, g);
    RoutedByFrag(cs[i], d, b, g, i);
  }

  /** The branch form of well-formed slots, with 1 to 16 of them filled, is well formed. */
  lemma PacksWF<V>(b: bv32, cs: seq<Node<V>>, ts: seq<Option<Node<V>>>, d: nat)
    requires Packs(b, cs, ts) && SlotRouting(ts, d)
    requires forall g: bv32 :: g < 32 && ts[g].Some? ==> WF(ts[g].value, d + 1)
    requires 1 <= SomeCount(ts, 32) <= MAX_BRANCH_SIZE
    ensures WF(Branch(b, cs), d)
  {
    PacksCount(b, cs, ts);
    forall i | 0 <= i < |cs|
      ensures WF(cs[i], d + 1) && Routed(cs[i], d, b, i)
    {
      PackedChild(b, cs, ts, d, i);
    }
    BranchWF(b, cs, d);
  }

  /** A key is found in the branch form where the slots have it. */
  lemma PacksGet<V>(b: bv32, cs: seq<Node<V>>, ts: seq<Option<Node<V>>>, d: nat, c: nat, k: Key)
    requires Packs(b, cs, ts) && SlotRouting(ts, d) && BranchRouting(b, cs, d)
    ensures Get(Contents(Branch(b, cs)), k) == Get(Contents(ArrayNode(c, ts)), k)
  {
    var g := KeyFrag(k, d);
    BranchRoute(Branch(b, cs), d, k);
    ArrayRoute(ArrayNode(c, ts), d, k);
    assert BitSlot(b, cs, g) == ts[g];
    if Bit(b, g) {
      BitSlotSet(b, cs, g);
      PositionIsCount(b, g);
    }
  }

  /** The branch form of the slots holds the entries of the slots. */
  lemma PacksContents<V>(b: bv32, cs: seq<Node<V>>, ts: seq<Option<Node<V>>>, d: nat, c: nat)
    requires Packs(b, cs, ts) && SlotRouting(ts, d) && BranchRouting(b, cs, d)
    ensures Contents(Branch(b, cs)) == Contents(ArrayNode(c, ts))
  {
    forall k
      ensures Get(Contents(Branch(b, cs)), k) == Get(Contents(ArrayNode(c, ts)), k)
    {
      PacksGet(b, cs, ts, d, c, k);
    }
    MapExt(Contents(Branch(b, cs)), Contents(ArrayNode(c, ts)));
  }

  /**
   * Compressing an array node whose emptied slot leaves 8 children gives a
   * well-formed branch of those 8 with the other entries (hamt.c:697-699).
   */
  lemma ArrayCompress<V>(n: Node<V>, depth: nat, f: bv32, key: Key)
    requires n.ArrayNode? && WF(n, depth) && KeyFrag(key, depth) == f && n.slots[f].Some?
    requires Contents(n.slots[f].value) - {key} == map[] && n.count - 1 <= MIN_ARRAY_NODE_SIZE
    ensures |CompressChildren(n.slots, f)| == n.count - 1
    ensures Removed(Some(Branch(CompressBits(n.slots, f), CompressChildren(n.slots, f))), n, depth, key)
  {
    var b, cs := CompressBits(n.slots, f), CompressChildren(n.slots, f);
    var ts := n.slots[f := None];
    Cleared(n, depth, f, key, ts);
    CompressPacks(n.slots, ts, f);
    PacksCount(b, cs, ts);
    PacksWF(b, cs, ts, depth);
    PacksContents(b, cs, ts, depth, n.count - 1);
    SlotCut(n, depth, n.count - 1, ts, f, None, key);
  }

  /** Whatever the child became, the array node is rebuilt correctly (hamt.c:682-706). */
  lemma ArrayNodeRebuildCorrect<V>(n: Node<V>, depth: nat, f: bv32, key: Key, next: Option<Node<V>>)
    requires n.ArrayNode? && WF(n, depth) && KeyFrag(key, depth) == f && n.slots[f].Some?
    requires Removed(next, n.slots[f].value, depth + 1, key)
    ensures Removed(ArrayNodeRebuild(n, f, next), n, depth, key)
  {
    var child := n.slots[f].value;
    if next == Some(child) {
      assert key !in Contents(child) by {
        assert Contents(child) == Contents(child) - {key};
      }
      ArrayRoute(n, depth, key);
      MinusAbsent(Contents(n), key);
    } else if next.None? {
      if n.count - 1 <= MIN_ARRAY_NODE_SIZE {
        ArrayCompress(n, depth, f, key);
      } else {
        ArrayClear(n, depth, f, key);
      }
    } else {
      ArrayReplaceCut(n, depth, f, key, next.value);
    }
  }

  // ---------------------------------------------------------------------------
  // remove_node (hamt.c:530-545)
  // ---------------------------------------------------------------------------

  /**
   * Removal is correct: removing `key` from a well-formed node gives NULL
   * when the key was all it held, and otherwise a well-formed node at the
   * same depth holding every other entry.
   */
  lemma {:induction false} RemoveCorrect<V>(n: Node<V>, depth: nat, hash: bv32, key: Key)
    requires RemovePre(n, depth, hash, key)
    ensures Removed(Remove(n, depth, hash, key), n, depth, key)
    decreases n, 1
  {
    match n
    case Leaf(_, _, _) =>
      LeafRemoveCorrect(n, depth, hash, key);
    case Collision(_, _) =>
      CollisionRemoveCorrect(n, depth, hash, key);
    case Branch(_, _) =>
      BranchRemoveCorrect(n, depth, hash, key);
    case ArrayNode(_, _) =>
      ArrayNodeRemoveCorrect(n, depth, hash, key);
  }

  /** With the key's bit set, the branch rule removes the key from the child at its position. */
  lemma BranchRemoveSet<V>(n: Node<V>, depth: nat, hash: bv32, key: Key) returns (p: nat)
    requires n.Branch? && RemovePre(n, depth, hash, key) && Bit(n.bitmap, Frag(hash, depth))
    ensures p == Position(n.bitmap, Frag(hash, depth)) && p < |n.children|
    ensures RemovePre(n.children[p], depth + 1, hash, key)
    ensures BranchRemove(n, depth, hash, key)
         == BranchRebuild(n, Frag(hash, depth), Remove(n.children[p], depth + 1, hash, key))
  {
    var b, f := n.bitmap, Frag(hash, depth);
    PositionBelowPopcount(b, f);
    p := Position(b, f);
    assert WF(n.children[p], depth + 1);
    MaskTest(b, f);
  }

  /** With the key's bit clear, the branch rule leaves the branch as it is. */
  lemma BranchRemoveClear<V>(n: Node<V>, depth: nat, hash: bv32, key: Key)
    requires n.Branch? && RemovePre(n, depth, hash, key) && !Bit(n.bitmap, Frag(hash, depth))
    ensures BranchRemove(n, depth, hash, key) == Some(n)
  {
    MaskTest(n.bitmap, Frag(hash, depth));
  }

  /** The branch rule is correct, given that removal one level down is. */
  lemma {:induction false} BranchRemoveCorrect<V>(n: Node<V>, depth: nat, hash: bv32, key: Key)
    requires n.Branch? && RemovePre(n, depth, hash, key)
    ensures Removed(BranchRemove(n, depth, hash, key), n, depth, key)
    decreases n, 0
  {
    var f := Frag(hash, depth);
    if Bit(n.bitmap, f) {
      var p := BranchRemoveSet(n, depth, hash, key);
      var child := n.children[p];
      RemoveCorrect(child, depth + 1, hash, key);
      BranchRebuildCorrect(n, depth, f, key, Remove(child, depth + 1, hash, key));
    } else {
      BranchAbsentCorrect(n, depth, hash, key);
    }
  }

  /** The array node rule is correct, given that removal one level down is. */
  lemma {:induction false} ArrayNodeRemoveCorrect<V>(n: Node<V>, depth: nat, hash: bv32, key: Key)
    requires n.ArrayNode? && RemovePre(n, depth, hash, key)
    ensures Removed(ArrayNodeRemove(n, depth, hash, key), n, depth, key)
    decreases n, 0
  {
    var f := Frag(hash, depth);
    if n.slots[f].Some? {
      var child := n.slots[f].value;
      assert WF(child, depth + 1);
      RemoveCorrect(child, depth + 1, hash, key);
      ArrayNodeRebuildCorrect(n, depth, f, key, Remove(child, depth + 1, hash, key));
    } else {
      ArrayRoute(n, depth, key);
      MinusAbsent(Contents(n), key);
    }
  }

  // ---------------------------------------------------------------------------
  // What removal leaves behind
  // ---------------------------------------------------------------------------

  /** A node without the key comes back unchanged: the C returns the very node it was given. */
  lemma {:induction false} RemoveAbsent<V>(n: Node<V>, depth: nat, hash: bv32, key: Key)
    requires RemovePre(n, depth, hash, key) && key !in Contents(n)
    ensures Remove(n, depth, hash, key) == Some(n)
    decreases n, 1
  {
    match n
    case Leaf(_, _, _) =>
    case Collision(_, _) =>
      CollisionRoute(n, depth, key);
    case Branch(_, _) =>
      BranchAbsent(n, depth, hash, key);
    case ArrayNode(_, _) =>
      ArrayNodeAbsent(n, depth, hash, key);
  }

  lemma {:induction false} BranchAbsent<V>(n: Node<V>, depth: nat, hash: bv32, key: Key)
    requires n.Branch? && RemovePre(n, depth, hash, key) && key !in Contents(n)
    ensures BranchRemove(n, depth, hash, key) == Some(n)
    decreases n, 0
  {
    if Bit(n.bitmap, Frag(hash, depth)) {
      var p := BranchRemoveSet(n, depth, hash, key);
      var child := n.children[p];
      assert key !in Contents(child) by { BranchRoute(n, depth, key); }
      RemoveAbsent(child, depth + 1, hash, key);
      KeptShape(n, Frag(hash, depth));
    } else {
      BranchRemoveClear(n, depth, hash, key);
    }
  }

  lemma KeptShape<V>(n: Node<V>, f: bv32)
    requires n.Branch? && f < 32 && Bit(n.bitmap, f) && |n.children| == Popcount(n.bitmap)
    ensures Position(n.bitmap, f) < |n.children|
    ensures BranchRebuild(n, f, Some(n.children[Position(n.bitmap, f)])) == Some(n)
  {
    PositionBelowPopcount(n.bitmap, f);
  }

  lemma {:induction false} ArrayNodeAbsent<V>(n: Node<V>, depth: nat, hash: bv32, key: Key)
    requires n.ArrayNode? && RemovePre(n, depth, hash, key) && key !in Contents(n)
    ensures ArrayNodeRemove(n, depth, hash, key) == Some(n)
    decreases n, 0
  {
    var f := Frag(hash, depth);
    if n.slots[f].Some? {
      var child := n.slots[f].value;
      ArrayRoute(n, depth, key);
      assert WF(child, depth + 1);
      RemoveAbsent(child, depth + 1, hash, key);
    }
  }

  /**
   * Removal gives back the node it was given exactly when the key is
   * absent (hamt.c:569, 582, 589, 633, 680, 687).
   */
  lemma RemoveSame<V>(n: Node<V>, depth: nat, hash: bv32, key: Key)
    requires RemovePre(n, depth, hash, key)
    ensures Remove(n, depth, hash, key) == Some(n) <==> key !in Contents(n)
  {
    if key !in Contents(n) {
      RemoveAbsent(n, depth, hash, key);
    } else {
      RemoveCorrect(n, depth, hash, key);
      assert key !in Contents(n) - {key};
    }
  }

  /** Removal gives NULL exactly when the key was the node's only entry. */
  lemma RemoveEmpties<V>(n: Node<V>, depth: nat, hash: bv32, key: Key)
    requires RemovePre(n, depth, hash, key)
    ensures Remove(n, depth, hash, key) == None <==> Contents(n).Keys == {key}
  {
    RemoveCorrect(n, depth, hash, key);
    var r := Remove(n, depth, hash, key);
    if r == None {
      if key !in Contents(n) {
        RemoveAbsent(n, depth, hash, key);
      }
      assert (Contents(n) - {key}).Keys == Contents(n).Keys - {key};
    } else if Contents(n).Keys == {key} {
      assert (Contents(n) - {key}).Keys == Contents(n).Keys - {key};
      var k := NonEmpty(r.value, depth);
    }
  }

  // ---------------------------------------------------------------------------
  // How nodes collapse
  // ---------------------------------------------------------------------------

  /** `key` is under `n`, and no other key under `n` shares its fragment at `depth`. */
  ghost predicate Alone<V>(n: Node<V>, depth: nat, key: Key) {
    depth <= MAX_DEPTH
    && key in Contents(n)
    && forall k :: k in Contents(n) && KeyFrag(k, depth) == KeyFrag(key, depth) ==> k == key
  }

  /** Under a branch, a key alone on its fragment is all its child holds. */
  lemma BranchAlone<V>(n: Node<V>, depth: nat, key: Key) returns (p: nat)
    requires n.Branch? && WF(n, depth) && Alone(n, depth, key)
    ensures Bit(n.bitmap, KeyFrag(key, depth)) && p == Position(n.bitmap, KeyFrag(key, depth))
    ensures p < |n.children| && Contents(n.children[p]).Keys == {key}
    ensures |n.children| == 2 ==> key !in Contents(n.children[1 - p])
  {
    var b, cs, f := n.bitmap, n.children, KeyFrag(key, depth);
    BranchRoute(n, depth, key);
    p := Position(b, f);
    RoutedOnFrag(cs[p], depth, b, p, f);
    forall k | k in Contents(cs[p])
      ensures k == key
    {
      UnionHas(cs, p, k);
    }
    if |cs| == 2 {
      assert Routed(cs[1 - p], depth, b, 1 - p);
    }
  }

  /** Under an array node, a key alone on its fragment is all its slot holds. */
  lemma ArrayAlone<V>(n: Node<V>, depth: nat, key: Key)
    requires n.ArrayNode? && WF(n, depth) && Alone(n, depth, key)
    ensures n.slots[KeyFrag(key, depth)].Some?
    ensures Contents(n.slots[KeyFrag(key, depth)].value).Keys == {key}
  {
    var f := KeyFrag(key, depth);
    ArrayRoute(n, depth, key);
    forall k | k in Contents(n.slots[f].value)
      ensures k == key
    {
      SlotHas(n, 32, f, k);
    }
  }

  /**
   * Removing a key of a collision (hamt.c:559-564): with more than two
   * members it stays a collision of the same hash with one member fewer;
   * with two, the other member, a leaf, takes its place.
   */
  lemma CollisionShrink<V>(n: Node<V>, depth: nat, hash: bv32, key: Key)
    requires n.Collision? && RemovePre(n, depth, hash, key) && key in Contents(n)
    ensures Remove(n, depth, hash, key).Some?
    ensures |n.members| > 2 ==> var m := Remove(n, depth, hash, key).value;
      m.Collision? && m.hash == n.hash && |m.members| + 1 == |n.members|
    ensures |n.members| == 2 ==> var m := Remove(n, depth, hash, key).value;
      m.Leaf? && m in n.members && m.key != key
  {
    LeafHashes(n, depth, key);
    CollisionRoute(n, depth, key);
    var ms := n.members;
    var i := Scan(ms, key).value;
    if |ms| == 2 {
      var rest := RemoveAt(ms, i);
      assert rest[0] == ms[1 - i];
    }
  }

  /** Removing the only key of a branch's child empties that child. */
  lemma BranchEmpties<V>(n: Node<V>, depth: nat, hash: bv32, key: Key, p: nat)
    requires n.Branch? && RemovePre(n, depth, hash, key)
    requires Bit(n.bitmap, KeyFrag(key, depth)) && p == Position(n.bitmap, KeyFrag(key, depth))
    requires p < |n.children| && Contents(n.children[p]).Keys == {key}
    ensures Remove(n, depth, hash, key) == BranchRebuild(n, KeyFrag(key, depth), None)
  {
    var b, cs, f := n.bitmap, n.children, KeyFrag(key, depth);
    assert WF(cs[p], depth + 1);
    assert Remove(cs[p], depth + 1, hash, key) == None by { RemoveEmpties(cs[p], depth + 1, hash, key); }
    MaskTest(b, f);
  }

  /**
   * How a branch collapses once its child for fragment `f`, the only child
   * holding `key`, empties (hamt.c:600-612): a branch of one child leaves
   * nothing; otherwise either the branch loses the bit and the child, or,
   * only with two children, the other child takes its place, and it does
   * whenever it is a leaf or collision.
   */
  ghost predicate BranchCollapse<V>(n: Node<V>, f: bv32, key: Key, r: Option<Node<V>>)
    requires n.Branch? && f < 32
  {
    (|n.children| == 1 <==> r == None)
    && (r.Some? && r.value.Branch? ==>
          r.value.bitmap == n.bitmap & !Mask(f) && |r.value.children| + 1 == |n.children|)
    && (r.Some? && !r.value.Branch? ==>
          |n.children| == 2 && IsLeaf(r.value) && r.value in n.children && key !in Contents(r.value))
    && (|n.children| == 2 && (forall c :: c in n.children && key !in Contents(c) ==> IsLeaf(c)) ==>
          r.Some? && !r.value.Branch?)
  }

  lemma CollapseEmpty<V>(n: Node<V>, f: bv32, key: Key)
    requires n.Branch? && f < 32 && Bit(n.bitmap, f) && |n.children| == Popcount(n.bitmap) == 1
    ensures BranchCollapse(n, f, key, BranchRebuild(n, f, None))
  {
    ClearPositions(n.bitmap, f, f);
    PopcountZero(n.bitmap & !Mask(f));
    EmptiedShape(n, f);
  }

  lemma CollapseLift<V>(n: Node<V>, f: bv32, p: nat, key: Key)
    requires n.Branch? && f < 32 && Bit(n.bitmap, f) && p == Position(n.bitmap, f)
    requires |n.children| == Popcount(n.bitmap) == 2 && p < 2
    requires IsLeaf(n.children[1 - p]) && key !in Contents(n.children[1 - p])
    ensures BranchCollapse(n, f, key, BranchRebuild(n, f, None))
  {
    ClearPositions(n.bitmap, f, f);
    PopcountZero(n.bitmap & !Mask(f));
    SiblingShape(n, f);
    assert n.children[1 - p] in n.children;
  }

  lemma CollapseCut<V>(n: Node<V>, f: bv32, p: nat, key: Key)
    requires n.Branch? && f < 32 && Bit(n.bitmap, f) && p == Position(n.bitmap, f)
    requires 2 <= |n.children| == Popcount(n.bitmap) && p < |n.children|
    requires |n.children| == 2 ==> !IsLeaf(n.children[1 - p]) && key !in Contents(n.children[1 - p])
    ensures BranchCollapse(n, f, key, BranchRebuild(n, f, None))
  {
    ClearPositions(n.bitmap, f, f);
    PopcountZero(n.bitmap & !Mask(f));
    CutShape(n, f);
    if |n.children| == 2 {
      assert n.children[1 - p] in n.children;
    }
  }

  /** Removing the only key of a branch's child collapses the branch as `BranchCollapse` says. */
  lemma BranchShrink<V>(n: Node<V>, depth: nat, hash: bv32, key: Key)
    requires n.Branch? && RemovePre(n, depth, hash, key) && Alone(n, depth, key)
    ensures BranchCollapse(n, KeyFrag(key, depth), key, Remove(n, depth, hash, key))
  {
    var b, cs, f := n.bitmap, n.children, KeyFrag(key, depth);
    var p := BranchAlone(n, depth, key);
    assert Remove(n, depth, hash, key) == BranchRebuild(n, f, None) by {
      BranchEmpties(n, depth, hash, key, p);
    }
    assert BranchCollapse(n, f, key, BranchRebuild(n, f, None)) by {
      if |cs| == 1 {
        CollapseEmpty(n, f, key);
      } else if |cs| == 2 && IsLeaf(cs[1 - p]) {
        CollapseLift(n, f, p, key);
      } else {
        CollapseCut(n, f, p, key);
      }
    }
  }

  /** Removing a key alone on its fragment empties the array node's slot for it. */
  lemma ArrayEmpties<V>(n: Node<V>, depth: nat, hash: bv32, key: Key)
    requires n.ArrayNode? && RemovePre(n, depth, hash, key) && Alone(n, depth, key)
    ensures n.slots[KeyFrag(key, depth)].Some?
    ensures Contents(n.slots[KeyFrag(key, depth)].value) - {key} == map[]
    ensures Remove(n, depth, hash, key) == ArrayNodeRebuild(n, KeyFrag(key, depth), None)
  {
    var f := KeyFrag(key, depth);
    ArrayAlone(n, depth, key);
    var child := n.slots[f].value;
    assert WF(child, depth + 1);
    assert Remove(child, depth + 1, hash, key) == None by { RemoveEmpties(child, depth + 1, hash, key); }
    RemoveCorrect(child, depth + 1, hash, key);
  }

  /**
   * Removing the only key of an array node's slot (hamt.c:697-702): a node
   * of MIN_ARRAY_NODE_SIZE + 1 children compresses into a branch of the
   * MIN_ARRAY_NODE_SIZE others; a larger one clears the slot and counts one
   * child fewer.
   */
  lemma ArrayShrink<V>(n: Node<V>, depth: nat, hash: bv32, key: Key)
    requires n.ArrayNode? && RemovePre(n, depth, hash, key) && Alone(n, depth, key)
    ensures Remove(n, depth, hash, key).Some?
    ensures n.count == MIN_ARRAY_NODE_SIZE + 1 ==> var m := Remove(n, depth, hash, key).value;
      m.Branch? && |m.children| == MIN_ARRAY_NODE_SIZE
    ensures n.count > MIN_ARRAY_NODE_SIZE + 1 ==>
      Remove(n, depth, hash, key) == Some(ArrayNode(n.count - 1, n.slots[KeyFrag(key, depth) := None]))
  {
    ArrayEmpties(n, depth, hash, key);
    if n.count - 1 <= MIN_ARRAY_NODE_SIZE {
      ArrayCompress(n, depth, KeyFrag(key, depth), key);
    }
  }
}
