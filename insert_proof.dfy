/**
 * Correctness of insertion: every rule of `Insert` turns a well-formed node
 * on the key's path into a well-formed node whose entries are the old ones
 * with `key` mapped to `value`.
 */
module InsertProofs {
  import opened Bits
  import opened Hash
  import opened Nodes
  import opened Children
  import opened Insertion

  /** `r` is a well-formed node at `depth` holding the entries of `n` with `key` set to `value`. */
  ghost predicate Inserted<V>(r: Node<V>, n: Node<V>, depth: nat, key: Key, value: V) {
    WF(r, depth) && Contents(r) == Contents(n)[key := value]
  }

  /** Maps that agree on every lookup are equal. */
  lemma MapExt<V>(a: map<Key, V>, b: map<Key, V>)
    requires forall k :: Get(a, k) == Get(b, k)
    ensures a == b
  {
    forall k | k in a
      ensures k in b && a[k] == b[k]
    {
      assert Get(a, k) == Get(b, k);
    }
    forall k | k in b
      ensures k in a
    {
      assert Get(a, k) == Get(b, k);
    }
  }

  /** Overwriting slot `f` leaves every other slot as it was. */
  lemma UpdateElsewhere<T>(ss: seq<T>, f: bv32, x: T)
    requires |ss| == 32 && f < 32
    ensures |ss[f := x]| == 32 && ss[f := x][f] == x
    ensures forall g: bv32 :: g < 32 && g != f ==> ss[f := x][g] == ss[g]
  {
  }

  // ---------------------------------------------------------------------------
  // Leaves (hamt.c:329-337)
  // ---------------------------------------------------------------------------

  /** A leaf either takes the new value, when the key is its own, or is merged with the new leaf. */
  lemma LeafInsertCorrect<V>(n: Node<V>, depth: nat, hash: bv32, key: Key, value: V)
    requires n.Leaf? && InsertPre(n, depth, hash, key)
    ensures Inserted(LeafInsert(n, depth, hash, key, value), n, depth, key, value)
  {
    if n.key != key {
      UnderHash(n, hash, depth);
      MergeLeavesCorrect(depth, n, Leaf(hash, key, value));
    }
  }

  // ---------------------------------------------------------------------------
  // Collisions (hamt.c:403-424)
  // ---------------------------------------------------------------------------

  /** Scans over members that hold the same keys at the same indices agree. */
  lemma ScanSame<V>(a: seq<Node<V>>, b: seq<Node<V>>, k: Key)
    requires |a| == |b|
    requires forall j :: 0 <= j < |a| ==> (HasKey(a[j], k) <==> HasKey(b[j], k))
    ensures Scan(a, k) == Scan(b, k)
  {
    match Scan(a, k)
    case None =>
    case Some(i) =>
      assert HasKey(b[i], k);
  }

  /** Replacing the member that holds the key by the new leaf updates that one entry. */
  lemma CollisionReplace<V>(n: Node<V>, depth: nat, i: nat, leaf: Node<V>)
    requires n.Collision? && WF(n, depth)
    requires leaf.Leaf? && leaf.hash == n.hash && HashOf(leaf.key) == n.hash
    requires Scan(n.members, leaf.key) == Some(i)
    ensures Inserted(Collision(n.hash, n.members[i := leaf]), n, depth, leaf.key, leaf.value)
  {
    var r := Collision(n.hash, n.members[i := leaf]);
    ReplaceMemberWF(n, depth, i, leaf);
    forall k
      ensures Get(Contents(r), k) == Get(Contents(n)[leaf.key := leaf.value], k)
    {
      ReplaceMemberGet(n, depth, i, leaf, k);
    }
    MapExt(Contents(r), Contents(n)[leaf.key := leaf.value]);
  }

  lemma ReplaceMemberWF<V>(n: Node<V>, depth: nat, i: nat, leaf: Node<V>)
    requires n.Collision? && WF(n, depth)
    requires leaf.Leaf? && leaf.hash == n.hash && HashOf(leaf.key) == n.hash
    requires i < |n.members| && HasKey(n.members[i], leaf.key)
    ensures WF(Collision(n.hash, n.members[i := leaf]), depth)
  {
  }

  lemma ReplaceMemberGet<V>(n: Node<V>, depth: nat, i: nat, leaf: Node<V>, k: Key)
    requires n.Collision? && WF(n, depth) && leaf.Leaf? && Scan(n.members, leaf.key) == Some(i)
    requires WF(Collision(n.hash, n.members[i := leaf]), depth)
    ensures Get(Contents(Collision(n.hash, n.members[i := leaf])), k) == Get(Contents(n)[leaf.key := leaf.value], k)
  {
    var ms := n.members;
    CollisionRoute(n, depth, k);
    CollisionRoute(Collision(n.hash, ms[i := leaf]), depth, k);
    ScanSame(ms, ms[i := leaf], k);
  }

  /** Appending the leaf of an absent key adds its entry. */
  lemma CollisionAppend<V>(n: Node<V>, depth: nat, leaf: Node<V>)
    requires n.Collision? && WF(n, depth)
    requires leaf.Leaf? && leaf.hash == n.hash && HashOf(leaf.key) == n.hash
    requires Scan(n.members, leaf.key) == None
    ensures Inserted(Collision(n.hash, InsertAt(n.members, |n.members|, leaf)), n, depth, leaf.key, leaf.value)
  {
    var ms := n.members;
    var ms2 := InsertAt(ms, |ms|, leaf);
    assert ms2[..|ms|] == ms;
    assert Union(ms2) == Union(ms) + Contents(leaf);
    CollisionRoute(n, depth, leaf.key);
    AddOne(Contents(n), leaf.key, leaf.value);
  }

  /** A collision with the key's hash replaces or appends its member; with another hash it is merged. */
  lemma CollisionInsertCorrect<V>(n: Node<V>, depth: nat, hash: bv32, key: Key, value: V)
    requires n.Collision? && InsertPre(n, depth, hash, key)
    ensures Inserted(CollisionInsert(n, depth, hash, key, value), n, depth, key, value)
  {
    var leaf := Leaf(hash, key, value);
    if hash == n.hash {
      match Scan(n.members, key)
      case Some(i) => CollisionReplace(n, depth, i, leaf);
      case None => CollisionAppend(n, depth, leaf);
    } else {
      UnderHash(n, hash, depth);
      if key in Contents(n) {
        LeafHashes(n, depth, key);
      }
      MergeLeavesCorrect(depth, n, leaf);
    }
  }

  // ---------------------------------------------------------------------------
  // Branches (hamt.c:339-395)
  // ---------------------------------------------------------------------------

  /** A node that gains an entry of fragment `f`, where `f`'s bit is set at position `p`, stays routed to `p`. */
  lemma RoutedUpdate<V>(c2: Node<V>, c: Node<V>, d: nat, b: bv32, p: nat, key: Key, value: V)
    requires d <= MAX_DEPTH && Routed(c, d, b, p)
    requires Bit(b, KeyFrag(key, d)) && Position(b, KeyFrag(key, d)) == p
    requires Contents(c2) == Contents(c)[key := value]
    ensures Routed(c2, d, b, p)
  {
  }

  /**
   * Replacing node `p` by one with `key` set, where no later node holds
   * `key`, sets `key` in the union.
   */
  lemma {:induction false} UnionReplace<V>(cs: seq<Node<V>>, p: nat, c2: Node<V>, key: Key, value: V)
    requires p < |cs| && Contents(c2) == Contents(cs[p])[key := value]
    requires forall j :: p < j < |cs| ==> key !in Contents(cs[j])
    ensures Union(cs[p := c2]) == Union(cs)[key := value]
    decreases |cs|
  {
    var cs2 := cs[p := c2];
    var last := |cs| - 1;
    var init := cs[..last];
    if p == last {
      assert cs2[..last] == init;
      SetRight(Union(init), Contents(cs[p]), key, value);
    } else {
      assert cs2[..last] == init[p := c2];
      UnionReplace(init, p, c2, key, value);
      SetLeft(Union(init), Contents(cs[last]), key, value);
    }
  }

  /** Setting a key in the right operand of a union sets it in the union. */
  lemma SetRight<V>(a: map<Key, V>, b: map<Key, V>, k: Key, v: V)
    ensures a + b[k := v] == (a + b)[k := v]
  {
  }

  /** Setting a key in the left operand of a union, where the right one does not hold it, sets it in the union. */
  lemma SetLeft<V>(a: map<Key, V>, b: map<Key, V>, k: Key, v: V)
    requires k !in b
    ensures a[k := v] + b == (a + b)[k := v]
  {
  }

  /** Inserting into the child at the key's position keeps the branch well formed and updates one entry. */
  lemma BranchReplace<V>(n: Node<V>, d: nat, p: nat, c2: Node<V>, key: Key, value: V)
    requires n.Branch? && WF(n, d)
    requires Bit(n.bitmap, KeyFrag(key, d)) && p == Position(n.bitmap, KeyFrag(key, d)) && p < |n.children|
    requires Inserted(c2, n.children[p], d + 1, key, value)
    ensures Inserted(Branch(n.bitmap, n.children[p := c2]), n, d, key, value)
  {
    RoutedUpdate(c2, n.children[p], d, n.bitmap, p, key, value);
    ReplaceWF(n, d, p, c2);
    KeyOnlyAt(n, d, p, key);
    UnionReplace(n.children, p, c2, key, value);
  }

  /** A child replaced by a well-formed node routed to the same index leaves the branch well formed. */
  lemma ReplaceWF<V>(n: Node<V>, d: nat, p: nat, c2: Node<V>)
    requires n.Branch? && WF(n, d) && p < |n.children|
    requires WF(c2, d + 1) && Routed(c2, d, n.bitmap, p)
    ensures WF(Branch(n.bitmap, n.children[p := c2]), d)
  {
  }

  /** A key whose bit is set at position `p` can only be under child `p`. */
  lemma KeyOnlyAt<V>(n: Node<V>, d: nat, p: nat, key: Key)
    requires n.Branch? && BranchRouting(n.bitmap, n.children, d)
    requires Bit(n.bitmap, KeyFrag(key, d)) && p == Position(n.bitmap, KeyFrag(key, d))
    ensures forall j :: 0 <= j < |n.children| && j != p ==> key !in Contents(n.children[j])
  {
  }

  /**
   * Setting the clear bit `f` moves a child routed to `i` up one place exactly
   * when its position is at or above `f`'s.
   */
  lemma RoutedShift<V>(c: Node<V>, d: nat, b: bv32, f: bv32, i: nat)
    requires d <= MAX_DEPTH && f < 32 && !Bit(b, f) && Routed(c, d, b, i)
    ensures Routed(c, d, b | Mask(f), if Position(b, f) <= i then i + 1 else i)
  {
    forall k | k in Contents(c)
      ensures Bit(b | Mask(f), KeyFrag(k, d))
      ensures Position(b | Mask(f), KeyFrag(k, d)) == if Position(b, f) <= i then i + 1 else i
    {
      var g := KeyFrag(k, d);
      SetBit(b, f, g);
      SetPositions(b, f, g);
      if g < f {
        PositionOrder(b, g, f);
      } else {
        PositionMono(b, f, g);
      }
    }
  }

  /** A branch whose children are well formed and routed to their indices is well formed. */
  lemma BranchWF<V>(b: bv32, cs: seq<Node<V>>, d: nat)
    requires d <= MAX_DEPTH && |cs| == Popcount(b) && 1 <= |cs| <= MAX_BRANCH_SIZE
    requires forall i :: 0 <= i < |cs| ==> WF(cs[i], d + 1) && Routed(cs[i], d, b, i)
    ensures WF(Branch(b, cs), d)
  {
  }

  /** Splicing a well-formed node into well-formed nodes gives well-formed nodes. */
  lemma SpliceKeepsWF<V>(cs: seq<Node<V>>, p: nat, x: Node<V>, d: nat)
    requires p <= |cs| && WF(x, d) && forall j :: 0 <= j < |cs| ==> WF(cs[j], d)
    ensures forall i :: 0 <= i < |cs| + 1 ==> WF(InsertAt(cs, p, x)[i], d)
  {
    var cs2 := InsertAt(cs, p, x);
    forall i | 0 <= i < |cs2|
      ensures WF(cs2[i], d)
    {
      if i < p {
        assert cs2[i] == cs[i];
      } else if i > p {
        assert cs2[i] == cs[i - 1];
      }
    }
  }

  /** Child `i` of the spliced sequence is routed to `i` under the bitmap with `f` set. */
  lemma SpliceRouted<V>(b: bv32, cs: seq<Node<V>>, d: nat, f: bv32, leaf: Node<V>, i: nat)
    requires BranchRouting(b, cs, d) && f < 32 && !Bit(b, f)
    requires leaf.Leaf? && KeyFrag(leaf.key, d) == f
    requires Position(b, f) <= |cs| && i <= |cs|
    ensures Routed(InsertAt(cs, Position(b, f), leaf)[i], d, b | Mask(f), i)
  {
    var p := Position(b, f);
    if i < p {
      RoutedShift(cs[i], d, b, f, i);
    } else if i > p {
      RoutedShift(cs[i - 1], d, b, f, i - 1);
    } else {
      SetBit(b, f, f);
      SetPositions(b, f, f);
    }
  }

  /** Every child of the spliced sequence is routed to its index under the bitmap with `f` set. */
  lemma SpliceAllRouted<V>(b: bv32, cs: seq<Node<V>>, d: nat, f: bv32, leaf: Node<V>)
    requires BranchRouting(b, cs, d) && f < 32 && !Bit(b, f)
    requires leaf.Leaf? && KeyFrag(leaf.key, d) == f
    requires Position(b, f) <= |cs|
    ensures forall i :: 0 <= i < |cs| + 1 ==> Routed(InsertAt(cs, Position(b, f), leaf)[i], d, b | Mask(f), i)
  {
    forall i | 0 <= i < |cs| + 1
      ensures Routed(InsertAt(cs, Position(b, f), leaf)[i], d, b | Mask(f), i)
    {
      SpliceRouted(b, cs, d, f, leaf, i);
    }
  }

  /** The splice of the new leaf at its position is well formed under the bitmap with its bit set. */
  lemma SpliceWF<V>(b: bv32, cs: seq<Node<V>>, d: nat, f: bv32, leaf: Node<V>)
    requires BranchRouting(b, cs, d) && 1 <= |cs| < MAX_BRANCH_SIZE && f < 32 && !Bit(b, f)
    requires forall j :: 0 <= j < |cs| ==> WF(cs[j], d + 1)
    requires leaf.Leaf? && WF(leaf, d + 1) && KeyFrag(leaf.key, d) == f
    requires Position(b, f) <= |cs|
    ensures WF(Branch(b | Mask(f), InsertAt(cs, Position(b, f), leaf)), d)
  {
    SetPositions(b, f, f);
    SpliceKeepsWF(cs, Position(b, f), leaf, d + 1);
    SpliceAllRouted(b, cs, d, f, leaf);
    BranchWF(b | Mask(f), InsertAt(cs, Position(b, f), leaf), d);
  }

  /** A key whose bit is clear is under no child. */
  lemma KeyNowhere<V>(n: Node<V>, d: nat, key: Key)
    requires n.Branch? && BranchRouting(n.bitmap, n.children, d) && !Bit(n.bitmap, KeyFrag(key, d))
    ensures forall j :: 0 <= j < |n.children| ==> key !in Contents(n.children[j])
  {
  }

  /** Splicing in a leaf whose key no later node holds sets that key in the union. */
  lemma {:induction false} UnionSplice<V>(cs: seq<Node<V>>, p: nat, leaf: Node<V>)
    requires p <= |cs| && leaf.Leaf?
    requires forall j :: p <= j < |cs| ==> leaf.key !in Contents(cs[j])
    ensures Union(InsertAt(cs, p, leaf)) == Union(cs)[leaf.key := leaf.value]
    decreases |cs|
  {
    var cs2 := InsertAt(cs, p, leaf);
    if p == |cs| {
      assert cs2[..|cs|] == cs;
    } else {
      var last := |cs| - 1;
      assert cs2[..|cs|] == InsertAt(cs[..last], p, leaf);
      UnionSplice(cs[..last], p, leaf);
    }
  }

  /** A branch with room takes the new leaf spliced in at the position of its fragment. */
  lemma BranchSplice<V>(n: Node<V>, d: nat, f: bv32, leaf: Node<V>)
    requires n.Branch? && WF(n, d) && f < 32 && !Bit(n.bitmap, f) && Popcount(n.bitmap) < MAX_BRANCH_SIZE
    requires leaf.Leaf? && WF(leaf, d + 1) && KeyFrag(leaf.key, d) == f
    requires Position(n.bitmap, f) <= |n.children|
    ensures Inserted(Branch(n.bitmap | Mask(f), InsertAt(n.children, Position(n.bitmap, f), leaf)), n, d, leaf.key, leaf.value)
  {
    SpliceWF(n.bitmap, n.children, d, f, leaf);
    KeyNowhere(n, d, leaf.key);
    UnionSplice(n.children, Position(n.bitmap, f), leaf);
  }

  /** `ss` are the 32 slots of a branch's children spread out by `b`, with `leaf` at the clear bit `f`. */
  ghost predicate Expanded<V>(ss: seq<Option<Node<V>>>, f: bv32, leaf: Node<V>, b: bv32, cs: seq<Node<V>>) {
    |cs| == Popcount(b) && f < 32 && |ss| == 32 && ss[f] == Some(leaf)
    && forall g: bv32 :: g < 32 && g != f ==> ss[g] == BitSlot(b, cs, g)
  }

  /** Slots that are non-empty exactly at the set bits of `b` count the bits of `b`. */
  lemma {:induction false} SlotsCount<V>(ss: seq<Option<Node<V>>>, b: bv32, i: bv32)
    requires |ss| == 32 && i <= 32
    requires forall g: bv32 :: g < 32 ==> (ss[g].Some? <==> Bit(b, g))
    ensures SomeCount(ss, i) == CountBelow(b, i)
    decreases i
  {
    if i != 0 {
      SlotsCount(ss, b, i - 1);
    }
  }

  /** The expanded slots are non-empty exactly at the bits of the bitmap with `f` set. */
  lemma ExpandedBits<V>(ss: seq<Option<Node<V>>>, f: bv32, leaf: Node<V>, b: bv32, cs: seq<Node<V>>)
    requires Expanded(ss, f, leaf, b, cs)
    ensures forall g: bv32 :: g < 32 ==> (ss[g].Some? <==> Bit(b | Mask(f), g))
  {
    forall g: bv32 | g < 32
      ensures ss[g].Some? <==> Bit(b | Mask(f), g)
    {
      SetBit(b, f, g);
    }
  }

  /** The expanded slots count one more than the bits of `b`. */
  lemma ExpandedCount<V>(ss: seq<Option<Node<V>>>, f: bv32, leaf: Node<V>, b: bv32, cs: seq<Node<V>>)
    requires Expanded(ss, f, leaf, b, cs) && !Bit(b, f)
    ensures SomeCount(ss, 32) == Popcount(b) + 1
  {
    ExpandedBits(ss, f, leaf, b, cs);
    SlotsCount(ss, b | Mask(f), 32);
    SetPositions(b, f, f);
  }

  /** A node routed to the position of the set bit `g` is on fragment `g`. */
  lemma RoutedOnFrag<V>(c: Node<V>, d: nat, b: bv32, p: nat, g: bv32)
    requires d <= MAX_DEPTH && g < 32 && Routed(c, d, b, p) && Bit(b, g) && Position(b, g) == p
    ensures OnFrag(c, d, g)
  {
    forall k | k in Contents(c)
      ensures KeyFrag(k, d) == g
    {
      PositionInjective(b, KeyFrag(k, d), g);
    }
  }

  /** Slot `g` of the expanded slots is on fragment `g`. */
  lemma ExpandSlotRouted<V>(ss: seq<Option<Node<V>>>, f: bv32, leaf: Node<V>, b: bv32, cs: seq<Node<V>>, d: nat, g: bv32)
    requires Expanded(ss, f, leaf, b, cs) && BranchRouting(b, cs, d) && g < 32
    requires leaf.Leaf? && KeyFrag(leaf.key, d) == f
    requires ss[g].Some?
    ensures OnFrag(ss[g].value, d, g)
  {
    if g != f {
      BitSlotSet(b, cs, g);
      PositionIsCount(b, g);
      var p := Position(b, g);
      assert Routed(cs[p], d, b, p);
      RoutedOnFrag(cs[p], d, b, p, g);
    }
  }

  /** The non-empty expanded slots are well formed one level down. */
  lemma ExpandSlotWF<V>(ss: seq<Option<Node<V>>>, f: bv32, leaf: Node<V>, b: bv32, cs: seq<Node<V>>, d: nat, g: bv32)
    requires Expanded(ss, f, leaf, b, cs) && g < 32
    requires forall j :: 0 <= j < |cs| ==> WF(cs[j], d + 1)
    requires WF(leaf, d + 1)
    requires ss[g].Some?
    ensures WF(ss[g].value, d + 1)
  {
    if g != f {
      BitSlotSet(b, cs, g);
    }
  }

  /** An array node whose slots are routed, counted and well formed is well formed. */
  lemma ArrayWF<V>(c: nat, ss: seq<Option<Node<V>>>, d: nat)
    requires SlotRouting(ss, d) && c == SomeCount(ss, 32) && MIN_ARRAY_NODE_SIZE < c
    requires forall g: bv32 :: g < 32 && ss[g].Some? ==> WF(ss[g].value, d + 1)
    ensures WF(ArrayNode(c, ss), d)
  {
  }

  /** The array node that replaces a full branch is well formed. */
  lemma ExpandWF<V>(ss: seq<Option<Node<V>>>, f: bv32, leaf: Node<V>, b: bv32, cs: seq<Node<V>>, d: nat)
    requires Expanded(ss, f, leaf, b, cs) && BranchRouting(b, cs, d) && MAX_BRANCH_SIZE <= |cs| && !Bit(b, f)
    requires forall j :: 0 <= j < |cs| ==> WF(cs[j], d + 1)
    requires leaf.Leaf? && WF(leaf, d + 1) && KeyFrag(leaf.key, d) == f
    ensures WF(ArrayNode(Popcount(b) + 1, ss), d)
  {
    ExpandedCount(ss, f, leaf, b, cs);
    forall g: bv32 | g < 32 && ss[g].Some?
      ensures OnFrag(ss[g].value, d, g)
    {
      ExpandSlotRouted(ss, f, leaf, b, cs, d, g);
    }
    forall g: bv32 | g < 32 && ss[g].Some?
      ensures WF(ss[g].value, d + 1)
    {
      ExpandSlotWF(ss, f, leaf, b, cs, d, g);
    }
    ArrayWF(Popcount(b) + 1, ss, d);
  }

  /** A key is found in the expanded array node exactly where the branch and the new leaf have it. */
  lemma ExpandGet<V>(n: Node<V>, d: nat, ss: seq<Option<Node<V>>>, f: bv32, leaf: Node<V>, k: Key)
    requires n.Branch? && BranchRouting(n.bitmap, n.children, d)
    requires Expanded(ss, f, leaf, n.bitmap, n.children) && !Bit(n.bitmap, f)
    requires leaf.Leaf? && KeyFrag(leaf.key, d) == f && SlotRouting(ss, d)
    ensures Get(Contents(ArrayNode(Popcount(n.bitmap) + 1, ss)), k) == Get(Contents(n)[leaf.key := leaf.value], k)
  {
    var b, cs, g := n.bitmap, n.children, KeyFrag(k, d);
    var r := ArrayNode(Popcount(b) + 1, ss);
    if g == f {
      assert Get(Contents(r), k) == Get(Contents(leaf), k) by {
        ArrayRoute(r, d, k);
      }
      assert Get(Contents(n), k) == None by {
        BranchRoute(n, d, k);
      }
    } else {
      assert k != leaf.key;
      assert Get(Contents(r), k) == Get(Contents(n), k) by {
        ArrayRoute(r, d, k);
        BranchRoute(n, d, k);
        assert ss[g] == BitSlot(b, cs, g);
        if Bit(b, g) {
          BitSlotSet(b, cs, g);
          PositionIsCount(b, g);
        }
      }
    }
  }

  /** The slots `ExpandSlots` builds are the expanded slots. */
  lemma ExpandedIs<V>(f: bv32, leaf: Node<V>, b: bv32, cs: seq<Node<V>>)
    requires f < 32 && |cs| == Popcount(b)
    ensures Expanded(ExpandSlots(f, leaf, b, cs), f, leaf, b, cs)
  {
  }

  /** A full branch with the key's bit clear becomes an array node holding its children and the new leaf. */
  lemma BranchExpand<V>(n: Node<V>, d: nat, ss: seq<Option<Node<V>>>, f: bv32, leaf: Node<V>)
    requires n.Branch? && BranchRouting(n.bitmap, n.children, d) && MAX_BRANCH_SIZE <= |n.children|
    requires forall j :: 0 <= j < |n.children| ==> WF(n.children[j], d + 1)
    requires Expanded(ss, f, leaf, n.bitmap, n.children) && !Bit(n.bitmap, f)
    requires leaf.Leaf? && WF(leaf, d + 1) && KeyFrag(leaf.key, d) == f
    ensures Inserted(ArrayNode(Popcount(n.bitmap) + 1, ss), n, d, leaf.key, leaf.value)
  {
    ExpandWF(ss, f, leaf, n.bitmap, n.children, d);
    ExpandContents(n, d, ss, f, leaf);
  }

  /** The expanded array node holds the branch's entries and the new leaf's. */
  lemma ExpandContents<V>(n: Node<V>, d: nat, ss: seq<Option<Node<V>>>, f: bv32, leaf: Node<V>)
    requires n.Branch? && BranchRouting(n.bitmap, n.children, d)
    requires Expanded(ss, f, leaf, n.bitmap, n.children) && !Bit(n.bitmap, f)
    requires leaf.Leaf? && KeyFrag(leaf.key, d) == f && SlotRouting(ss, d)
    ensures Contents(ArrayNode(Popcount(n.bitmap) + 1, ss)) == Contents(n)[leaf.key := leaf.value]
  {
    var r := ArrayNode(Popcount(n.bitmap) + 1, ss);
    forall k
      ensures Get(Contents(r), k) == Get(Contents(n)[leaf.key := leaf.value], k)
    {
      ExpandGet(n, d, ss, f, leaf, k);
    }
    MapExt(Contents(r), Contents(n)[leaf.key := leaf.value]);
  }

  // ---------------------------------------------------------------------------
  // Array nodes (hamt.c:436-456)
  // ---------------------------------------------------------------------------

  /** `ts` is `ss` with slot `f` set to `x`. */
  ghost predicate SlotSet<V>(ts: seq<Option<Node<V>>>, ss: seq<Option<Node<V>>>, f: bv32, x: Option<Node<V>>) {
    |ss| == 32 && |ts| == 32 && f < 32 && ts[f] == x
    && forall g: bv32 :: g < 32 && g != f ==> ts[g] == ss[g]
  }

  /** The entries under slot `f` of an array node, empty for an empty slot. */
  ghost function SlotContents<V>(ss: seq<Option<Node<V>>>, f: bv32): map<Key, V>
    requires |ss| == 32 && f < 32
  {
    if ss[f].Some? then Contents(ss[f].value) else map[]
  }

  /** A sequence update is a slot update. */
  lemma SlotSetIs<V>(ss: seq<Option<Node<V>>>, f: bv32, x: Option<Node<V>>)
    requires |ss| == 32 && f < 32
    ensures SlotSet(ss[f := x], ss, f, x)
  {
  }

  /** Filling or replacing slot `f` with a well-formed node on `f` keeps the array node well formed. */
  lemma SlotSetWF<V>(n: Node<V>, d: nat, ts: seq<Option<Node<V>>>, f: bv32, c2: Node<V>)
    requires n.ArrayNode? && WF(n, d) && SlotSet(ts, n.slots, f, Some(c2))
    requires WF(c2, d + 1) && OnFrag(c2, d, f)
    ensures WF(ArrayNode(n.count + (if n.slots[f].None? then 1 else 0), ts), d)
  {
    SomeCountChange(n.slots, ts, f, 32);
    ArrayWF(n.count + (if n.slots[f].None? then 1 else 0), ts, d);
  }

  /** A key is found in the updated array node where the old one has it, except that `key` now finds `value`. */
  lemma SlotSetGet<V>(n: Node<V>, d: nat, c: nat, ts: seq<Option<Node<V>>>, f: bv32, c2: Node<V>, key: Key, value: V, k: Key)
    requires n.ArrayNode? && SlotRouting(n.slots, d) && SlotSet(ts, n.slots, f, Some(c2)) && SlotRouting(ts, d)
    requires KeyFrag(key, d) == f && Contents(c2) == SlotContents(n.slots, f)[key := value]
    ensures Get(Contents(ArrayNode(c, ts)), k) == Get(Contents(n)[key := value], k)
  {
    ArrayRoute(n, d, k);
    ArrayRoute(ArrayNode(c, ts), d, k);
  }

  /** Setting slot `f` to a node holding its old entries and `key` updates that one entry. */
  lemma ArraySet<V>(n: Node<V>, d: nat, ts: seq<Option<Node<V>>>, f: bv32, c2: Node<V>, key: Key, value: V)
    requires n.ArrayNode? && WF(n, d) && SlotSet(ts, n.slots, f, Some(c2))
    requires KeyFrag(key, d) == f && WF(c2, d + 1) && Contents(c2) == SlotContents(n.slots, f)[key := value]
    ensures Inserted(ArrayNode(n.count + (if n.slots[f].None? then 1 else 0), ts), n, d, key, value)
  {
    var r := ArrayNode(n.count + (if n.slots[f].None? then 1 else 0), ts);
    SlotSetOnFrag(n, d, f, c2, key, value);
    SlotSetWF(n, d, ts, f, c2);
    forall k
      ensures Get(Contents(r), k) == Get(Contents(n)[key := value], k)
    {
      SlotSetGet(n, d, r.count, ts, f, c2, key, value, k);
    }
    MapExt(Contents(r), Contents(n)[key := value]);
  }

  /** The new node of slot `f` stays on fragment `f`. */
  lemma SlotSetOnFrag<V>(n: Node<V>, d: nat, f: bv32, c2: Node<V>, key: Key, value: V)
    requires n.ArrayNode? && SlotRouting(n.slots, d) && f < 32
    requires KeyFrag(key, d) == f && Contents(c2) == SlotContents(n.slots, f)[key := value]
    ensures OnFrag(c2, d, f)
  {
  }

  // ---------------------------------------------------------------------------
  // insert (hamt.c:266-284)
  // ---------------------------------------------------------------------------

  /** A branch with the key's bit clear splices in the new leaf or, when full, expands (hamt.c:371-384). */
  lemma BranchAddCorrect<V>(n: Node<V>, depth: nat, hash: bv32, key: Key, value: V)
    requires n.Branch? && InsertPre(n, depth, hash, key) && !Bit(n.bitmap, Frag(hash, depth))
    ensures Inserted(BranchInsert(n, depth, hash, key, value), n, depth, key, value)
  {
    if Popcount(n.bitmap) >= MAX_BRANCH_SIZE {
      BranchExpandCorrect(n, depth, hash, key, value);
    } else {
      BranchSpliceCorrect(n, depth, hash, key, value);
    }
  }

  lemma BranchExpandCorrect<V>(n: Node<V>, depth: nat, hash: bv32, key: Key, value: V)
    requires n.Branch? && InsertPre(n, depth, hash, key) && !Bit(n.bitmap, Frag(hash, depth))
    requires Popcount(n.bitmap) >= MAX_BRANCH_SIZE
    ensures Inserted(BranchInsert(n, depth, hash, key, value), n, depth, key, value)
  {
    var b, f := n.bitmap, Frag(hash, depth);
    var leaf := Leaf(hash, key, value);
    var ss := ExpandSlots(f, leaf, b, n.children);
    ExpandedIs(f, leaf, b, n.children);
    BranchExpand(n, depth, ss, f, leaf);
    ExpandShape(n, depth, hash, key, value);
  }

  /** With the key's bit clear and 16 children, the branch rule builds the expanded array node. */
  lemma ExpandShape<V>(n: Node<V>, depth: nat, hash: bv32, key: Key, value: V)
    requires n.Branch? && InsertPre(n, depth, hash, key) && !Bit(n.bitmap, Frag(hash, depth))
    requires Popcount(n.bitmap) >= MAX_BRANCH_SIZE
    ensures Popcount(n.bitmap) == |n.children|
    ensures BranchInsert(n, depth, hash, key, value)
         == ArrayNode(Popcount(n.bitmap) + 1, ExpandSlots(Frag(hash, depth), Leaf(hash, key, value), n.bitmap, n.children))
  {
    MaskTest(n.bitmap, Frag(hash, depth));
  }

  /**
   * The array node that replaces a full branch (hamt.c:371-377): it counts
   * one child more, holds the new leaf in the slot of the key's fragment,
   * each old child in the slot of its own bit, and nothing elsewhere.
   */
  lemma ExpandAt<V>(n: Node<V>, depth: nat, hash: bv32, key: Key, value: V)
    requires n.Branch? && InsertPre(n, depth, hash, key) && !Bit(n.bitmap, Frag(hash, depth))
    requires Popcount(n.bitmap) >= MAX_BRANCH_SIZE
    ensures var r := BranchInsert(n, depth, hash, key, value);
      var f := Frag(hash, depth);
      && r.ArrayNode? && r.count == |n.children| + 1 && |r.slots| == 32
      && r.slots[f] == Some(Leaf(hash, key, value))
      && (forall g: bv32 :: g < 32 && Bit(n.bitmap, g) ==>
            Position(n.bitmap, g) < |n.children| && r.slots[g] == Some(n.children[Position(n.bitmap, g)]))
      && (forall g: bv32 :: g < 32 && g != f && !Bit(n.bitmap, g) ==> r.slots[g] == None)
  {
    var b, f := n.bitmap, Frag(hash, depth);
    ExpandShape(n, depth, hash, key, value);
    var ss := ExpandSlots(f, Leaf(hash, key, value), b, n.children);
    forall g: bv32 | g < 32 && Bit(b, g)
      ensures Position(b, g) < |n.children| && ss[g] == Some(n.children[Position(b, g)])
    {
      assert g != f;
      BitSlotSet(b, n.children, g);
      PositionIsCount(b, g);
    }
  }

  /**
   * The splice of handle_branch_insert (hamt.c:378-383), at any depth: the
   * key's bit is set, the new leaf sits at the position of its fragment in
   * the new bitmap, and every old child sits at the position of its own bit
   * in the new bitmap.
   */
  lemma SpliceOrder<V>(n: Node<V>, depth: nat, hash: bv32, key: Key, value: V)
    requires n.Branch? && InsertPre(n, depth, hash, key) && !Bit(n.bitmap, Frag(hash, depth))
    requires Popcount(n.bitmap) < MAX_BRANCH_SIZE
    ensures var r := BranchInsert(n, depth, hash, key, value);
      var f, b := Frag(hash, depth), n.bitmap;
      r.Branch? && SplicedUnder(r.bitmap, r.children, b, f, n.children, Leaf(hash, key, value))
  {
    var b, f := n.bitmap, Frag(hash, depth);
    MaskTest(b, f);
    PositionAtMost(b, f);
    SpliceAt(b, f, n.children, Leaf(hash, key, value));
  }

  lemma BranchSpliceCorrect<V>(n: Node<V>, depth: nat, hash: bv32, key: Key, value: V)
    requires n.Branch? && InsertPre(n, depth, hash, key) && !Bit(n.bitmap, Frag(hash, depth))
    requires Popcount(n.bitmap) < MAX_BRANCH_SIZE
    ensures Inserted(BranchInsert(n, depth, hash, key, value), n, depth, key, value)
  {
    var b, f := n.bitmap, Frag(hash, depth);
    MaskTest(b, f);
    PositionAtMost(b, f);
    BranchSplice(n, depth, f, Leaf(hash, key, value));
  }

  /** A branch with the key's bit set inserts into the child at the key's position (hamt.c:385-393). */
  lemma BranchDeepCorrect<V>(n: Node<V>, depth: nat, hash: bv32, key: Key, value: V, c2: Node<V>)
    requires n.Branch? && InsertPre(n, depth, hash, key) && Bit(n.bitmap, Frag(hash, depth))
    requires Position(n.bitmap, Frag(hash, depth)) < |n.children|
    requires InsertPre(n.children[Position(n.bitmap, Frag(hash, depth))], depth + 1, hash, key)
    requires c2 == Insert(n.children[Position(n.bitmap, Frag(hash, depth))], depth + 1, hash, key, value)
    requires Inserted(c2, n.children[Position(n.bitmap, Frag(hash, depth))], depth + 1, key, value)
    ensures Inserted(BranchInsert(n, depth, hash, key, value), n, depth, key, value)
  {
    MaskTest(n.bitmap, Frag(hash, depth));
    BranchReplace(n, depth, Position(n.bitmap, Frag(hash, depth)), c2, key, value);
  }

  /** An array node fills the key's empty slot or inserts into the child in it (hamt.c:440-455). */
  lemma ArrayNodeDeepCorrect<V>(n: Node<V>, depth: nat, hash: bv32, key: Key, value: V, c2: Node<V>)
    requires n.ArrayNode? && InsertPre(n, depth, hash, key) && n.slots[Frag(hash, depth)].Some?
    requires InsertPre(n.slots[Frag(hash, depth)].value, depth + 1, hash, key)
    requires c2 == Insert(n.slots[Frag(hash, depth)].value, depth + 1, hash, key, value)
    requires Inserted(c2, n.slots[Frag(hash, depth)].value, depth + 1, key, value)
    ensures Inserted(ArrayNodeInsert(n, depth, hash, key, value), n, depth, key, value)
  {
    var f := Frag(hash, depth);
    SlotSetIs(n.slots, f, Some(c2));
    ArraySet(n, depth, n.slots[f := Some(c2)], f, c2, key, value);
  }

  lemma ArrayNodeFillCorrect<V>(n: Node<V>, depth: nat, hash: bv32, key: Key, value: V)
    requires n.ArrayNode? && InsertPre(n, depth, hash, key) && n.slots[Frag(hash, depth)].None?
    ensures Inserted(ArrayNodeInsert(n, depth, hash, key, value), n, depth, key, value)
  {
    var f := Frag(hash, depth);
    var leaf := Leaf(hash, key, value);
    SlotSetIs(n.slots, f, Some(leaf));
    ArraySet(n, depth, n.slots[f := Some(leaf)], f, leaf, key, value);
  }

  /**
   * Insertion is correct: inserting `key` with `value` into a well-formed
   * node on the key's path gives a well-formed node that holds the old
   * entries with `key` mapped to `value`.
   */
  lemma {:induction false} InsertCorrect<V>(n: Node<V>, depth: nat, hash: bv32, key: Key, value: V)
    requires InsertPre(n, depth, hash, key)
    ensures Inserted(Insert(n, depth, hash, key, value), n, depth, key, value)
    decreases n, 1
  {
    match n
    case Leaf(_, _, _) =>
      LeafInsertCorrect(n, depth, hash, key, value);
    case Collision(_, _) =>
      CollisionInsertCorrect(n, depth, hash, key, value);
    case Branch(_, _) =>
      BranchInsertCorrect(n, depth, hash, key, value);
    case ArrayNode(_, _) =>
      ArrayNodeInsertCorrect(n, depth, hash, key, value);
  }

  /** The branch rule is correct, given that insertion one level down is. */
  lemma {:induction false} BranchInsertCorrect<V>(n: Node<V>, depth: nat, hash: bv32, key: Key, value: V)
    requires n.Branch? && InsertPre(n, depth, hash, key)
    ensures Inserted(BranchInsert(n, depth, hash, key, value), n, depth, key, value)
    decreases n, 0
  {
    var f := Frag(hash, depth);
    if Bit(n.bitmap, f) {
      ChildUnder(n, depth, hash);
      var c := n.children[Position(n.bitmap, f)];
      assert WF(c, depth + 1);
      InsertCorrect(c, depth + 1, hash, key, value);
      BranchDeepCorrect(n, depth, hash, key, value, Insert(c, depth + 1, hash, key, value));
    } else {
      BranchAddCorrect(n, depth, hash, key, value);
    }
  }

  /** The array node rule is correct, given that insertion one level down is. */
  lemma {:induction false} ArrayNodeInsertCorrect<V>(n: Node<V>, depth: nat, hash: bv32, key: Key, value: V)
    requires n.ArrayNode? && InsertPre(n, depth, hash, key)
    ensures Inserted(ArrayNodeInsert(n, depth, hash, key, value), n, depth, key, value)
    decreases n, 0
  {
    var f := Frag(hash, depth);
    if n.slots[f].Some? {
      SlotUnder(n, depth, hash);
      var c := n.slots[f].value;
      assert WF(c, depth + 1);
      InsertCorrect(c, depth + 1, hash, key, value);
      ArrayNodeDeepCorrect(n, depth, hash, key, value, Insert(c, depth + 1, hash, key, value));
    } else {
      ArrayNodeFillCorrect(n, depth, hash, key, value);
    }
  }

  // ---------------------------------------------------------------------------
  // Replacing a value in place
  // ---------------------------------------------------------------------------

  /**
   * `r` has the shape of `n` all the way down: the same kind of node, the
   * same bitmap and number of children, the same number of collision
   * members, the same count and filled slots.
   */
  ghost predicate SameShape<V>(r: Node<V>, n: Node<V>)
    decreases n
  {
    match n
    case Leaf(_, k, _) => r.Leaf? && r.key == k
    case Collision(h, ms) => r.Collision? && r.hash == h && |r.members| == |ms|
    case Branch(b, cs) =>
      r.Branch? && r.bitmap == b && |r.children| == |cs|
      && (forall i :: 0 <= i < |cs| ==> SameShape(r.children[i], cs[i]))
    case ArrayNode(c, ss) =>
      r.ArrayNode? && r.count == c && |r.slots| == |ss|
      && (forall i :: 0 <= i < |ss| ==>
            (r.slots[i].Some? <==> ss[i].Some?)
            && (ss[i].Some? ==> SameShape(r.slots[i].value, ss[i].value)))
  }

  lemma {:induction false} SameShapeRefl<V>(n: Node<V>)
    ensures SameShape(n, n)
    decreases n
  {
    match n
    case Leaf(_, _, _) =>
    case Collision(_, _) =>
    case Branch(_, cs) =>
      forall i | 0 <= i < |cs|
        ensures SameShape(cs[i], cs[i])
      {
        SameShapeRefl(cs[i]);
      }
    case ArrayNode(_, ss) =>
      forall i | 0 <= i < |ss| && ss[i].Some?
        ensures SameShape(ss[i].value, ss[i].value)
      {
        SameShapeRefl(ss[i].value);
      }
  }

  /**
   * Setting a key that is present replaces its leaf where it is
   * (hamt.c:329-333, 409-414, 443-455): no node is added, split or expanded,
   * and no collision or array node grows.
   */
  lemma {:induction false} InsertNoGrow<V>(n: Node<V>, depth: nat, hash: bv32, key: Key, value: V)
    requires InsertPre(n, depth, hash, key) && key in Contents(n)
    ensures SameShape(Insert(n, depth, hash, key, value), n)
    decreases n, 1
  {
    match n
    case Leaf(_, _, _) =>
    case Collision(_, _) =>
      LeafHashes(n, depth, key);
      CollisionRoute(n, depth, key);
    case Branch(_, _) =>
      BranchNoGrow(n, depth, hash, key, value);
    case ArrayNode(_, _) =>
      ArrayNodeNoGrow(n, depth, hash, key, value);
  }

  lemma {:induction false} BranchNoGrow<V>(n: Node<V>, depth: nat, hash: bv32, key: Key, value: V)
    requires n.Branch? && InsertPre(n, depth, hash, key) && key in Contents(n)
    ensures SameShape(BranchInsert(n, depth, hash, key, value), n)
    decreases n, 0
  {
    var b, cs, f := n.bitmap, n.children, Frag(hash, depth);
    assert Bit(b, f) by { BranchRoute(n, depth, key); }
    ChildUnder(n, depth, hash);
    var p := Position(b, f);
    var c2 := Insert(cs[p], depth + 1, hash, key, value);
    assert SameShape(c2, cs[p]) by {
      BranchRoute(n, depth, key);
      assert WF(cs[p], depth + 1);
      InsertNoGrow(cs[p], depth + 1, hash, key, value);
    }
    assert BranchInsert(n, depth, hash, key, value) == Branch(b, cs[p := c2]) by { MaskTest(b, f); }
    ChildShape(n, p, c2);
  }

  /** Replacing one child of a branch by one of the same shape keeps the branch's shape. */
  lemma ChildShape<V>(n: Node<V>, p: nat, c2: Node<V>)
    requires n.Branch? && p < |n.children| && SameShape(c2, n.children[p])
    ensures SameShape(Branch(n.bitmap, n.children[p := c2]), n)
  {
    var cs := n.children;
    forall i | 0 <= i < |cs|
      ensures SameShape(cs[p := c2][i], cs[i])
    {
      if i != p {
        SameShapeRefl(cs[i]);
      }
    }
  }

  lemma {:induction false} ArrayNodeNoGrow<V>(n: Node<V>, depth: nat, hash: bv32, key: Key, value: V)
    requires n.ArrayNode? && InsertPre(n, depth, hash, key) && key in Contents(n)
    ensures SameShape(ArrayNodeInsert(n, depth, hash, key, value), n)
    decreases n, 0
  {
    var ss, f := n.slots, Frag(hash, depth);
    assert ss[f].Some? && key in Contents(ss[f].value) by { ArrayRoute(n, depth, key); }
    SlotUnder(n, depth, hash);
    var c := ss[f].value;
    var c2 := Insert(c, depth + 1, hash, key, value);
    assert SameShape(c2, c) by {
      assert WF(c, depth + 1);
      InsertNoGrow(c, depth + 1, hash, key, value);
    }
    assert ArrayNodeInsert(n, depth, hash, key, value) == ArrayNode(n.count, ss[f := Some(c2)]);
    SlotShape(n, f as int, c2);
  }

  /** Replacing the child in a filled slot by one of the same shape keeps the array node's shape. */
  lemma SlotShape<V>(n: Node<V>, j: nat, c2: Node<V>)
    requires n.ArrayNode? && j < |n.slots| && n.slots[j].Some? && SameShape(c2, n.slots[j].value)
    ensures SameShape(ArrayNode(n.count, n.slots[j := Some(c2)]), n)
  {
    var ss := n.slots;
    var ts := ss[j := Some(c2)];
    forall i | 0 <= i < |ss|
      ensures (ts[i].Some? <==> ss[i].Some?) && (ss[i].Some? ==> SameShape(ts[i].value, ss[i].value))
    {
      SlotAlike(ss, j, c2, i);
    }
  }

  lemma SlotAlike<V>(ss: seq<Option<Node<V>>>, j: nat, c2: Node<V>, i: nat)
    requires i < |ss| && j < |ss| && ss[j].Some? && SameShape(c2, ss[j].value)
    ensures var ts := ss[j := Some(c2)];
      (ts[i].Some? <==> ss[i].Some?) && (ss[i].Some? ==> SameShape(ts[i].value, ss[i].value))
  {
    if i != j && ss[i].Some? {
      SameShapeRefl(ss[i].value);
    }
  }
}
