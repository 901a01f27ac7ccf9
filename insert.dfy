/**
 * Insertion (hamt.c:266-456): one transition rule per node kind, each
 * returning the node that replaces the one it was given.
 */
module Insertion {
  import opened Bits
  import opened Hash
  import opened Nodes
  import opened Children

  /** Every key under `n` has the same fragments as `hash` above `depth`: `n` lies on `hash`'s path. */
  ghost predicate Under<V>(n: Node<V>, hash: bv32, depth: nat) {
    forall k :: k in Contents(n) ==> Agree(HashOf(k), hash, depth)
  }

  /** A leaf or collision on `hash`'s path has a hash that agrees with it. */
  lemma UnderHash<V>(n: Node<V>, hash: bv32, depth: nat)
    requires IsLeaf(n) && WF(n, depth) && Under(n, hash, depth)
    ensures Agree(n.hash, hash, depth)
  {
    var k := NonEmpty(n, depth);
    LeafHashes(n, depth, k);
  }

  // ---------------------------------------------------------------------------
  // Building blocks shared by the rules
  // ---------------------------------------------------------------------------

  /** Adding an absent key on either side of a union is an update. */
  lemma AddOne<V>(m: map<Key, V>, k: Key, v: V)
    requires k !in m
    ensures map[k := v] + m == m[k := v]
    ensures m + map[k := v] == m[k := v]
  {
    var a := map[k := v] + m;
    assert a.Keys == m[k := v].Keys;
    assert forall x :: x in a ==> a[x] == m[k := v][x];
  }

  /** The entries of a one-node sequence. */
  lemma UnionOne<V>(x: Node<V>)
    ensures Union([x]) == Contents(x)
  {
    assert [x][..0] == [];
    var e: map<Key, V> := map[];
    assert (e + Contents(x)).Keys == Contents(x).Keys;
  }

  /** The entries of a two-node sequence. */
  lemma UnionTwo<V>(x: Node<V>, y: Node<V>)
    ensures Union([x, y]) == Contents(x) + Contents(y)
  {
    assert [x, y][..1] == [x];
    UnionOne(x);
  }

  /** Leaves and collisions do not depend on the depth they are found at. */
  lemma LeafAnyDepth<V>(n: Node<V>, d: nat, e: nat)
    requires IsLeaf(n) && WF(n, d)
    ensures WF(n, e)
  {
  }

  /** All keys under a leaf or collision share its fragment at every depth. */
  lemma LeafOnFrag<V>(n: Node<V>, d: nat, depth: nat)
    requires IsLeaf(n) && WF(n, d) && depth <= MAX_DEPTH
    ensures OnFrag(n, depth, Frag(n.hash, depth))
  {
    forall k | k in Contents(n)
      ensures KeyFrag(k, depth) == Frag(n.hash, depth)
    {
      LeafHashes(n, d, k);
    }
  }

  /** Adding a key of fragment `f` to a node on fragment `f` keeps it on `f`. */
  lemma OnFragUpdate<V>(c: Node<V>, n: Node<V>, depth: nat, f: bv32, key: Key, value: V)
    requires depth <= MAX_DEPTH && OnFrag(n, depth, f) && KeyFrag(key, depth) == f
    requires Contents(c) == Contents(n)[key := value]
    ensures OnFrag(c, depth, f)
  {
  }

  /** A one-child branch is well formed when its child is routed to position 0 of a one-bit bitmap. */
  lemma BranchOfOne<V>(d: nat, b: bv32, c: Node<V>)
    requires d <= MAX_DEPTH && Popcount(b) == 1
    requires WF(c, d + 1) && Routed(c, d, b, 0)
    ensures WF(Branch(b, [c]), d) && Contents(Branch(b, [c])) == Contents(c)
  {
    UnionOne(c);
    assert [c][0] == c;
  }

  /** A two-child branch is well formed when its children are routed to positions 0 and 1 of a two-bit bitmap. */
  lemma BranchOfTwo<V>(d: nat, b: bv32, x: Node<V>, y: Node<V>)
    requires d <= MAX_DEPTH && Popcount(b) == 2
    requires WF(x, d + 1) && Routed(x, d, b, 0)
    requires WF(y, d + 1) && Routed(y, d, b, 1)
    ensures WF(Branch(b, [x, y]), d) && Contents(Branch(b, [x, y])) == Contents(x) + Contents(y)
  {
    UnionTwo(x, y);
    forall i | 0 <= i < 2
      ensures WF([x, y][i], d + 1) && Routed([x, y][i], d, b, i)
    {
      if i == 0 {
        assert [x, y][i] == x;
      } else {
        assert [x, y][i] == y;
      }
    }
  }

  /** The branch of a single fragment `f` over a child on `f`. */
  lemma OneChild<V>(d: nat, f: bv32, c: Node<V>)
    requires d <= MAX_DEPTH && f < 32
    requires WF(c, d + 1) && OnFrag(c, d, f)
    ensures WF(Branch(Mask(f) | Mask(f), [c]), d)
    ensures Contents(Branch(Mask(f) | Mask(f), [c])) == Contents(c)
  {
    assert Mask(f) | Mask(f) == Mask(f);
    OneBit(f, f);
    RoutedByFrag(c, d, Mask(f), f, 0);
    BranchOfOne(d, Mask(f), c);
  }

  /** The branch of two fragments `f1 != f2` over children on them, in ascending fragment order. */
  lemma TwoChildren<V>(d: nat, f1: bv32, f2: bv32, n1: Node<V>, n2: Node<V>)
    requires d <= MAX_DEPTH && f1 < 32 && f2 < 32 && f1 != f2
    requires WF(n1, d + 1) && OnFrag(n1, d, f1)
    requires WF(n2, d + 1) && OnFrag(n2, d, f2)
    ensures var r := Branch(Mask(f1) | Mask(f2), if f1 < f2 then [n1, n2] else [n2, n1]);
      WF(r, d) && Contents(r) == (if f1 < f2 then Contents(n1) + Contents(n2) else Contents(n2) + Contents(n1))
  {
    var b := Mask(f1) | Mask(f2);
    TwoBitsCount(f1, f2);
    TwoBitsFirst(f1, f2);
    TwoBitsSecond(f1, f2);
    TwoBitsSet(f1, f2, f1);
    TwoBitsSet(f1, f2, f2);
    if f1 < f2 {
      RoutedByFrag(n1, d, b, f1, 0);
      RoutedByFrag(n2, d, b, f2, 1);
      BranchOfTwo(d, b, n1, n2);
    } else {
      RoutedByFrag(n2, d, b, f2, 0);
      RoutedByFrag(n1, d, b, f1, 1);
      BranchOfTwo(d, b, n2, n1);
    }
  }

  // ---------------------------------------------------------------------------
  // merge_leaves (hamt.c:294-321)
  // ---------------------------------------------------------------------------

  /** The two-member collision of equal-hash leaves with distinct keys. */
  lemma CollisionOfTwo<V>(n1: Node<V>, n2: Node<V>, depth: nat)
    requires n1.Leaf? && WF(n1, depth) && n2.Leaf? && WF(n2, depth)
    requires n1.hash == n2.hash && n2.key !in Contents(n1)
    ensures WF(Collision(n1.hash, [n2, n1]), depth)
    ensures Contents(Collision(n1.hash, [n2, n1])) == Contents(n1)[n2.key := n2.value]
  {
    UnionTwo(n2, n1);
    AddOne(Contents(n1), n2.key, n2.value);
  }

  /**
   * merge_leaves: joins `n1` (hash `h1`) and the new leaf `n2` (hash `h2`)
   * into one node at `depth`. Equal hashes give a two-member collision;
   * otherwise a branch on both fragment bits, nested one level deeper for as
   * long as the fragments coincide. Agreement of the hashes above `depth`
   * bounds that nesting.
   */
  function MergeLeaves<V>(depth: nat, h1: bv32, n1: Node<V>, h2: bv32, n2: Node<V>): Node<V>
    requires Agree(h1, h2, depth)
    decreases MAX_DEPTH + 1 - depth
  {
    if h1 == h2 then Collision(h1, [n2, n1])
    else
      Parting(h1, h2, depth);
      var f1, f2 := Frag(h1, depth), Frag(h2, depth);
      var bitmap := Mask(f1) | Mask(f2);
      if f1 == f2 then
        AgreeMore(h1, h2, depth);
        Branch(bitmap, [MergeLeaves(depth + 1, h1, n1, h2, n2)])
      else if f1 < f2 then Branch(bitmap, [n1, n2])
      else Branch(bitmap, [n2, n1])
  }

  /**
   * The shape merge_leaves promises: equal hashes give the collision
   * `[n2, n1]`; distinct fragments give a branch on both fragment bits whose
   * children follow ascending fragment order.
   */
  lemma MergeShape<V>(depth: nat, h1: bv32, n1: Node<V>, h2: bv32, n2: Node<V>)
    requires Agree(h1, h2, depth)
    ensures h1 == h2 ==> MergeLeaves(depth, h1, n1, h2, n2) == Collision(h1, [n2, n1])
    ensures h1 != h2 ==> depth <= MAX_DEPTH
    ensures h1 != h2 && Frag(h1, depth) != Frag(h2, depth) ==>
      var f1, f2 := Frag(h1, depth), Frag(h2, depth);
      MergeLeaves(depth, h1, n1, h2, n2) == Branch(Mask(f1) | Mask(f2), if f1 < f2 then [n1, n2] else [n2, n1])
  {
    if h1 != h2 {
      Parting(h1, h2, depth);
    }
  }

  /**
   * merge_leaves on two fragments that differ (hamt.c:305-311): a branch
   * whose set bits are exactly those two fragments, holding `n1` at the
   * position of the first and `n2` at the position of the second, where a
   * lookup of either key finds it.
   */
  lemma MergeOrder<V>(depth: nat, h1: bv32, n1: Node<V>, h2: bv32, n2: Node<V>)
    requires depth <= MAX_DEPTH && Agree(h1, h2, depth) && Frag(h1, depth) != Frag(h2, depth)
    ensures var r := MergeLeaves(depth, h1, n1, h2, n2);
      r.Branch? && Paired(r.bitmap, r.children, Frag(h1, depth), n1, Frag(h2, depth), n2)
  {
    var f1, f2 := Frag(h1, depth), Frag(h2, depth);
    assert h1 != h2;
    MergeShape(depth, h1, n1, h2, n2);
    PairOrder(f1, n1, f2, n2);
  }

  /** Equal nodes are equally well formed and hold the same entries. */
  lemma Same<V>(a: Node<V>, b: Node<V>, d: nat, m: map<Key, V>)
    requires a == b && WF(b, d) && Contents(b) == m
    ensures WF(a, d) && Contents(a) == m
  {
  }

  /** The preconditions under which the C calls merge_leaves: `n1` a leaf or a collision, `n2` the new leaf. */
  ghost predicate Mergeable<V>(depth: nat, n1: Node<V>, n2: Node<V>) {
    IsLeaf(n1) && WF(n1, depth) && n2.Leaf? && WF(n2, depth)
    && (n1.Leaf? || n1.hash != n2.hash)
    && n2.key !in Contents(n1)
    && Agree(n1.hash, n2.hash, depth)
  }

  /** merge_leaves yields a well-formed node holding exactly the entries of both nodes. */
  lemma {:induction false} MergeLeavesCorrect<V>(depth: nat, n1: Node<V>, n2: Node<V>)
    requires Mergeable(depth, n1, n2)
    ensures var r := MergeLeaves(depth, n1.hash, n1, n2.hash, n2);
      WF(r, depth) && Contents(r) == Contents(n1)[n2.key := n2.value]
    decreases MAX_DEPTH + 1 - depth, 1
  {
    var h1, h2 := n1.hash, n2.hash;
    if h1 == h2 {
      MergeCollisionCase(depth, n1, n2);
    } else {
      Parting(h1, h2, depth);
      if Frag(h1, depth) == Frag(h2, depth) {
        MergeNestedCase(depth, n1, n2);
      } else {
        MergeSplitCase(depth, n1, n2);
      }
    }
  }

  lemma MergeCollisionCase<V>(depth: nat, n1: Node<V>, n2: Node<V>)
    requires Mergeable(depth, n1, n2) && n1.hash == n2.hash
    ensures var r := MergeLeaves(depth, n1.hash, n1, n2.hash, n2);
      WF(r, depth) && Contents(r) == Contents(n1)[n2.key := n2.value]
  {
    CollisionOfTwo(n1, n2, depth);
  }

  lemma {:induction false} MergeNestedCase<V>(depth: nat, n1: Node<V>, n2: Node<V>)
    requires Mergeable(depth, n1, n2) && n1.hash != n2.hash
    requires depth <= MAX_DEPTH && Frag(n1.hash, depth) == Frag(n2.hash, depth)
    ensures var r := MergeLeaves(depth, n1.hash, n1, n2.hash, n2);
      WF(r, depth) && Contents(r) == Contents(n1)[n2.key := n2.value]
    decreases MAX_DEPTH + 1 - depth, 0
  {
    AgreeMore(n1.hash, n2.hash, depth);
    LeafAnyDepth(n1, depth, depth + 1);
    LeafAnyDepth(n2, depth, depth + 1);
    MergeLeavesCorrect(depth + 1, n1, n2);
    MergeNested(depth, n1, n2);
  }

  lemma MergeSplitCase<V>(depth: nat, n1: Node<V>, n2: Node<V>)
    requires Mergeable(depth, n1, n2) && n1.hash != n2.hash
    requires depth <= MAX_DEPTH && Frag(n1.hash, depth) != Frag(n2.hash, depth)
    ensures var r := MergeLeaves(depth, n1.hash, n1, n2.hash, n2);
      WF(r, depth) && Contents(r) == Contents(n1)[n2.key := n2.value]
  {
    var f1, f2 := Frag(n1.hash, depth), Frag(n2.hash, depth);
    SplitShape(depth, n1.hash, n1, n2.hash, n2, f1, f2);
    MergeSplit(depth, n1, n2, f1, f2);
  }

  /** Distinct fragments: merge_leaves builds the two-child branch directly. */
  lemma SplitShape<V>(depth: nat, h1: bv32, n1: Node<V>, h2: bv32, n2: Node<V>, f1: bv32, f2: bv32)
    requires Agree(h1, h2, depth) && h1 != h2 && depth <= MAX_DEPTH
    requires f1 == Frag(h1, depth) && f2 == Frag(h2, depth) && f1 != f2
    ensures MergeLeaves(depth, h1, n1, h2, n2) == Branch(Mask(f1) | Mask(f2), if f1 < f2 then [n1, n2] else [n2, n1])
  {
  }

  /** Equal fragments: a one-child branch over the merge one level down. */
  lemma MergeNested<V>(depth: nat, n1: Node<V>, n2: Node<V>)
    requires Mergeable(depth, n1, n2) && n1.hash != n2.hash
    requires depth <= MAX_DEPTH && Frag(n1.hash, depth) == Frag(n2.hash, depth)
    requires Agree(n1.hash, n2.hash, depth + 1)
    requires var c := MergeLeaves(depth + 1, n1.hash, n1, n2.hash, n2);
      WF(c, depth + 1) && Contents(c) == Contents(n1)[n2.key := n2.value]
    ensures var r := MergeLeaves(depth, n1.hash, n1, n2.hash, n2);
      WF(r, depth) && Contents(r) == Contents(n1)[n2.key := n2.value]
  {
    var f := Frag(n1.hash, depth);
    var c := MergeLeaves(depth + 1, n1.hash, n1, n2.hash, n2);
    assert MergeLeaves(depth, n1.hash, n1, n2.hash, n2) == Branch(Mask(f) | Mask(f), [c]);
    LeafOnFrag(n1, depth, depth);
    OnFragUpdate(c, n1, depth, f, n2.key, n2.value);
    OneChild(depth, f, c);
  }

  /** Distinct fragments: a two-child branch over both nodes. */
  lemma MergeSplit<V>(depth: nat, n1: Node<V>, n2: Node<V>, f1: bv32, f2: bv32)
    requires Mergeable(depth, n1, n2)
    requires depth <= MAX_DEPTH && f1 == Frag(n1.hash, depth) && f2 == Frag(n2.hash, depth) && f1 != f2
    ensures var r := Branch(Mask(f1) | Mask(f2), if f1 < f2 then [n1, n2] else [n2, n1]);
      WF(r, depth) && Contents(r) == Contents(n1)[n2.key := n2.value]
  {
    LeafAnyDepth(n1, depth, depth + 1);
    LeafAnyDepth(n2, depth, depth + 1);
    LeafOnFrag(n1, depth, depth);
    LeafOnFrag(n2, depth, depth);
    TwoChildren(depth, f1, f2, n1, n2);
    AddOne(Contents(n1), n2.key, n2.value);
  }

  // ---------------------------------------------------------------------------
  // The insertion rules (hamt.c:266-284, 329-456)
  // ---------------------------------------------------------------------------

  /** What the C relies on when it calls `insert`: a well-formed node on the key's path, and the key's hash. */
  ghost predicate InsertPre<V>(n: Node<V>, depth: nat, hash: bv32, key: Key) {
    WF(n, depth) && Under(n, hash, depth) && hash == HashOf(key)
  }

  /** The child of a branch at the key's position lies on the key's path one level down. */
  lemma ChildUnder<V>(n: Node<V>, d: nat, hash: bv32)
    requires n.Branch? && WF(n, d) && Under(n, hash, d) && Bit(n.bitmap, Frag(hash, d))
    ensures Position(n.bitmap, Frag(hash, d)) < |n.children|
    ensures Under(n.children[Position(n.bitmap, Frag(hash, d))], hash, d + 1)
  {
    ChildRouted(n, d, Frag(hash, d));
    UnderUnion(n, d, hash);
    RoutedUnder(n.children, d, n.bitmap, hash, Position(n.bitmap, Frag(hash, d)));
  }

  /** The child at the position of a set bit exists and is routed there. */
  lemma ChildRouted<V>(n: Node<V>, d: nat, f: bv32)
    requires n.Branch? && WF(n, d) && f < 32 && Bit(n.bitmap, f)
    ensures Position(n.bitmap, f) < |n.children|
    ensures Routed(n.children[Position(n.bitmap, f)], d, n.bitmap, Position(n.bitmap, f))
  {
    PositionBelowPopcount(n.bitmap, f);
  }

  /** The keys of a branch on `hash`'s path are its children's keys. */
  lemma UnderUnion<V>(n: Node<V>, d: nat, hash: bv32)
    requires n.Branch? && Under(n, hash, d)
    ensures forall k :: k in Union(n.children) ==> Agree(HashOf(k), hash, d)
  {
  }

  /** The keys under the child at the position of `hash`'s fragment share that fragment too. */
  lemma RoutedUnder<V>(cs: seq<Node<V>>, d: nat, b: bv32, hash: bv32, p: nat)
    requires d <= MAX_DEPTH && Bit(b, Frag(hash, d)) && p == Position(b, Frag(hash, d)) && p < |cs|
    requires Routed(cs[p], d, b, p)
    requires forall k :: k in Union(cs) ==> Agree(HashOf(k), hash, d)
    ensures Under(cs[p], hash, d + 1)
  {
    var c := cs[p];
    forall k | k in Contents(c)
      ensures Agree(HashOf(k), hash, d + 1)
    {
      UnionHas(cs, p, k);
      KeyOnFrag(c, d, b, p, Frag(hash, d), k);
      AgreeMore(HashOf(k), hash, d);
    }
  }

  /** A key under the child routed to the position of fragment `f` has fragment `f`. */
  lemma KeyOnFrag<V>(c: Node<V>, d: nat, b: bv32, p: nat, f: bv32, k: Key)
    requires d <= MAX_DEPTH && f < 32 && Routed(c, d, b, p)
    requires Bit(b, f) && Position(b, f) == p && k in Contents(c)
    ensures KeyFrag(k, d) == f
  {
    PositionInjective(b, KeyFrag(k, d), f);
  }

  /** The child in an array node's slot for the key lies on the key's path one level down. */
  lemma SlotUnder<V>(n: Node<V>, d: nat, hash: bv32)
    requires n.ArrayNode? && WF(n, d) && Under(n, hash, d) && n.slots[Frag(hash, d)].Some?
    ensures Under(n.slots[Frag(hash, d)].value, hash, d + 1)
  {
    var f := Frag(hash, d);
    var c := n.slots[f].value;
    assert OnFrag(c, d, f);
    forall k | k in Contents(c)
      ensures Agree(HashOf(k), hash, d + 1)
    {
      SlotHas(n, 32, f, k);
      AgreeMore(HashOf(k), hash, d);
    }
  }

  /**
   * insert (hamt.c:266-284): dispatches on the node kind and returns the node
   * that replaces `n` once `key` maps to `value`.
   */
  function Insert<V>(n: Node<V>, depth: nat, hash: bv32, key: Key, value: V): Node<V>
    requires InsertPre(n, depth, hash, key)
    decreases n, 1
  {
    match n
    case Leaf(_, _, _) => LeafInsert(n, depth, hash, key, value)
    case Branch(_, _) => BranchInsert(n, depth, hash, key, value)
    case Collision(_, _) => CollisionInsert(n, depth, hash, key, value)
    case ArrayNode(_, _) => ArrayNodeInsert(n, depth, hash, key, value)
  }

  /**
   * handle_leaf_insert (hamt.c:329-337): the same key gives the new leaf;
   * another key is merged with it.
   */
  function LeafInsert<V>(n: Node<V>, depth: nat, hash: bv32, key: Key, value: V): Node<V>
    requires n.Leaf? && InsertPre(n, depth, hash, key)
  {
    if n.key == key then Leaf(hash, key, value)
    else
      UnderHash(n, hash, depth);
      MergeLeaves(depth, n.hash, n, hash, Leaf(hash, key, value))
  }

  /**
   * handle_branch_insert (hamt.c:365-395). A clear bit for the key's fragment
   * either expands a branch of 16 or more children into an array node, or sets
   * the bit and splices the new leaf in at its position. A set bit inserts
   * into the child at that position.
   */
  function BranchInsert<V>(n: Node<V>, depth: nat, hash: bv32, key: Key, value: V): Node<V>
    requires n.Branch? && InsertPre(n, depth, hash, key)
    decreases n, 0
  {
    var b, cs := n.bitmap, n.children;
    var f := Frag(hash, depth);
    var mask := Mask(f);
    var pos := Position(b, f);
    MaskTest(b, f);
    if b & mask == 0 then
      if Popcount(b) >= MAX_BRANCH_SIZE then
        ArrayNode(Popcount(b) + 1, ExpandSlots(f, Leaf(hash, key, value), b, cs))
      else
        PositionAtMost(b, f);
        Branch(b | mask, InsertAt(cs, pos, Leaf(hash, key, value)))
    else
      ChildUnder(n, depth, hash);
      Branch(b, cs[pos := Insert(cs[pos], depth + 1, hash, key, value)])
  }

  /**
   * handle_collision_insert (hamt.c:403-424). With the collision's hash, the
   * member holding the key is replaced, or the new leaf is appended. With
   * another hash the collision is merged with the new leaf.
   */
  function CollisionInsert<V>(n: Node<V>, depth: nat, hash: bv32, key: Key, value: V): Node<V>
    requires n.Collision? && InsertPre(n, depth, hash, key)
  {
    var ms := n.members;
    var leaf := Leaf(hash, key, value);
    if hash == n.hash then
      match Scan(ms, key)
      case Some(i) => Collision(n.hash, ms[i := leaf])
      case None => Collision(n.hash, InsertAt(ms, |ms|, leaf))
    else
      UnderHash(n, hash, depth);
      MergeLeaves(depth, n.hash, n, hash, leaf)
  }

  /**
   * handle_arraynode_insert (hamt.c:436-456): an empty slot gets the new leaf
   * and the count grows by one; a filled slot gets the insertion into its child.
   */
  function ArrayNodeInsert<V>(n: Node<V>, depth: nat, hash: bv32, key: Key, value: V): Node<V>
    requires n.ArrayNode? && InsertPre(n, depth, hash, key)
    decreases n, 0
  {
    var f := Frag(hash, depth);
    match n.slots[f]
    case Some(c) =>
      SlotUnder(n, depth, hash);
      ArrayNode(n.count, n.slots[f := Some(Insert(c, depth + 1, hash, key, value))])
    case None =>
      ArrayNode(n.count + 1, n.slots[f := Some(Leaf(hash, key, value))])
  }
}
