/**
 * The trie's nodes (hamt.c:46-65, 98-150) and what they mean.
 *
 * The C keeps every node in one struct and overloads its fields: a branch
 * holds its bitmap in `hash`, a collision and an array node hold their
 * element count in `bitmap`. Here every kind has its own fields. A
 * collision's count is the length of its member sequence; an array node
 * keeps its count as a separate field, as the C does, and `WF` ties it to
 * the slots.
 */
module Nodes {
  import opened Bits
  import opened Hash

  datatype Option<T> = None | Some(value: T)

  /** Capacity limits of the node kinds (hamt.c:37-44). */
  const SIZE: nat := 32
  const MAX_BRANCH_SIZE: nat := 16
  const MIN_ARRAY_NODE_SIZE: nat := 8
  const MIN_COLLISION_NODE_SIZE: nat := 8

  /**
   * A node. `V` stands for the `void *` value. Collision members are leaves;
   * the 32 slots of an array node are `None` where the C array holds NULL.
   */
  datatype Node<V> =
    | Leaf(hash: bv32, key: Key, value: V)
    | Branch(bitmap: bv32, children: seq<Node<V>>)
    | Collision(hash: bv32, members: seq<Node<V>>)
    | ArrayNode(count: nat, slots: seq<Option<Node<V>>>)

  /** is_leaf (hamt.c:146-148): leaves and collisions hold entries directly. */
  predicate IsLeaf<V>(n: Node<V>) {
    n.Leaf? || n.Collision?
  }

  /** The lookup of `k` in a map, as NULL-or-value. */
  function Get<V>(m: map<Key, V>, k: Key): Option<V> {
    if k in m then Some(m[k]) else None
  }

  // ---------------------------------------------------------------------------
  // The abstraction: the map a node stands for
  // ---------------------------------------------------------------------------

  /** The key/value entries stored under `n`. */
  function Contents<V>(n: Node<V>): map<Key, V>
    decreases n, 1
  {
    match n
    case Leaf(_, k, v) => map[k := v]
    case Branch(_, cs) => Union(cs)
    case Collision(_, ms) => Union(ms)
    case ArrayNode(_, ss) => if |ss| == 32 then SlotUnion(n, 32) else map[]
  }

  /** The entries of a sequence of nodes. */
  function Union<V>(cs: seq<Node<V>>): map<Key, V>
    decreases cs
  {
    if |cs| == 0 then map[] else Union(cs[..|cs| - 1]) + Contents(cs[|cs| - 1])
  }

  /** The entries of the first `i` slots of an array node. */
  function SlotUnion<V>(n: Node<V>, i: bv32): map<Key, V>
    requires n.ArrayNode? && |n.slots| == 32 && i <= 32
    decreases n, 0, i
  {
    if i == 0 then map[] else
      var last := n.slots[i - 1];
      SlotUnion(n, i - 1) + (if last.Some? then Contents(last.value) else map[])
  }

  /** The number of non-empty slots among the first `i`. */
  function SomeCount<V>(ss: seq<Option<Node<V>>>, i: bv32): nat
    requires |ss| == 32 && i <= 32
    decreases i
  {
    if i == 0 then 0 else SomeCount(ss, i - 1) + (if ss[i - 1].Some? then 1 else 0)
  }

  // ---------------------------------------------------------------------------
  // The representation invariant
  // ---------------------------------------------------------------------------

  /** Fragment `f` of key `k`'s hash at `depth`. */
  function KeyFrag(k: Key, depth: nat): (f: bv32)
    requires depth <= MAX_DEPTH
    ensures f < 32
  {
    Frag(HashOf(k), depth)
  }

  /** Every key under `c` has fragment `f` at `depth`. */
  ghost predicate OnFrag<V>(c: Node<V>, depth: nat, f: bv32)
    requires depth <= MAX_DEPTH
  {
    forall k :: k in Contents(c) ==> KeyFrag(k, depth) == f
  }

  /** Every key under `c` has its bit set in `bitmap` and position `i`: `c` belongs at index `i` of a branch. */
  ghost predicate Routed<V>(c: Node<V>, depth: nat, bitmap: bv32, i: nat)
    requires depth <= MAX_DEPTH
  {
    forall k :: k in Contents(c) ==> Bit(bitmap, KeyFrag(k, depth)) && Position(bitmap, KeyFrag(k, depth)) == i
  }

  /** A branch's routing: as many children as bits, each routed to its own index. */
  ghost predicate BranchRouting<V>(b: bv32, cs: seq<Node<V>>, depth: nat) {
    depth <= MAX_DEPTH
    && |cs| == Popcount(b)
    && (forall i :: 0 <= i < |cs| ==> Routed(cs[i], depth, b, i))
  }

  /** An array node's routing: 32 slots, each non-empty one on its own fragment. */
  ghost predicate SlotRouting<V>(ss: seq<Option<Node<V>>>, depth: nat) {
    depth <= MAX_DEPTH
    && |ss| == 32
    && (forall f: bv32 :: f < 32 && ss[f].Some? ==> OnFrag(ss[f].value, depth, f))
  }

  /**
   * `n`, found at `depth` of the trie, is well formed:
   * - a leaf caches the hash of its key;
   * - a collision has at least two leaves with distinct keys, all with its hash;
   * - a branch has `popcount(bitmap)` children, from 1 to 16, and every key
   *   under child `i` has its bit set and position `i`;
   * - an array node has 32 slots, counts exactly the non-empty ones (more
   *   than 8 of them), and every key under slot `f` has fragment `f`.
   * Branches and array nodes only occur where a fragment exists (depth 0..6).
   */
  ghost predicate WF<V>(n: Node<V>, depth: nat)
    decreases n
  {
    match n
    case Leaf(h, k, _) => h == HashOf(k)
    case Collision(h, ms) =>
      2 <= |ms|
      && (forall i :: 0 <= i < |ms| ==> ms[i].Leaf? && ms[i].hash == h && HashOf(ms[i].key) == h)
      && (forall i, j :: 0 <= i < j < |ms| ==> ms[i].key != ms[j].key)
    case Branch(b, cs) =>
      BranchRouting(b, cs, depth)
      && 1 <= |cs| <= MAX_BRANCH_SIZE
      && (forall i :: 0 <= i < |cs| ==> WF(cs[i], depth + 1))
    case ArrayNode(c, ss) =>
      SlotRouting(ss, depth)
      && c == SomeCount(ss, 32)
      && MIN_ARRAY_NODE_SIZE < c
      && (forall f: bv32 :: f < 32 && ss[f].Some? ==> WF(ss[f].value, depth + 1))
  }

  /** A node on fragment `f` is routed by a bitmap that has `f` set at position `i`. */
  lemma RoutedByFrag<V>(c: Node<V>, depth: nat, bitmap: bv32, f: bv32, i: nat)
    requires depth <= MAX_DEPTH && f < 32 && OnFrag(c, depth, f)
    requires Bit(bitmap, f) && Position(bitmap, f) == i
    ensures Routed(c, depth, bitmap, i)
  {
  }

  // ---------------------------------------------------------------------------
  // Entries of a sequence of nodes
  // ---------------------------------------------------------------------------

  /** A key of a union comes from one of the nodes. */
  lemma {:induction false} UnionIn<V>(cs: seq<Node<V>>, k: Key) returns (i: nat)
    requires k in Union(cs)
    ensures i < |cs| && k in Contents(cs[i]) && Union(cs)[k] == Contents(cs[i])[k]
    decreases |cs|
  {
    var init := cs[..|cs| - 1];
    if k in Contents(cs[|cs| - 1]) {
      i := |cs| - 1;
    } else {
      i := UnionIn(init, k);
      assert init[i] == cs[i];
    }
  }

  /** A key in exactly one of the nodes is in the union, with that node's value. */
  lemma {:induction false} UnionAt<V>(cs: seq<Node<V>>, i: nat, k: Key)
    requires i < |cs| && k in Contents(cs[i])
    requires forall j :: 0 <= j < |cs| && j != i ==> k !in Contents(cs[j])
    ensures k in Union(cs) && Union(cs)[k] == Contents(cs[i])[k]
    decreases |cs|
  {
    var init := cs[..|cs| - 1];
    if i < |cs| - 1 {
      forall j | 0 <= j < |init| && j != i
        ensures k !in Contents(init[j])
      {
        assert init[j] == cs[j];
      }
      UnionAt(init, i, k);
    }
  }

  /** A key in none of the nodes is not in the union. */
  lemma {:induction false} UnionOut<V>(cs: seq<Node<V>>, k: Key)
    requires forall j :: 0 <= j < |cs| ==> k !in Contents(cs[j])
    ensures k !in Union(cs)
    decreases |cs|
  {
    if |cs| != 0 {
      var init := cs[..|cs| - 1];
      forall j | 0 <= j < |init|
        ensures k !in Contents(init[j])
      {
        assert init[j] == cs[j];
      }
      UnionOut(init, k);
    }
  }

  /** A key of the first `i` slots comes from one of them. */
  lemma {:induction false} SlotIn<V>(n: Node<V>, i: bv32, k: Key) returns (f: bv32)
    requires n.ArrayNode? && |n.slots| == 32 && i <= 32
    requires k in SlotUnion(n, i)
    ensures f < i && n.slots[f].Some? && k in Contents(n.slots[f].value)
    ensures SlotUnion(n, i)[k] == Contents(n.slots[f].value)[k]
    decreases i
  {
    var last := n.slots[i - 1];
    if last.Some? && k in Contents(last.value) {
      f := i - 1;
    } else {
      f := SlotIn(n, i - 1, k);
    }
  }

  /** A key under exactly one slot `f` is in the slots' union, with its value there. */
  lemma {:induction false} SlotAt<V>(n: Node<V>, i: bv32, f: bv32, k: Key)
    requires n.ArrayNode? && |n.slots| == 32 && f < i <= 32
    requires n.slots[f].Some? && k in Contents(n.slots[f].value)
    requires forall g: bv32 :: g < 32 && g != f && n.slots[g].Some? ==> k !in Contents(n.slots[g].value)
    ensures k in SlotUnion(n, i) && SlotUnion(n, i)[k] == Contents(n.slots[f].value)[k]
    decreases i
  {
    if f < i - 1 {
      SlotAt(n, i - 1, f, k);
    }
  }

  /** A key under no slot is not in the slots' union. */
  lemma {:induction false} SlotOut<V>(n: Node<V>, i: bv32, k: Key)
    requires n.ArrayNode? && |n.slots| == 32 && i <= 32
    requires forall g: bv32 :: g < 32 && n.slots[g].Some? ==> k !in Contents(n.slots[g].value)
    ensures k !in SlotUnion(n, i)
    decreases i
  {
    if i != 0 {
      SlotOut(n, i - 1, k);
    }
  }

  /** Every key of one of the nodes is a key of the union. */
  lemma {:induction false} UnionHas<V>(cs: seq<Node<V>>, i: nat, k: Key)
    requires i < |cs| && k in Contents(cs[i])
    ensures k in Union(cs)
    decreases |cs|
  {
    var init := cs[..|cs| - 1];
    if i < |cs| - 1 {
      assert init[i] == cs[i];
      UnionHas(init, i, k);
    }
  }

  /** Every key under slot `f` is a key of the slots' union. */
  lemma {:induction false} SlotHas<V>(n: Node<V>, i: bv32, f: bv32, k: Key)
    requires n.ArrayNode? && |n.slots| == 32 && f < i <= 32
    requires n.slots[f].Some? && k in Contents(n.slots[f].value)
    ensures k in SlotUnion(n, i)
    decreases i
  {
    if f < i - 1 {
      SlotHas(n, i - 1, f, k);
    }
  }

  /** Some slot is non-empty when the count of non-empty slots is positive. */
  lemma {:induction false} SomeSlot<V>(ss: seq<Option<Node<V>>>, i: bv32) returns (f: bv32)
    requires |ss| == 32 && i <= 32 && SomeCount(ss, i) > 0
    ensures f < i && ss[f].Some?
    decreases i
  {
    if ss[i - 1].Some? {
      f := i - 1;
    } else {
      f := SomeSlot(ss, i - 1);
    }
  }

  /** Slots that differ at most at `f` differ in their count by what each holds at `f`. */
  lemma {:induction false} SomeCountChange<V>(ss: seq<Option<Node<V>>>, ts: seq<Option<Node<V>>>, f: bv32, i: bv32)
    requires |ss| == 32 && |ts| == 32 && f < 32 && i <= 32
    requires forall g: bv32 :: g < 32 && g != f ==> ss[g] == ts[g]
    ensures SomeCount(ts, i) + (if f < i && ss[f].Some? then 1 else 0)
         == SomeCount(ss, i) + (if f < i && ts[f].Some? then 1 else 0)
    decreases i
  {
    if i != 0 {
      SomeCountChange(ss, ts, f, i - 1);
      PastStep(f, i);
    }
  }

  // ---------------------------------------------------------------------------
  // The collision scan
  // ---------------------------------------------------------------------------

  /** Whether member `m` is the leaf for key `k` (the `strcmp` test). */
  predicate HasKey<V>(m: Node<V>, k: Key) {
    m.Leaf? && m.key == k
  }

  /**
   * The scan over a collision's members (hamt.c:409-414, 501-506, 553-556):
   * the index of the first member holding `k`, if any.
   */
  function Scan<V>(ms: seq<Node<V>>, k: Key): (r: Option<nat>)
    ensures r.Some? ==> r.value < |ms| && HasKey(ms[r.value], k)
    ensures r.Some? ==> forall j :: 0 <= j < r.value ==> !HasKey(ms[j], k)
    ensures r.None? <==> forall j :: 0 <= j < |ms| ==> !HasKey(ms[j], k)
    decreases |ms|
  {
    if |ms| == 0 then None
    else if HasKey(ms[0], k) then Some(0)
    else match Scan(ms[1..], k)
      case None => None
      case Some(i) => Some(i + 1)
  }

  // ---------------------------------------------------------------------------
  // Where a key lives in a well-formed node
  // ---------------------------------------------------------------------------

  /** A key is under a branch exactly when its bit is set and it is under the child at its position. */
  lemma BranchRoute<V>(n: Node<V>, d: nat, k: Key)
    requires n.Branch? && BranchRouting(n.bitmap, n.children, d)
    ensures Bit(n.bitmap, KeyFrag(k, d)) ==> Position(n.bitmap, KeyFrag(k, d)) < |n.children|
    ensures Get(Contents(n), k) ==
      if Bit(n.bitmap, KeyFrag(k, d))
      then Get(Contents(n.children[Position(n.bitmap, KeyFrag(k, d))]), k)
      else None
  {
    var b, cs, f := n.bitmap, n.children, KeyFrag(k, d);
    if Bit(b, f) {
      PositionBelowPopcount(b, f);
      var p := Position(b, f);
      if k in Contents(cs[p]) {
        UnionAt(cs, p, k);
      } else if k in Contents(n) {
        var i := UnionIn(cs, k);
      }
    } else if k in Contents(n) {
      var i := UnionIn(cs, k);
    }
  }

  /** A key is under an array node exactly when it is under the slot of its fragment. */
  lemma ArrayRoute<V>(n: Node<V>, d: nat, k: Key)
    requires n.ArrayNode? && SlotRouting(n.slots, d)
    ensures Get(Contents(n), k) ==
      var s := n.slots[KeyFrag(k, d)];
      if s.Some? then Get(Contents(s.value), k) else None
  {
    var f := KeyFrag(k, d);
    var s := n.slots[f];
    if s.Some? && k in Contents(s.value) {
      SlotAt(n, 32, f, k);
    } else if k in Contents(n) {
      var g := SlotIn(n, 32, k);
    }
  }

  /** A key is under a collision exactly when the scan finds its member. */
  lemma CollisionRoute<V>(n: Node<V>, d: nat, k: Key)
    requires n.Collision? && WF(n, d)
    ensures Get(Contents(n), k) ==
      match Scan(n.members, k)
      case Some(i) => Some(n.members[i].value)
      case None => None
  {
    var ms := n.members;
    match Scan(ms, k)
    case Some(i) =>
      UnionAt(ms, i, k);
    case None =>
      if k in Contents(n) {
        var i := UnionIn(ms, k);
      }
  }

  /** A well-formed node holds at least one entry. */
  lemma {:induction false} NonEmpty<V>(n: Node<V>, d: nat) returns (k: Key)
    requires WF(n, d)
    ensures k in Contents(n)
    decreases n
  {
    match n
    case Leaf(_, key, _) =>
      k := key;
    case Collision(_, ms) =>
      k := ms[0].key;
      UnionHas(ms, 0, k);
    case Branch(_, cs) =>
      k := NonEmpty(cs[0], d + 1);
      UnionHas(cs, 0, k);
    case ArrayNode(_, ss) =>
      var f := SomeSlot(ss, 32);
      k := NonEmpty(ss[f].value, d + 1);
      SlotHas(n, 32, f, k);
  }

  /** The keys under a leaf or collision all have the node's hash. */
  lemma LeafHashes<V>(n: Node<V>, d: nat, k: Key)
    requires IsLeaf(n) && WF(n, d) && k in Contents(n)
    ensures HashOf(k) == n.hash
  {
    if n.Collision? {
      var i := UnionIn(n.members, k);
    }
  }
}
