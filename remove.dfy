/**
 * Removal (hamt.c:530-729): one transition rule per node kind, each
 * returning the node that replaces the one it was given, `None` where the C
 * returns NULL because nothing is left.
 *
 * The C tells "nothing changed" by getting back the very pointer it passed
 * down. Here that is value equality with the node passed down. A node that
 * lost an entry never equals the node it came from, so the two tests agree.
 * The value type therefore needs equality, as `void *` has.
 */
module Removal {
  import opened Bits
  import opened Hash
  import opened Nodes
  import opened Children
  import opened Compression

  /** What the C relies on when it calls `remove_node`: a well-formed node, and the key's hash. */
  ghost predicate RemovePre<V>(n: Node<V>, depth: nat, hash: bv32, key: Key) {
    WF(n, depth) && hash == HashOf(key)
  }

  /** remove_node (hamt.c:530-545): dispatches on the node kind. */
  function Remove<V(==)>(n: Node<V>, depth: nat, hash: bv32, key: Key): Option<Node<V>>
    requires RemovePre(n, depth, hash, key)
    decreases n, 1
  {
    match n
    case Leaf(_, _, _) => LeafRemove(n, depth, hash, key)
    case Branch(_, _) => BranchRemove(n, depth, hash, key)
    case Collision(_, _) => CollisionRemove(n, depth, hash, key)
    case ArrayNode(_, _) => ArrayNodeRemove(n, depth, hash, key)
  }

  /** handle_leaf_removal (hamt.c:627-634): the leaf of the key goes; any other leaf stays. */
  function LeafRemove<V>(n: Node<V>, depth: nat, hash: bv32, key: Key): Option<Node<V>>
    requires n.Leaf? && RemovePre(n, depth, hash, key)
  {
    if n.key == key then None else Some(n)
  }

  /**
   * handle_collision_removal (hamt.c:551-570). With the collision's hash, the
   * member holding the key is cut out. More than one member left keeps a
   * collision; a single one replaces it (the collapse of hamt.c:564). Anything
   * else leaves the collision as it is.
   */
  function CollisionRemove<V>(n: Node<V>, depth: nat, hash: bv32, key: Key): Option<Node<V>>
    requires n.Collision? && RemovePre(n, depth, hash, key)
  {
    var ms := n.members;
    if n.hash == hash then
      match Scan(ms, key)
      case Some(i) =>
        var rest := RemoveAt(ms, i);
        if |ms| - 1 > 1 then Some(Collision(n.hash, rest)) else Some(rest[0])
      case None => Some(n)
    else Some(n)
  }

  /**
   * handle_branch_removal (hamt.c:576-620). A clear bit leaves the branch as
   * it is; otherwise the key is removed from the child at its position and
   * `BranchRebuild` decides what takes the branch's place.
   */
  function BranchRemove<V(==)>(n: Node<V>, depth: nat, hash: bv32, key: Key): Option<Node<V>>
    requires n.Branch? && RemovePre(n, depth, hash, key)
    decreases n, 0
  {
    var b, cs := n.bitmap, n.children;
    var f := Frag(hash, depth);
    MaskTest(b, f);
    if b & Mask(f) == 0 then Some(n)
    else
      PositionBelowPopcount(b, f);
      BranchRebuild(n, f, Remove(cs[Position(b, f)], depth + 1, hash, key))
  }

  /**
   * What replaces a branch whose child for fragment `f` became `next`
   * (hamt.c:587-619). A child that did not change leaves the branch as it
   * is. A child that emptied clears its bit: no bit left gives NULL, a leaf
   * sibling of a two-child branch takes the branch's place, and otherwise
   * the child is cut out. A child that changed replaces the old one, except
   * that a sole child that is now a leaf or collision takes the branch's
   * place.
   */
  function BranchRebuild<V(==)>(n: Node<V>, f: bv32, next: Option<Node<V>>): Option<Node<V>>
    requires n.Branch? && f < 32 && Bit(n.bitmap, f) && |n.children| == Popcount(n.bitmap)
  {
    var b, cs := n.bitmap, n.children;
    var pos := Position(b, f);
    var size := Popcount(b);
    PositionBelowPopcount(b, f);
    var child := cs[pos];
    if next == Some(child) then Some(n)
    else if next.None? then
      var nb := b & !Mask(f);
      if nb == 0 then None
      // with two children `pos` is 0 or 1, and the C's `pos ^ 1` is `1 - pos`
      else if size == 2 && IsLeaf(cs[1 - pos]) then Some(cs[1 - pos])
      else Some(Branch(nb, RemoveAt(cs, pos)))
    else if size == 1 && IsLeaf(next.value) then next
    else Some(Branch(b, cs[pos := next.value]))
  }

  /**
   * handle_arraynode_removal (hamt.c:671-707). An empty slot leaves the
   * array node as it is; otherwise the key is removed from the child in the
   * slot and `ArrayNodeRebuild` decides what takes the node's place.
   */
  function ArrayNodeRemove<V(==)>(n: Node<V>, depth: nat, hash: bv32, key: Key): Option<Node<V>>
    requires n.ArrayNode? && RemovePre(n, depth, hash, key)
    decreases n, 0
  {
    var idx := Frag(hash, depth);
    match n.slots[idx]
    case None => Some(n)
    case Some(child) => ArrayNodeRebuild(n, idx, Remove(child, depth + 1, hash, key))
  }

  /**
   * What replaces an array node whose child in slot `idx` became `next`
   * (hamt.c:682-706). A child that did not change leaves the node as it is.
   * A child that emptied either compresses the node into a branch of the
   * other children, when at most MIN_ARRAY_NODE_SIZE would be left, or
   * clears its slot and counts one less. A child that changed replaces the
   * old one.
   */
  function ArrayNodeRebuild<V(==)>(n: Node<V>, idx: bv32, next: Option<Node<V>>): Option<Node<V>>
    requires n.ArrayNode? && |n.slots| == 32 && idx < 32 && n.slots[idx].Some?
  {
    if next == n.slots[idx] then Some(n)
    else if next.None? then
      if n.count - 1 <= MIN_ARRAY_NODE_SIZE
      then Some(Branch(CompressBits(n.slots, idx), CompressChildren(n.slots, idx)))
      else Some(ArrayNode(n.count - 1, n.slots[idx := None]))
    else Some(ArrayNode(n.count, n.slots[idx := next]))
  }
}
