/**
 * The map itself (hamt.c:66-68, 117-126, 461-527, 716-729): a mutable handle
 * whose root is NULL for the empty map or the root node of the trie. Setting
 * and removing replace the root; looking up walks down from it.
 */
module HamtMap {
  import opened Bits
  import opened Hash
  import opened Nodes
  import opened Insertion
  import opened InsertProofs
  import opened Removal
  import opened RemoveProofs

  /** Every node lies on every hash's path at depth 0: no fragment has been consumed yet. */
  lemma UnderRoot<V>(n: Node<V>, hash: bv32)
    ensures Under(n, hash, 0)
  {
  }

  /** A well-formed root, or none. */
  ghost predicate RootWF<V>(root: Option<Node<V>>) {
    root.Some? ==> WF(root.value, 0)
  }

  /** The entries of a root: none for NULL. */
  function RootContents<V>(root: Option<Node<V>>): map<Key, V> {
    if root.Some? then Contents(root.value) else map[]
  }

  /** The root after hamt_set (hamt.c:461-471): a new leaf for an empty map, else the insertion at depth 0. */
  function Planted<V>(root: Option<Node<V>>, key: Key, value: V): Node<V>
    requires RootWF(root)
  {
    if root.None? then Leaf(HashOf(key), key, value)
    else
      UnderRoot(root.value, HashOf(key));
      Insert(root.value, 0, HashOf(key), key, value)
  }

  /** The root after hamt_remove (hamt.c:716-729): NULL stays NULL, else the removal at depth 0. */
  function Uprooted<V(==)>(root: Option<Node<V>>, key: Key): Option<Node<V>>
    requires RootWF(root)
  {
    if root.None? then None else Remove(root.value, 0, HashOf(key), key)
  }

  /** Setting keeps the root well formed and maps `key` to `value`, all else unchanged. */
  lemma PlantedCorrect<V>(root: Option<Node<V>>, key: Key, value: V)
    requires RootWF(root)
    ensures WF(Planted(root, key, value), 0)
    ensures Contents(Planted(root, key, value)) == RootContents(root)[key := value]
  {
    if root.Some? {
      UnderRoot(root.value, HashOf(key));
      InsertCorrect(root.value, 0, HashOf(key), key, value);
    } else {
      assert Contents(Leaf(HashOf(key), key, value)) == map[][key := value];
    }
  }

  /** Removing keeps the root well formed, drops `key` and nothing else, and leaves NULL exactly when nothing is left. */
  lemma UprootedCorrect<V>(root: Option<Node<V>>, key: Key)
    requires RootWF(root)
    ensures RootWF(Uprooted(root, key))
    ensures RootContents(Uprooted(root, key)) == RootContents(root) - {key}
    ensures Uprooted(root, key).None? <==> RootContents(root) - {key} == map[]
  {
    var hash := HashOf(key);
    if root.Some? {
      RemoveCorrect(root.value, 0, hash, key);
      var r := Remove(root.value, 0, hash, key);
      if r.Some? {
        var k := NonEmpty(r.value, 0);
      }
    } else {
      var e: map<Key, V> := map[];
      assert e - {key} == e;
    }
  }

  /** A well-formed root is NULL exactly when the map is empty. */
  lemma RootEmpty<V>(root: Option<Node<V>>)
    requires RootWF(root)
    ensures root.None? <==> RootContents(root) == map[]
  {
    if root.Some? {
      var k := NonEmpty(root.value, 0);
    }
  }

  /** After setting `key`, looking it up finds `value`. */
  lemma SetThenGet<V>(root: Option<Node<V>>, key: Key, value: V)
    requires RootWF(root)
    ensures Get(Contents(Planted(root, key, value)), key) == Some(value)
  {
    PlantedCorrect(root, key, value);
  }

  /** After removing `key`, looking it up finds nothing. */
  lemma RemoveThenGet<V>(root: Option<Node<V>>, key: Key)
    requires RootWF(root)
    ensures Get(RootContents(Uprooted(root, key)), key) == None
  {
    UprootedCorrect(root, key);
  }

  /** Removing an absent key gives back the very root it was given. */
  lemma RemoveMissing<V>(root: Option<Node<V>>, key: Key)
    requires RootWF(root) && key !in RootContents(root)
    ensures Uprooted(root, key) == root
  {
    if root.Some? {
      RemoveAbsent(root.value, 0, HashOf(key), key);
    }
  }

  /** The root after setting each of `ks` to `value` in turn, as repeated hamt_set calls leave it. */
  function SetAll<V>(root: Option<Node<V>>, ks: seq<Key>, value: V): (r: Option<Node<V>>)
    requires RootWF(root)
    ensures RootWF(r)
    decreases |ks|
  {
    if ks == [] then root
    else
      PlantedCorrect(root, ks[0], value);
      SetAll(Some(Planted(root, ks[0], value)), ks[1..], value)
  }

  /** Setting `ks` and then `more` is setting `ks + more`. */
  lemma {:induction false} SetAllSplit<V>(root: Option<Node<V>>, ks: seq<Key>, more: seq<Key>, value: V)
    requires RootWF(root)
    ensures SetAll(root, ks + more, value) == SetAll(SetAll(root, ks, value), more, value)
    decreases |ks|
  {
    if ks == [] {
      assert ks + more == more;
    } else {
      assert (ks + more)[0] == ks[0] && (ks + more)[1..] == ks[1..] + more;
      PlantedCorrect(root, ks[0], value);
      SetAllSplit(Some(Planted(root, ks[0], value)), ks[1..], more, value);
    }
  }

  /** The root after removing each of `ks` in turn, as repeated hamt_remove calls leave it. */
  function RemoveAll<V(==)>(root: Option<Node<V>>, ks: seq<Key>): (r: Option<Node<V>>)
    requires RootWF(root)
    ensures RootWF(r)
    decreases |ks|
  {
    if ks == [] then root
    else
      UprootedCorrect(root, ks[0]);
      RemoveAll(Uprooted(root, ks[0]), ks[1..])
  }

  /** The keys of a sequence of keys, as a set. */
  ghost function KeySet(ks: seq<Key>): set<Key> {
    set k | k in ks
  }

  /** Setting each of `ks` adds exactly those keys, each mapped to `value`, and keeps the other entries. */
  lemma {:induction false} SetAllContents<V>(root: Option<Node<V>>, ks: seq<Key>, value: V)
    requires RootWF(root)
    ensures RootContents(SetAll(root, ks, value)).Keys == RootContents(root).Keys + KeySet(ks)
    ensures forall k :: k in KeySet(ks) ==> RootContents(SetAll(root, ks, value))[k] == value
    ensures forall k :: k in RootContents(root) && k !in KeySet(ks) ==>
      RootContents(SetAll(root, ks, value))[k] == RootContents(root)[k]
    decreases |ks|
  {
    if ks != [] {
      PlantedCorrect(root, ks[0], value);
      var next := Some(Planted(root, ks[0], value));
      SetAllContents(next, ks[1..], value);
      assert KeySet(ks) == {ks[0]} + KeySet(ks[1..]) by {
        assert ks == [ks[0]] + ks[1..];
      }
    }
  }

  /** Removing each of `ks` drops exactly those keys and keeps the other entries. */
  lemma {:induction false} RemoveAllContents<V>(root: Option<Node<V>>, ks: seq<Key>)
    requires RootWF(root)
    ensures RootContents(RemoveAll(root, ks)) == RootContents(root) - KeySet(ks)
    decreases |ks|
  {
    if ks == [] {
      assert KeySet(ks) == {};
      assert RootContents(root) - {} == RootContents(root);
    } else {
      UprootedCorrect(root, ks[0]);
      RemoveAllContents(Uprooted(root, ks[0]), ks[1..]);
      assert KeySet(ks) == {ks[0]} + KeySet(ks[1..]) by {
        assert ks == [ks[0]] + ks[1..];
      }
      assert RootContents(root) - {ks[0]} - KeySet(ks[1..]) == RootContents(root) - KeySet(ks);
    }
  }

  /** Setting a list of keys into an empty map and then removing them all leaves a NULL root. */
  lemma SetThenRemoveAll<V>(ks: seq<Key>, value: V)
    ensures RemoveAll(SetAll(None, ks, value), ks) == None
  {
    var full := SetAll(None, ks, value);
    SetAllContents(None, ks, value);
    RemoveAllContents(full, ks);
    assert RootContents(full).Keys == KeySet(ks);
    assert RootContents(full) - KeySet(ks) == map[];
    RootEmpty(RemoveAll(full, ks));
  }

  /** hamt_t (hamt.c:66-68): the handle on a trie, with its root or NULL. */
  class Hamt<V(==)> {
    var root: Option<Node<V>>

    ghost predicate Valid()
      reads this
    {
      RootWF(root)
    }

    /** The map the trie stands for. */
    ghost function Entries(): map<Key, V>
      reads this
    {
      RootContents(root)
    }

    /** create_hamt (hamt.c:117-126): the empty map, with a NULL root. */
    constructor ()
      ensures Valid() && root.None? && Entries() == map[]
    {
      root := None;
    }

    /** hamt_set (hamt.c:461-471): `key` now maps to `value`; the root is never NULL afterwards. */
    method Set(key: Key, value: V)
      requires Valid()
      modifies this
      ensures Valid()
      ensures root == Some(Planted(old(root), key, value))
      ensures Entries() == old(Entries())[key := value]
    {
      var hash := GetHash(key);
      PlantedCorrect(root, key, value);
      if root.Some? {
        UnderRoot(root.value, hash);
        root := Some(Insert(root.value, 0, hash, key, value));
      } else {
        root := Some(Leaf(hash, key, value));
      }
    }

    /** hamt_remove (hamt.c:716-729): `key` is gone and nothing else; the root is NULL exactly when the map is empty. */
    method Remove(key: Key)
      requires Valid()
      modifies this
      ensures Valid()
      ensures root == Uprooted(old(root), key)
      ensures Entries() == old(Entries()) - {key}
      ensures root.None? <==> Entries() == map[]
    {
      var hash := GetHash(key);
      UprootedCorrect(root, key);
      if root.Some? {
        root := Removal.Remove(root.value, 0, hash, key);
      }
    }

    /**
     * hamt_get (hamt.c:476-527): walks down from the root along the key's
     * fragments, scanning a collision's members, and yields the value stored
     * for `key`, or NULL.
     */
    method Get(key: Key) returns (r: Option<V>)
      requires Valid()
      ensures r == Nodes.Get(Entries(), key)
    {
      var hash := GetHash(key);
      var node := root;
      var depth: nat := 0;
      while true
        invariant Leads(node, depth, key, Entries())
        decreases MAX_DEPTH + 1 - depth
      {
        if node.None? {
          return None;
        }
        var next, done;
        next, done, r := Visit(node.value, depth, hash, key, Entries());
        if done {
          return;
        }
        node, depth := next, depth + 1;
      }
    }
  }

  /**
   * The `switch` in the loop of hamt_get (hamt.c:484-525): a branch moves on
   * to the child at the key's position or answers NULL; an array node moves
   * on to the key's slot or answers NULL when it is empty; a collision or a
   * leaf answers with the value stored for the key, or NULL.
   */
  method Visit<V>(n: Node<V>, depth: nat, hash: bv32, key: Key, ghost m: map<Key, V>)
    returns (next: Option<Node<V>>, done: bool, r: Option<V>)
    requires Leads(Some(n), depth, key, m) && hash == HashOf(key)
    ensures done ==> r == Get(m, key)
    ensures !done ==> depth <= MAX_DEPTH && next.Some? && Leads(next, depth + 1, key, m)
  {
    next, done, r := None, true, None;
    match n
    case Branch(_, _) =>
      next, done := VisitBranch(n, depth, hash, key, m);
    case Collision(_, ms) =>
      CollisionRoute(n, depth, key);
      r := ScanMembers(ms, key);
    case Leaf(_, k, v) =>
      if k == key {
        r := Some(v);
      }
    case ArrayNode(_, _) =>
      next, done := VisitArrayNode(n, depth, hash, key, m);
  }

  /** The branch case of hamt_get (hamt.c:489-500). */
  method VisitBranch<V>(n: Node<V>, depth: nat, hash: bv32, key: Key, ghost m: map<Key, V>)
    returns (next: Option<Node<V>>, done: bool)
    requires n.Branch? && Leads(Some(n), depth, key, m) && hash == HashOf(key)
    ensures done ==> Get(m, key) == None
    ensures !done ==> depth <= MAX_DEPTH && next.Some? && Leads(next, depth + 1, key, m)
  {
    var b, cs := n.bitmap, n.children;
    BranchStep(n, depth, key, m);
    var frag := Frag(hash, depth);
    if MaskSet(b, frag) {
      var idx := Position(b, frag);
      next, done := Some(cs[idx]), false;
    } else {
      next, done := None, true;
    }
  }

  /** The array node case of hamt_get (hamt.c:518-524). */
  method VisitArrayNode<V>(n: Node<V>, depth: nat, hash: bv32, key: Key, ghost m: map<Key, V>)
    returns (next: Option<Node<V>>, done: bool)
    requires n.ArrayNode? && Leads(Some(n), depth, key, m) && hash == HashOf(key)
    ensures done ==> Get(m, key) == None
    ensures !done ==> depth <= MAX_DEPTH && next.Some? && Leads(next, depth + 1, key, m)
  {
    ArrayStep(n, depth, key, m);
    next := n.slots[Frag(hash, depth)];
    done := next.None?;
  }

  /**
   * The walk of hamt_get has reached `node` at `depth`, and looking `key` up
   * under `node` is looking it up in `m`.
   */
  ghost predicate Leads<V>(node: Option<Node<V>>, depth: nat, key: Key, m: map<Key, V>) {
    depth <= MAX_DEPTH + 1
    && (node.Some? ==> WF(node.value, depth))
    && Get(m, key) == Get(RootContents(node), key)
  }

  /** One step down a branch: on to the child at the key's position, or nowhere when its bit is clear. */
  lemma BranchStep<V>(n: Node<V>, depth: nat, key: Key, m: map<Key, V>)
    requires n.Branch? && Leads(Some(n), depth, key, m)
    ensures depth <= MAX_DEPTH
    ensures Bit(n.bitmap, KeyFrag(key, depth)) ==> Position(n.bitmap, KeyFrag(key, depth)) < |n.children|
    ensures Bit(n.bitmap, KeyFrag(key, depth)) ==>
      Leads(Some(n.children[Position(n.bitmap, KeyFrag(key, depth))]), depth + 1, key, m)
    ensures !Bit(n.bitmap, KeyFrag(key, depth)) ==> Get(m, key) == None
  {
    var b, f := n.bitmap, KeyFrag(key, depth);
    BranchRoute(n, depth, key);
    if Bit(b, f) {
      PositionBelowPopcount(b, f);
      assert WF(n.children[Position(b, f)], depth + 1);
    }
  }

  /** One step down an array node: on to the child in the key's slot, which may be empty. */
  lemma ArrayStep<V>(n: Node<V>, depth: nat, key: Key, m: map<Key, V>)
    requires n.ArrayNode? && Leads(Some(n), depth, key, m)
    ensures depth <= MAX_DEPTH && |n.slots| == 32
    ensures Leads(n.slots[KeyFrag(key, depth)], depth + 1, key, m)
  {
    ArrayRoute(n, depth, key);
  }

  /**
   * The scan of a collision's members in hamt_get (hamt.c:501-506): the
   * value of the first member holding `key`, or NULL.
   */
  method ScanMembers<V>(ms: seq<Node<V>>, key: Key) returns (r: Option<V>)
    ensures r == match Scan(ms, key) case Some(i) => Some(ms[i].value) case None => None
  {
    var i := 0;
    while i < |ms|
      invariant i <= |ms|
      invariant forall j :: 0 <= j < i ==> !HasKey(ms[j], key)
    {
      if ms[i].Leaf? && ms[i].key == key {
        return Some(ms[i].value);
      }
      i := i + 1;
    }
    return None;
  }

  /** A map used as the C programs use it: set, get, remove, get. */
  method SetGetRemove<V(==)>(key: Key, value: V) returns (found: Option<V>, gone: Option<V>)
    ensures found == Some(value) && gone == None
  {
    var h := new Hamt<V>();
    h.Set(key, value);
    found := h.Get(key);
    h.Remove(key);
    gone := h.Get(key);
  }
}
