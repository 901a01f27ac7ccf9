/**
 * Keys whose hashes clash, and the buffer a collision node grows in.
 *
 * merge_leaves (hamt.c:297-301) gives a new collision node a children buffer
 * of MIN_COLLISION_NODE_SIZE entries, and handle_collision_insert
 * (hamt.c:416-418) appends every further member to that same buffer with
 * insert_child, never growing it. The model's collision (`CollisionInsert`)
 * holds any number of members; this module shows keys that reach the ninth
 * member and what the C's append does with it.
 */
module Collisions {
  import opened Hash
  import opened Nodes
  import opened Children
  import opened Insertion
  import opened InsertProofs
  import opened HamtMap

  // ---------------------------------------------------------------------------
  // Keys built from "Aa" and "BB"
  // ---------------------------------------------------------------------------

  /** The two-character blocks "Aa" and "BB". */
  function Block(b: bool): seq<bv8> {
    if b then [65, 97] else [66, 66]
  }

  /** The key spelled by a row of blocks, "Aa" for each `true` and "BB" for each `false`. */
  function Word(bs: seq<bool>): (k: Key)
    ensures |k| == 2 * |bs|
  {
    if bs == [] then [] else Block(bs[0]) + Word(bs[1..])
  }

  /**
   * The hash of any row of `n` blocks, for `n` up to 8: 0, and then each
   * level 961 times the one before plus 2112, modulo 2^32.
   */
  const Levels: seq<bv32> :=
    [0, 2112, 2031744, 1952508096, 3754541312, 341674304, 1931493760, 739633600, 2118287872]

  /** "Aa" leads from each level to the next. */
  lemma AaStep(n: nat)
    requires n < 8
    ensures HashFrom(Levels[n], Block(true)) == Levels[n + 1]
  {
    if n == 0 {
    } else if n == 1 {
    } else if n == 2 {
    } else if n == 3 {
    } else if n == 4 {
    } else if n == 5 {
    } else if n == 6 {
    } else {
    }
  }

  /** "BB" leads from each level to the next. */
  lemma BBStep(n: nat)
    requires n < 8
    ensures HashFrom(Levels[n], Block(false)) == Levels[n + 1]
  {
    if n == 0 {
    } else if n == 1 {
    } else if n == 2 {
    } else if n == 3 {
    } else if n == 4 {
    } else if n == 5 {
    } else if n == 6 {
    } else {
    }
  }

  /** From level `n`, a row of blocks leads to the level that many blocks higher, whichever blocks it holds. */
  lemma {:induction false} WordLevel(n: nat, bs: seq<bool>)
    requires n + |bs| <= 8
    ensures HashFrom(Levels[n], Word(bs)) == Levels[n + |bs|]
    decreases |bs|
  {
    if bs != [] {
      HashFromAppend(Levels[n], Block(bs[0]), Word(bs[1..]));
      if bs[0] {
        AaStep(n);
      } else {
        BBStep(n);
      }
      WordLevel(n + 1, bs[1..]);
    }
  }

  /** Different rows of blocks spell different keys. */
  lemma {:induction false} WordInjective(bs: seq<bool>, cs: seq<bool>)
    requires |bs| == |cs| && Word(bs) == Word(cs)
    ensures bs == cs
    decreases |bs|
  {
    if bs != [] {
      assert Word(bs)[0] == Block(bs[0])[0];
      assert Word(cs)[0] == Block(cs[0])[0];
      assert Word(bs)[2..] == Word(bs[1..]);
      assert Word(cs)[2..] == Word(cs[1..]);
      WordInjective(bs[1..], cs[1..]);
      assert bs == [bs[0]] + bs[1..] && cs == [cs[0]] + cs[1..];
    }
  }

  /** The `i`-th key of a family of sixteen-character keys: `i` blocks "Aa", then "BB" up to eight blocks. */
  function Stair(i: int): Key {
    Word(seq(8, t => t < i))
  }

  /** The nine keys `Stair(0)` to `Stair(8)` are distinct and all hash to 2118287872. */
  lemma StairsCollide()
    ensures forall i, j :: 0 <= i < j <= 8 ==> Stair(i) != Stair(j)
    ensures forall i :: 0 <= i <= 8 ==> HashOf(Stair(i)) == Levels[8]
  {
    forall i, j | 0 <= i < j <= 8
      ensures Stair(i) != Stair(j)
    {
      var bi: seq<bool> := seq(8, t => t < i);
      var bj: seq<bool> := seq(8, t => t < j);
      assert bi[i] != bj[i];
      if Stair(i) == Stair(j) {
        WordInjective(bi, bj);
      }
    }
    forall i | 0 <= i <= 8
      ensures HashOf(Stair(i)) == Levels[8]
    {
      WordLevel(0, seq(8, t => t < i));
    }
  }

  // ---------------------------------------------------------------------------
  // A collision grows by one member per new key
  // ---------------------------------------------------------------------------

  /** The leaves of `ks` under hash `h`, in order. */
  function Leaves<V>(h: bv32, ks: seq<Key>, value: V): (r: seq<Node<V>>)
    ensures |r| == |ks|
    ensures forall i :: 0 <= i < |ks| ==> r[i] == Leaf(h, ks[i], value)
  {
    seq(|ks|, i requires 0 <= i < |ks| => Leaf(h, ks[i], value))
  }

  /** No member of `ms` holds any of the keys `ks`. */
  predicate Fresh<V>(ms: seq<Node<V>>, ks: seq<Key>) {
    forall i, j :: 0 <= i < |ks| && 0 <= j < |ms| ==> !HasKey(ms[j], ks[i])
  }

  /** A key of a collision's hash held by none of its members is appended as its last member. */
  lemma CollisionGrows<V>(n: Node<V>, key: Key, value: V)
    requires n.Collision? && WF(n, 0) && HashOf(key) == n.hash
    requires forall j :: 0 <= j < |n.members| ==> !HasKey(n.members[j], key)
    ensures Planted(Some(n), key, value) == Collision(n.hash, n.members + [Leaf(n.hash, key, value)])
    ensures WF(Planted(Some(n), key, value), 0)
  {
    assert Scan(n.members, key).None?;
    PlantedCorrect(Some(n), key, value);
  }

  /** After the first key is appended, the others are still held by no member. */
  lemma StillFresh<V>(ms: seq<Node<V>>, leaf: Node<V>, ks: seq<Key>)
    requires ks != [] && Fresh(ms, ks) && leaf.Leaf? && leaf.key == ks[0]
    requires forall i :: 0 < i < |ks| ==> ks[i] != ks[0]
    ensures Fresh(ms + [leaf], ks[1..])
  {
    forall i, j | 0 <= i < |ks[1..]| && 0 <= j < |ms + [leaf]|
      ensures !HasKey((ms + [leaf])[j], ks[1..][i])
    {
      assert ks[1..][i] == ks[i + 1];
      if j < |ms| {
        assert (ms + [leaf])[j] == ms[j];
      }
    }
  }

  /** Distinct keys, all of hash `h`. */
  predicate Colliding(ks: seq<Key>, h: bv32) {
    && (forall i :: 0 <= i < |ks| ==> HashOf(ks[i]) == h)
    && (forall i, j :: 0 <= i < j < |ks| ==> ks[i] != ks[j])
  }

  /** The keys after the first of a colliding family collide too. */
  lemma CollidingTail(ks: seq<Key>, h: bv32)
    requires ks != [] && Colliding(ks, h)
    ensures Colliding(ks[1..], h)
    ensures forall i :: 0 < i < |ks| ==> ks[i] != ks[0]
  {
    assert forall i :: 0 <= i < |ks[1..]| ==> ks[1..][i] == ks[i + 1];
  }

  /** Appending the first leaf, then the leaves of the other keys, appends the leaves of all keys. */
  lemma LeavesCons<V>(ms: seq<Node<V>>, h: bv32, ks: seq<Key>, value: V)
    requires ks != []
    ensures ms + [Leaf(h, ks[0], value)] + Leaves(h, ks[1..], value) == ms + Leaves(h, ks, value)
  {
  }

  /** Distinct keys of a collision's hash, held by none of its members, pile up at its end in order. */
  lemma {:induction false} CollisionPiles<V>(n: Node<V>, ks: seq<Key>, value: V)
    requires n.Collision? && WF(n, 0) && Fresh(n.members, ks) && Colliding(ks, n.hash)
    ensures SetAll(Some(n), ks, value) == Some(Collision(n.hash, n.members + Leaves(n.hash, ks, value)))
    decreases |ks|
  {
    if ks == [] {
      assert n.members + Leaves(n.hash, ks, value) == n.members;
    } else {
      var leaf := Leaf(n.hash, ks[0], value);
      CollidingTail(ks, n.hash);
      CollisionGrows(n, ks[0], value);
      StillFresh(n.members, leaf, ks);
      var n2 := Collision(n.hash, n.members + [leaf]);
      CollisionPiles(n2, ks[1..], value);
      LeavesCons(n.members, n.hash, ks, value);
    }
  }

  /** Two distinct keys of one hash set into an empty map make a collision, the second key first. */
  lemma FirstCollision<V>(k0: Key, k1: Key, value: V)
    requires HashOf(k0) == HashOf(k1) && k0 != k1
    ensures SetAll(None, [k0, k1], value) == Some(Pile(HashOf(k0), [k0, k1], value))
    ensures WF(Pile(HashOf(k0), [k0, k1], value), 0)
  {
    var h := HashOf(k0);
    var first := Leaf(h, k0, value);
    assert Planted(None, k0, value) == first;
    assert Planted(Some(first), k1, value) == Collision(h, [Leaf(h, k1, value), first]);
    assert [k0, k1][1..] == [k1] && [k1][1..] == [];
    assert SetAll(None, [k0, k1], value) == SetAll(Some(first), [k1], value);
    assert SetAll(Some(first), [k1], value) == Some(Collision(h, [Leaf(h, k1, value), first]));
    assert Pile(h, [k0, k1], value) == Collision(h, [Leaf(h, k1, value), first]);
  }

  /** The collision that keys `ks` of hash `h` make: the second key first, then the first, then the rest in order. */
  function Pile<V>(h: bv32, ks: seq<Key>, value: V): (n: Node<V>)
    requires |ks| >= 2
    ensures n.Collision? && n.hash == h && |n.members| == |ks|
  {
    Collision(h, [Leaf(h, ks[1], value), Leaf(h, ks[0], value)] + Leaves(h, ks[2..], value))
  }

  /** A key that is none of `ks` is held by no member of their collision. */
  lemma PileFresh<V>(h: bv32, ks: seq<Key>, value: V, key: Key)
    requires |ks| >= 2 && key !in ks
    ensures Fresh(Pile(h, ks, value).members, [key])
  {
    var ms := Pile(h, ks, value).members;
    forall j | 0 <= j < |ms|
      ensures !HasKey(ms[j], key)
    {
      if j >= 2 {
        assert ms[j] == Leaf(h, ks[2..][j - 2], value);
      }
    }
  }

  /** Setting a colliding family of two or more keys into an empty map gives their collision. */
  lemma CollisionFills<V>(ks: seq<Key>, value: V)
    requires |ks| >= 2 && Colliding(ks, HashOf(ks[0]))
    ensures SetAll(None, ks, value) == Some(Pile(HashOf(ks[0]), ks, value))
  {
    var h := HashOf(ks[0]);
    var n := Pile(h, [ks[0], ks[1]], value);
    FirstTwo(ks, value);
    FreshPair(ks, value);
    CollidingTail(ks, h);
    CollidingTail(ks[1..], h);
    assert ks[1..][1..] == ks[2..];
    CollisionPiles(n, ks[2..], value);
    assert n.members + Leaves(h, ks[2..], value) == Pile(h, ks, value).members;
  }

  /** Setting a colliding family is setting the rest of it into the collision of its first two keys. */
  lemma FirstTwo<V>(ks: seq<Key>, value: V)
    requires |ks| >= 2 && Colliding(ks, HashOf(ks[0]))
    ensures RootWF(Some(Pile(HashOf(ks[0]), [ks[0], ks[1]], value)))
    ensures SetAll(None, ks, value) == SetAll(Some(Pile(HashOf(ks[0]), [ks[0], ks[1]], value)), ks[2..], value)
  {
    FirstCollision(ks[0], ks[1], value);
    SplitTwo(ks, value);
  }

  /** Setting two or more keys is setting the first two, then the rest. */
  lemma SplitTwo<V>(ks: seq<Key>, value: V)
    requires |ks| >= 2
    ensures SetAll(None, ks, value) == SetAll(SetAll(None, [ks[0], ks[1]], value), ks[2..], value)
  {
    SetAllSplit(None, [ks[0], ks[1]], ks[2..], value);
    assert [ks[0], ks[1]] + ks[2..] == ks;
  }

  /** The keys after the first two are held by neither of the first two leaves. */
  lemma FreshPair<V>(ks: seq<Key>, value: V)
    requires |ks| >= 2 && Colliding(ks, HashOf(ks[0]))
    ensures Fresh(Pile(HashOf(ks[0]), [ks[0], ks[1]], value).members, ks[2..])
  {
  }

  /** The nine keys `Stair(0)` to `Stair(8)`. */
  function Stairs(): (ks: seq<Key>)
    ensures |ks| == 9
  {
    seq(9, i => Stair(i))
  }

  /** The nine stair keys form a colliding family, and so do the first eight. */
  lemma StairsColliding()
    ensures Colliding(Stairs(), HashOf(Stair(0)))
    ensures Colliding(Stairs()[..8], HashOf(Stair(0)))
    ensures Stairs()[8] !in Stairs()[..8]
  {
    StairsAll();
    CollidingPrefix(Stairs(), HashOf(Stair(0)), 8);
  }

  /** The nine stair keys form a colliding family. */
  lemma StairsAll()
    ensures Colliding(Stairs(), HashOf(Stair(0)))
  {
    StairsCollide();
    var ks := Stairs();
    assert forall i :: 0 <= i < 9 ==> ks[i] == Stair(i);
  }

  /** The first `n` keys of a colliding family collide too, and the next key is none of them. */
  lemma CollidingPrefix(ks: seq<Key>, h: bv32, n: nat)
    requires Colliding(ks, h) && n < |ks|
    ensures Colliding(ks[..n], h) && ks[n] !in ks[..n]
  {
    assert forall i :: 0 <= i < n ==> ks[..n][i] == ks[i];
  }

  /**
   * Nine distinct keys of one hash, set in turn into an empty map: after the
   * first eight the root is a collision of eight members, filling the
   * MIN_COLLISION_NODE_SIZE entries merge_leaves allocated, so the C's append
   * of the ninth writes past the buffer; the model's collision takes it as a
   * ninth member.
   */
  lemma NinthKeyOverflows<V>(value: V)
    ensures var ks := Stairs();
      var h := HashOf(ks[0]);
      var r := SetAll(None, ks[..8], value);
      && r.Some? && r.value.Collision? && |r.value.members| == MIN_COLLISION_NODE_SIZE
      && InsertChildAsWritten(r.value.members, Leaf(h, ks[8], value), |r.value.members|, |r.value.members|).None?
      && SetAll(None, ks, value) == Some(Collision(h, r.value.members + [Leaf(h, ks[8], value)]))
  {
    StairsColliding();
    Overflows(Stairs(), value);
  }

  /** The same for any nine distinct keys of one hash. */
  lemma Overflows<V>(ks: seq<Key>, value: V)
    requires |ks| == 9 && Colliding(ks[..8], HashOf(ks[0])) && HashOf(ks[8]) == HashOf(ks[0]) && ks[8] !in ks[..8]
    ensures var h := HashOf(ks[0]);
      var r := SetAll(None, ks[..8], value);
      && r.Some? && r.value.Collision? && |r.value.members| == MIN_COLLISION_NODE_SIZE
      && InsertChildAsWritten(r.value.members, Leaf(h, ks[8], value), |r.value.members|, |r.value.members|).None?
      && SetAll(None, ks, value) == Some(Collision(h, r.value.members + [Leaf(h, ks[8], value)]))
  {
    var h := HashOf(ks[0]);
    var eight := ks[..8];
    assert eight[0] == ks[0];
    CollisionFills(eight, value);
    var n := Pile(h, eight, value);
    PileFresh(h, eight, value, ks[8]);
    Ninth(n, ks[8], value);
    SetAllSplit(None, eight, [ks[8]], value);
    assert eight + [ks[8]] == ks;
  }

  /** Setting one more key of a collision's hash, held by none of its members, appends it. */
  lemma Ninth<V>(n: Node<V>, key: Key, value: V)
    requires n.Collision? && WF(n, 0) && HashOf(key) == n.hash && Fresh(n.members, [key])
    ensures SetAll(Some(n), [key], value) == Some(Collision(n.hash, n.members + [Leaf(n.hash, key, value)]))
  {
    assert forall j :: 0 <= j < |n.members| ==> !HasKey(n.members[j], [key][0]);
    CollisionGrows(n, key, value);
    assert [key][1..] == [];
  }
}
