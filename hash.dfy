/**
 * Keys and their hash (hamt.c:168-180). A key is a C string: the bytes before
 * its terminating NUL. The C code adds each `char` to an `unsigned int`, so a
 * byte of 128 or more is sign-extended first (`char` is signed on the usual
 * targets); the hash wraps around modulo 2^32 like the `unsigned int` it is.
 */
module Hash {

  /** A key: the bytes of a C string, which cannot contain the terminator. */
  type Key = s: seq<bv8> | 0 !in s

  /** A signed `char` promoted to `unsigned int`: its low byte, sign-extended. */
  function Widen(c: bv8): (w: bv32)
    ensures w & 0xFF == c as bv32
    ensures c < 128 ==> w >> 8 == 0
    ensures c >= 128 ==> w >> 8 == 0xFF_FFFF
  {
    if c < 128 then c as bv32 else (c as bv32) | 0xFFFF_FF00
  }

  /** One step of the hash loop (hamt.c:176): shift by five, subtract, add the character. */
  function Step(hash: bv32, c: bv8): bv32 {
    ((hash << 5) - hash) + Widen(c)
  }

  /**
   * The expression of the loop step is the usual multiply-by-31 string hash,
   * modulo 2^32: for every hash `h` and widened character `w`, the value
   * `Step` computes equals `h * 31 + w`.
   */
  lemma StepIsTimes31(h: bv32, w: bv32)
    ensures ((h << 5) - h) + w == h * 31 + w
  {
    assert h << 5 == h * 32;
  }

  /** The hash reached from `hash` after consuming the characters of `s` in order. */
  function HashFrom(hash: bv32, s: seq<bv8>): bv32
    decreases |s|
  {
    if |s| == 0 then hash else HashFrom(Step(hash, s[0]), s[1..])
  }

  /** The hash of a key, as `get_hash` computes it from 0. */
  function HashOf(s: seq<bv8>): bv32 {
    HashFrom(0, s)
  }

  /** Hashing a concatenation continues from the hash of the first part. */
  lemma {:induction false} HashFromAppend(hash: bv32, s: seq<bv8>, t: seq<bv8>)
    ensures HashFrom(hash, s + t) == HashFrom(HashFrom(hash, s), t)
    decreases |s|
  {
    if |s| == 0 {
      assert s + t == t;
    } else {
      assert (s + t)[1..] == s[1..] + t;
      HashFromAppend(Step(hash, s[0]), s[1..], t);
    }
  }

  /** Extending a key by one character is one more loop step. */
  lemma HashOfSnoc(s: seq<bv8>, c: bv8)
    ensures HashOf(s + [c]) == Step(HashOf(s), c)
  {
    HashFromAppend(0, s, [c]);
    assert [c][1..] == [];
  }

  /**
   * get_hash (hamt.c:171-180): walks the string up to its NUL, folding each
   * character into `hash`.
   */
  method GetHash(key: Key) returns (hash: bv32)
    ensures hash == HashOf(key)
  {
    var str := key + [0];
    hash := 0;
    var ptr := 0;
    while str[ptr] != 0
      invariant 0 <= ptr <= |key|
      invariant HashFrom(hash, key[ptr..]) == HashOf(key)
      decreases |key| - ptr
    {
      assert key[ptr..][1..] == key[ptr + 1..];
      hash := Step(hash, str[ptr]);
      ptr := ptr + 1;
    }
  }

  /** The keys "Aa" and "BB" collide: both hash to 2112 (65 * 31 + 97 == 66 * 31 + 66). */
  lemma AaBBCollide()
    ensures HashOf([65, 97]) == HashOf([66, 66]) == 2112
  {
  }
}
