/**
 hashKey of abc.java: the djb2 hash over the four big-endian bytes of a 32-bit
 key. Java's int arithmetic wraps modulo 2^32 and its bytes are signed, and
 both are written out here.
 */
module KeyHash {

  const TWO32: int := 0x1_0000_0000

  /** A value of Java's int type. */
  predicate IsInt32(v: int)
  {
    -0x8000_0000 <= v < 0x8000_0000
  }

  /** The Java int that an integer wraps to. */
  function WrapInt32(v: int): (r: int)
    ensures IsInt32(r)
    ensures (r - v) % TWO32 == 0
  {
    var m := v % TWO32;
    if m >= 0x8000_0000 then m - TWO32 else m
  }

  /** A Java byte read from its unsigned bit pattern. */
  function SignedByte(u: int): (b: int)
    requires 0 <= u < 256
    ensures -128 <= b < 128 && (b - u) % 256 == 0
    ensures b % 256 == u
  {
    if u >= 128 then u - 256 else u
  }

  /** ByteBuffer.allocate(4).putInt(key).array(): the bytes of key, most
      significant first. */
  function KeyBytes(key: int): (bs: seq<int>)
    requires IsInt32(key)
    ensures |bs| == 4
    ensures forall i | 0 <= i < 4 :: -128 <= bs[i] < 128
    ensures (bs[0] % 256) * 0x100_0000 + (bs[1] % 256) * 0x1_0000 + (bs[2] % 256) * 0x100 + bs[3] % 256
            == key % TWO32
  {
    var u := key % TWO32;
    Base256(u);
    [SignedByte(u / 0x100_0000), SignedByte(u / 0x1_0000 % 256), SignedByte(u / 0x100 % 256), SignedByte(u % 256)]
  }

  /** The base-256 digits of a 32-bit pattern, most significant first. */
  lemma Base256(u: int)
    requires 0 <= u < TWO32
    ensures 0 <= u / 0x100_0000 < 256
    ensures u == (u / 0x100_0000) * 0x100_0000 + (u / 0x1_0000 % 256) * 0x1_0000 + (u / 0x100 % 256) * 0x100 + u % 256
  {
    var v1 := u / 0x100;
    var v2 := v1 / 0x100;
    var v3 := v2 / 0x100;
    assert u == v1 * 0x100 + u % 0x100;
    assert v1 == v2 * 0x100 + v1 % 0x100;
    assert v2 == v3 * 0x100 + v2 % 0x100;
    assert v2 == u / 0x1_0000 && v3 == u / 0x100_0000;
  }

  /** One round of the loop: hash = ((hash << 5) + hash) + b, in int arithmetic.
      The shift and both additions wrap modulo 2^32, so the round is
      hash * 33 + b wrapped once. */
  function Round(hash: int, b: int): (r: int)
    ensures IsInt32(r)
    ensures (r - (hash * 33 + b)) % TWO32 == 0
  {
    WrapInt32(hash * 33 + b)
  }

  /** The rounds applied to the bytes, from the left. */
  function Rounds(hash: int, bs: seq<int>): (r: int)
    requires IsInt32(hash)
    ensures IsInt32(r)
    decreases |bs|
  {
    if bs == [] then hash else Rounds(Round(hash, bs[0]), bs[1..])
  }

  /** hashKey(key), starting from 5381: the unbounded djb2 hash of the key's
      signed bytes, wrapped to an int. */
  function HashKey(key: int): (h: int)
    requires IsInt32(key)
    ensures IsInt32(h)
    ensures h == WrapInt32(Djb2(5381, KeyBytes(key)))
  {
    RoundsWrapOnce(5381, KeyBytes(key));
    Rounds(5381, KeyBytes(key))
  }

  /** The key check compares hashes only, and two different eight-digit keys
      share one: 12345678 (0x00BC614E) and 12345901 (0x00BC622D) have the
      same djb2 value even before wrap-around. */
  lemma HashKeyCollides()
    ensures HashKey(12345678) == HashKey(12345901)
  {
    assert KeyBytes(12345678) == [0, -68, 97, 78];
    assert KeyBytes(12345901) == [0, -68, 98, 45];
    assert Djb2(5381, [0, -68, 97, 78]) == 6381370128;
    assert Djb2(5381, [0, -68, 98, 45]) == 6381370128;
  }

  // ---------------------------------------------------------------------------
  // Wrapping once at the end

  /** djb2 over unbounded integers: no wrap-around anywhere. */
  function Djb2(hash: int, bs: seq<int>): int
    decreases |bs|
  {
    if bs == [] then hash else Djb2(hash * 33 + bs[0], bs[1..])
  }

  function Pow33(n: nat): int
  {
    if n == 0 then 1 else 33 * Pow33(n - 1)
  }

  /** Java's per-round wrap-around gives the unbounded djb2 value wrapped once:
      the rounds agree with the mathematical hash modulo 2^32. */
  lemma {:induction false} RoundsWrapOnce(hash: int, bs: seq<int>)
    requires IsInt32(hash)
    ensures Rounds(hash, bs) == WrapInt32(Djb2(hash, bs))
    decreases |bs|
  {
    if bs == [] {
      WrapIdentity(hash);
    } else {
      var exact := hash * 33 + bs[0];
      var r := Round(hash, bs[0]);
      RoundsWrapOnce(r, bs[1..]);
      var k := (r - exact) / TWO32;
      assert r == exact + k * TWO32;
      Djb2Shift(exact, k * TWO32, bs[1..]);
      MultipleOfTwo32(k * Pow33(|bs[1..]|));
      assert Djb2(r, bs[1..]) - Djb2(exact, bs[1..]) == (k * Pow33(|bs[1..]|)) * TWO32;
      WrapCongruent(Djb2(r, bs[1..]), Djb2(exact, bs[1..]));
    }
  }

  /** Shifting the starting hash by d shifts the result by d * 33^|bs|. */
  lemma {:induction false} Djb2Shift(hash: int, d: int, bs: seq<int>)
    ensures Djb2(hash + d, bs) == Djb2(hash, bs) + d * Pow33(|bs|)
    decreases |bs|
  {
    if bs != [] {
      var h1 := hash * 33 + bs[0];
      assert (hash + d) * 33 + bs[0] == h1 + d * 33;
      Djb2Shift(h1, d * 33, bs[1..]);
      assert d * 33 * Pow33(|bs[1..]|) == d * Pow33(|bs|);
    }
  }

  lemma WrapIdentity(v: int)
    requires IsInt32(v)
    ensures WrapInt32(v) == v
  {
  }

  lemma WrapCongruent(a: int, b: int)
    requires (a - b) % TWO32 == 0
    ensures WrapInt32(a) == WrapInt32(b)
  {
    assert a % TWO32 == b % TWO32 by {
      var q := (a - b) / TWO32;
      assert a == b + q * TWO32;
      ModShift(b, q);
    }
  }

  lemma ModShift(b: int, q: int)
    ensures (b + q * TWO32) % TWO32 == b % TWO32
  {
  }

  lemma MultipleOfTwo32(m: int)
    ensures (m * TWO32) % TWO32 == 0
  {
  }
}
