/** The 32-bit FNV-1a hash that pins flows, and the cancellation of common suffixes. */
module Fnv {
  import opened Bytes

  const OFFSET_BASIS: U32 := 0x811c9dc5
  const PRIME := 0x01000193
  const U32_RANGE := 0x1_0000_0000

  // ----- Exclusive or on numbers, bit by bit -----

  function Xor(a: nat, b: nat): nat
    decreases a + b
  {
    if a == 0 && b == 0 then 0 else (a % 2 + b % 2) % 2 + 2 * Xor(a / 2, b / 2)
  }

  lemma {:induction false} XorCommutes(a: nat, b: nat)
    ensures Xor(a, b) == Xor(b, a)
    decreases a + b
  {
    if a != 0 || b != 0 {
      XorCommutes(a / 2, b / 2);
    }
  }

  lemma XorParts(a: nat, b: nat)
    ensures Xor(a, b) % 2 == (a % 2 + b % 2) % 2 && Xor(a, b) / 2 == Xor(a / 2, b / 2)
  {
    if a != 0 || b != 0 {
      HalvesOf((a % 2 + b % 2) % 2, Xor(a / 2, b / 2));
    }
  }

  lemma HalvesOf(low: nat, high: nat)
    requires low < 2
    ensures (low + 2 * high) % 2 == low && (low + 2 * high) / 2 == high
  {}

  lemma {:induction false} XorUndone(a: nat, b: nat)
    ensures Xor(Xor(a, b), b) == a
    decreases a + b
  {
    if a != 0 || b != 0 {
      XorParts(a, b);
      XorUndone(a / 2, b / 2);
      XorTwice(a, b, Xor(a, b));
    }
  }

  /** One bit of undoing: the low bits cancel and the high parts are left to the halves. */
  lemma XorTwice(a: nat, b: nat, x: nat)
    requires x == Xor(a, b) && Xor(x / 2, b / 2) == a / 2
    ensures Xor(x, b) == a
  {
    XorParts(a, b);
    XorParts(x, b);
    ParityCancels(a % 2, b % 2);
  }

  lemma ParityCancels(a: nat, b: nat)
    requires a < 2 && b < 2
    ensures ((a + b) % 2 + b) % 2 == a
  {}

  function Pow2(n: nat): nat { if n == 0 then 1 else 2 * Pow2(n - 1) }

  lemma {:induction false} XorBounded(a: nat, b: nat, n: nat)
    requires a < Pow2(n) && b < Pow2(n)
    ensures Xor(a, b) < Pow2(n)
    decreases n
  {
    if n > 0 {
      XorBounded(a / 2, b / 2, n - 1);
    }
  }

  lemma XorInU32(a: U32, b: Byte)
    ensures Xor(a, b) < U32_RANGE
  {
    assert Pow2(8) == 0x100 && Pow2(16) == 0x1_0000 && Pow2(24) == 0x100_0000 && Pow2(32) == U32_RANGE;
    XorBounded(a, b, 32);
  }

  // ----- The hash -----

  function WrappingMul(h: nat): U32 { h * PRIME % U32_RANGE }

  function Step(hash: U32, b: Byte): U32 { WrappingMul(Xor(hash, b)) }

  function HashFrom(hash: U32, bytes: seq<Byte>): U32
    decreases |bytes|
  {
    if |bytes| == 0 then hash else HashFrom(Step(hash, bytes[0]), bytes[1..])
  }

  function Hash(bytes: seq<Byte>): U32 { HashFrom(OFFSET_BASIS, bytes) }

  method Fnv1a(bytes: seq<Byte>) returns (hash: U32)
    ensures hash == Hash(bytes)
  {
    hash := OFFSET_BASIS;
    for i := 0 to |bytes|
      invariant HashFrom(hash, bytes[i..]) == Hash(bytes)
    {
      XorInU32(hash, bytes[i]);
      assert bytes[i..][1..] == bytes[i + 1..];
      hash := Xor(hash, bytes[i]);
      hash := WrappingMul(hash);
    }
  }

  // ----- Nothing is lost -----

  /** The prime is odd, so multiplying by it can be undone modulo 2^32. */
  lemma PrimeInvertible(g: U32, h: U32)
    requires WrappingMul(g) == WrappingMul(h)
    ensures g == h
  {
    var inverse := 0x359c449b;
    var k := g * PRIME / U32_RANGE - h * PRIME / U32_RANGE;
    assert (g - h) * PRIME == k * U32_RANGE;
    var t := (PRIME * inverse - 1) / U32_RANGE;
    assert PRIME * inverse == 1 + t * U32_RANGE;
    assert (g - h) * PRIME * inverse == k * U32_RANGE * inverse;
    assert g - h == U32_RANGE * (k * inverse - t * (g - h));
  }

  /** One step loses nothing of the hash. */
  lemma StepInjective(g: U32, h: U32, b: Byte)
    requires Step(g, b) == Step(h, b)
    ensures g == h
  {
    XorInU32(g, b);
    XorInU32(h, b);
    PrimeInvertible(Xor(g, b), Xor(h, b));
    XorUndone(g, b);
    XorUndone(h, b);
  }

  /** Nor of the byte. */
  lemma StepSeparates(h: U32, a: Byte, b: Byte)
    requires Step(h, a) == Step(h, b)
    ensures a == b
  {
    XorInU32(h, a);
    XorInU32(h, b);
    PrimeInvertible(Xor(h, a), Xor(h, b));
    XorCommutes(h, a);
    XorCommutes(h, b);
    XorUndone(a, h);
    XorUndone(b, h);
  }

  lemma {:induction false} HashFromAppend(h: U32, p: seq<Byte>, s: seq<Byte>)
    ensures HashFrom(h, p + s) == HashFrom(HashFrom(h, p), s)
    decreases |p|
  {
    if |p| == 0 {
      assert p + s == s;
    } else {
      HashFromAppend(Step(h, p[0]), p[1..], s);
      assert (p + s)[1..] == p[1..] + s;
    }
  }

  lemma {:induction false} HashFromInjective(g: U32, h: U32, s: seq<Byte>)
    ensures HashFrom(g, s) == HashFrom(h, s) <==> g == h
    decreases |s|
  {
    if |s| > 0 {
      HashFromInjective(Step(g, s[0]), Step(h, s[0]), s[1..]);
      if Step(g, s[0]) == Step(h, s[0]) {
        StepInjective(g, h, s[0]);
      }
    }
  }

  /** A common suffix neither makes nor hides a collision. */
  lemma SuffixCancels(p: seq<Byte>, q: seq<Byte>, s: seq<Byte>)
    ensures Hash(p + s) == Hash(q + s) <==> Hash(p) == Hash(q)
  {
    HashFromAppend(OFFSET_BASIS, p, s);
    HashFromAppend(OFFSET_BASIS, q, s);
    HashFromInjective(Hash(p), Hash(q), s);
  }

  lemma HashOfLast(p: seq<Byte>, b: Byte)
    ensures Hash(p + [b]) == Step(Hash(p), b)
  {
    HashFromAppend(OFFSET_BASIS, p, [b]);
    assert [b][1..] == [];
  }

  /** Keys that differ in exactly one byte never collide. */
  lemma OneByteNeverCollides(p: seq<Byte>, a: Byte, b: Byte, s: seq<Byte>)
    requires a != b
    ensures Hash(p + [a] + s) != Hash(p + [b] + s)
  {
    SuffixCancels(p + [a], p + [b], s);
    HashOfLast(p, a);
    HashOfLast(p, b);
    if Step(Hash(p), a) == Step(Hash(p), b) {
      StepSeparates(Hash(p), a, b);
    }
  }

  // ----- The hash in terms of bits and constants -----

  /** Bit `i` of a number. */
  function Bit(a: nat, i: nat): nat
    decreases i
  {
    if i == 0 then a % 2 else Bit(a / 2, i - 1)
  }

  /** A bit of the exclusive or is set when exactly one of the two numbers has it. */
  lemma {:induction false} XorBits(a: nat, b: nat, i: nat)
    ensures Bit(Xor(a, b), i) == (Bit(a, i) + Bit(b, i)) % 2
    decreases i
  {
    XorParts(a, b);
    if i > 0 {
      XorBits(a / 2, b / 2, i - 1);
    }
  }

  /** The hash from its two constants: every byte is mixed in first, then multiplied away. */
  lemma HashByBytes(p: seq<Byte>, b: Byte)
    ensures Hash([]) == 0x811c9dc5
    ensures Hash(p + [b]) == Xor(Hash(p), b) * 0x01000193 % 0x1_0000_0000
  {
    HashOfLast(p, b);
  }

  lemma {:induction false} XorZero(a: nat)
    ensures Xor(a, 0) == a
  {
    if a > 0 {
      XorZero(a / 2);
    }
  }

  lemma XorIs(a: nat, b: nat, x: nat)
    requires Xor(a / 2, b / 2) == x / 2 && (a + b + x) % 2 == 0
    ensures Xor(a, b) == x
  {
    XorParts(a, b);
    OddOfThree(a, b, x);
    SameParts(Xor(a, b), x);
  }

  lemma OddOfThree(a: nat, b: nat, x: nat)
    requires (a + b + x) % 2 == 0
    ensures x % 2 == (a % 2 + b % 2) % 2
  {}

  lemma SameParts(x: nat, y: nat)
    requires x % 2 == y % 2 && x / 2 == y / 2
    ensures x == y
  {}

  lemma XorTwo(a: nat, b: nat, x: nat, a': nat, b': nat, x': nat)
    requires a' == a / 4 && b' == b / 4 && x' == x / 4 && Xor(a', b') == x'
    requires (a + b + x) % 2 == 0 && (a / 2 + b / 2 + x / 2) % 2 == 0
    ensures Xor(a, b) == x
  {
    assert a / 2 / 2 == a' && b / 2 / 2 == b' && x / 2 / 2 == x';
    XorIs(a / 2, b / 2, x / 2);
    XorIs(a, b, x);
  }

  lemma XorKnown(h: nat, b: nat, x: nat)
    requires h == 0x811c9dc5 && b == 0x61 && x == 0x811c9da4
    ensures Xor(h, b) == x
  {
    XorZero(h / 256);
    XorTwo(h / 64, b / 64, x / 64, h / 256, 0, x / 256);
    XorTwo(h / 16, b / 16, x / 16, h / 64, b / 64, x / 64);
    XorTwo(h / 4, b / 4, x / 4, h / 16, b / 16, x / 16);
    XorTwo(h, b, x, h / 4, b / 4, x / 4);
  }

  lemma HashGrows(p: seq<Byte>, b: Byte, h: nat, x: nat, next: nat)
    requires Hash(p) == h && Xor(h, b) == x && x * 0x01000193 % 0x1_0000_0000 == next
    ensures Hash(p + [b]) == next
  {
    HashByBytes(p, b);
  }

  lemma ProductKnown()
    ensures 0x811c9da4 * 0x01000193 % 0x1_0000_0000 == 0xe40c292c
  {}

  /** The hash of "a" is e40c292c. */
  lemma HashOfA(s: seq<Byte>)
    requires |s| == 1 && s[0] == 0x61
    ensures Hash(s) == 0xe40c292c
  {
    HashByBytes([], s[0]);
    ProductKnown();
    XorKnown(Hash([]), s[0], 0x811c9da4);
    HashGrows([], s[0], Hash([]), 0x811c9da4, 0xe40c292c);
    assert [] + [s[0]] == s;
  }
}
