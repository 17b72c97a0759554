/** SHA-1 as FIPS 180-4 defines it, for messages of whole bytes. */
module Sha1 {
  import opened Arith

  /** A 32-bit word: added as a number modulo 2^32, combined bit by bit as a bit vector. */
  type Word = n: nat | n < 0x1_0000_0000

  function Bits(x: Word): bv32 {
    x as bv32
  }

  function Value(v: bv32): Word {
    v as nat
  }

  function Add(a: Word, b: Word): Word {
    (a + b) % 0x1_0000_0000
  }

  function Rotl1(x: bv32): bv32 {
    (x << 1) | (x >> 31)
  }

  function Rotl5(x: bv32): bv32 {
    (x << 5) | (x >> 27)
  }

  function Rotl30(x: bv32): bv32 {
    (x << 30) | (x >> 2)
  }

  // Section 4.1.1: Ch, Parity, Maj.

  function Ch(x: bv32, y: bv32, z: bv32): bv32 {
    (x & y) ^ (!x & z)
  }

  function Parity(x: bv32, y: bv32, z: bv32): bv32 {
    x ^ y ^ z
  }

  function Maj(x: bv32, y: bv32, z: bv32): bv32 {
    (x & y) ^ (x & z) ^ (y & z)
  }

  function F(t: nat, x: bv32, y: bv32, z: bv32): bv32 {
    if t < 20 then Ch(x, y, z)
    else if t < 40 then Parity(x, y, z)
    else if t < 60 then Maj(x, y, z)
    else Parity(x, y, z)
  }

  // Section 4.2.1.

  function K(t: nat): Word {
    if t < 20 then 0x5a827999
    else if t < 40 then 0x6ed9eba1
    else if t < 60 then 0x8f1bbcdc
    else 0xca62c1d6
  }

  function Xor4(a: bv32, b: bv32, c: bv32, d: bv32): bv32 {
    a ^ b ^ c ^ d
  }

  /** Section 5.1.1: a one bit, zeros up to 448 modulo 512, and the length in bits. */
  function Pad(m: seq<bv8>): seq<bv8> {
    m + [0x80] + seq(Filling(|m|), _ => 0) + Length64(8 * |m|)
  }

  /** The number of zero bytes in the padding. */
  function Filling(n: nat): nat {
    (119 - n % 64) % 64
  }

  /** Eight bytes, most significant first. */
  function Length64(n: nat): (bytes: seq<bv8>)
    ensures |bytes| == 8
  {
    [Byte(n, 0x100_0000_0000_0000), Byte(n, 0x1_0000_0000_0000), Byte(n, 0x100_0000_0000), Byte(n, 0x1_0000_0000),
     Byte(n, 0x100_0000), Byte(n, 0x1_0000), Byte(n, 0x100), Byte(n, 1)]
  }

  function Byte(n: nat, unit: nat): bv8
    requires unit > 0
  {
    ((n / unit) % 256) as bv8
  }

  /** Section 5.2.1: word i of a block, big-endian. */
  function M(block: seq<bv8>, i: nat): Word
    requires |block| == 64 && i < 16
  {
    Value(BigEndian(block[4 * i], block[4 * i + 1], block[4 * i + 2], block[4 * i + 3]))
  }

  function BigEndian(a: bv8, b: bv8, c: bv8, d: bv8): bv32 {
    ((a as bv32) << 24) | ((b as bv32) << 16) | ((c as bv32) << 8) | (d as bv32)
  }

  /** Section 6.1.2, step 1: the message schedule. */
  function W(block: seq<bv8>, t: nat): Word
    requires |block| == 64
  {
    if t < 16 then M(block, t)
    else Value(Rotl1(Xor4(Bits(W(block, t - 3)), Bits(W(block, t - 8)), Bits(W(block, t - 14)), Bits(W(block, t - 16)))))
  }

  datatype Regs = Regs(a: Word, b: Word, c: Word, d: Word, e: Word)

  /** Section 5.3.1. */
  const START: Regs := Regs(0x67452301, 0xefcdab89, 0x98badcfe, 0x10325476, 0xc3d2e1f0)

  /** Step 3: one round. */
  function Round(r: Regs, t: nat, w: Word): Regs {
    var f := Value(F(t, Bits(r.b), Bits(r.c), Bits(r.d)));
    var temp := Add(Add(Add(Add(Value(Rotl5(Bits(r.a))), f), r.e), K(t)), w);
    Regs(temp, r.a, Value(Rotl30(Bits(r.b))), r.c, r.d)
  }

  /** The first t rounds from a chaining value. */
  function Rounds(start: Regs, block: seq<bv8>, t: nat): Regs
    requires |block| == 64
    decreases t
  {
    if t == 0 then start else Round(Rounds(start, block, t - 1), t - 1, W(block, t - 1))
  }

  /** Step 4: the chaining value after a block. */
  function AddRegs(h: Regs, r: Regs): Regs {
    Regs(Add(r.a, h.a), Add(r.b, h.b), Add(r.c, h.c), Add(r.d, h.d), Add(r.e, h.e))
  }

  lemma ShorterByOne(m: seq<bv8>)
    requires m != [] && |m| % 64 == 0
    ensures |m| >= 64 && (|m| - 64) % 64 == 0
  {}

  /** Step through the blocks of a padded message. */
  function Blocks(h: Regs, m: seq<bv8>): Regs
    requires |m| % 64 == 0
    decreases |m|
  {
    if m == [] then h
    else
      ShorterByOne(m);
      Blocks(AddRegs(h, Rounds(h, m[..64], 80)), m[64..])
  }

  lemma PaddedWhole(m: seq<bv8>)
    ensures |Pad(m)| % 64 == 0
  {
    hide Length64;
    FillingFits(|m|);
    assert |Pad(m)| == |m| + 1 + Filling(|m|) + 8;
  }

  lemma FillingFits(n: nat)
    ensures (n + 1 + Filling(n) + 8) % 64 == 0
  {
    var q, r := n / 64, n % 64;
    if r <= 55 {
      DivModUnique(119 - r, 64, 1, 55 - r);
      Multiple(n + 1 + Filling(n) + 8, 64, q + 1);
    } else {
      DivModUnique(119 - r, 64, 0, 119 - r);
      Multiple(n + 1 + Filling(n) + 8, 64, q + 2);
    }
  }

  /** The four constants are the integer parts of 2^30 times the square roots of 2, 3, 5 and 10. */
  lemma KIsRoot(t: nat)
    requires t < 80
    ensures var n := if t < 20 then 2 else if t < 40 then 3 else if t < 60 then 5 else 10;
            K(t) * K(t) <= n * 0x1000_0000_0000_0000 < (K(t) + 1) * (K(t) + 1)
  {}

  /** The initial hash words are the bytes 01 23 45 67 89 ab cd ef and back, and f0 e1 d2 c3, each
      word least significant byte first. */
  lemma StartIsCount()
    ensures START.a == 0x01 + 0x100 * 0x23 + 0x1_0000 * 0x45 + 0x100_0000 * 0x67
    ensures START.b == 0x89 + 0x100 * 0xab + 0x1_0000 * 0xcd + 0x100_0000 * 0xef
    ensures START.c == 0xfe + 0x100 * 0xdc + 0x1_0000 * 0xba + 0x100_0000 * 0x98
    ensures START.d == 0x76 + 0x100 * 0x54 + 0x1_0000 * 0x32 + 0x100_0000 * 0x10
    ensures START.e == 0xf0 + 0x100 * 0xe1 + 0x1_0000 * 0xd2 + 0x100_0000 * 0xc3
  {}

  /** The message digest. */
  function Digest(m: seq<bv8>): Regs {
    PaddedWhole(m);
    Blocks(START, Pad(m))
  }
}
