/** ibsha33o.c: the MAC computation of the DS1961S, SHA-1 without its last addition. */
module ShaEE {
  import opened Arith
  import opened Sha1

  /** The C compiler's right shift of a signed int: the sign bit fills the `fill` bits. */
  function Sign(x: bv32, fill: bv32): bv32 {
    if x & 0x8000_0000 != 0 then fill else 0
  }

  function Masked1(x: bv32, fill: bv32): bv32 {
    ((x << 1) & 0xfffffffe) | (((x >> 31) | fill) & 0x00000001)
  }

  function Masked5(x: bv32, fill: bv32): bv32 {
    ((x << 5) & 0xffffffe0) | (((x >> 27) | fill) & 0x0000001f)
  }

  function Masked30(x: bv32, fill: bv32): bv32 {
    ((x << 30) & 0xc0000000) | (((x >> 2) | fill) & 0x3fffffff)
  }

  function CRotl1(x: bv32): bv32 {
    Masked1(x, Sign(x, 0xfffffffe))
  }

  function CRotl5(x: bv32): bv32 {
    Masked5(x, Sign(x, 0xffffffe0))
  }

  function CRotl30(x: bv32): bv32 {
    Masked30(x, Sign(x, 0xc0000000))
  }

  /** The masked signed shifts are rotations. */
  lemma Rotations(x: bv32)
    ensures CRotl1(x) == Rotl1(x) && CRotl5(x) == Rotl5(x) && CRotl30(x) == Rotl30(x)
  {
    hide Sign, Masked1, Masked5, Masked30, Rotl1, Rotl5, Rotl30;
    SignClear(x);
    Mask1(x, Sign(x, 0xfffffffe));
    Mask5(x, Sign(x, 0xffffffe0));
    Mask30(x, Sign(x, 0xc0000000));
  }

  lemma SignClear(x: bv32)
    ensures Sign(x, 0xfffffffe) & 1 == 0
    ensures Sign(x, 0xffffffe0) & 0x1f == 0
    ensures Sign(x, 0xc0000000) & 0x3fffffff == 0
  {
    if x & 0x8000_0000 != 0 {
    } else {
    }
  }

  lemma Mask1(x: bv32, f: bv32)
    requires f & 1 == 0
    ensures Masked1(x, f) == Rotl1(x)
  {}

  lemma Mask5(x: bv32, f: bv32)
    requires f & 0x1f == 0
    ensures Masked5(x, f) == Rotl5(x)
  {}

  lemma Mask30(x: bv32, f: bv32)
    requires f & 0x3fffffff == 0
    ensures Masked30(x, f) == Rotl30(x)
  {}

  function NLF(b: bv32, c: bv32, d: bv32, n: nat): bv32 {
    if n < 20 then (b & c) | (!b & d)
    else if n < 40 then b ^ c ^ d
    else if n < 60 then (b & c) | (b & d) | (c & d)
    else b ^ c ^ d
  }

  /** The OR forms are the standard's exclusive-or forms. */
  lemma NlfIsF(b: bv32, c: bv32, d: bv32, n: nat)
    ensures NLF(b, c, d, n) == F(n, b, c, d)
  {
    assert (b & c) | (!b & d) == (b & c) ^ (!b & d);
    assert (b & c) | (b & d) | (c & d) == (b & c) ^ (b & d) ^ (c & d);
  }

  function KTN(n: nat): Word {
    if n < 20 then 0x5a827999
    else if n < 40 then 0x6ed9eba1
    else if n < 60 then 0x8f1bbcdc
    else 0xca62c1d6
  }

  /** The order in which the five terms are added makes no difference. */
  lemma AddOrder(f: Word, e: Word, k: Word, w: Word, s: Word)
    ensures Add(Add(Add(Add(f, e), k), w), s) == Add(Add(Add(Add(s, f), e), k), w)
  {
    AddThree(f, e, k);
    AddThree(Add(f, e), k, w);
    AddThree(s, f, e);
    AddThree(s, Add(f, e), k);
    AddThree(s, Add(Add(f, e), k), w);
  }

  lemma AddThree(a: Word, b: Word, c: Word)
    ensures Add(Add(a, b), c) == Add(a, Add(b, c))
    ensures Add(a, b) == Add(b, a) && Add(Add(b, c), a) == Add(a, Add(b, c))
  {
    ModAdd(a + b, c, 0x1_0000_0000);
    ModAdd(b + c, a, 0x1_0000_0000);
  }

  /** ComputeSHAEE leaves in A to E the registers after the eighty rounds on its block. */
  method ComputeSHAEE(mt: array<bv8>) returns (a: Word, b: Word, c: Word, d: Word, e: Word)
    requires mt.Length == 64
    ensures Regs(a, b, c, d, e) == Rounds(START, mt[..], 80)
  {
    hide BigEndian, Rotl1, Rotl5, Rotl30, CRotl1, CRotl5, CRotl30, Xor4, Add, F, NLF, W, Bits, Value;
    ghost var block := mt[..];
    var words := Schedule(mt);
    a, b, c, d, e := 0x67452301, 0xefcdab89, 0x98badcfe, 0x10325476, 0xc3d2e1f0;
    var i := 0;
    while i < 80
      invariant 0 <= i <= 80
      invariant words.Length == 80 && forall t :: 0 <= t < 80 ==> words[t] == W(block, t)
      invariant Regs(a, b, c, d, e) == Rounds(START, block, i)
    {
      Rotations(Bits(a));
      Rotations(Bits(b));
      NlfIsF(Bits(b), Bits(c), Bits(d), i);
      SameK(i);
      var shftTmp := Value(CRotl5(Bits(a)));
      var f := Value(NLF(Bits(b), Bits(c), Bits(d), i));
      AddOrder(f, e, KTN(i), words[i], shftTmp);
      var temp := Add(Add(Add(Add(f, e), KTN(i)), words[i]), shftTmp);
      e := d;
      d := c;
      c := Value(CRotl30(Bits(b)));
      b := a;
      a := temp;
      i := i + 1;
    }
  }

  lemma SameK(n: nat)
    ensures KTN(n) == K(n)
  {}

  /** The two loops that fill MTword. */
  method Schedule(mt: array<bv8>) returns (words: array<Word>)
    requires mt.Length == 64
    ensures fresh(words) && words.Length == 80
    ensures forall t :: 0 <= t < 80 ==> words[t] == W(mt[..], t)
  {
    hide BigEndian, Rotl1, CRotl1, Xor4, Bits, Value;
    ghost var block := mt[..];
    words := new Word[80];
    var i := 0;
    while i < 16
      invariant 0 <= i <= 16 && mt[..] == block
      invariant forall t :: 0 <= t < i ==> words[t] == W(block, t)
    {
      words[i] := Value(BigEndian(mt[i * 4], mt[i * 4 + 1], mt[i * 4 + 2], mt[i * 4 + 3]));
      i := i + 1;
    }
    while i < 80
      invariant 16 <= i <= 80 && mt[..] == block
      invariant forall t :: 0 <= t < i ==> words[t] == W(block, t)
    {
      var shftTmp := Xor4(Bits(words[i - 3]), Bits(words[i - 8]), Bits(words[i - 14]), Bits(words[i - 16]));
      Rotations(shftTmp);
      words[i] := Value(CRotl1(shftTmp));
      i := i + 1;
    }
  }

  /** The 55 bytes CopyScratchSHAEE authenticates. */
  function Message(secret: seq<bv8>, memory: seq<bv8>, scratch: seq<bv8>, address: bv16, sn: seq<bv8>): (m: seq<bv8>)
    requires |secret| == 8 && |memory| >= 28 && |scratch| == 8 && |sn| >= 7
    ensures |m| == 55
  {
    secret[..4] + memory[..28] + scratch + [((address & 0xf0) >> 5) as bv8] + sn[..7] + secret[4..] + [0xff, 0xff, 0xff]
  }

  /** Where everything is in it: the secret in two halves, the first 28 bytes of the page, the
      scratchpad, the page number, the serial number without its CRC, and three bytes of ones. */
  lemma MessageLayout(secret: seq<bv8>, memory: seq<bv8>, scratch: seq<bv8>, address: bv16, sn: seq<bv8>)
    requires |secret| == 8 && |memory| >= 28 && |scratch| == 8 && |sn| >= 7
    ensures var m := Message(secret, memory, scratch, address, sn);
            && m[0..4] == secret[0..4] && m[48..52] == secret[4..8]
            && m[4..32] == memory[0..28] && m[32..40] == scratch
            && m[40] as bv16 == (address & 0xf0) >> 5 && m[41..48] == sn[0..7]
            && m[52] == m[53] == m[54] == 0xff
  {
    PageFits(address);
  }

  lemma PageFits(address: bv16)
    ensures (((address & 0xf0) >> 5) as bv8) as bv16 == (address & 0xf0) >> 5
  {}

  /** The block layout of CopyScratchSHAEE: the message and its padding. */
  method BuildBlock(secret: seq<bv8>, memory: seq<bv8>, scratch: seq<bv8>, address: bv16, sn: seq<bv8>)
    returns (mt: array<bv8>)
    requires |secret| == 8 && |memory| >= 28 && |scratch| == 8 && |sn| >= 7
    ensures fresh(mt) && mt.Length == 64
    ensures mt[..] == Pad(Message(secret, memory, scratch, address, sn))
  {
    hide Message, Pad;
    mt := new bv8[64](_ => 0);
    BuildMessage(mt, secret, memory, scratch, address, sn);
    ghost var m := Message(secret, memory, scratch, address, sn);
    assert mt[..55] == m;
    Fill(mt, 55, [0x80, 0, 0, 0, 0, 0, 0, 0x01, 0xB8]);
    PadOf55(m);
    assert mt[..] == mt[..64];
    TailOfBlock(m);
  }

  lemma TailOfBlock(m: seq<bv8>)
    ensures m + [0x80, 0, 0, 0, 0, 0, 0, 0x01, 0xB8] == m + [0x80] + [0, 0, 0, 0, 0, 0, 0x01, 0xB8]
  {}

  /** The first 55 bytes. */
  method BuildMessage(mt: array<bv8>, secret: seq<bv8>, memory: seq<bv8>, scratch: seq<bv8>, address: bv16, sn: seq<bv8>)
    requires |secret| == 8 && |memory| >= 28 && |scratch| == 8 && |sn| >= 7 && mt.Length == 64
    modifies mt
    ensures mt[..55] == Message(secret, memory, scratch, address, sn)
  {
    hide Message;
    var page := ((address & 0xf0) >> 5) as bv8;
    Fill(mt, 0, secret[..4]);
    assert mt[..0] + secret[..4] == secret[..4];
    Fill(mt, 4, memory[..28]);
    Fill(mt, 32, scratch);
    Fill(mt, 40, [page]);
    Fill(mt, 41, sn[..7]);
    Fill(mt, 48, secret[4..]);
    Fill(mt, 52, [0xff, 0xff, 0xff]);
    MessageIs(secret, memory, scratch, address, sn, mt[..55]);
  }

  /** One of the loops that copy a run of bytes into the block. */
  method Fill(mt: array<bv8>, at: nat, bytes: seq<bv8>)
    requires at + |bytes| <= mt.Length
    modifies mt
    ensures mt[..at + |bytes|] == old(mt[..at]) + bytes
  {
    var i := 0;
    while i < |bytes|
      invariant 0 <= i <= |bytes|
      invariant mt[..at + i] == old(mt[..at]) + bytes[..i]
    {
      mt[at + i] := bytes[i];
      assert mt[..at + (i + 1)] == mt[..at + i] + [bytes[i]];
      i := i + 1;
    }
  }

  lemma MessageIs(secret: seq<bv8>, memory: seq<bv8>, scratch: seq<bv8>, address: bv16, sn: seq<bv8>, m: seq<bv8>)
    requires |secret| == 8 && |memory| >= 28 && |scratch| == 8 && |sn| >= 7
    requires m == secret[..4] + memory[..28] + scratch + [((address & 0xf0) >> 5) as bv8] + sn[..7] + secret[4..]
                  + [0xff, 0xff, 0xff]
    ensures m == Message(secret, memory, scratch, address, sn)
  {}

  lemma PadOf55(m: seq<bv8>)
    requires |m| == 55
    ensures Pad(m) == m + [0x80] + [0, 0, 0, 0, 0, 0, 0x01, 0xB8]
  {
    hide Length64;
    LengthOf55();
    assert Filling(55) == 0;
  }

  lemma LengthOf55()
    ensures Length64(440) == [0, 0, 0, 0, 0, 0, 0x01, 0xB8]
  {
    ByteIs(440, 1, 0xB8);
    ByteIs(440, 0x100, 1);
    ByteIs(440, 0x1_0000, 0);
    ByteIs(440, 0x100_0000, 0);
    ByteIs(440, 0x1_0000_0000, 0);
    ByteIs(440, 0x100_0000_0000, 0);
    ByteIs(440, 0x1_0000_0000_0000, 0);
    ByteIs(440, 0x100_0000_0000_0000, 0);
    hide Byte;
  }

  lemma ByteIs(n: nat, unit: nat, x: nat)
    requires unit > 0 && x < 256 && (n / unit) % 256 == x
    ensures Byte(n, unit) == x as bv8
  {}

  /** Adding the initial hash words to the five results gives the SHA-1 digest of a message whose
      padding makes one block. */
  lemma AddingStartGivesDigest(m: seq<bv8>, r: Regs)
    requires |Pad(m)| == 64 && r == Rounds(START, Pad(m), 80)
    ensures AddRegs(START, r) == Digest(m)
  {
    hide Pad, Rounds, AddRegs;
    PaddedWhole(m);
    assert Pad(m)[..64] == Pad(m) && Pad(m)[64..] == [];
    var h := AddRegs(START, r);
    assert Blocks(h, []) == h;
  }

  /** The whole computation: block, rounds, digest. */
  method Mac(secret: seq<bv8>, memory: seq<bv8>, scratch: seq<bv8>, address: bv16, sn: seq<bv8>)
    returns (a: Word, b: Word, c: Word, d: Word, e: Word)
    requires |secret| == 8 && |memory| >= 28 && |scratch| == 8 && |sn| >= 7
    ensures AddRegs(START, Regs(a, b, c, d, e)) == Digest(Message(secret, memory, scratch, address, sn))
  {
    hide Message, Pad, Rounds, AddRegs, Digest;
    var mt := BuildBlock(secret, memory, scratch, address, sn);
    a, b, c, d, e := ComputeSHAEE(mt);
    AddingStartGivesDigest(Message(secret, memory, scratch, address, sn), Regs(a, b, c, d, e));
  }
}
