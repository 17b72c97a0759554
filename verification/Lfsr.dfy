/** The two CRCs of the library as shift registers fed one bit at a time.
    Everything the engines, the segment protocol and the ROM search rely on is
    proved here once, for both polynomials and for streams of any length. */
module Lfsr {
  import opened Bits

  /** The Dallas CRC8 (x^8 + x^5 + x^4 + 1) and CRC16 (x^16 + x^15 + x^2 + 1), reflected. */
  datatype Poly = Crc8 | Crc16

  /** The number of register bits. */
  function Width(p: Poly): nat {
    if p.Crc8? then 8 else 16
  }

  /** A register value uses no bit above the width. */
  predicate Fits(p: Poly, c: bv16) {
    p.Crc16? || c & 0xff00 == 0
  }

  /** Addition in the two-element field, bit by bit. */
  function Plus(a: bv16, b: bv16): bv16 {
    a ^ b
  }

  /** One shift of the register with a zero on the input: the bit that falls
      out is fed back at the taps, 0x8C or 0xA001. */
  function Shift(p: Poly, c: bv16): bv16 {
    var o := c & 1;
    if p.Crc8? then (c >> 1) ^ ((o << 7) | (o << 3) | (o << 2))
    else (c >> 1) ^ ((o << 15) | (o << 13) | o)
  }

  /** The same shift as the engines write it, with a test on the bit that falls out. */
  lemma ShiftByTest(c: bv16)
    ensures c & 1 == 1 ==> Shift(Crc8, c) == (c >> 1) ^ 0x8C && Shift(Crc16, c) == (c >> 1) ^ 0xA001
    ensures c & 1 != 1 ==> Shift(Crc8, c) == c >> 1 && Shift(Crc16, c) == c >> 1
  {
    if c & 1 == 1 {
      Odd(c);
    } else {
      assert c & 1 == 0;
      Even(c);
    }
  }

  lemma Odd(c: bv16)
    requires c & 1 == 1
    ensures Shift(Crc8, c) == (c >> 1) ^ 0x8C
    ensures Shift(Crc16, c) == (c >> 1) ^ 0xA001
  {}

  lemma Even(c: bv16)
    requires c & 1 == 0
    ensures Shift(Crc8, c) == c >> 1
    ensures Shift(Crc16, c) == c >> 1
  {
    hide Shift;
    EvenShift8(c);
    EvenShift16(c);
  }

  lemma EvenShift8(c: bv16)
    requires c & 1 == 0
    ensures Shift(Crc8, c) == c >> 1
  {
    NoTaps(c);
    assert ((0 as bv16) << 7) | ((0 as bv16) << 3) | ((0 as bv16) << 2) == 0;
  }

  lemma EvenShift16(c: bv16)
    requires c & 1 == 0
    ensures Shift(Crc16, c) == c >> 1
  {
    NoTaps(c);
    assert ((0 as bv16) << 15) | ((0 as bv16) << 13) | 0 == 0;
  }

  lemma NoTaps(c: bv16)
    ensures (c >> 1) ^ 0 == c >> 1
  {}

  function ShiftN(p: Poly, c: bv16, n: nat): bv16
    decreases n
  {
    if n == 0 then c else ShiftN(p, Shift(p, c), n - 1)
  }

  function Input(b: bool): bv16 {
    if b then 1 else 0
  }

  /** The register after the bits of a stream. */
  function OverBits(p: Poly, c: bv16, bits: seq<bool>): bv16
    decreases |bits|
  {
    if bits == [] then c else OverBits(p, Shift(p, Plus(c, Input(bits[0]))), bits[1..])
  }

  /** The register after one byte: eight shifts of register xor byte. */
  function OverByte(p: Poly, c: bv16, x: bv8): bv16 {
    ShiftN(p, Plus(c, x as bv16), 8)
  }

  /** The register after a byte stream. */
  function OverBytes(p: Poly, c: bv16, bytes: seq<bv8>): bv16
    decreases |bytes|
  {
    if bytes == [] then c else OverBytes(p, OverByte(p, c, bytes[0]), bytes[1..])
  }

  function Shift8(p: Poly, c: bv16): bv16 {
    var d := Shift(p, Shift(p, Shift(p, Shift(p, c))));
    Shift(p, Shift(p, Shift(p, Shift(p, d))))
  }

  lemma Unroll8(p: Poly, c: bv16)
    ensures ShiftN(p, c, 8) == Shift8(p, c)
  {
    hide Shift;
    var d := Shift(p, Shift(p, Shift(p, Shift(p, c))));
    assert ShiftN(p, c, 8) == ShiftN(p, Shift(p, Shift(p, c)), 6) == ShiftN(p, d, 4);
    assert ShiftN(p, d, 4) == ShiftN(p, Shift(p, Shift(p, d)), 2);
  }

  // ----- linearity -----

  lemma ShiftLinear(p: Poly, a: bv16, b: bv16)
    ensures Shift(p, Plus(a, b)) == Plus(Shift(p, a), Shift(p, b))
  {
    hide Shift, Plus;
    if p.Crc8? {
      ShiftLinear8(a, b);
    } else {
      ShiftLinear16(a, b);
    }
  }

  lemma ShiftLinear8(a: bv16, b: bv16)
    ensures Shift(Crc8, Plus(a, b)) == Plus(Shift(Crc8, a), Shift(Crc8, b))
  {}

  lemma ShiftLinear16(a: bv16, b: bv16)
    ensures Shift(Crc16, Plus(a, b)) == Plus(Shift(Crc16, a), Shift(Crc16, b))
  {}

  lemma PlusAssoc(a: bv16, b: bv16, c: bv16)
    ensures Plus(a, Plus(b, c)) == Plus(Plus(a, b), c)
  {}

  lemma PlusSwap(a: bv16, b: bv16)
    ensures Plus(a, b) == Plus(b, a)
  {}

  lemma {:induction false} ShiftNLinear(p: Poly, a: bv16, b: bv16, n: nat)
    ensures ShiftN(p, Plus(a, b), n) == Plus(ShiftN(p, a, n), ShiftN(p, b, n))
    decreases n
  {
    hide Shift, Plus;
    if n > 0 {
      ShiftLinear(p, a, b);
      ShiftNLinear(p, Shift(p, a), Shift(p, b), n - 1);
    }
  }

  lemma {:induction false} ShiftNAdd(p: Poly, c: bv16, m: nat, n: nat)
    ensures ShiftN(p, c, m + n) == ShiftN(p, ShiftN(p, c, m), n)
    decreases m
  {
    if m > 0 {
      ShiftNAdd(p, Shift(p, c), m - 1, n);
    }
  }

  /** Bitwise exclusive or of two streams of one length. */
  function Xor(a: seq<bool>, b: seq<bool>): (r: seq<bool>)
    requires |a| == |b|
    ensures |r| == |a| && forall k :: 0 <= k < |a| ==> r[k] == (a[k] != b[k])
  {
    if a == [] then [] else [a[0] != b[0]] + Xor(a[1..], b[1..])
  }

  lemma XorSwap(c: bv16, d: bv16, i: bv16, j: bv16)
    ensures Plus(Plus(c, d), Plus(i, j)) == Plus(Plus(c, i), Plus(d, j))
  {
    hide Plus;
    PlusAssoc(Plus(c, d), i, j);
    PlusAssoc(c, d, i);
    PlusSwap(d, i);
    PlusAssoc(c, i, d);
    PlusAssoc(Plus(c, i), d, j);
  }

  lemma InputXor(i: bool, j: bool)
    ensures Input(i != j) == Plus(Input(i), Input(j))
  {}

  lemma {:induction false} BitsLinear(p: Poly, c: bv16, d: bv16, a: seq<bool>, b: seq<bool>)
    requires |a| == |b|
    ensures OverBits(p, Plus(c, d), Xor(a, b)) == Plus(OverBits(p, c, a), OverBits(p, d, b))
    decreases |a|
  {
    hide Shift, Input, Plus;
    if a != [] {
      var i, j := Input(a[0]), Input(b[0]);
      InputXor(a[0], b[0]);
      XorSwap(c, d, i, j);
      ShiftLinear(p, Plus(c, i), Plus(d, j));
      assert Xor(a, b)[1..] == Xor(a[1..], b[1..]);
      BitsLinear(p, Shift(p, Plus(c, i)), Shift(p, Plus(d, j)), a[1..], b[1..]);
    }
  }

  // ----- no state is lost -----

  lemma ShiftNonzero(p: Poly, c: bv16)
    requires Fits(p, c)
    ensures Fits(p, Shift(p, c))
    ensures Shift(p, c) == 0 <==> c == 0
  {}

  lemma {:induction false} ShiftNNonzero(p: Poly, c: bv16, n: nat)
    requires Fits(p, c)
    ensures Fits(p, ShiftN(p, c, n))
    ensures ShiftN(p, c, n) == 0 <==> c == 0
    decreases n
  {
    if n > 0 {
      ShiftNonzero(p, c);
      ShiftNNonzero(p, Shift(p, c), n - 1);
    }
  }

  lemma FitsXor(p: Poly, a: bv16, b: bv16)
    requires Fits(p, a) && Fits(p, b)
    ensures Fits(p, Plus(a, b))
    ensures Plus(a, b) == 0 <==> a == b
  {
    PlusZero(a, b);
    assert (a ^ b) & 0xff00 == (a & 0xff00) ^ (b & 0xff00);
  }

  lemma PlusZero(a: bv16, b: bv16)
    ensures Plus(a, b) == 0 <==> a == b
    ensures Plus(a, 0) == a
    ensures Plus(a, b) == Plus(b, a)
  {
    XorZero(a, b);
  }

  lemma XorZero(a: bv16, b: bv16)
    ensures a ^ b == 0 <==> a == b
    ensures a ^ 0 == a
    ensures a ^ b == b ^ a
  {
    if a != b {
      assert a ^ b != 0;
    }
  }

  /** The zero step is injective, however often it is applied. */
  lemma ShiftNInjective(p: Poly, a: bv16, b: bv16, n: nat)
    requires Fits(p, a) && Fits(p, b)
    requires ShiftN(p, a, n) == ShiftN(p, b, n)
    ensures a == b
  {
    var s, t := ShiftN(p, a, n), ShiftN(p, b, n);
    ShiftNLinear(p, a, b, n);
    FitsXor(p, a, b);
    assert Plus(s, t) == 0;
    ShiftNNonzero(p, Plus(a, b), n);
  }

  /** The CRC16 register before a shift. */
  function Unshift(c: bv16): bv16 {
    var o := c >> 15;
    ((c ^ ((o << 15) | (o << 13) | o)) << 1) | o
  }

  lemma ShiftUnshift(c: bv16)
    ensures Shift(Crc16, Unshift(c)) == c
  {}

  /** Every CRC16 value is reached, by any number of zero steps. */
  lemma {:induction false} ShiftNOnto(c: bv16, n: nat) returns (d: bv16)
    ensures ShiftN(Crc16, d, n) == c
    decreases n
  {
    hide Shift, Unshift;
    if n == 0 {
      return c;
    }
    d := ShiftNOnto(c, n - 1);
    ShiftUnshift(d);
    d := Unshift(d);
  }

  // ----- bytes are eight bits -----

  /** What is left of a byte once its low `n` bits are gone. */
  function Drop(x: bv8, n: nat): bv8 {
    if n == 0 then x else Drop(x >> 1, n - 1)
  }

  lemma DropAll(x: bv8)
    ensures Drop(x, 8) == 0
  {
    var y := x >> 4;
    assert Drop(x, 8) == Drop(x >> 1, 7) == Drop((x >> 1) >> 1, 6);
    assert Drop((x >> 1) >> 1, 6) == Drop(((x >> 1) >> 1) >> 1, 5) == Drop(y, 4);
    assert Drop(y, 4) == Drop(y >> 1, 3) == Drop((y >> 1) >> 1, 2);
    assert Drop((y >> 1) >> 1, 2) == Drop(((y >> 1) >> 1) >> 1, 1) == Drop(0, 0);
  }

  lemma SplitByte(p: Poly, c: bv16, x: bv8)
    ensures Plus(c, x as bv16) == Plus(Plus(c, Input(x & 1 != 0)), (x & 0xfe) as bv16)
    ensures Shift(p, (x & 0xfe) as bv16) == (x >> 1) as bv16
  {
    hide Shift, Plus, Input;
    LowBitPlus(x);
    PlusAssoc(c, Input(x & 1 != 0), (x & 0xfe) as bv16);
    ShiftEven8(x);
    ShiftEven16(x);
  }

  lemma LowBitPlus(x: bv8)
    ensures x as bv16 == Plus(Input(x & 1 != 0), (x & 0xfe) as bv16)
  {
    if x & 1 == 0 {
      assert x & 0xfe == x;
    } else {
      assert x & 1 == 1;
    }
  }

  lemma ShiftEven8(x: bv8)
    ensures Shift(Crc8, (x & 0xfe) as bv16) == (x >> 1) as bv16
  {}

  lemma ShiftEven16(x: bv8)
    ensures Shift(Crc16, (x & 0xfe) as bv16) == (x >> 1) as bv16
  {}

  /** Shifting register plus byte once takes in the byte's lowest bit. */
  lemma ShiftTakesBit(p: Poly, c: bv16, x: bv8)
    ensures Shift(p, Plus(c, x as bv16)) == Plus(Shift(p, Plus(c, Input(x & 1 != 0))), (x >> 1) as bv16)
  {
    hide *;
    SplitByte(p, c, x);
    ShiftLinear(p, Plus(c, Input(x & 1 != 0)), (x & 0xfe) as bv16);
  }

  lemma {:induction false} LowBitsOver(p: Poly, c: bv16, x: bv8, n: nat)
    ensures ShiftN(p, Plus(c, x as bv16), n) == Plus(OverBits(p, c, LowBits(x, n)), Drop(x, n) as bv16)
    decreases n
  {
    hide Shift, Input, Plus;
    if n > 0 {
      var d := Shift(p, Plus(c, Input(x & 1 != 0)));
      ShiftTakesBit(p, c, x);
      LowBitsOver(p, d, x >> 1, n - 1);
      assert LowBits(x, n) == [x & 1 != 0] + LowBits(x >> 1, n - 1);
      assert LowBits(x, n)[1..] == LowBits(x >> 1, n - 1);
    }
  }

  lemma {:induction false} BitsAppend(p: Poly, c: bv16, a: seq<bool>, b: seq<bool>)
    ensures OverBits(p, c, a + b) == OverBits(p, OverBits(p, c, a), b)
    decreases |a|
  {
    if a == [] {
      assert a + b == b;
    } else {
      assert (a + b)[1..] == a[1..] + b;
      BitsAppend(p, Shift(p, Plus(c, Input(a[0]))), a[1..], b);
    }
  }

  lemma ByteIsBits(p: Poly, c: bv16, x: bv8)
    ensures OverByte(p, c, x) == OverBits(p, c, Unpack(x))
  {
    LowBitsOver(p, c, x, 8);
    DropAll(x);
  }

  /** The byte-wise register and the bit-wise one agree on every stream. */
  lemma {:induction false} BytesAreBits(p: Poly, c: bv16, bytes: seq<bv8>)
    ensures OverBytes(p, c, bytes) == OverBits(p, c, Stream(bytes))
    decreases |bytes|
  {
    if bytes != [] {
      var d := OverByte(p, c, bytes[0]);
      ByteIsBits(p, c, bytes[0]);
      BitsAppend(p, c, Unpack(bytes[0]), Stream(bytes[1..]));
      BytesAreBits(p, d, bytes[1..]);
    }
  }

  lemma {:induction false} BytesAppend(p: Poly, c: bv16, a: seq<bv8>, b: seq<bv8>)
    ensures OverBytes(p, c, a + b) == OverBytes(p, OverBytes(p, c, a), b)
    decreases |a|
  {
    if a == [] {
      assert a + b == b;
    } else {
      assert (a + b)[1..] == a[1..] + b;
      BytesAppend(p, OverByte(p, c, a[0]), a[1..], b);
    }
  }

  lemma {:induction false} BytesFit(p: Poly, c: bv16, bytes: seq<bv8>)
    requires Fits(p, c)
    ensures Fits(p, OverBytes(p, c, bytes))
    decreases |bytes|
  {
    if bytes != [] {
      ByteFits(p, c, bytes[0]);
      BytesFit(p, OverByte(p, c, bytes[0]), bytes[1..]);
    }
  }

  lemma ByteFits(p: Poly, c: bv16, x: bv8)
    requires Fits(p, c)
    ensures Fits(p, Plus(c, x as bv16)) && Fits(p, OverByte(p, c, x))
  {
    FitsXor(p, c, x as bv16);
    ShiftNNonzero(p, Plus(c, x as bv16), 8);
  }

  // ----- bursts -----

  /** Some byte has the given eight bits. */
  lemma ByteWith(bits: seq<bool>) returns (x: bv8)
    requires |bits| == 8
    ensures Unpack(x) == bits
  {
    hide *;
    x := PackByte(bits, 8);
    PackByteIs(bits, 8);
    assert Unpack(x) == Unpack(x)[..8] && bits == bits[..8];
  }

  function Zeros(n: nat): (z: seq<bool>)
    ensures |z| == n && forall k :: 0 <= k < n ==> !z[k]
  {
    seq(n, _ => false)
  }

  lemma {:induction false} ZerosOver(p: Poly, c: bv16, n: nat)
    ensures OverBits(p, c, Zeros(n)) == ShiftN(p, c, n)
    decreases n
  {
    hide Shift, Plus;
    if n > 0 {
      PlusZero(c, 0);
      assert Zeros(n)[1..] == Zeros(n - 1);
      ZerosOver(p, Shift(p, c), n - 1);
    }
  }

  lemma ZeroStays(p: Poly, n: nat)
    ensures ShiftN(p, 0, n) == 0
  {
    ShiftNNonzero(p, 0, n);
  }

  lemma HighByte(h: bv8)
    ensures ShiftN(Crc16, (h as bv16) << 8, 8) == h as bv16
  {
    Unroll8(Crc16, (h as bv16) << 8);
    EvenShifts(h);
  }

  lemma EvenShifts(h: bv8)
    ensures Shift8(Crc16, (h as bv16) << 8) == h as bv16
  {}

  lemma SplitWord(w: bv16)
    ensures w == Plus(w & 0xff, (((w >> 8) as bv8) as bv16) << 8)
    ensures ((w >> 8) as bv8) as bv16 == w >> 8
  {}

  /** Eight shifts of a word: its high byte moves down, its low byte is folded in. */
  lemma HighAndLow(w: bv16)
    ensures ShiftN(Crc16, w, 8) == Plus(ShiftN(Crc16, w & 0xff, 8), w >> 8)
  {
    hide Shift, Plus;
    SplitWord(w);
    HighByte((w >> 8) as bv8);
    ShiftNLinear(Crc16, w & 0xff, (((w >> 8) as bv8) as bv16) << 8, 8);
  }

  /** Two bytes fed into an empty 16-bit register are one 16-bit word shifted sixteen times. */
  lemma TwoBytes(c: bv16, x: bv8, y: bv8)
    ensures OverByte(Crc16, OverByte(Crc16, c, x), y)
         == ShiftN(Crc16, Plus(c, Plus(x as bv16, (y as bv16) << 8)), 16)
  {
    hide Shift, Plus;
    var w := (y as bv16) << 8;
    PlusAssoc(c, x as bv16, w);
    ShiftNLinear(Crc16, Plus(c, x as bv16), w, 8);
    HighByte(y);
    ShiftNAdd(Crc16, Plus(Plus(c, x as bv16), w), 8, 8);
  }

  lemma WordZero(x: bv8, y: bv8)
    requires Plus(x as bv16, (y as bv16) << 8) == 0
    ensures x == 0 && y == 0
  {}

  lemma UnpackZero()
    ensures Unpack(0) == Zeros(8)
  {
    forall k | 0 <= k < 8
      ensures Unpack(0)[k] == Zeros(8)[k]
    {
      LowBitsAt(0, 8, k);
    }
  }

  /** A window of as many bits as the register is wide, not all clear, never leaves it empty. */
  lemma WindowNonzero(p: Poly, w: seq<bool>)
    requires |w| == Width(p)
    requires OverBits(p, 0, w) == 0
    ensures w == Zeros(Width(p))
  {
    hide Shift, Plus, Unpack;
    UnpackZero();
    var x := ByteWith(w[..8]);
    ByteIsBits(p, 0, x);
    PlusZero(0, x as bv16);
    PlusZero(x as bv16, 0);
    if p.Crc8? {
      assert w == w[..8];
      ShiftNNonzero(p, x as bv16, 8);
      assert x as bv16 == 0;
    } else {
      var y := ByteWith(w[8..]);
      assert w == w[..8] + w[8..];
      BitsAppend(p, 0, w[..8], w[8..]);
      ByteIsBits(p, OverByte(p, 0, x), y);
      TwoBytes(0, x, y);
      var v := Plus(x as bv16, (y as bv16) << 8);
      PlusZero(0, v);
      PlusZero(v, 0);
      ShiftNNonzero(p, v, 16);
      WordZero(x, y);
      assert w == Zeros(8) + Zeros(8);
    }
  }

  /** Clear bits around a window: the register is empty exactly if the window leaves it empty. */
  lemma Around(p: Poly, q: nat, w: seq<bool>, r: nat)
    ensures OverBits(p, 0, Zeros(q) + w + Zeros(r)) == 0 <==> OverBits(p, 0, w) == 0
  {
    hide Shift, Plus, OverBits, ShiftN;
    BitsAppend(p, 0, Zeros(q) + w, Zeros(r));
    BitsAppend(p, 0, Zeros(q), w);
    ZerosOver(p, 0, q);
    ZeroStays(p, q);
    ZerosOver(p, OverBits(p, 0, w), r);
    BitsFit(p, 0, w);
    ShiftNNonzero(p, OverBits(p, 0, w), r);
  }

  /** An error pattern that lies in one window of register width leaves the register non-empty. */
  lemma PatternNonzero(p: Poly, e: seq<bool>, q: nat, k: nat)
    requires k < |e| && e[k]
    requires forall j :: 0 <= j < |e| && !(q <= j < q + Width(p)) ==> !e[j]
    ensures OverBits(p, 0, e) != 0
  {
    hide Shift, Plus, OverBits, ShiftN;
    var n, W := |e|, Width(p);
    var long := e + Zeros(W);
    assert q <= k < q + W;
    var w := long[q..q + W];
    assert long == Zeros(0) + e + Zeros(W);
    Around(p, 0, e, W);
    assert long == Zeros(q) + w + Zeros(n - q);
    Around(p, q, w, n - q);
    assert w[k - q] == long[k] == e[k];
    if OverBits(p, 0, w) == 0 {
      WindowNonzero(p, w);
    }
  }

  /** Bit streams of one length whose differences all lie in one window of register
      width leave different registers. */
  lemma BitBurst(p: Poly, c: bv16, a: seq<bool>, b: seq<bool>, q: nat)
    requires |a| == |b| && a != b
    requires forall k :: 0 <= k < |a| && !(q <= k < q + Width(p)) ==> a[k] == b[k]
    ensures OverBits(p, c, a) != OverBits(p, c, b)
  {
    hide Shift, Plus, OverBits;
    var e := Xor(a, b);
    PlusZero(c, c);
    BitsLinear(p, c, c, a, b);
    PlusZero(OverBits(p, c, a), OverBits(p, c, b));
    PatternNonzero(p, e, q, FirstDiff(a, b));
  }

  lemma {:induction false} BitsFit(p: Poly, c: bv16, bits: seq<bool>)
    requires Fits(p, c)
    ensures Fits(p, OverBits(p, c, bits))
    decreases |bits|
  {
    hide Shift, Plus;
    if bits != [] {
      var i := Input(bits[0]);
      FitsXor(p, c, i);
      ShiftNonzero(p, Plus(c, i));
      BitsFit(p, Shift(p, Plus(c, i)), bits[1..]);
    }
  }

  /** Burst detection: two byte streams of one length, however long, that differ only
      within 16 consecutive bits (8 for the CRC8) never have the same CRC. */
  lemma BurstDetected(p: Poly, c: bv16, a: seq<bv8>, b: seq<bv8>, q: nat)
    requires |a| == |b| && a != b
    requires forall k :: 0 <= k < 8 * |a| && !(q <= k < q + Width(p)) ==> Stream(a)[k] == Stream(b)[k]
    ensures OverBytes(p, c, a) != OverBytes(p, c, b)
  {
    BytesAreBits(p, c, a);
    BytesAreBits(p, c, b);
    if Stream(a) == Stream(b) {
      StreamInjective(a, b);
    }
    BitBurst(p, c, Stream(a), Stream(b), q);
  }
}
