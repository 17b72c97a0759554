/** Bytes seen as bits, least significant bit first: the order in which they
    travel on the 1-Wire line and in which `bitacc` numbers them. */
module Bits {

  /** The `n` lowest bits of a byte, least significant first. */
  function LowBits(x: bv8, n: nat): (bits: seq<bool>)
    ensures |bits| == n
  {
    if n == 0 then [] else [x & 1 != 0] + LowBits(x >> 1, n - 1)
  }

  /** The eight bits of a byte, least significant first. */
  function Unpack(x: bv8): (bits: seq<bool>)
    ensures |bits| == 8
  {
    LowBits(x, 8)
  }

  /** The bits of a buffer, byte after byte. */
  function Stream(bytes: seq<bv8>): (bits: seq<bool>)
    ensures |bits| == 8 * |bytes|
  {
    if bytes == [] then [] else Unpack(bytes[0]) + Stream(bytes[1..])
  }

  lemma {:induction false} StreamAt(bytes: seq<bv8>, k: nat)
    requires k < 8 * |bytes|
    ensures Stream(bytes)[k] == Unpack(bytes[k / 8])[k % 8]
  {
    if k >= 8 {
      StreamAt(bytes[1..], k - 8);
      assert (k - 8) / 8 == k / 8 - 1 && (k - 8) % 8 == k % 8;
    }
  }

  lemma {:induction false} StreamAppend(a: seq<bv8>, b: seq<bv8>)
    ensures Stream(a + b) == Stream(a) + Stream(b)
  {
    if a == [] {
      assert a + b == b;
    } else {
      assert (a + b)[1..] == a[1..] + b;
      StreamAppend(a[1..], b);
    }
  }

  lemma UnpackInjective(x: bv8, y: bv8)
    requires Unpack(x) == Unpack(y)
    ensures x == y
  {
    forall k | 0 <= k < 8
      ensures (x & Mask(k) != 0) == (y & Mask(k) != 0)
    {
      LowBitsAt(x, 8, k);
      LowBitsAt(y, 8, k);
    }
    MaskValues();
    assert (x & Mask(0) != 0) == (y & Mask(0) != 0) && (x & Mask(1) != 0) == (y & Mask(1) != 0);
    assert (x & Mask(2) != 0) == (y & Mask(2) != 0) && (x & Mask(3) != 0) == (y & Mask(3) != 0);
    assert (x & Mask(4) != 0) == (y & Mask(4) != 0) && (x & Mask(5) != 0) == (y & Mask(5) != 0);
    assert (x & Mask(6) != 0) == (y & Mask(6) != 0) && (x & Mask(7) != 0) == (y & Mask(7) != 0);
  }

  /** Two buffers of one length with the same bits are the same buffer. */
  lemma {:induction false} StreamInjective(a: seq<bv8>, b: seq<bv8>)
    requires |a| == |b| && Stream(a) == Stream(b)
    ensures a == b
  {
    if a != [] {
      assert Stream(a)[..8] == Unpack(a[0]) && Stream(b)[..8] == Unpack(b[0]);
      UnpackInjective(a[0], b[0]);
      assert Stream(a)[8..] == Stream(a[1..]) && Stream(b)[8..] == Stream(b[1..]);
      StreamInjective(a[1..], b[1..]);
    }
  }

  /** `0x01 << nbit`. */
  function Mask(nbit: nat): bv8
  {
    if nbit == 0 then 1 else Mask(nbit - 1) << 1
  }

  lemma MaskValues()
    ensures Mask(0) == 1 && Mask(1) == 2 && Mask(2) == 4 && Mask(3) == 8
    ensures Mask(4) == 16 && Mask(5) == 32 && Mask(6) == 64 && Mask(7) == 128
  {
    assert Mask(2) == Mask(1) << 1;
    assert Mask(3) == Mask(2) << 1;
    assert Mask(4) == Mask(3) << 1;
    assert Mask(5) == Mask(4) << 1;
    assert Mask(6) == Mask(5) << 1;
    assert Mask(7) == Mask(6) << 1;
  }

  lemma MaskShift(x: bv8, k: nat)
    requires 0 < k < 8
    ensures (x & Mask(k) != 0) == ((x >> 1) & Mask(k - 1) != 0)
  {
    MaskValues();
  }

  lemma {:induction false} LowBitsAt(x: bv8, n: nat, k: nat)
    requires k < n <= 8
    ensures LowBits(x, n)[k] == (x & Mask(k) != 0)
  {
    if k > 0 {
      MaskShift(x, k);
      LowBitsAt(x >> 1, n - 1, k - 1);
    }
  }

  lemma MasksApart(n: nat, k: nat)
    requires n < 8 && k < 8
    ensures n == k || Mask(n) & Mask(k) == 0
    ensures Mask(n) == Mask(k) <==> n == k
    ensures Mask(k) != 0
  {
    MaskValues();
  }

  lemma Apart(x: bv8, m: bv8, q: bv8)
    requires m & q == 0
    ensures (x | m) & q == x & q
    ensures (x & !m) & q == x & q
  {}

  /** What a `bitacc` write does to the byte that holds the bit. */
  function WithBit(x: bv8, nbit: nat, state: bool): bv8
    requires nbit < 8
  {
    if state then SetBit(x, nbit) else ClearBit(x, nbit)
  }

  function SetBit(x: bv8, nbit: nat): bv8 {
    x | Mask(nbit)
  }

  function ClearBit(x: bv8, nbit: nat): bv8 {
    x & !Mask(nbit)
  }

  lemma WithBitMask(x: bv8, nbit: nat, state: bool, k: nat)
    requires nbit < 8 && k < 8
    ensures (WithBit(x, nbit, state) & Mask(k) != 0) == if k == nbit then state else x & Mask(k) != 0
  {
    MasksApart(nbit, k);
    var m, q := Mask(nbit), Mask(k);
    if k == nbit {
      assert (x | q) & q == q && (x & !q) & q == 0;
    } else {
      assert m & q == 0;
      Apart(x, m, q);
    }
  }

  lemma WithBitAt(x: bv8, nbit: nat, state: bool, k: nat)
    requires nbit < 8 && k < 8
    ensures Unpack(WithBit(x, nbit, state))[k] == if k == nbit then state else Unpack(x)[k]
  {
    LowBitsAt(x, 8, k);
    LowBitsAt(WithBit(x, nbit, state), 8, k);
    WithBitMask(x, nbit, state, k);
  }

  lemma {:induction false} WithBitUnpack(x: bv8, nbit: nat, state: bool)
    requires nbit < 8
    ensures Unpack(WithBit(x, nbit, state)) == Unpack(x)[nbit := state]
  {
    forall k | 0 <= k < 8
      ensures Unpack(WithBit(x, nbit, state))[k] == Unpack(x)[nbit := state][k]
    {
      WithBitAt(x, nbit, state, k);
    }
  }

  lemma {:induction false} StreamUpdate(bytes: seq<bv8>, loc: nat, x: bv8, v: bool)
    requires loc < 8 * |bytes|
    requires Unpack(x) == Unpack(bytes[loc / 8])[loc % 8 := v]
    ensures Stream(bytes[loc / 8 := x]) == Stream(bytes)[loc := v]
  {
    var after := bytes[loc / 8 := x];
    forall k | 0 <= k < 8 * |bytes|
      ensures Stream(after)[k] == Stream(bytes)[loc := v][k]
    {
      StreamAt(after, k);
      StreamAt(bytes, k);
      if k / 8 == loc / 8 && k != loc {
        assert k % 8 != loc % 8;
      }
    }
  }

  /** The byte with the first k of eight bits, the rest clear. */
  function PackByte(bits: seq<bool>, k: nat): bv8
    requires k <= 8 && |bits| == 8
  {
    if k == 0 then 0 else WithBit(PackByte(bits, k - 1), k - 1, bits[k - 1])
  }

  lemma {:induction false} PackByteIs(bits: seq<bool>, k: nat)
    requires k <= 8 && |bits| == 8
    ensures Unpack(PackByte(bits, k))[..k] == bits[..k]
    decreases k
  {
    hide Unpack, WithBit;
    if k > 0 {
      var x := PackByte(bits, k - 1);
      PackByteIs(bits, k - 1);
      WithBitUnpack(x, k - 1, bits[k - 1]);
      assert Unpack(PackByte(bits, k)) == Unpack(x)[k - 1 := bits[k - 1]];
      assert bits[..k] == bits[..k - 1] + [bits[k - 1]];
    }
  }

  /** The bytes that hold a stream of whole bytes. */
  function Pack(bits: seq<bool>): (bytes: seq<bv8>)
    requires |bits| % 8 == 0
    ensures 8 * |bytes| == |bits|
  {
    if bits == [] then [] else [PackByte(bits[..8], 8)] + Pack(bits[8..])
  }

  lemma {:induction false} StreamPack(bits: seq<bool>)
    requires |bits| % 8 == 0
    ensures Stream(Pack(bits)) == bits
  {
    hide Unpack, PackByte;
    if bits != [] {
      PackByteIs(bits[..8], 8);
      assert Unpack(PackByte(bits[..8], 8)) == bits[..8];
      StreamPack(bits[8..]);
      assert Pack(bits)[1..] == Pack(bits[8..]);
    }
  }

  /** `bitacc` with READ_FUNCTION: bit number `loc` of the buffer. */
  method BitRead(buf: array<bv8>, loc: nat) returns (bit: bool)
    requires loc < 8 * buf.Length
    ensures bit == Stream(buf[..])[loc]
  {
    var nbyt := loc / 8;
    var nbit := loc - nbyt * 8;
    bit := buf[nbyt] & Mask(nbit) != 0;
    StreamAt(buf[..], loc);
    LowBitsAt(buf[nbyt], 8, nbit);
  }

  lemma Written(bytes: seq<bv8>, loc: nat, state: bool)
    requires loc < 8 * |bytes|
    ensures var x := bytes[loc / 8];
            var y := if state then SetBit(x, loc % 8) else ClearBit(x, loc % 8);
            Stream(bytes[loc / 8 := y]) == Stream(bytes)[loc := state]
  {
    var x := bytes[loc / 8];
    WithBitUnpack(x, loc % 8, state);
    StreamUpdate(bytes, loc, WithBit(x, loc % 8, state), state);
  }

  /** `bitacc` with WRITE_FUNCTION: sets or clears one bit and no other. */
  method BitWrite(buf: array<bv8>, loc: nat, state: bool)
    requires loc < 8 * buf.Length
    modifies buf
    ensures Stream(buf[..]) == old(Stream(buf[..]))[loc := state]
  {
    var nbyt := loc / 8;
    var nbit := loc - nbyt * 8;
    ghost var was := buf[..];
    hide *;
    assert nbit == loc % 8;
    if state {
      buf[nbyt] := SetBit(buf[nbyt], nbit);
    } else {
      buf[nbyt] := ClearBit(buf[nbyt], nbit);
    }
    Written(was, loc, state);
    assert buf[..] == was[nbyt := buf[nbyt]];
  }

  /** Strings that agree on n bits agree on each of them, and on any fewer. */
  lemma SamePrefix(a: seq<bool>, b: seq<bool>, n: nat, m: nat)
    requires n <= |a| && n <= |b| && a[..n] == b[..n]
    ensures forall k :: 0 <= k < n ==> a[k] == b[k]
    ensures m <= n ==> a[..m] == b[..m]
  {
    assert forall k :: 0 <= k < n ==> a[..n][k] == a[k] && b[..n][k] == b[k];
  }

  /** Where two bit strings of one length first disagree; their length if they are equal. */
  function FirstDiff(a: seq<bool>, b: seq<bool>): (i: nat)
    requires |a| == |b|
    ensures i <= |a| && a[..i] == b[..i]
    ensures i < |a| ==> a[i] != b[i]
    ensures i == |a| ==> a == b
  {
    if a == [] then 0
    else if a[0] != b[0] then 0
    else
      var i := 1 + FirstDiff(a[1..], b[1..]);
      assert a[..i] == [a[0]] + a[1..][..i - 1] && b[..i] == [b[0]] + b[1..][..i - 1];
      assert i == |a| ==> a == [a[0]] + a[1..] && b == [b[0]] + b[1..];
      i
  }
}
