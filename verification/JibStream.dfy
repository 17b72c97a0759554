/** The CRC-protected blocks of the segment protocol: how a device closes a block,
    how the receiver checks it, and what its bit repair does. */
module JibStream {
  import opened Bits
  import opened Lfsr
  import opened JibCrc
  import opened Wrappers

  function Lsb(c: bv16): bv8 {
    (c & 0xff) as bv8
  }

  function Msb(c: bv16): bv8 {
    ((c & 0xff00) >> 8) as bv8
  }

  function Crc(s: seq<bv8>): bv16 {
    OverBytes(Crc16, 0, s)
  }

  /** A block as the device sends it: the bytes, then their CRC complemented, low byte first. */
  function Closed(s: seq<bv8>): (r: seq<bv8>)
    ensures |r| == |s| + 2 && r[..|s|] == s
  {
    s + [Lsb(Crc(s)) ^ 0xff, Msb(Crc(s)) ^ 0xff]
  }

  /** CheckStreamCRC: zero exactly if the two bytes at `offset` complement the CRC given. */
  predicate Checks(data: seq<bv8>, offset: nat, crc: bv16)
    requires offset + 2 <= |data|
  {
    data[offset] == Lsb(crc) ^ 0xff && data[offset + 1] == Msb(crc) ^ 0xff
  }

  /** What RecvHeader and RecvData do with a block of `n` bytes and two CRC bytes: take it,
      clear bit 0 of byte 2 and take it, or refuse it. */
  function Repaired(r: seq<bv8>, n: nat): (block: Option<seq<bv8>>)
    requires 2 <= n && |r| == n + 2
    ensures block.Some? ==> |block.value| == n
  {
    var crc := Crc(r[..n]);
    if Checks(r, n, crc) then Some(r[..n])
    else if Checks(r, n, crc ^ CorrectionFor(n % 256)) then
      Some(if n == 2 then r[..n] else r[..n][2 := r[2] & 0xFE])
    else None
  }

  function Toggle(x: bv8): bv8 {
    x ^ 1
  }

  /** The stream with bit 0 of byte 2 the other way round. */
  function Flip(s: seq<bv8>): seq<bv8>
    requires |s| >= 3
  {
    s[2 := Toggle(s[2])]
  }

  lemma FlipByte(c: bv16, x: bv8)
    ensures OverByte(Crc16, c, Toggle(x)) == Plus(OverByte(Crc16, c, x), OverByte(Crc16, 0, 1))
  {
    hide *;
    ToggleXor(x);
    ToggleSum(c, x);
    ZeroPlusOne();
    FlipShift(c, x);
  }

  lemma ToggleXor(x: bv8)
    ensures Toggle(x) as bv16 == (x as bv16) ^ 1
  {}

  lemma ToggleSum(c: bv16, x: bv8)
    requires Toggle(x) as bv16 == (x as bv16) ^ 1
    ensures Plus(c, Toggle(x) as bv16) == Plus(Plus(c, x as bv16), 1)
  {
    hide Toggle;
  }

  lemma ZeroPlusOne()
    ensures Plus(0, 1) == 1
  {}

  lemma FlipShift(c: bv16, x: bv8)
    requires Plus(c, Toggle(x) as bv16) == Plus(Plus(c, x as bv16), 1) && Plus(0, 1) == 1
    ensures OverByte(Crc16, c, Toggle(x)) == Plus(OverByte(Crc16, c, x), OverByte(Crc16, 0, 1))
  {
    hide Shift, ShiftN, Plus;
    assert (1 as bv8) as bv16 == 1;
    ShiftNLinear(Crc16, Plus(c, x as bv16), 1, 8);
  }

  /** A difference in the register travels on through the bytes that follow. */
  lemma {:induction false} Travels(c: bv16, rest: seq<bv8>, k: nat)
    requires k >= 2
    ensures OverBytes(Crc16, Plus(c, Correction(k)), rest)
         == Plus(OverBytes(Crc16, c, rest), Correction(k + |rest|))
    decreases |rest|
  {
    hide OverByte, Plus;
    if rest != [] {
      ByteLinear(c, Correction(k), rest[0]);
      assert Correction(k + 1) == OverByte(Crc16, Correction(k), 0);
      Travels(OverByte(Crc16, c, rest[0]), rest[1..], k + 1);
    }
  }

  lemma ByteLinear(c: bv16, d: bv16, x: bv8)
    ensures OverByte(Crc16, Plus(c, d), x) == Plus(OverByte(Crc16, c, x), OverByte(Crc16, d, 0))
  {
    hide Shift, ShiftN, Plus;
    PlusMixed(c, d, x as bv16);
    assert (0 as bv8) as bv16 == 0;
    ShiftNLinear(Crc16, Plus(c, x as bv16), Plus(d, 0), 8);
  }

  lemma PlusMixed(c: bv16, d: bv16, x: bv16)
    ensures Plus(Plus(c, d), x) == Plus(Plus(c, x), Plus(d, 0))
  {}

  /** The CRC of a stream, taken apart around byte 2. */
  lemma AroundByte2(s: seq<bv8>, x: bv8)
    requires |s| >= 3
    ensures Crc(s[2 := x]) == OverBytes(Crc16, OverByte(Crc16, OverBytes(Crc16, 0, s[..2]), x), s[3..])
  {
    hide OverByte;
    assert s[2 := x] == s[..2] + ([x] + s[3..]);
    BytesAppend(Crc16, 0, s[..2], [x] + s[3..]);
    assert ([x] + s[3..])[1..] == s[3..];
  }

  lemma FlipIs(s: seq<bv8>)
    requires |s| >= 3
    ensures Flip(s) == s[2 := Toggle(s[2])] && s == s[2 := s[2]]
  {}

  /** Flipping bit 0 of byte 2 changes the CRC of a stream, of any length from 3 on, by
      exactly the value the correction table holds for that length. */
  lemma FlipChangesCrc(s: seq<bv8>)
    requires |s| >= 3
    ensures Crc(Flip(s)) == Plus(Crc(s), Correction(|s| - 1))
  {
    hide *;
    FlipIs(s);
    var c := OverBytes(Crc16, 0, s[..2]);
    AroundByte2(s, s[2]);
    AroundByte2(s, Toggle(s[2]));
    FlipByte(c, s[2]);
    CorrectionStarts();
    Travels(OverByte(Crc16, c, s[2]), s[3..], 2);
  }

  lemma CorrectionStarts()
    ensures Correction(2) == OverByte(Crc16, 0, 1)
  {}

  lemma {:induction false} CorrectionNonzero(i: nat)
    requires i >= 2
    ensures Correction(i) != 0
  {
    hide Plus, ShiftN;
    if i == 2 {
      PlusZero(0, 1);
      PlusZero(1, 0);
      assert (1 as bv8) as bv16 == 1;
      ShiftNNonzero(Crc16, 1, 8);
    } else {
      CorrectionNonzero(i - 1);
      PlusZero(Correction(i - 1), 0);
      assert (0 as bv8) as bv16 == 0;
      ShiftNNonzero(Crc16, Correction(i - 1), 8);
    }
  }

  lemma TwoHalves(c: bv16, d: bv16)
    requires Lsb(c) ^ 0xff == Lsb(d) ^ 0xff && Msb(c) ^ 0xff == Msb(d) ^ 0xff
    ensures c == d
  {}

  /** An undisturbed block is taken as sent. */
  lemma Undisturbed(s: seq<bv8>)
    requires 2 <= |s|
    ensures Repaired(Closed(s), |s|) == Some(s)
  {
    assert Closed(s)[..|s|] == s;
  }

  lemma FlippedShape(s: seq<bv8>)
    requires |s| >= 3
    ensures var r, n := Flip(Closed(s)), |s|;
            && |r| == n + 2 && r[..n] == Flip(s) && r[2] == Toggle(s[2])
            && r[n] == Lsb(Crc(s)) ^ 0xff && r[n + 1] == Msb(Crc(s)) ^ 0xff
  {
    hide Crc, Lsb, Msb, Toggle;
  }

  /** A flipped block fails the first check and passes the second. */
  lemma FlippedChecks(s: seq<bv8>)
    requires 3 <= |s| <= CORRECTIONS
    ensures var r, n := Flip(Closed(s)), |s|;
            && r[..n] == Flip(s) && r[2] == Toggle(s[2])
            && !Checks(r, n, Crc(r[..n]))
            && Checks(r, n, Crc(r[..n]) ^ CorrectionFor(n % 256))
  {
    hide *;
    var n := |s|;
    var r := Flip(Closed(s));
    FlippedShape(s);
    FlipChangesCrc(s);
    TwoCrcs(r, n, Crc(s), Crc(r[..n]));
  }

  lemma TwoCrcs(r: seq<bv8>, n: nat, c: bv16, d: bv16)
    requires 3 <= n <= CORRECTIONS && n + 2 <= |r|
    requires r[n] == Lsb(c) ^ 0xff && r[n + 1] == Msb(c) ^ 0xff
    requires d == Plus(c, Correction(n - 1))
    ensures !Checks(r, n, d) && Checks(r, n, d ^ CorrectionFor(n % 256))
  {
    hide Checks, Correction, Lsb, Msb, Plus;
    var k := Correction(n - 1);
    CorrectionNonzero(n - 1);
    PlusTwice(c, k);
    assert CorrectionFor(n % 256) == k;
    ChecksOnly(r, n, c, d);
    ChecksOnly(r, n, c, c);
  }

  /** A block passes the check for one CRC only. */
  lemma ChecksOnly(r: seq<bv8>, n: nat, c: bv16, d: bv16)
    requires n + 2 <= |r|
    requires r[n] == Lsb(c) ^ 0xff && r[n + 1] == Msb(c) ^ 0xff
    ensures Checks(r, n, d) <==> c == d
  {
    hide Lsb, Msb;
    if Checks(r, n, d) {
      TwoHalves(c, d);
    }
  }

  /** A block within the table whose bit 0 of byte 2 arrives flipped is always taken.
      What is then handed on is the block that was sent exactly if the bit was sent as 0
      and read as 1; a bit sent as 1 and read as 0 is not restored, and the damaged block
      is handed on. */
  lemma RepairExact(s: seq<bv8>)
    requires 3 <= |s| <= 140
    ensures var got := Repaired(Flip(Closed(s)), |s|);
            && got.Some?
            && (got.value == s <==> s[2] & 1 == 0)
            && (s[2] & 1 == 1 ==> got.value == Flip(s))
  {
    hide Correction, CorrectionFor, Crc, Checks, Closed;
    var r, n := Flip(Closed(s)), |s|;
    FlippedChecks(s);
    LowBitCases(s[2]);
    var t := Flip(s)[2 := r[2] & 0xFE];
    assert Repaired(r, n) == Some(t);
    if s[2] & 1 == 0 {
      assert t == s;
    } else {
      assert t == Flip(s) && t[2] != s[2];
    }
  }

  lemma PlusTwice(c: bv16, k: bv16)
    ensures Plus(c, k) ^ k == c
    ensures k != 0 ==> Plus(c, k) != c
  {}

  lemma LowBitCases(x: bv8)
    ensures x & 1 == 0 || x & 1 == 1
    ensures x & 1 == 0 ==> Toggle(x) & 0xFE == x
    ensures x & 1 == 1 ==> Toggle(x) & 0xFE == Toggle(x) && Toggle(x) != x
  {}

  /** Beyond the table there is no repair: blocks longer than 140 bytes are taken only if their CRC matches. */
  lemma NoRepairBeyondTable(r: seq<bv8>, n: nat)
    requires 140 < n <= 257 && |r| == n + 2
    ensures Repaired(r, n) == if Checks(r, n, Crc(r[..n])) then Some(r[..n]) else None
  {
    var crc := Crc(r[..n]);
    assert crc ^ 0 == crc;
  }
}
