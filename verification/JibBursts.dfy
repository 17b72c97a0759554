/** What the bit repair costs: the burst errors a receiver with the second check takes for good. */
module JibBursts {
  import opened Bits
  import opened Lfsr
  import opened CrcUtil
  import opened JibCrc
  import opened JibStream
  import opened Wrappers

  /** The block passes the first check: it is closed with its own CRC. */
  predicate IsClosed(r: seq<bv8>) {
    |r| >= 2 && r == Closed(r[..|r| - 2])
  }

  lemma FirstCheckIff(r: seq<bv8>, n: nat)
    requires |r| == n + 2
    ensures Checks(r, n, Crc(r[..n])) <==> IsClosed(r)
  {
    hide Crc, Lsb, Msb;
    assert r == r[..n] + [r[n], r[n + 1]];
  }

  lemma FlipTwice(s: seq<bv8>)
    requires |s| >= 3
    ensures |Flip(s)| == |s| && Flip(Flip(s)) == s && Flip(s) != s
  {
    ToggleTwice(s[2]);
    hide Toggle;
    assert Flip(s)[2] == Toggle(s[2]);
  }

  lemma ToggleTwice(x: bv8)
    ensures Toggle(Toggle(x)) == x && Toggle(x) != x
  {}

  lemma FlipPrefix(r: seq<bv8>, n: nat)
    requires 3 <= n <= |r|
    ensures |Flip(r)| == |r| && Flip(r)[..n] == Flip(r[..n]) && Flip(r)[n..] == r[n..]
  {
    hide Toggle;
  }

  /** The second check is the first one on the block with the bit flipped. */
  lemma SecondCheckIff(r: seq<bv8>, n: nat)
    requires 3 <= n <= CORRECTIONS && |r| == n + 2
    ensures Checks(r, n, Crc(r[..n]) ^ CorrectionFor(n % 256)) <==> IsClosed(Flip(r))
  {
    hide Crc, Correction, Checks, Closed, Flip;
    FlipPrefix(r, n);
    FlipChangesCrc(r[..n]);
    FirstCheckIff(Flip(r), n);
    PlusIs(Crc(r[..n]), Correction(n - 1));
    SameChecks(r, Flip(r), n, Crc(Flip(r[..n])));
  }

  lemma PlusIs(c: bv16, d: bv16)
    ensures Plus(c, d) == c ^ d
  {}

  lemma SameChecks(r: seq<bv8>, t: seq<bv8>, n: nat, crc: bv16)
    requires |r| == |t| == n + 2 && r[n..] == t[n..]
    ensures Checks(r, n, crc) <==> Checks(t, n, crc)
  {
    hide Lsb, Msb;
    assert r[n] == r[n..][0] == t[n] && r[n + 1] == r[n..][1] == t[n + 1];
  }

  /** Which blocks of the lengths the table covers are taken at all: those closed with their CRC,
      and those that are so once bit 0 of byte 2 is flipped. */
  lemma TakenIff(r: seq<bv8>, n: nat)
    requires 3 <= n <= CORRECTIONS && |r| == n + 2
    ensures Repaired(r, n).Some? <==> IsClosed(r) || IsClosed(Flip(r))
  {
    hide Crc, CorrectionFor, Checks, IsClosed, Flip;
    FirstCheckIff(r, n);
    SecondCheckIff(r, n);
  }

  // ----- closed blocks have one residue -----

  /** The CRC bytes of a block. */
  function Tail(c: bv16): (t: seq<bv8>)
    ensures |t| == 2
  {
    [Lsb(c) ^ 0xff, Msb(c) ^ 0xff]
  }

  lemma TailComplements(c: bv16, a: bv8, b: bv8)
    ensures [a, b] == Tail(c) <==> Complements(c, a, b)
  {}

  lemma ClosedTail(s: seq<bv8>)
    ensures Closed(s) == s + Tail(OverBytes(Crc16, 0, s))
  {
    hide OverBytes, Lsb, Msb;
  }

  lemma ClosedResidue(r: seq<bv8>)
    requires |r| >= 2
    ensures IsClosed(r) <==> OverBits(Crc16, 0, Stream(r)) == 0xB001
  {
    hide OverBytes, OverBits, Stream, Closed, Tail, Complements;
    var n := |r| - 2;
    var p, t := r[..n], r[n..];
    assert r == p + t && t == [r[n], r[n + 1]];
    ClosedTail(p);
    SameSplit(p, t, Tail(OverBytes(Crc16, 0, p)));
    TailComplements(OverBytes(Crc16, 0, p), r[n], r[n + 1]);
    MessageResidue16(0, p, r[n], r[n + 1]);
    BytesAreBits(Crc16, 0, r);
  }

  lemma SameSplit(p: seq<bv8>, t: seq<bv8>, u: seq<bv8>)
    requires |t| == |u|
    ensures p + t == p + u <==> t == u
  {
    assert (p + t)[|p|..] == t && (p + u)[|p|..] == u;
  }

  /** The two blocks differ, if at all, in the sixteen bits from q on. */
  ghost predicate Near(a: seq<bv8>, b: seq<bv8>, q: nat) {
    |a| == |b| && forall k :: 0 <= k < 8 * |a| && !(q <= k < q + 16) ==> Stream(a)[k] == Stream(b)[k]
  }

  lemma ClosedApart(a: seq<bv8>, b: seq<bv8>, q: nat)
    requires IsClosed(a) && IsClosed(b) && Near(a, b, q)
    ensures a == b
  {
    hide OverBits, Stream, Closed;
    ClosedResidue(a);
    ClosedResidue(b);
    if Stream(a) != Stream(b) {
      BitBurst(Crc16, 0, Stream(a), Stream(b), q);
    }
    StreamInjective(a, b);
  }

  lemma FlipStream(r: seq<bv8>)
    requires |r| >= 3
    ensures |Flip(r)| == |r| && Stream(Flip(r)) == Stream(r)[16 := !Stream(r)[16]]
  {
    hide Stream, Unpack;
    UnpackToggle(r[2]);
    StreamAt(r, 16);
    StreamUpdate(r, 16, Toggle(r[2]), !Stream(r)[16]);
  }

  lemma UnpackToggle(x: bv8)
    ensures Unpack(Toggle(x)) == Unpack(x)[0 := !Unpack(x)[0]]
  {
    hide *;
    ToggleBits(x);
    LowBitsIs(x);
    LowBitsIs(Toggle(x));
  }

  lemma ToggleBits(x: bv8)
    ensures Toggle(x) >> 1 == x >> 1
    ensures (Toggle(x) & 1 != 0) == !(x & 1 != 0)
  {}

  lemma LowBitsIs(x: bv8)
    ensures Unpack(x) == [x & 1 != 0] + LowBits(x >> 1, 7)
  {}

  lemma NearFlipped(a: seq<bv8>, b: seq<bv8>, q: nat)
    requires |a| >= 3 && Near(a, b, q)
    ensures Near(Flip(a), Flip(b), q)
  {
    hide Stream, Flip;
    FlipStream(a);
    FlipStream(b);
  }

  lemma NearVia(a: seq<bv8>, b: seq<bv8>, c: seq<bv8>, q: nat)
    requires Near(a, b, q) && Near(c, b, q)
    ensures Near(a, c, q)
  {
    hide Stream;
  }

  /** The first check alone detects every burst of up to sixteen bits, CRC bytes included. */
  lemma FirstCheckDetects(s: seq<bv8>, r: seq<bv8>, q: nat)
    requires Near(r, Closed(s), q) && r != Closed(s)
    ensures !Checks(r, |s|, Crc(r[..|s|]))
  {
    hide Near, Closed, Crc, Checks;
    ClosedIsClosed(s);
    NearLength(r, Closed(s), q);
    FirstCheckIff(r, |s|);
    if IsClosed(r) {
      ClosedApart(r, Closed(s), q);
    }
  }

  lemma NearLength(a: seq<bv8>, b: seq<bv8>, q: nat)
    requires Near(a, b, q)
    ensures |a| == |b|
  {}

  lemma ClosedIsClosed(s: seq<bv8>)
    ensures IsClosed(Closed(s)) && |Closed(s)| == |s| + 2
  {}

  /** With the second check at most one burst in any window of sixteen bits gets through. */
  lemma OneBurstAtMost(s: seq<bv8>, r1: seq<bv8>, r2: seq<bv8>, q: nat)
    requires 3 <= |s| <= CORRECTIONS
    requires Near(r1, Closed(s), q) && r1 != Closed(s) && |r1| == |s| + 2 && Repaired(r1, |s|).Some?
    requires Near(r2, Closed(s), q) && r2 != Closed(s) && |r2| == |s| + 2 && Repaired(r2, |s|).Some?
    ensures r1 == r2
  {
    hide Near, Closed, Crc, Checks, Repaired, IsClosed, Flip;
    MustBeFlipped(s, r1, q);
    MustBeFlipped(s, r2, q);
    NearVia(r1, Closed(s), r2, q);
    NearFlipped(r1, r2, q);
    ClosedApart(Flip(r1), Flip(r2), q);
    FlipTwice(r1);
    FlipTwice(r2);
  }

  lemma MustBeFlipped(s: seq<bv8>, r: seq<bv8>, q: nat)
    requires 3 <= |s| <= CORRECTIONS
    requires Near(r, Closed(s), q) && r != Closed(s) && |r| == |s| + 2 && Repaired(r, |s|).Some?
    ensures IsClosed(Flip(r))
  {
    hide Near, Closed, Crc, Checks, Repaired, IsClosed, Flip;
    FirstCheckDetects(s, r, q);
    FirstCheckIff(r, |s|);
    TakenIff(r, |s|);
  }

  // ----- and one does -----

  /** A stream of m bits with one bit set. */
  function OneBit(k: nat, m: nat): (bits: seq<bool>)
    requires k < m
    ensures |bits| == m
  {
    Zeros(m)[k := true]
  }

  /** Some window pattern leaves any given register value at the end of the stream. */
  lemma PatternFor(c: bv16, q: nat, m: nat) returns (w: seq<bool>)
    ensures |w| == 16 && OverBits(Crc16, 0, Zeros(q) + w + Zeros(m)) == c
  {
    hide Shift, ShiftN, OverBits, OverByte, Plus, Unpack;
    var v := ShiftNOnto(c, 16 + m);
    SplitWord(v);
    var x, y := (v & 0xff) as bv8, (v >> 8) as bv8;
    LowIs(v);
    w := Unpack(x) + Unpack(y);
    BitsAppend(Crc16, 0, Unpack(x), Unpack(y));
    ByteIsBits(Crc16, 0, x);
    ByteIsBits(Crc16, OverByte(Crc16, 0, x), y);
    TwoBytes(0, x, y);
    PlusZero(v, 0);
    ShiftNAdd(Crc16, v, 16, m);
    ZerosOver(Crc16, 0, q);
    ZeroStays(Crc16, q);
    BitsAppend(Crc16, 0, Zeros(q) + w, Zeros(m));
    BitsAppend(Crc16, 0, Zeros(q), w);
    ZerosOver(Crc16, OverBits(Crc16, 0, w), m);
  }

  lemma LowIs(v: bv16)
    ensures ((v & 0xff) as bv8) as bv16 == v & 0xff
  {}

  /** In every window of sixteen bits within a closed block there is a burst that gets through. */
  lemma OneBurstAtLeast(s: seq<bv8>, q: nat) returns (r: seq<bv8>)
    requires 3 <= |s| <= CORRECTIONS && q + 16 <= 8 * (|s| + 2)
    ensures Near(r, Closed(s), q) && r != Closed(s) && |r| == |s| + 2 && Repaired(r, |s|).Some?
  {
    hide Shift, ShiftN, OverBits, Plus, Stream, Closed, Repaired, IsClosed, Flip, Crc;
    var N := 8 * (|s| + 2);
    var sent := Stream(Closed(s));
    var unit := OneBit(16, N);
    var w := PatternFor(OverBits(Crc16, 0, unit), q, N - q - 16);
    var e := Zeros(q) + w + Zeros(N - q - 16);
    r := Pack(Xor(sent, e));
    StreamPack(Xor(sent, e));
    ClosedIsClosed(s);
    ClosedResidue(Closed(s));
    FlipStream(r);
    assert Stream(Flip(r)) == Xor(Xor(sent, e), unit);
    PlusZero(0, 0);
    BitsLinear(Crc16, 0, 0, sent, e);
    BitsLinear(Crc16, 0, 0, Xor(sent, e), unit);
    Cancels(OverBits(Crc16, 0, sent), OverBits(Crc16, 0, e));
    ClosedResidue(Flip(r));
    TakenIff(r, |s|);
    if r == Closed(s) {
      NearItsFlip(r);
      ClosedApart(r, Flip(r), 16);
      FlipTwice(r);
      assert false;
    }
  }

  lemma NearItsFlip(r: seq<bv8>)
    requires |r| >= 3
    ensures Near(r, Flip(r), 16)
  {
    hide Stream, Flip;
    FlipStream(r);
  }

  lemma Cancels(a: bv16, b: bv16)
    ensures Plus(Plus(a, b), b) == a
  {}

  /** The one in the CRC bytes leaves the data alone: they are those of the block with the bit
      flipped. The receiver takes it and clears the bit, so the data handed on is right exactly
      if the bit was clear anyway. */
  lemma CrcBytesBurst(s: seq<bv8>)
    requires 3 <= |s| <= CORRECTIONS
    ensures var r := Flip(Closed(Flip(s)));
            && |r| == |s| + 2 && r[..|s|] == s && r != Closed(s)
            && Repaired(r, |s|) == Some(s[2 := s[2] & 0xFE])
  {
    hide Crc, Closed, Checks, CorrectionFor, Flip, Toggle, IsClosed;
    var n := |s|;
    FlipTwice(s);
    ClosedIsClosed(Flip(s));
    var c := Closed(Flip(s));
    var r := Flip(c);
    FlipTwice(c);
    FlipPrefix(c, n);
    assert r[..n] == s;
    FirstCheckIff(r, n);
    SecondCheckIff(r, n);
    if IsClosed(r) {
      NearItsFlip(c);
      ClosedApart(c, r, 16);
      assert false;
    }
    ClosedIsClosed(s);
  }
}
