/** SendCiBMessage and what it calls, on a run without transfer errors: the segments that go
    out, and that the receive side puts the message together again. */
module JibSend {
  import opened Arith
  import opened Lfsr
  import opened JibCrc
  import opened JibStream
  import opened JibSegments
  import opened Wrappers

  /** `(uchar)(msglen - indexx)`: what is left to send, kept in eight bits. */
  function Remain(len: nat, k: nat): (r: nat)
    ensures r < 256
  {
    (len - SEGSIZE * k) % 256
  }

  /** A number below 256 as a byte, put together bit by bit. */
  function Byte(n: nat): bv8
    requires n < 256
  {
    if n == 0 then 0 else AddBit(Byte(n / 2), n % 2 == 1)
  }

  function AddBit(x: bv8, bit: bool): bv8 {
    (x << 1) | (if bit then 1 else 0)
  }

  lemma AddBitNum(x: bv8, bit: bool)
    requires Num(x) < 128
    ensures Num(AddBit(x, bit)) == 2 * Num(x) + if bit then 1 else 0
  {
    if bit {
    } else {
    }
  }

  function SegByte(k: nat, last: bool): bv8
    requires k < 128
  {
    Byte(k) | (if last then 128 else 0)
  }

  /** The six header bytes before the checksum. */
  function HeaderStart(k: nat, last: bool, remain: nat, data: seq<bv8>): (h: seq<bv8>)
    requires k < 128 && remain < 256 && |data| < 256
    ensures |h| == 6
  {
    var segcrc := Crc([Byte(|data|)] + data);
    [SegByte(k, last), Byte(|data|), Byte(remain), 0, Lsb(segcrc), Msb(segcrc)]
  }

  /** The checksum put in the header. */
  function Sum(before: nat, h: seq<bv8>, data: seq<bv8>): (sum: nat)
    ensures sum < 0x1_0000
  {
    (before + SumOf(data) + SumOf(h)) % 0x1_0000
  }

  function MakeSegment(k: nat, last: bool, remain: nat, data: seq<bv8>, before: nat): (s: Segment)
    requires k < 128 && remain < 256 && |data| < 256
    ensures Shaped(s)
  {
    ByteNum(|data|);
    var h := HeaderStart(k, last, remain, data);
    var sum := Sum(before, h, data);
    Segment(h + [Byte(sum % 256), Byte(sum / 256)], [0xAA, Byte(|data|)] + data)
  }

  /** The running checksum after a segment. */
  function SumAfter(k: nat, last: bool, remain: nat, data: seq<bv8>, before: nat): (after: nat)
    requires k < 128 && remain < 256 && |data| < 256
    ensures after < 0x1_0000
  {
    var sum := Sum(before, HeaderStart(k, last, remain, data), data);
    (sum + sum % 256 + sum / 256) % 0x1_0000
  }

  /** The data of segment k. */
  function Slice(msg: seq<bv8>, k: nat): (data: seq<bv8>)
    requires SEGSIZE * k <= |msg|
    ensures |data| == if Remain(|msg|, k) > SEGSIZE then SEGSIZE else Remain(|msg|, k)
  {
    RemainFits(|msg|, k);
    msg[SEGSIZE * k..SEGSIZE * k + if Remain(|msg|, k) > SEGSIZE then SEGSIZE else Remain(|msg|, k)]
  }

  lemma RemainFits(len: nat, k: nat)
    requires SEGSIZE * k <= len
    ensures SEGSIZE * k + Remain(len, k) <= len
    ensures Remain(len, k) > SEGSIZE ==> Remain(len, k + 1) == Remain(len, k) - SEGSIZE
  {}

  /** The segments sent from segment k on. */
  function Sent(msg: seq<bv8>, k: nat, before: nat): (segs: seq<Segment>)
    requires SEGSIZE * k <= |msg| && k < 127
    requires k > 0 ==> Remain(|msg|, k) <= SEGSIZE
    ensures AllShaped(segs)
    decreases Remain(|msg|, k)
  {
    RemainFits(|msg|, k);
    var remain, data := Remain(|msg|, k), Slice(msg, k);
    var last := remain <= SEGSIZE;
    var s := MakeSegment(k, last, remain, data, before);
    if last then OneSegment(s) else
    var rest := Sent(msg, k + 1, SumAfter(k, last, remain, data, before));
    Then(s, rest)
  }

  function OneSegment(s: Segment): (segs: seq<Segment>)
    requires Shaped(s)
    ensures AllShaped(segs)
  {
    [s]
  }

  function Then(s: Segment, rest: seq<Segment>): (segs: seq<Segment>)
    requires Shaped(s) && AllShaped(rest)
    ensures AllShaped(segs)
  {
    [s] + rest
  }

  lemma {:induction false} ByteNum(n: nat)
    requires n < 256
    ensures Num(Byte(n)) == n
  {
    hide Num, AddBit;
    if n > 0 {
      ByteNum(n / 2);
      AddBitNum(Byte(n / 2), n % 2 == 1);
    } else {
      ZeroNum();
    }
  }

  lemma ZeroNum()
    ensures Num(0) == 0
  {}

  lemma SegByteIs(k: nat, last: bool)
    requires k <= 1
    ensures Number(SegByte(k, last)) == k && (Flagged(SegByte(k, last)) <==> last)
  {}

  lemma HalvesBack(c: bv16)
    ensures Word16(Lsb(c), Msb(c)) == c
  {}

  /** What a segment made by the sender looks like to the receiver. */
  lemma MadeSegment(k: nat, last: bool, remain: nat, data: seq<bv8>, before: nat)
    requires k <= 1 && remain < 256 && |data| < 256
    ensures var s := MakeSegment(k, last, remain, data, before);
            && Shaped(s) && Data(s) == data && Num(s.hdr[1]) == |data|
            && Number(s.hdr[0]) == k && (Flagged(s.hdr[0]) <==> last)
            && DataCrcMatches(s) && CarriedSum(s) == Expected(before, s)
            && SumAfter(k, last, remain, data, before)
               == (Expected(before, s) + Num(s.hdr[6]) + Num(s.hdr[7])) % 0x1_0000
  {
    hide Crc, SumOf, Num, SegByte, Number, Flagged, Word16, Lsb, Msb, Byte;
    var s := MakeSegment(k, last, remain, data, before);
    var h := HeaderStart(k, last, remain, data);
    var sum := Sum(before, h, data);
    ByteNum(|data|);
    ByteNum(sum % 256);
    ByteNum(sum / 256);
    SegByteIs(k, last);
    assert s.hdr[..6] == h;
    assert Data(s) == data;
    assert s.block[1..] == [Byte(|data|)] + data;
    HalvesBack(Crc([Byte(|data|)] + data));
  }

  /** A segment the sender made continues a chain that matches what was sent before it. */
  lemma MadeIsTaken(chain: seq<Segment>, k: nat, last: bool, remain: nat, data: seq<bv8>, bufsize: nat)
    requires Open(chain) && |chain| == k <= 1 && remain < 256 && |data| < 256
    requires |Payload(chain)| + |data| <= bufsize
    ensures var s := MakeSegment(k, last, remain, data, Running(chain));
            && Shaped(s) && Take(chain, s, bufsize) == Taken(chain + [s])
            && (Flagged(s.hdr[0]) <==> last)
            && Payload(chain + [s]) == Payload(chain) + data
            && Running(chain + [s]) == SumAfter(k, last, remain, data, Running(chain))
  {
    hide Crc, SumOf, Num, SegByte, Number, Flagged, Word16, Running, Payload, MakeSegment, SumAfter,
      Expected, CarriedSum, DataCrcMatches, Data;
    var s := MakeSegment(k, last, remain, data, Running(chain));
    MadeSegment(k, last, remain, data, Running(chain));
    if k == 0 { assert chain == []; }
    PayloadOneMore(chain, s);
  }

  /** The receiver has the first k segments of a message, k being 0 or 1. */
  ghost predicate Begun(msg: seq<bv8>, chain: seq<Segment>, k: nat) {
    && AllShaped(chain) && Open(chain) && |chain| == k <= 1 && SEGSIZE * k <= |msg|
    && (k > 0 ==> Remain(|msg|, k) <= SEGSIZE)
    && Payload(chain) == msg[..SEGSIZE * k]
  }

  /** Offered segs, the receiver takes them all and then has the first n bytes of the message. */
  ghost predicate Delivered(chain: seq<Segment>, segs: seq<Segment>, msg: seq<bv8>, n: nat, bufsize: nat) {
    && AllShaped(chain) && AllShaped(segs) && AllShaped(chain + segs) && n <= |msg|
    && Attempt(chain, segs, bufsize) == Some(chain + segs)
    && Payload(chain + segs) == msg[..n]
  }

  /** Fed to the receiver, the rest of a message is taken segment by segment to its end. */
  lemma {:induction false} SentIsTaken(msg: seq<bv8>, chain: seq<Segment>, k: nat, bufsize: nat)
    requires Begun(msg, chain, k) && SEGSIZE * k + Remain(|msg|, k) <= bufsize
    ensures Delivered(chain, Sent(msg, k, Running(chain)), msg, SEGSIZE * k + Remain(|msg|, k), bufsize)
    decreases Remain(|msg|, k)
  {
    hide Crc, SumOf, Num, SegByte, Number, Flagged, Word16, Running, Payload, MakeSegment, SumAfter, Take, Shaped;
    RemainFits(|msg|, k);
    var from, remain, before := SEGSIZE * k, Remain(|msg|, k), Running(chain);
    var last, data := remain <= SEGSIZE, Slice(msg, k);
    MadeIsTaken(chain, k, last, remain, data, bufsize);
    var s := MakeSegment(k, last, remain, data, before);
    var c := chain + [s];
    TakeKeepsGood(chain, s, bufsize);
    OpenShaped(chain);
    assert msg[..from] + data == msg[..from + |data|];
    if last {
      assert Sent(msg, k, before) == [s];
    } else {
      SentIsTaken(msg, c, k + 1, bufsize);
      var rest := Sent(msg, k + 1, Running(c));
      assert Sent(msg, k, before) == [s] + rest;
      assert ([s] + rest)[1..] == rest;
      assert chain + ([s] + rest) == c + rest;
    }
  }

  /** The framing round trip, for messages of any length: the rules for segments accept all that
      is sent for a message, and what is put together is the message up to its length modulo
      256. So the message comes back exactly if it is shorter than 256 bytes. */
  lemma RoundTrip(msg: seq<bv8>, bufsize: nat)
    requires |msg| % 256 <= bufsize
    ensures Delivered([], Sent(msg, 0, 0), msg, |msg| % 256, bufsize)
    ensures msg[..|msg| % 256] == msg <==> |msg| < 256
  {
    hide Take, MakeSegment, SumAfter, Attempt, Sent, Shaped, Open, AllShaped, Delivered;
    OpenEmpty();
    OpenShaped([]);
    EmptyChain();
    SentIsTaken(msg, [], 0, bufsize);
  }

  lemma EmptyChain()
    ensures AllShaped([]) && Running([]) == 0 && Payload([]) == []
  {}

  /** On the line each header and each data block goes out with its CRC, and passes the
      receiver's block check unchanged. */
  lemma BlocksPass(s: Segment)
    requires Shaped(s)
    ensures Repaired(Closed([0x22, 8] + s.hdr), 10) == Some([0x22, 8] + s.hdr)
    ensures Repaired(Closed(s.block), |s.block|) == Some(s.block)
  {
    Undisturbed([0x22, 8] + s.hdr);
    Undisturbed(s.block);
  }

  // ----- the functions that send -----

  /** SendHeader without a transfer error: the header bytes, and the checksum accumulator with
      all eight of them added. */
  method SendHeader(t: Tables, k: nat, last: bool, mp: array<bv8>, from: nat, remain: nat, seglen: nat, psum0: nat,
                    ghost before: nat)
    returns (hdr: seq<bv8>, psum: nat)
    requires t.Ready() && k < 128 && remain < 256 && seglen < 256 && from + seglen <= mp.Length
    requires psum0 == (before + SumOf(mp[from..from + seglen])) % 0x1_0000
    ensures hdr == MakeSegment(k, last, remain, mp[from..from + seglen], before).hdr
    ensures psum == SumAfter(k, last, remain, mp[from..from + seglen], before)
  {
    hide SumOf, Num, SegByte, Lsb, Msb, Byte, OverByte, MakeSegment, SumAfter, Shaped;
    ghost var data := mp[from..from + seglen];
    var segcrc := t.CRC16(Byte(seglen), 0);
    segcrc := t.CRC16Buf(mp, from, segcrc, seglen);
    LengthFirst(Byte(seglen), data);
    var start := [SegByte(k, last), Byte(seglen), Byte(remain), 0, Lsb(segcrc), Msb(segcrc)];
    assert start == HeaderStart(k, last, remain, data);
    psum := AddUp(start, psum0);
    ModAdd(before + SumOf(data), SumOf(start), 0x1_0000);
    hdr := start + [Byte(psum % 256), Byte(psum / 256)];
    var sent := psum;
    psum := (psum + sent % 256) % 0x1_0000;
    psum := (psum + sent / 256) % 0x1_0000;
    ModAdd(sent + sent % 256, sent / 256, 0x1_0000);
    HeaderMade(k, last, remain, data, before, start, sent);
  }

  lemma HeaderMade(k: nat, last: bool, remain: nat, data: seq<bv8>, before: nat, start: seq<bv8>, sum: nat)
    requires k < 128 && remain < 256 && |data| < 256
    requires start == HeaderStart(k, last, remain, data)
    requires sum == Sum(before, start, data)
    ensures MakeSegment(k, last, remain, data, before).hdr == start + [Byte(sum % 256), Byte(sum / 256)]
    ensures SumAfter(k, last, remain, data, before) == (sum + sum % 256 + sum / 256) % 0x1_0000
  {
    hide Sum, SumOf, Byte, HeaderStart, Shaped;
  }

  lemma LengthFirst(x: bv8, data: seq<bv8>)
    ensures OverBytes(Crc16, OverByte(Crc16, 0, x), data) == Crc([x] + data)
  {
    hide OverByte;
    assert ([x] + data)[1..] == data;
  }

  /** SendSegment: segment k of the message, as the receiver will read it back, and the two packets
      that carry it out: the data block, then the header. */
  method SendSegment(t: Tables, k: nat, mp: array<bv8>, psum0: nat)
    returns (s: Segment, last: bool, psum: nat, wire: seq<seq<bv8>>)
    requires t.Ready() && k < 127 && SEGSIZE * k <= mp.Length && psum0 < 0x1_0000
    ensures last == (Remain(mp.Length, k) <= SEGSIZE)
    ensures s == MakeSegment(k, last, Remain(mp.Length, k), Slice(mp[..], k), psum0)
    ensures psum == SumAfter(k, last, Remain(mp.Length, k), Slice(mp[..], k), psum0)
    ensures wire == [[0x0F] + s.block[1..] + [0xFF, 0xFF], [0x2D, 8] + s.hdr]
  {
    hide SumOf, Num, SegByte, Lsb, Msb, Byte, HeaderStart, Sum, Remain;
    RemainFits(mp.Length, k);
    var indexx := k * SEGSIZE;
    var remain := Remain(mp.Length, k);
    var seglen;
    if remain > SEGSIZE {
      seglen := SEGSIZE;
      last := false;
    } else {
      seglen := remain;
      last := true;
    }
    var data := mp[indexx..indexx + seglen];
    assert data == Slice(mp[..], k);
    // OW_IPRWRITE, then room for the CRC the device answers with
    wire := [[0x0F, Byte(seglen)] + data + [0xFF, 0xFF]];
    psum := AddUp(data, psum0);
    var hdr;
    hdr, psum := SendHeader(t, k, last, mp, indexx, remain, seglen, psum, psum0);
    // OW_FIFOWRITE, FIFO_LEN
    wire := wire + [[0x2D, 8] + hdr];
    s := Segment(hdr, [0xAA, Byte(seglen)] + data);
    assert s.block[1..] == [Byte(seglen)] + data;
    assert [0x0F] + s.block[1..] == [0x0F, Byte(seglen)] + data;
  }

  /** The packets that carry some segments out. */
  ghost predicate OnWire(wire: seq<seq<bv8>>, frames: seq<Segment>) {
    && |wire| == 2 * |frames|
    && forall k :: 0 <= k < |frames| ==>
         && |frames[k].block| >= 1
         && wire[2 * k] == [0x0F] + frames[k].block[1..] + [0xFF, 0xFF] && wire[2 * k + 1] == [0x2D, 8] + frames[k].hdr
  }

  lemma OnWireMore(wire: seq<seq<bv8>>, frames: seq<Segment>, s: Segment, data: seq<bv8>, header: seq<bv8>)
    requires OnWire(wire, frames) && |s.block| >= 1
    requires data == [0x0F] + s.block[1..] + [0xFF, 0xFF] && header == [0x2D, 8] + s.hdr
    ensures OnWire(wire + [data, header], frames + [s])
  {}

  /** SendCiBMessage without a transfer error: exactly the segments of the message go out, each in
      its two packets. */
  method SendCiBMessage(t: Tables, mp: array<bv8>) returns (frames: seq<Segment>, wire: seq<seq<bv8>>)
    requires t.Ready()
    ensures frames == Sent(mp[..], 0, 0)
    ensures OnWire(wire, frames)
  {
    hide MakeSegment, SumAfter, Slice, OnWire;
    NothingOnWire();
    ghost var msg := mp[..];
    frames, wire := [], [];
    var seg, last := 127, false;
    var checksum, sum := 0, 0;
    while !last
      invariant 0 <= seg <= 127 && sum < 0x1_0000 && OnWire(wire, frames)
      invariant !last ==>
        || (seg == 127 && frames == [])
        || (seg == 0 && Remain(|msg|, 0) > SEGSIZE && checksum == 0 && frames + Sent(msg, 1, sum) == Sent(msg, 0, 0))
      invariant last ==> frames == Sent(msg, 0, 0)
      decreases !last, (seg + 1) % 128 == 0
    {
      seg := (seg + 1) % 128;
      RemainFits(|msg|, 0);
      checksum := if seg != 0 then (checksum + sum) % 0x1_0000 else 0;
      sum := checksum;
      var s, out;
      s, last, sum, out := SendSegment(t, seg, mp, sum);
      OnWireMore(wire, frames, s, out[0], out[1]);
      frames, wire := frames + [s], wire + [out[0], out[1]];
    }
  }

  lemma NothingOnWire()
    ensures OnWire([], [])
  {}
}
