/** The segment protocol in plain terms: a message on the wire, byte by byte as numbers, and
    that the receiver takes exactly such messages. */
module JibFormat {
  import opened Arith
  import opened Lfsr
  import opened JibCrc
  import opened JibStream
  import opened JibSegments
  import opened JibSend
  import opened JibDevice
  import opened Wrappers

  /** The plain sum of some bytes. */
  function Total(bytes: seq<bv8>): nat {
    if bytes == [] then 0 else bytes[0] as nat + Total(bytes[1..])
  }

  /** All that some segments add to the checksum: their eight header bytes and their data. */
  function Carried(segs: seq<Segment>): nat
    requires forall i :: 0 <= i < |segs| ==> |segs[i].hdr| == 8 && |segs[i].block| >= 2
  {
    if segs == [] then 0 else Total(segs[0].hdr) + Total(segs[0].block[2..]) + Carried(segs[1..])
  }

  /** The data of some segments, one after the other. */
  function Content(segs: seq<Segment>): seq<bv8>
    requires forall i :: 0 <= i < |segs| ==> |segs[i].block| >= 2
  {
    if segs == [] then [] else segs[0].block[2..] + Content(segs[1..])
  }

  /** A whole message: segment k carries number k, the top bit set on the last and on no other;
      its length; the CRC16 of length and data, low byte first; and the sum modulo 65536 of all
      bytes before it and of its own header and data up to the sum itself, low byte first. */
  ghost predicate Framed(segs: seq<Segment>) {
    && 0 < |segs| <= 128
    && (forall k :: 0 <= k < |segs| ==> |segs[k].hdr| == 8 && |segs[k].block| == segs[k].hdr[1] as nat + 2)
    && (forall k :: 0 <= k < |segs| ==> FramedAt(segs, k))
  }

  ghost predicate FramedAt(segs: seq<Segment>, k: nat)
    requires k < |segs| && forall i :: 0 <= i < |segs| ==> |segs[i].hdr| == 8 && |segs[i].block| >= 2
  {
    var h, block := segs[k].hdr, segs[k].block;
    NumberPart(h[0], k, k == |segs| - 1) && CrcPart(h, block) && SumPart(Carried(segs[..k]), h, block)
  }

  predicate NumberPart(x: bv8, k: nat, last: bool) {
    k < 128 && x as nat == k + if last then 128 else 0
  }

  predicate CrcPart(h: seq<bv8>, block: seq<bv8>)
    requires |h| == 8 && |block| >= 2
  {
    OverBytes(Crc16, 0, block[1..]) == LowFirst(h[4], h[5])
  }

  /** The word of two bytes, low byte first. */
  function LowFirst(lo: bv8, hi: bv8): bv16 {
    (lo as bv16) | ((hi as bv16) << 8)
  }

  predicate SumPart(before: nat, h: seq<bv8>, block: seq<bv8>)
    requires |h| == 8 && |block| >= 2
  {
    h[6] as nat + 256 * h[7] as nat == (before + Total(h[..6]) + Total(block[2..])) % 65536
  }

  // ----- the words of the rules, in plain terms -----

  lemma SegmentByte(x: bv8)
    ensures Num(x) == x as nat
    ensures x as nat == Number(x) + if Flagged(x) then 128 else 0
  {
    if Flagged(x) {
    } else {
    }
  }

  lemma WordIs(lo: bv8, hi: bv8)
    ensures Word16(lo, hi) == LowFirst(lo, hi)
  {}

  lemma {:induction false} SumIsTotal(bytes: seq<bv8>)
    ensures SumOf(bytes) == Total(bytes)
    decreases |bytes|
  {
    if bytes != [] {
      var n := |bytes| - 1;
      SumIsTotal(bytes[..n]);
      TotalAppend(bytes[..n], [bytes[n]]);
      assert bytes == bytes[..n] + [bytes[n]] && [bytes[n]][1..] == [];
      hide Num;
      SegmentByte(bytes[n]);
      assert Total([bytes[n]]) == bytes[n] as nat + Total([]);
    }
  }

  lemma {:induction false} TotalAppend(a: seq<bv8>, b: seq<bv8>)
    ensures Total(a + b) == Total(a) + Total(b)
    decreases |a|
  {
    if a == [] {
      assert a + b == b;
    } else {
      assert (a + b)[1..] == a[1..] + b;
      TotalAppend(a[1..], b);
    }
  }

  lemma {:induction false} CarriedMore(segs: seq<Segment>, s: Segment)
    requires forall i :: 0 <= i < |segs| ==> |segs[i].hdr| == 8 && |segs[i].block| >= 2
    requires |s.hdr| == 8 && |s.block| >= 2
    ensures Carried(segs + [s]) == Carried(segs) + Total(s.hdr) + Total(s.block[2..])
    ensures Content(segs + [s]) == Content(segs) + s.block[2..]
    decreases |segs|
  {
    hide Total;
    if segs == [] {
      assert segs + [s] == [s] && [s][1..] == [];
    } else {
      assert (segs + [s])[1..] == segs[1..] + [s];
      CarriedMore(segs[1..], s);
    }
  }

  lemma ShapedSizes(s: Segment)
    requires Shaped(s)
    ensures |s.hdr| == 8 && |s.block| == s.hdr[1] as nat + 2 && Data(s) == s.block[2..]
  {
    SegmentByte(s.hdr[1]);
  }

  lemma AllSizes(segs: seq<Segment>)
    requires AllShaped(segs)
    ensures forall k :: 0 <= k < |segs| ==> |segs[k].hdr| == 8 && |segs[k].block| == segs[k].hdr[1] as nat + 2
  {
    hide Shaped;
    forall k | 0 <= k < |segs|
      ensures |segs[k].hdr| == 8 && |segs[k].block| == segs[k].hdr[1] as nat + 2
    {
      ShapedSizes(segs[k]);
    }
  }

  lemma HeaderTotal(h: seq<bv8>)
    requires |h| == 8
    ensures Total(h) == Total(h[..6]) + h[6] as nat + h[7] as nat
  {
    assert h == h[..6] + [h[6], h[7]];
    TotalAppend(h[..6], [h[6], h[7]]);
    assert [h[6], h[7]][1..] == [h[7]] && [h[7]][1..] == [];
    assert Total([h[7]]) == h[7] as nat + Total([]);
    assert Total([h[6], h[7]]) == h[6] as nat + Total([h[7]]);
  }

  /** The running checksum is the plain sum of all bytes so far, modulo 65536, and the payload
      the data of all segments. */
  lemma {:induction false} RunningIsCarried(segs: seq<Segment>)
    requires AllShaped(segs)
    ensures forall i :: 0 <= i < |segs| ==> |segs[i].hdr| == 8 && |segs[i].block| >= 2
    ensures Running(segs) == Carried(segs) % 65536
    ensures Payload(segs) == Content(segs)
    decreases |segs|
  {
    hide SumOf, Num, Total, Shaped, Running, Payload, Carried, Content;
    AllSizes(segs);
    NothingCarried();
    if segs != [] {
      var n := |segs| - 1;
      var before, s := segs[..n], segs[n];
      assert segs == before + [s];
      RunningIsCarried(before);
      CarriedMore(before, s);
      ShapedSizes(s);
      PayloadOneMore(before, s);
      RunningMore(before, s);
    }
  }

  lemma NothingCarried()
    ensures AllShaped([]) && Running([]) == 0 == Carried([]) && Payload([]) == [] == Content([])
  {}

  lemma RunningMore(before: seq<Segment>, s: Segment)
    requires AllShaped(before) && Shaped(s)
    requires forall i :: 0 <= i < |before| ==> |before[i].hdr| == 8 && |before[i].block| >= 2
    requires Running(before) == Carried(before) % 65536
    ensures (Expected(Running(before), s) + Num(s.hdr[6]) + Num(s.hdr[7])) % 65536
         == (Carried(before) + Total(s.hdr) + Total(s.block[2..])) % 65536
  {
    hide SumOf, Num, Total, Running, Carried, Expected, Shaped;
    ShapedSizes(s);
    ExpectedIs(before, s);
    HeaderTotal(s.hdr);
    SegmentByte(s.hdr[6]);
    SegmentByte(s.hdr[7]);
    var x, y := Carried(before) + Total(s.hdr[..6]) + Total(s.block[2..]), s.hdr[6] as nat + s.hdr[7] as nat;
    ModAdd(x, y, 65536);
  }

  lemma ExpectedIs(before: seq<Segment>, s: Segment)
    requires AllShaped(before) && Shaped(s)
    requires forall i :: 0 <= i < |before| ==> |before[i].hdr| == 8 && |before[i].block| >= 2
    requires Running(before) == Carried(before) % 65536
    ensures Expected(Running(before), s) == (Carried(before) + Total(s.hdr[..6]) + Total(s.block[2..])) % 65536
  {
    hide SumOf, Num, Total, Running, Carried;
    SumIsTotal(s.hdr[..6]);
    SumIsTotal(s.block[2..]);
    ModAdd(Carried(before), Total(s.hdr[..6]) + Total(s.block[2..]), 65536);
  }

  lemma DataCrcIs(s: Segment)
    requires Shaped(s)
    ensures DataCrcMatches(s) <==> CrcPart(s.hdr, s.block)
  {
    hide OverBytes, Word16, LowFirst;
    WordIs(s.hdr[4], s.hdr[5]);
  }

  lemma NumberIs(x: bv8, k: nat, last: bool)
    requires Flagged(x) <==> last
    ensures Number(x) == k <==> NumberPart(x, k, last)
  {
    hide Number, Flagged, Num;
    SegmentByte(x);
  }

  lemma ChecksumIs(before: seq<Segment>, s: Segment)
    requires AllShaped(before) && Shaped(s)
    ensures forall i :: 0 <= i < |before| ==> |before[i].hdr| == 8 && |before[i].block| >= 2
    ensures CarriedSum(s) == Expected(Running(before), s) <==> SumPart(Carried(before), s.hdr, s.block)
  {
    hide SumOf, Num, Total, Running, Carried, Expected;
    RunningIsCarried(before);
    ExpectedIs(before, s);
    SegmentByte(s.hdr[6]);
    SegmentByte(s.hdr[7]);
  }

  /** A link of a chain in plain terms. */
  lemma LinkIs(segs: seq<Segment>, k: nat)
    requires AllShaped(segs) && k < |segs|
    requires forall i :: 0 <= i < |segs| ==> |segs[i].hdr| == 8 && |segs[i].block| >= 2
    requires Flagged(segs[k].hdr[0]) <==> k == |segs| - 1
    ensures LinkAt(segs, k) <==> FramedAt(segs, k)
  {
    hide NumberPart, CrcPart, SumPart, Total, Running, Carried, Expected, CarriedSum, DataCrcMatches, Flagged, Number, OverBytes, Num, Shaped;
    var s := segs[k];
    NumberIs(s.hdr[0], k, k == |segs| - 1);
    DataCrcIs(s);
    ChecksumIs(segs[..k], s);
  }

  lemma FramedFlag(segs: seq<Segment>, k: nat)
    requires Framed(segs) && k < |segs|
    ensures Flagged(segs[k].hdr[0]) <==> k == |segs| - 1
    ensures Shaped(segs[k])
  {
    hide Carried, Total, OverBytes, Flagged, Number, Num;
    assert FramedAt(segs, k);
    SegmentByte(segs[k].hdr[0]);
    SegmentByte(segs[k].hdr[1]);
  }

  /** A whole message is a good chain with its last segment flagged, and nothing else is. */
  lemma FramedIff(segs: seq<Segment>)
    ensures Framed(segs) <==> Good(segs) && segs != [] && Flagged(segs[|segs| - 1].hdr[0])
  {
    hide FramedAt, LinkAt, Flagged, Num;
    if Framed(segs) {
      forall k | 0 <= k < |segs|
        ensures Shaped(segs[k]) && (Flagged(segs[k].hdr[0]) <==> k == |segs| - 1)
      {
        FramedFlag(segs, k);
      }
      forall k | 0 <= k < |segs|
        ensures LinkAt(segs, k)
      {
        LinkIs(segs, k);
      }
    }
    if Good(segs) && segs != [] && Flagged(segs[|segs| - 1].hdr[0]) {
      AllSizes(segs);
      forall k | 0 <= k < |segs|
        ensures FramedAt(segs, k)
      {
        LinkIs(segs, k);
      }
      assert FramedAt(segs, |segs| - 1);
      FramedShort(segs, |segs| - 1);
    }
  }

  lemma FramedShort(segs: seq<Segment>, k: nat)
    requires k < |segs| && forall i :: 0 <= i < |segs| ==> |segs[i].hdr| == 8 && |segs[i].block| >= 2
    requires FramedAt(segs, k)
    ensures k < 128
  {}

  // ----- what the receiver takes -----

  /** A segment numbered 0 starts the message over, whatever was taken before. */
  lemma ZeroStartsOver(chain: seq<Segment>, s: Segment, bufsize: nat)
    requires AllShaped(chain) && Shaped(s) && s.hdr[0] as nat % 128 == 0
    ensures AllShaped([]) && Take(chain, s, bufsize) == Take([], s, bufsize)
  {
    hide Running, Payload, Expected, CarriedSum, DataCrcMatches, Number, Num, Flagged;
    SegmentByte(s.hdr[0]);
  }

  lemma {:induction false} PayloadPrefix(segs: seq<Segment>, k: nat)
    requires AllShaped(segs) && k <= |segs|
    ensures |Payload(segs[..k])| <= |Payload(segs)|
    decreases |segs|
  {
    hide Shaped, Data;
    if k < |segs| {
      var n := |segs| - 1;
      assert segs[..n][..k] == segs[..k];
      PayloadPrefix(segs[..n], k);
    } else {
      assert segs[..k] == segs;
    }
  }

  /** Of a whole message every segment is taken after the ones before it. */
  lemma NextTaken(segs: seq<Segment>, k: nat, before: seq<Segment>, bufsize: nat)
    requires Framed(segs) && AllShaped(segs) && AllShaped(before) && k < |segs|
    requires k > 0 ==> before == segs[..k]
    requires |Payload(segs)| <= bufsize
    ensures Take(before, segs[k], bufsize) == Taken(segs[..k + 1])
  {
    hide FramedAt, Running, Payload, Expected, CarriedSum, DataCrcMatches, Number, Num, Flagged, Shaped;
    FramedFlag(segs, k);
    AllSizes(segs);
    LinkIs(segs, k);
    PayloadPrefix(segs, k + 1);
    assert segs[..k + 1] == segs[..k] + [segs[k]];
    PayloadOneMore(segs[..k], segs[k]);
  }

  /** A whole message that fits is accepted, whatever was taken before it. */
  lemma {:induction false} FramedAccepted(segs: seq<Segment>, k: nat, before: seq<Segment>, bufsize: nat)
    requires Framed(segs) && AllShaped(segs) && AllShaped(before) && k < |segs|
    requires k > 0 ==> before == segs[..k]
    requires |Payload(segs)| <= bufsize
    ensures AllShaped(segs[k..]) && JibSegments.Attempt(before, segs[k..], bufsize) == Some(segs)
    decreases |segs| - k
  {
    hide Framed, Take, Payload, Flagged, Shaped;
    NextTaken(segs, k, before, bufsize);
    FramedFlag(segs, k);
    assert segs[k..][0] == segs[k] && segs[k..][1..] == segs[k + 1..];
    if k + 1 < |segs| {
      FramedAccepted(segs, k + 1, segs[..k + 1], bufsize);
    } else {
      assert segs[..k + 1] == segs;
    }
  }

  /** What an attempt that starts afresh accepts is a good chain. */
  lemma {:induction false} AcceptedGood(chain: seq<Segment>, segs: seq<Segment>, bufsize: nat)
    requires Open(chain) && AllShaped(chain) && AllShaped(segs)
    requires JibSegments.Attempt(chain, segs, bufsize).Some?
    ensures var c := JibSegments.Attempt(chain, segs, bufsize).value;
            AllShaped(c) && Good(c) && c != [] && Flagged(c[|c| - 1].hdr[0]) && |Payload(c)| <= bufsize
    decreases |segs|
  {
    hide Take, Good, Payload, Flagged, Num;
    TakenShaped(chain, segs[0], bufsize);
    TakeKeepsGood(chain, segs[0], bufsize);
    var c := Take(chain, segs[0], bufsize).chain;
    if !Flagged(segs[0].hdr[0]) {
      AcceptedGood(c, segs[1..], bufsize);
    }
  }

  /** Segments are accepted as one message exactly if they are a whole message that fits, of any
      number of segments up to 128. */
  lemma AcceptedIffFramed(segs: seq<Segment>, bufsize: nat)
    requires AllShaped(segs) && AllShaped([])
    ensures forall k :: 0 <= k < |segs| ==> |segs[k].hdr| == 8 && |segs[k].block| >= 2
    ensures JibSegments.Attempt([], segs, bufsize) == Some(segs) <==> Framed(segs) && |Content(segs)| <= bufsize
  {
    hide Framed, Good, Payload, Flagged, Shaped, JibSegments.Attempt;
    AllSizes(segs);
    RunningIsCarried(segs);
    FramedIff(segs);
    if Framed(segs) && |Content(segs)| <= bufsize {
      FramedNotEmpty(segs);
      FramedAccepted(segs, 0, [], bufsize);
      assert segs[0..] == segs;
    }
    if JibSegments.Attempt([], segs, bufsize) == Some(segs) {
      OpenEmpty();
      AcceptedGood([], segs, bufsize);
    }
  }

  lemma FramedNotEmpty(segs: seq<Segment>)
    requires Framed(segs)
    ensures segs != []
  {}

  /** A device that gets a whole message across, in any number of segments, makes the call accept
      it in its first attempt, if the buffer has room for it. */
  lemma FramedIsReceived(dev: Device, c: nat, segs: seq<Segment>, bufsize: nat, rounds: nat, attempts: nat)
    requires Framed(segs) && AllShaped(segs) && |Payload(segs)| <= bufsize
    requires Plays(dev, c, segs) && rounds >= |segs| && attempts >= 1
    ensures var e := Call(dev, c, bufsize, rounds, attempts);
            e.Accepted? && Segs(e.items) == segs && Payload(segs) == Content(segs)
  {
    hide Framed, Payload, Plays, AttemptFrom, JibSegments.Attempt, Shaped;
    NothingTaken();
    FramedNotEmpty(segs);
    FramedAccepted(segs, 0, [], bufsize);
    assert segs[0..] == segs;
    RunningIsCarried(segs);
    PlayedIsReceived(dev, c, [], segs, bufsize, rounds);
  }

  /** And a message begun and started over by a segment numbered 0 is accepted from there on. */
  lemma FramedAfterOthers(dev: Device, c: nat, items: seq<Item>, segs: seq<Segment>, bufsize: nat, rounds: nat)
    requires Framed(segs) && AllShaped(segs) && AllShaped(Segs(items)) && |Payload(segs)| <= bufsize
    requires Plays(dev, c, segs) && rounds >= |segs|
    ensures var e := AttemptFrom(dev, c, items, bufsize, rounds); e.Complete? && Segs(e.items) == segs
  {
    hide Framed, Payload, Plays, AttemptFrom, JibSegments.Attempt, Shaped;
    FramedNotEmpty(segs);
    FramedAccepted(segs, 0, Segs(items), bufsize);
    assert segs[0..] == segs;
    PlayedIsReceived(dev, c, items, segs, bufsize, rounds);
  }

  // ----- what is sent -----

  /** The bytes that are still to come from segment k on. */
  function Ahead(segs: seq<Segment>, k: nat): nat
    requires k <= |segs| && forall i :: 0 <= i < |segs| ==> |segs[i].hdr| == 8
    decreases |segs| - k
  {
    if k == |segs| then 0 else segs[k].hdr[1] as nat + Ahead(segs, k + 1)
  }

  lemma ByteIs(n: nat)
    requires n < 256
    ensures Byte(n) as nat == n
  {
    hide Num, Byte;
    ByteNum(n);
    SegmentByte(Byte(n));
  }

  /** The parts of a segment that the receiver does not look at, and its data. */
  predicate Parts(s: Segment, remain: nat, data: seq<bv8>) {
    && |s.hdr| == 8 && s.hdr[1] as nat == |data| && s.hdr[2] as nat == remain && s.hdr[3] == 0
    && |s.block| == |data| + 2 && s.block[0] == 0xAA && s.block[1] == s.hdr[1] && s.block[2..] == data
  }

  lemma PartsSizes(s: Segment, remain: nat, data: seq<bv8>)
    requires Parts(s, remain, data)
    ensures |s.hdr| == 8 && s.hdr[1] as nat == |data| && |s.block| == |data| + 2
  {}

  lemma MadeParts(k: nat, last: bool, remain: nat, data: seq<bv8>, before: nat)
    requires k < 128 && remain < 256 && |data| < 256
    ensures Parts(MakeSegment(k, last, remain, data, before), remain, data)
  {
    hide Byte, SegByte, Crc, Lsb, Msb, Sum, SumOf;
    ByteIs(|data|);
    ByteIs(remain);
  }

  /** One or two segments go out, depending on whether more than 128 bytes are left in eight bits. */
  lemma SentIs(msg: seq<bv8>)
    ensures var n := |msg| % 256;
            var s0 := MakeSegment(0, n <= 128, n, msg[..if n <= 128 then n else 128], 0);
            if n <= 128 then Sent(msg, 0, 0) == [s0]
            else
              var before := SumAfter(0, false, n, msg[..128], 0);
              Sent(msg, 0, 0) == [s0, MakeSegment(1, true, n - 128, msg[128..n], before)]
  {
    hide MakeSegment, SumAfter, Sent, Slice, Remain;
    if |msg| % 256 <= 128 {
      SentIsOne(msg);
    } else {
      SentIsTwo(msg);
    }
  }

  lemma SentIsOne(msg: seq<bv8>)
    requires |msg| % 256 <= 128
    ensures Sent(msg, 0, 0) == [MakeSegment(0, true, |msg| % 256, msg[..|msg| % 256], 0)]
  {
    hide MakeSegment, SumAfter, Sent, Slice, Remain;
    SliceIs(msg);
    SentStep(msg, 0, 0);
  }

  lemma SentIsTwo(msg: seq<bv8>)
    requires |msg| % 256 > 128
    ensures var n := |msg| % 256;
            var before := SumAfter(0, false, n, msg[..128], 0);
            Sent(msg, 0, 0) == [MakeSegment(0, false, n, msg[..128], 0),
                                MakeSegment(1, true, n - 128, msg[128..n], before)]
  {
    hide MakeSegment, SumAfter, Sent, Slice, Remain;
    SliceIs(msg);
    SentStep(msg, 0, 0);
    SentStep(msg, 1, SumAfter(0, false, |msg| % 256, msg[..128], 0));
  }

  lemma SliceIs(msg: seq<bv8>)
    ensures var n := |msg| % 256;
            && Remain(|msg|, 0) == n && Slice(msg, 0) == msg[..if n <= 128 then n else 128]
            && (n > 128 ==> Remain(|msg|, 1) == n - 128 && Slice(msg, 1) == msg[128..n])
  {
    RemainFits(|msg|, 0);
  }

  lemma SentStep(msg: seq<bv8>, k: nat, before: nat)
    requires SEGSIZE * k <= |msg| && k < 2 && (k > 0 ==> Remain(|msg|, k) <= SEGSIZE)
    ensures var remain, data := Remain(|msg|, k), Slice(msg, k);
            && (remain <= SEGSIZE ==> Sent(msg, k, before) == [MakeSegment(k, true, remain, data, before)])
            && (remain > SEGSIZE ==>
                  && SEGSIZE * (k + 1) <= |msg| && Remain(|msg|, k + 1) <= SEGSIZE
                  && Sent(msg, k, before) == [MakeSegment(k, false, remain, data, before)]
                                             + Sent(msg, k + 1, SumAfter(k, false, remain, data, before)))
  {
    hide MakeSegment, SumAfter, Slice;
    RemainFits(|msg|, k);
  }

  /** The whole of what is sent for a message of any length, on the wire: a whole message in the
      plain sense; each block opened by 0xAA and its length; and in every header the number of
      bytes still to come, its own included, low byte first. Segment k carries the bytes from
      128 k on. */
  lemma SentFormat(msg: seq<bv8>)
    ensures var segs := Sent(msg, 0, 0);
            && Framed(segs) && |segs| == (if |msg| % 256 <= 128 then 1 else 2)
            && forall k :: 0 <= k < |segs| ==> PartAt(msg, segs, k)
  {
    hide MakeSegment, SumAfter, Framed, Sent, PartAt;
    SentIsFramed(msg);
    SentIs(msg);
    var n := |msg| % 256;
    if n <= 128 {
      OnePart(msg, 0);
    } else {
      TwoParts(msg, 0, SumAfter(0, false, n, msg[..128], 0));
    }
  }

  ghost predicate PartAt(msg: seq<bv8>, segs: seq<Segment>, k: nat)
    requires k < |segs|
  {
    && (forall i :: 0 <= i < |segs| ==> |segs[i].hdr| == 8 && |segs[i].block| >= 2)
    && segs[k].block[0] == 0xAA && segs[k].block[1] == segs[k].hdr[1]
    && segs[k].hdr[2] as nat + 256 * segs[k].hdr[3] as nat == |msg| % 256 - 128 * k == Ahead(segs, k)
    && 128 * k + segs[k].hdr[1] as nat <= |msg| && segs[k].block[2..] == msg[128 * k..128 * k + segs[k].hdr[1] as nat]
  }

  lemma PartFrom(msg: seq<bv8>, segs: seq<Segment>, k: nat, data: seq<bv8>)
    requires k < |segs| && forall i :: 0 <= i < |segs| ==> |segs[i].hdr| == 8 && |segs[i].block| >= 2
    requires 128 * k + |data| <= |msg| && data == msg[128 * k..128 * k + |data|] && 128 * k <= |msg| % 256
    requires Parts(segs[k], |msg| % 256 - 128 * k, data) && Ahead(segs, k) == |msg| % 256 - 128 * k
    ensures PartAt(msg, segs, k)
  {
    hide Ahead;
  }

  lemma OnePart(msg: seq<bv8>, before: nat)
    requires |msg| % 256 <= 128
    ensures var n := |msg| % 256; PartAt(msg, [MakeSegment(0, true, n, msg[..n], before)], 0)
  {
    hide MakeSegment, PartAt;
    var n := |msg| % 256;
    var s := MakeSegment(0, true, n, msg[..n], before);
    MadeParts(0, true, n, msg[..n], before);
    assert Ahead([s], 0) == s.hdr[1] as nat + Ahead([s], 1);
    PartFrom(msg, [s], 0, msg[..n]);
  }

  lemma TwoParts(msg: seq<bv8>, before0: nat, before1: nat)
    requires |msg| % 256 > 128
    ensures var n := |msg| % 256;
            var segs := [MakeSegment(0, false, n, msg[..128], before0), MakeSegment(1, true, n - 128, msg[128..n], before1)];
            PartAt(msg, segs, 0) && PartAt(msg, segs, 1)
  {
    hide MakeSegment, PartAt, Parts;
    var n := |msg| % 256;
    var s, t := MakeSegment(0, false, n, msg[..128], before0), MakeSegment(1, true, n - 128, msg[128..n], before1);
    MadeParts(0, false, n, msg[..128], before0);
    MadeParts(1, true, n - 128, msg[128..n], before1);
    PartsSizes(s, n, msg[..128]);
    PartsSizes(t, n - 128, msg[128..n]);
    AheadTwo(s, t);
    PartFrom(msg, [s, t], 0, msg[..128]);
    PartFrom(msg, [s, t], 1, msg[128..n]);
  }

  lemma AheadTwo(s: Segment, t: Segment)
    requires |s.hdr| == 8 && |t.hdr| == 8
    ensures Ahead([s, t], 1) == t.hdr[1] as nat && Ahead([s, t], 0) == s.hdr[1] as nat + t.hdr[1] as nat
  {
    assert Ahead([s, t], 2) == 0;
    assert Ahead([s, t], 1) == t.hdr[1] as nat + Ahead([s, t], 2);
  }

  lemma SentIsFramed(msg: seq<bv8>)
    ensures Framed(Sent(msg, 0, 0))
  {
    hide JibSegments.Attempt, Framed, Sent, Payload;
    var segs := Sent(msg, 0, 0);
    RoundTrip(msg, |msg| % 256);
    assert [] + segs == segs;
    AcceptedIffFramed(segs, |msg| % 256);
  }
}
