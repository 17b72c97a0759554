/** A round of the receiver in terms of what the device does: when each part of it succeeds, how
    often it is tried, and which code it fails with. */
module JibExchange {
  import opened Lfsr
  import opened JibCrc
  import opened JibStream
  import opened JibBursts
  import opened JibSegments
  import opened JibDevice
  import opened Wrappers

  /** A header is waited for exactly if the status is read, shows no power-on reset and eight
      bytes ready, and, if the co-processor or a command is still to be run to its end, both
      commands for that go through. Otherwise the code tells which of these failed first. */
  lemma AwaitIff(dev: Device, c: nat)
    ensures var st := dev.status(c);
            var run := st.cpst & 1 != 0 || st.owms & 0x20 != 0;
            var ran := !run || (dev.command(c + 1) == 0 && dev.command(c + 2) == 0);
            var o := Await(dev, c);
            && (o.error == 0 <==> st.error == 0 && st.owms & 0x40 == 0 && ran && st.outUsed == 8)
            && (o.error == 0 ==> o.clock == c + if run then 3 else 1)
            && (st.error != 0 ==> o == Outcome(st.error, c + 1))
            && (st.error == 0 && st.owms & 0x40 != 0 ==> o == Outcome(3, c + 1))
            && (st.error == 0 && st.owms & 0x40 == 0 && ran && st.outUsed == 0 ==> o.error == 9)
            && (st.error == 0 && st.owms & 0x40 == 0 && ran && st.outUsed != 0 && st.outUsed != 8 ==> o.error == 10)
  {}

  /** A block is delivered in one try: it is reached, and closed with its CRC as it is or once bit
      0 of byte 2 is flipped. */
  predicate Delivered(dev: Device, c: nat, sent: seq<bv8>) {
    dev.reached(c) && |sent| >= 3 && (IsClosed(Raw(dev, c, sent)) || IsClosed(Flip(Raw(dev, c, sent))))
  }

  /** One try at a header succeeds exactly if it is delivered and its release acknowledged; it
      fails with 4 if the device was not reached, 7 if the CRC is wrong, or the code of the
      release sequence. */
  lemma HeaderTryIff(dev: Device, c: nat)
    ensures var sent := [0x22, 8] + Ones(10);
            var f := HeaderOnce(dev, c);
            && (f.Got? <==> Delivered(dev, c, sent) && dev.release(c + 1) == 0)
            && (f.Got? ==> f.at == c && f.clock == c + 2)
            && (!dev.reached(c) ==> f == Failed(4, c + 1))
            && (dev.reached(c) && !Delivered(dev, c, sent) ==> f == Failed(7, c + 1))
            && (Delivered(dev, c, sent) && dev.release(c + 1) != 0 ==> f == Failed(dev.release(c + 1), c + 2))
  {
    hide IsClosed, Flip, Repaired, Raw;
    TakenIff(Raw(dev, c, [0x22, 8] + Ones(10)), 10);
  }

  /** What an intact header gives, byte for byte, and what a repaired one. */
  lemma HeaderBytes(dev: Device, c: nat)
    requires HeaderOnce(dev, c).Got?
    ensures var r := Raw(dev, c, [0x22, 8] + Ones(10));
            HeaderOnce(dev, c).bytes == if IsClosed(r) then r[2..10] else r[2..10][0 := r[2] & 0xFE]
  {
    hide Raw, Crc, CorrectionFor, Checks, IsClosed;
    var r := Raw(dev, c, [0x22, 8] + Ones(10));
    FirstCheckIff(r, 10);
    assert r[..10][2..] == r[2..10];
    assert r[..10][2 := r[2] & 0xFE][2..] == r[2..10][0 := r[2] & 0xFE];
  }

  /** There are three tries at a header, each starting where the one before it left the device;
      the first that succeeds counts, and the code is that of the last. */
  lemma HeaderTries(dev: Device, c: nat)
    ensures var f1 := HeaderOnce(dev, c);
            var f2 := HeaderOnce(dev, f1.clock);
            var f3 := HeaderOnce(dev, f2.clock);
            Header(dev, c, 3) == if f1.Got? then f1 else if f2.Got? then f2 else f3
  {
    hide HeaderOnce;
    var f1 := HeaderOnce(dev, c);
    var f2 := HeaderOnce(dev, f1.clock);
    assert Header(dev, f2.clock, 1) == HeaderOnce(dev, f2.clock);
    assert f1.Failed? ==> Header(dev, c, 3) == Header(dev, f1.clock, 2);
  }

  /** One try at the data: as for a header, without release, and the CRC of length and data must be
      the one the header named; else the code is 11. Blocks too long for the repair must be intact. */
  lemma DataTryIff(dev: Device, c: nat, size: bv8, hdrcrc: bv16)
    requires 1 <= Num(size) <= 138
    ensures var sent := [0xAA, size] + Ones(Num(size) + 2);
            var f := DataOnce(dev, c, size, hdrcrc);
            && (f.Got? ==> Delivered(dev, c, sent) && f.at == c && OverBytes(Crc16, 0, f.bytes[1..]) == hdrcrc)
            && (!dev.reached(c) ==> f == Failed(4, c + 1))
            && (dev.reached(c) && !Delivered(dev, c, sent) ==> f == Failed(7, c + 1))
            && (Delivered(dev, c, sent) && f.Failed? ==> f == Failed(11, c + 1))
            && (IsClosed(Raw(dev, c, sent)) && dev.reached(c) ==>
                  (f.Got? <==> OverBytes(Crc16, 0, Raw(dev, c, sent)[1..Num(size) + 2]) == hdrcrc)
                  && (f.Got? ==> f.bytes == Raw(dev, c, sent)[..Num(size) + 2]))
  {
    hide IsClosed, Flip, Raw, OverBytes, Num, Checks, CorrectionFor;
    var n := Num(size) + 2;
    var r := Raw(dev, c, [0xAA, size] + Ones(n));
    assert [0xAA, size] + Ones(n) == [0xAA, size] + Ones(Num(size) + 2);
    TakenIff(r, n);
    FirstCheckIff(r, n);
    CrcOf(r[..n]);
    assert r[..n][1..] == r[1..n];
    CrcOf(r[..n][1..]);
  }

  lemma CrcOf(s: seq<bv8>)
    ensures Crc(s) == OverBytes(Crc16, 0, s)
  {}

  /** Three tries at the data as well. */
  lemma DataTries(dev: Device, c: nat, size: bv8, hdrcrc: bv16)
    ensures var f1 := DataOnce(dev, c, size, hdrcrc);
            var f2 := DataOnce(dev, f1.clock, size, hdrcrc);
            var f3 := DataOnce(dev, f2.clock, size, hdrcrc);
            DataBlock(dev, c, size, hdrcrc, 3) == if f1.Got? then f1 else if f2.Got? then f2 else f3
  {
    hide DataOnce;
    var f1 := DataOnce(dev, c, size, hdrcrc);
    var f2 := DataOnce(dev, f1.clock, size, hdrcrc);
    assert DataBlock(dev, f2.clock, size, hdrcrc, 1) == DataOnce(dev, f2.clock, size, hdrcrc);
    assert f1.Failed? ==> DataBlock(dev, c, size, hdrcrc, 3) == DataBlock(dev, f1.clock, size, hdrcrc, 2);
  }

  /** The codes a segment is refused with: 2 out of order, 13 no room, 11 wrong data CRC, 8 wrong
      checksum, in that order. */
  lemma RefusedWith(chain: seq<Segment>, s: Segment, bufsize: nat)
    requires AllShaped(chain) && Shaped(s)
    ensures var k := Number(s.hdr[0]);
            var base := if k == 0 then [] else chain;
            var inOrder := k == 0 || k == |chain|;
            var fits := |Payload(base)| + Num(s.hdr[1]) <= bufsize;
            var v := Take(chain, s, bufsize);
            && (v == Refused(2) <==> !inOrder)
            && (v == Refused(13) <==> inOrder && !fits)
            && (v == Refused(11) <==> inOrder && fits && !DataCrcMatches(s))
            && (v == Refused(8) <==> inOrder && fits && DataCrcMatches(s) && CarriedSum(s) != Expected(Running(base), s))
  {
    hide Running, Payload, Expected, CarriedSum, DataCrcMatches, Num, Number;
  }

  /** How a round ends: lost with the code of the first part that fails, a header adding 0x80 and
      data 0x90 to theirs, or with the segment taken. */
  lemma RoundIs(dev: Device, c: nat, chain: seq<Segment>, bufsize: nat)
    requires AllShaped(chain)
    ensures var w := Await(dev, c);
            var h := Header(dev, w.clock, 3);
            var r := Round(dev, c, chain, bufsize);
            && (w.error != 0 ==> r == Lost(w.error, w.clock))
            && (w.error == 0 && h.Failed? ==> r == Lost(h.error + 0x80, h.clock))
            && (r.Took? ==> w.error == 0 && h.Got? && r.item.s.hdr == h.bytes && r.item.headerAt == h.at)
            && (w.error == 0 && h.Got? && r.Lost? && Admission(chain, h.bytes, bufsize) == 0 ==>
                  var d := DataBlock(dev, h.clock, h.bytes[1], Word16(h.bytes[4], h.bytes[5]), 3);
                  (d.Failed? && r == Lost(d.error + 0x90, d.clock)) || (d.Got? && r == Lost(8, d.clock)))
  {
    hide Await, Header, Running, Payload, Expected, CarriedSum, Num, Number, Word16, Crc;
  }

  /** How an attempt goes on after a round: it breaks off if the round is lost, is complete after a
      segment with the top bit set, and otherwise needs both commands for the next segment. */
  lemma AttemptIs(dev: Device, c: nat, items: seq<Item>, bufsize: nat, rounds: nat)
    requires AllShaped(Segs(items))
    ensures var r := Round(dev, c, Segs(items), bufsize);
            var e := AttemptFrom(dev, c, items, bufsize, rounds + 1);
            && (r.Lost? ==> e == Broke(r.clock))
            && (r.Took? ==>
                  var all := (if r.item.s.hdr[0] & 0x7F == 0 then [] else items) + [r.item];
                  var k := r.item.clock;
                  && AllShaped(Segs(all))
                  && (r.item.s.hdr[0] & 0x80 != 0 ==> e == Complete(all))
                  && (r.item.s.hdr[0] & 0x80 == 0 && dev.command(k) != 0 ==> e == Broke(k + 1))
                  && (r.item.s.hdr[0] & 0x80 == 0 && dev.command(k) == 0 && dev.command(k + 1) != 0 ==> e == Broke(k + 2))
                  && (r.item.s.hdr[0] & 0x80 == 0 && dev.command(k) == 0 && dev.command(k + 1) == 0 ==>
                        e == AttemptFrom(dev, k + 2, all, bufsize, rounds)))
  {
    hide Round, Take, Number, Flagged;
    var r := Round(dev, c, Segs(items), bufsize);
    if r.Took? {
      SevenBits(r.item.s.hdr[0]);
      TakenShaped(Segs(items), r.item.s, bufsize);
      JoinedShaped(items, r.item);
    }
  }

  lemma SevenBits(x: bv8)
    ensures Number(x) == 0 <==> x & 0x7F == 0
    ensures Flagged(x) <==> x & 0x80 != 0
  {}

  lemma JoinedShaped(items: seq<Item>, item: Item)
    requires AllShaped(Segs(items)) && Shaped(item.s)
    ensures AllShaped(Segs(Joined(items, item)))
  {
    hide Shaped, Number;
  }
}
