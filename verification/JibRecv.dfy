/** RecvCiBMessage with RecvHeader and RecvData: the code that receives, proved to make exactly
    the run JibDevice defines for the device it talks to. */
module JibRecv {
  import opened Arith
  import opened Lfsr
  import opened JibCrc
  import opened JibStream
  import opened JibSegments
  import opened JibDevice
  import opened Wrappers

  /** The repair: bit 0 of byte 2 cleared, where there is such a byte. */
  function Cleared(bytes: seq<bv8>, fix: bool): seq<bv8> {
    if fix && |bytes| > 2 then bytes[2 := bytes[2] & 0xFE] else bytes
  }

  lemma RepairedIs(r: seq<bv8>, n: nat)
    requires 2 <= n && |r| == n + 2
    ensures var crc := Crc(r[..n]);
            Repaired(r, n) ==
            if Checks(r, n, crc) then Some(Cleared(r[..n], false))
            else if Checks(r, n, crc ^ CorrectionFor(n % 256)) then Some(Cleared(r[..n], true))
            else None
  {
    hide Crc, CorrectionFor, Checks;
  }

  lemma CrcIs(s: seq<bv8>)
    ensures Crc(s) == OverBytes(Crc16, 0, s)
  {}

  /** The variables of RecvCiBMessage agree with the chain taken in the current attempt. Before
      its first segment only `oldseg` is known. */
  ghost predicate Holds(chain: seq<Segment>, buffer: seq<bv8>, bufsize: nat, oldseg: nat, msglen: nat, checksum: nat) {
    && Open(chain) && oldseg < 256
    && (chain == [] ==> oldseg == 0xFF)
    && (chain != [] ==>
          && oldseg == |chain| - 1 && msglen == |Payload(chain)| <= bufsize && msglen <= |buffer|
          && checksum == Running(chain) && buffer[..msglen] == Payload(chain))
  }

  lemma HoldsFacts(chain: seq<Segment>, buffer: seq<bv8>, bufsize: nat, oldseg: nat, msglen: nat, checksum: nat)
    requires Holds(chain, buffer, bufsize, oldseg, msglen, checksum)
    ensures AllShaped(chain) && |chain| <= 128 && Open(chain)
  {
    TooLong(chain);
  }

  /** Numbers below 128 number at most 128 segments. */
  lemma TooLong(chain: seq<Segment>)
    requires Good(chain)
    ensures |chain| <= 128
  {
    if chain != [] {
      assert LinkAt(chain, |chain| - 1);
    }
  }

  lemma EmptyFacts()
    ensures AllShaped([]) && Payload([]) == [] && Running([]) == 0
  {}

  /** The segment was taken, and the variables agree with the chain it completes or continues. */
  ghost predicate Stored(chain: seq<Segment>, s: Segment, buffer: seq<bv8>, bufsize: nat,
                       oldseg: nat, msglen: nat, checksum: nat)
  {
    && AllShaped(chain) && Shaped(s)
    && var v := Take(chain, s, bufsize);
       && v.Taken? && AllShaped(v.chain) && Good(v.chain)
       && msglen == |Payload(v.chain)| <= bufsize && msglen <= |buffer| && buffer[..msglen] == Payload(v.chain)
       && (!Flagged(s.hdr[0]) ==> Holds(v.chain, buffer, bufsize, oldseg, msglen, checksum))
  }

  lemma SumTwice(x: nat, a: nat, b: nat)
    ensures ((x + a % 0x1_0000) % 0x1_0000 + b % 0x1_0000) % 0x1_0000 == (x + a + b) % 0x1_0000
  {}

  lemma SumOnce(x: nat, a: nat, b: nat)
    ensures ((x + a) % 0x1_0000 + b) % 0x1_0000 == (x + a + b) % 0x1_0000
  {}

  /** What the receiver has computed decides as Take does. */
  lemma Judged(chain: seq<Segment>, s: Segment, bufsize: nat, before: nat, checksum: nat)
    requires AllShaped(chain) && Shaped(s) && Admission(chain, s.hdr, bufsize) == 0 && DataCrcMatches(s)
    requires before == Running(Base(chain, s.hdr[0]))
    requires checksum == ((before + SumOf(s.hdr[..6]) % 0x1_0000) % 0x1_0000 + SumOf(s.block[2..]) % 0x1_0000) % 0x1_0000
    ensures checksum == Expected(before, s)
    ensures Take(chain, s, bufsize)
         == if CarriedSum(s) != checksum then Refused(ER_CHECKSUM) else Taken(Base(chain, s.hdr[0]) + [s])
  {
    hide Running, Payload, SumOf, Num, Number, Crc, Admission;
    SumTwice(before, SumOf(s.hdr[..6]), SumOf(s.block[2..]));
  }

  /** The variables after the last test agree with the chain that Take makes. */
  lemma Finish(chain: seq<Segment>, s: Segment, bufsize: nat, buffer: seq<bv8>, oldseg: nat, at: nat, msglen: nat,
               hdrsum: nat, checksum: nat)
    requires Open(chain) && AllShaped(chain) && Shaped(s) && Take(chain, s, bufsize).Taken?
    requires hdrsum == CarriedSum(s)
    requires at == |Payload(Base(chain, s.hdr[0]))| && at + Num(s.hdr[1]) == msglen <= bufsize && msglen <= |buffer|
    requires checksum == ((hdrsum + Num(s.hdr[6])) % 0x1_0000 + Num(s.hdr[7])) % 0x1_0000
    requires buffer[..msglen] == Payload(Base(chain, s.hdr[0])) + s.block[2..]
    requires oldseg == |Base(chain, s.hdr[0])| && oldseg < 256
    ensures Stored(chain, s, buffer, bufsize, oldseg, msglen, checksum)
  {
    hide Running, Payload, SumOf, Num, Flagged, Number, Crc, Expected, CarriedSum, Word16;
    SumOnce(hdrsum, Num(s.hdr[6]), Num(s.hdr[7]));
    PayloadOneMore(Base(chain, s.hdr[0]), s);
    TakeKeepsGood(chain, s, bufsize);
  }

  /** The code and the next exchange are those of the round. */
  predicate Ends(r: RoundEnd, error: nat, clock: nat) {
    match r
    case Lost(e, k) => error == e && clock == k
    case Took(item) => error == 0 && clock == item.clock
  }

  lemma SameTail(a: seq<bv8>, b: seq<bv8>, end: nat, k: nat)
    requires |a| == |b| && end <= k <= |a| && a[end..] == b[end..]
    ensures a[k..] == b[k..]
  {
    assert a[k..] == a[end..][k - end..] && b[k..] == b[end..][k - end..];
  }

  lemma StartAttempt(buffer: seq<bv8>, bufsize: nat, msglen: nat, checksum: nat)
    ensures AllShaped([]) && Holds([], buffer, bufsize, 0xFF, msglen, checksum)
  {}

  /** One more segment stored: the variables agree with the items joined. */
  lemma StoredFacts(items: seq<Item>, item: Item, buffer: seq<bv8>, bufsize: nat, oldseg: nat, msglen: nat, checksum: nat)
    requires AllShaped(Segs(items)) && Shaped(item.s) && Take(Segs(items), item.s, bufsize).Taken?
    requires Stored(Segs(items), item.s, buffer, bufsize, oldseg, msglen, checksum)
    ensures var all := Joined(items, item);
            && AllShaped(Segs(all)) && msglen == |Payload(Segs(all))| <= bufsize
            && msglen <= |buffer| && buffer[..msglen] == Payload(Segs(all))
            && (!Flagged(item.s.hdr[0]) ==> Holds(Segs(all), buffer, bufsize, oldseg, msglen, checksum))
  {
    hide Payload, Flagged, Take, Holds, Good, Joined;
    TakenIs(items, item, bufsize);
  }

  class Receiver {
    const tables: Tables
    const streamBuff: array<bv8>
    var lastSegment: bool
    /** The number of the next exchange with the device. */
    var clock: nat

    ghost predicate Valid()
      reads this, tables, tables.table, tables.correction, streamBuff
    {
      && tables.Ready() && streamBuff.Length == 260
      && streamBuff as object != tables.table as object && streamBuff as object != tables.correction as object
    }

    /** The caller's buffer is none of the receiver's own. */
    ghost predicate Apart(mp: array<bv8>)
      reads this
    {
      mp != streamBuff && mp as object != tables.table as object && mp as object != tables.correction as object
    }

    /** The state after the tables have been set up, as the first SendCiBMessage does. */
    constructor ()
      ensures Valid() && fresh(tables) && fresh(tables.table) && fresh(tables.correction) && fresh(streamBuff)
    {
      tables := new Tables();
      streamBuff := new bv8[260](_ => 0);
      lastSegment := false;
      clock := 0;
    }

    /** A block transfer of the first `len` bytes of the buffer, which then holds what was read back. */
    method Transfer(dev: Device, len: nat) returns (ok: bool)
      requires Valid() && len <= 260
      modifies this`clock, streamBuff
      ensures Valid() && clock == old(clock) + 1
      ensures ok == dev.reached(old(clock))
      ensures ok ==> streamBuff[..len] == Raw(dev, old(clock), old(streamBuff[..len]))
    {
      var n := clock;
      ok := dev.reached(n);
      if ok {
        var sent, i := streamBuff[..len], 0;
        while i < len
          invariant 0 <= i <= len && Valid() && clock == n
          invariant forall j :: 0 <= j < i ==> streamBuff[j] == dev.byte(n, sent, j)
        {
          streamBuff[i] := dev.byte(n, sent, i);
          i := i + 1;
        }
        assert streamBuff[..len] == Raw(dev, n, sent);
      }
      clock := clock + 1;
    }

    /** CheckStreamCRC on the block read, at first as it is and then with the correction for
        `n` bytes: zero exactly if the block is taken, `fix` telling whether bit 0 of byte 2
        is to be cleared. */
    method CheckBlock(n: nat) returns (error: Cause, fix: bool)
      requires Valid() && 2 <= n <= 257
      ensures error == 0 || error == ER_CRC
      ensures error == 0 <==> Repaired(streamBuff[..n + 2], n).Some?
      ensures error == 0 ==> Repaired(streamBuff[..n + 2], n).value == Cleared(streamBuff[..n], fix)
    {
      hide Crc, CorrectionFor, Checks, Repaired, OverBytes;
      ghost var r := streamBuff[..n + 2];
      RepairedIs(r, n);
      var owcrc := tables.CRC16Buf(streamBuff, 0, 0, n);
      assert streamBuff[0..0 + n] == streamBuff[..n] == r[..n];
      CrcIs(r[..n]);
      error, fix := 0, false;
      if !Checks(streamBuff[..n + 2], n, owcrc) {
        var correction := tables.GetCRC16Correction(n % 256);
        if !Checks(streamBuff[..n + 2], n, owcrc ^ correction) {
          error := ER_CRC;
        } else {
          fix := true;
        }
      }
    }

    /** One try of RecvHeader: the header, its fields, and the checksum of its first six bytes. */
    method TryHeader(dev: Device)
      returns (error: Cause, hdr: seq<bv8>, hdrcrc: bv16, hdrsum: nat, sum: nat)
      requires Valid()
      modifies this, streamBuff
      ensures Valid()
      ensures var f := HeaderOnce(dev, old(clock));
              && clock == f.clock && (error == 0 <==> f.Got?)
              && (f.Failed? ==> error == f.error)
              && (f.Got? ==>
                    && hdr == f.bytes && lastSegment == Flagged(hdr[0])
                    && hdrcrc == Word16(hdr[4], hdr[5]) && hdrsum == Num(hdr[6]) + 256 * Num(hdr[7])
                    && sum == SumOf(hdr[..6]) % 0x1_0000)
    {
      hide SumOf, Repaired, Raw, Word16, Num, Flagged, Cleared;
      hdr, hdrcrc, hdrsum, sum := [], 0, 0, 0;
      streamBuff[0], streamBuff[1] := 0x22, 8;
      FillOnes(2, 12);
      assert streamBuff[..12] == [0x22, 8] + Ones(10);
      var ok := Transfer(dev, 12);
      if !ok {
        error := ER_ACCESS;
        return;
      }
      var fix;
      error, fix := CheckBlock(10);
      if error != 0 {
        return;
      }
      var fb := Cleared(streamBuff[..10], fix);
      assert BlockOnce(dev, old(clock), [0x22, 8], 10) == Got(fb, old(clock), clock);
      hdr := fb[2..];
      sum := AddUp(hdr[..6], 0);
      hdrcrc := Word16(hdr[4], hdr[5]);
      hdrsum := Num(hdr[6]) + 256 * Num(hdr[7]);
      lastSegment := Flagged(hdr[0]);
      error := dev.release(clock);
      clock := clock + 1;
    }

    /** RecvHeader: three tries. */
    method RecvHeader(dev: Device)
      returns (error: nat, hdr: seq<bv8>, hdrcrc: bv16, hdrsum: nat, sum: nat)
      requires Valid()
      modifies this, streamBuff
      ensures Valid()
      ensures var h := Header(dev, old(clock), 3);
              && clock == h.clock && (error == 0 <==> h.Got?)
              && (h.Failed? ==> error == h.error + ER_RECVHDR)
              && (h.Got? ==>
                    && hdr == h.bytes && lastSegment == Flagged(hdr[0])
                    && hdrcrc == Word16(hdr[4], hdr[5]) && hdrsum == Num(hdr[6]) + 256 * Num(hdr[7])
                    && sum == SumOf(hdr[..6]) % 0x1_0000)
    {
      hide SumOf, Word16, Num, Flagged, HeaderOnce;
      var cause: Cause := ER_ACCESS;
      var retry := 0;
      while retry < 3
        invariant Valid() && cause != 0
        invariant Header(dev, old(clock), 3)
               == if retry < 3 then Header(dev, clock, 3 - retry) else Failed(cause, clock)
      {
        cause, hdr, hdrcrc, hdrsum, sum := TryHeader(dev);
        if cause == 0 {
          error := 0;
          return;
        }
        retry := retry + 1;
      }
      error, hdr, hdrcrc, hdrsum, sum := cause + ER_RECVHDR, [], 0, 0, 0;
    }

    /** The 0xFF bytes that make the device drive the line. */
    method FillOnes(from: nat, to: nat)
      requires Valid() && from <= to <= 260
      modifies streamBuff
      ensures Valid() && streamBuff[..to] == old(streamBuff[..from]) + Ones(to - from)
    {
      var i := from;
      while i < to
        invariant from <= i <= to && Valid()
        invariant streamBuff[..from] == old(streamBuff[..from])
        invariant forall j :: from <= j < i ==> streamBuff[j] == 0xff
      {
        streamBuff[i] := 0xff;
        i := i + 1;
      }
    }

    /** One transfer of a data block, checked and, if need be, repaired in the stream buffer. */
    method ReadBlock(dev: Device, size: bv8) returns (error: Cause)
      requires Valid()
      modifies this`clock, streamBuff
      ensures Valid()
      ensures var f := BlockOnce(dev, old(clock), [0xAA, size], Num(size) + 2);
              && clock == f.clock && (error == 0 <==> f.Got?)
              && (f.Failed? ==> error == f.error)
              && (f.Got? ==> streamBuff[..Num(size) + 2] == f.bytes)
    {
      hide Repaired, Raw, Num;
      var n := Num(size);
      streamBuff[0], streamBuff[1] := 0xAA, size;
      FillOnes(2, n + 4);
      assert streamBuff[..n + 4] == [0xAA, size] + Ones(n + 2);
      var ok := Transfer(dev, n + 4);
      if !ok {
        error := ER_ACCESS;
        return;
      }
      var fix;
      error, fix := CheckBlock(n + 2);
      if error != 0 {
        return;
      }
      ghost var block := Cleared(streamBuff[..n + 2], fix);
      if fix {
        streamBuff[2] := streamBuff[2] & 0xFE;
      }
      assert streamBuff[..n + 2] == block;
    }

    /** One try of RecvData in ordinary mode. */
    method TryData(dev: Device, mp: array<bv8>, at: nat, size: bv8, hdrcrc: bv16) returns (error: Cause, sum: nat)
      requires Valid() && at + Num(size) <= mp.Length && Apart(mp)
      modifies this, streamBuff, mp
      ensures Valid() && lastSegment == old(lastSegment)
      ensures mp[..at] == old(mp[..at]) && mp[at + Num(size)..] == old(mp[at + Num(size)..])
      ensures var f := DataOnce(dev, old(clock), size, hdrcrc);
              && clock == f.clock && (error == 0 <==> f.Got?)
              && (f.Failed? ==> error == f.error)
              && (f.Got? ==> mp[at..at + Num(size)] == f.bytes[2..] && sum == SumOf(f.bytes[2..]) % 0x1_0000)
    {
      hide SumOf, Num, Crc, BlockOnce;
      var n := Num(size);
      sum := 0;
      error := ReadBlock(dev, size);
      if error != 0 {
        return;
      }
      ghost var block := streamBuff[..n + 2];
      CopyOut(mp, at, n);
      assert mp[at..at + n] == block[2..];
      var crc := tables.CRC16Buf(streamBuff, 1, 0, n + 1);
      assert streamBuff[1..1 + (n + 1)] == block[1..];
      CrcIs(block[1..]);
      sum := AddUp(mp[at..at + n], 0);
      if hdrcrc != crc {
        error := ER_HDRCRC;
      }
    }

    /** RecvData in ordinary mode: three tries. The data of the block that came lies in the
        message buffer at `at`; nothing outside its place is ever touched. */
    method RecvData(dev: Device, mp: array<bv8>, at: nat, size: bv8, hdrcrc: bv16) returns (error: nat, sum: nat)
      requires Valid() && at + Num(size) <= mp.Length && Apart(mp)
      modifies this, streamBuff, mp
      ensures Valid() && lastSegment == old(lastSegment)
      ensures mp[..at] == old(mp[..at]) && mp[at + Num(size)..] == old(mp[at + Num(size)..])
      ensures var d := DataBlock(dev, old(clock), size, hdrcrc, 3);
              && clock == d.clock && (error == 0 <==> d.Got?)
              && (d.Failed? ==> error == d.error + ER_RECVDATA)
              && (d.Got? ==> mp[at..at + Num(size)] == d.bytes[2..] && sum == SumOf(d.bytes[2..]) % 0x1_0000)
    {
      hide SumOf, Num, Crc, DataOnce;
      var cause: Cause := ER_ACCESS;
      var retry := 0;
      while retry < 3
        invariant Valid() && cause != 0 && lastSegment == old(lastSegment)
        invariant mp[..at] == old(mp[..at]) && mp[at + Num(size)..] == old(mp[at + Num(size)..])
        invariant DataBlock(dev, old(clock), size, hdrcrc, 3)
               == if retry < 3 then DataBlock(dev, clock, size, hdrcrc, 3 - retry) else Failed(cause, clock)
      {
        cause, sum := TryData(dev, mp, at, size, hdrcrc);
        if cause == 0 {
          error := 0;
          return;
        }
        retry := retry + 1;
      }
      error, sum := cause + ER_RECVDATA, 0;
    }

    /** The data bytes, from the stream buffer to their place in the message. */
    method CopyOut(mp: array<bv8>, at: nat, n: nat)
      requires Valid() && n + 2 <= 260 && at + n <= mp.Length
      requires Apart(mp)
      modifies mp
      ensures Valid() && mp[..at] == old(mp[..at]) && mp[at + n..] == old(mp[at + n..])
      ensures mp[at..at + n] == streamBuff[2..n + 2]
    {
      var i := 0;
      while i < n
        invariant 0 <= i <= n && Valid() && mp[..at] == old(mp[..at]) && mp[at + n..] == old(mp[at + n..])
        invariant forall k :: at <= k < at + i ==> mp[k] == streamBuff[k - at + 2]
      {
        mp[at + i] := streamBuff[i + 2];
        i := i + 1;
      }
    }

    /** The tests on a header before its data is read: order of the segments, room in the buffer. */
    method Admit(hdr: seq<bv8>, sum: nat, bufsize: nat, oldseg0: nat, msglen0: nat, checksum0: nat,
                 ghost chain: seq<Segment>, ghost buffer: seq<bv8>)
      returns (error: nat, oldseg: nat, msglen: nat, checksum: nat)
      requires |hdr| == 8 && AllShaped(chain) && Holds(chain, buffer, bufsize, oldseg0, msglen0, checksum0)
      ensures oldseg < 256 && error == Admission(chain, hdr, bufsize)
      ensures error == 0 ==>
        var base := Base(chain, hdr[0]);
        && AllShaped(base) && oldseg == |base|
        && msglen == |Payload(base)| <= |buffer| && msglen + Num(hdr[1]) <= bufsize && buffer[..msglen] == Payload(base)
        && checksum == (Running(base) + sum) % 0x1_0000
    {
      hide Good, Running, Payload, Num, Number;
      error, oldseg, msglen, checksum := 0, oldseg0, msglen0, checksum0;
      HoldsFacts(chain, buffer, bufsize, oldseg0, msglen0, checksum0);
      EmptyFacts();
      // number 0 starts over, whatever came before
      if Number(hdr[0]) == 0 {
        msglen, checksum := 0, 0;
        oldseg := 0;
      } else {
        oldseg := (oldseg + 1) % 256;
        if oldseg != Number(hdr[0]) {
          error := CE_BADSEQ;
          return;
        }
      }
      if msglen + Num(hdr[1]) > bufsize {
        error := ER_OVERRUN;
        return;
      }
      checksum := (checksum + sum) % 0x1_0000;
    }

    /** From RecvHeader to the checksum test of RecvCiBMessage: code, exchanges and buffer are
        those of the rest of the round. */
    method TakeNext(dev: Device, mp: array<bv8>, bufsize: nat, oldseg0: nat, msglen0: nat, checksum0: nat,
                    ghost start: nat, ghost chain: seq<Segment>)
      returns (error: nat, oldseg: nat, msglen: nat, checksum: nat)
      requires Valid() && bufsize <= mp.Length && Apart(mp)
      requires AllShaped(chain) && Holds(chain, mp[..], bufsize, oldseg0, msglen0, checksum0)
      modifies this, streamBuff, mp
      ensures Valid() && oldseg < 256 && mp[bufsize..] == old(mp[bufsize..])
      ensures var r := AfterStatus(dev, old(clock), start, chain, bufsize);
              && Ends(r, error, clock)
              && (r.Took? ==>
                    && lastSegment == Flagged(r.item.s.hdr[0])
                    && Stored(chain, r.item.s, mp[..], bufsize, oldseg, msglen, checksum))
    {
      hide Holds, Running, Payload, Word16, SumOf, Num, Flagged, Header, Stored, Admission, AllShaped, Base, AfterHeader;
      oldseg, msglen, checksum := oldseg0 % 256, msglen0, checksum0;
      var hdr, hdrcrc, hdrsum, sum;
      ghost var h := Header(dev, clock, 3);
      error, hdr, hdrcrc, hdrsum, sum := RecvHeader(dev);
      if error != 0 {
        return;
      }
      ghost var buffer := mp[..];
      HoldsFacts(chain, buffer, bufsize, oldseg0, msglen0, checksum0);
      error, oldseg, msglen, checksum := Admit(hdr, sum, bufsize, oldseg0, msglen0, checksum0, chain, buffer);
      if error != 0 {
        return;
      }
      error, msglen, checksum :=
        TakeBody(dev, mp, bufsize, hdr, hdrcrc, hdrsum, oldseg, msglen, checksum, start, h.at, chain);
    }

    /** The second half: the data of a segment whose header has been admitted, and the test of
        the progressive checksum. */
    method TakeBody(dev: Device, mp: array<bv8>, bufsize: nat, hdr: seq<bv8>, hdrcrc: bv16, hdrsum: nat,
                    oldseg: nat, at: nat, checksum0: nat, ghost start: nat, ghost headerAt: nat, ghost chain: seq<Segment>)
      returns (error: nat, msglen: nat, checksum: nat)
      requires Valid() && bufsize <= mp.Length && oldseg < 256 && Apart(mp)
      requires |hdr| == 8 && lastSegment == Flagged(hdr[0])
      requires hdrcrc == Word16(hdr[4], hdr[5]) && hdrsum == Num(hdr[6]) + 256 * Num(hdr[7])
      requires Open(chain) && AllShaped(chain) && Admission(chain, hdr, bufsize) == 0 && AllShaped(Base(chain, hdr[0]))
      requires at == |Payload(Base(chain, hdr[0]))| && at + Num(hdr[1]) <= bufsize
      requires mp[..at] == Payload(Base(chain, hdr[0])) && oldseg == |Base(chain, hdr[0])|
      requires checksum0 == (Running(Base(chain, hdr[0])) + SumOf(hdr[..6]) % 0x1_0000) % 0x1_0000
      modifies this, streamBuff, mp
      ensures Valid() && mp[bufsize..] == old(mp[bufsize..])
      ensures var r := AfterHeader(dev, old(clock), start, headerAt, hdr, chain, bufsize);
              && Ends(r, error, clock)
              && (r.Took? ==>
                    && lastSegment == Flagged(r.item.s.hdr[0])
                    && Stored(chain, r.item.s, mp[..], bufsize, oldseg, msglen, checksum))
    {
      hide Open, Running, Payload, Word16, SumOf, Num, Flagged, DataBlock, Crc, Stored, Base, Admission, Take;
      msglen, checksum := at, checksum0;
      ghost var d := DataBlock(dev, clock, hdr[1], hdrcrc, 3);
      ghost var was, end := mp[..], at + Num(hdr[1]);
      var sum;
      error, sum := RecvData(dev, mp, at, hdr[1], hdrcrc);
      SameTail(mp[..], was, end, bufsize);
      if error != 0 {
        return;
      }
      ghost var s := Segment(hdr, d.bytes);
      checksum := (checksum + sum) % 0x1_0000;
      msglen := msglen + Num(hdr[1]);
      Judged(chain, s, bufsize, Running(Base(chain, hdr[0])), checksum);
      if hdrsum != checksum {
        error := ER_CHECKSUM;
        return;
      }
      checksum := (checksum + Num(hdr[6])) % 0x1_0000;
      checksum := (checksum + Num(hdr[7])) % 0x1_0000;
      assert mp[..msglen] == mp[..at] + mp[at..msglen];
      Finish(chain, s, bufsize, mp[..], oldseg, at, msglen, hdrsum, checksum);
    }

    /** SendStatus and then, if that went well, SendRun. */
    method RunCommands(dev: Device) returns (error: nat)
      requires Valid()
      modifies this`clock
      ensures Valid() && Commands(dev, old(clock)) == Outcome(error, clock)
    {
      error := dev.command(clock);
      clock := clock + 1;
      if error != 0 {
        return;
      }
      error := dev.command(clock);
      clock := clock + 1;
    }

    /** The status and its consequences at the top of the receiving loop; zero if a header of
        the right length is waiting. */
    method AwaitHeader(dev: Device) returns (error: nat)
      requires Valid()
      modifies this`clock
      ensures Valid() && Await(dev, old(clock)) == Outcome(error, clock)
    {
      hide Commands;
      var st := dev.status(clock);
      clock := clock + 1;
      error := st.error;
      if error != 0 {
        return;
      }
      if PowerOnReset(st.owms) {
        error := ER_POR;
        return;
      }
      // a co-processor that was running, or a command not yet completed, is run to its end
      if NeedsRun(st) {
        error := RunCommands(dev);
        if error != 0 {
          return;
        }
      }
      if st.outUsed == 0 {
        error := ER_NOHEADER;
        return;
      }
      if st.outUsed != 8 {   // HEADERSIZE
        error := ER_BADHEADER;
        return;
      }
    }

    /** One attempt: segment after segment until something fails or the last one is in.
        `rounds` bounds how long the device is watched. Only `oldseg` is set back at its start. */
    method Attempt(dev: Device, mp: array<bv8>, bufsize: nat, rounds: nat, msglen0: nat, checksum0: nat)
      returns (complete: bool, finished: bool, msglen: nat, checksum: nat)
      requires Valid() && bufsize <= mp.Length && Apart(mp)
      modifies this, streamBuff, mp
      ensures Valid() && mp[bufsize..] == old(mp[bufsize..])
      ensures match AttemptAt(dev, old(clock), bufsize, rounds)
              case Broke(k) => finished && !complete && clock == k
              case Unfinished => !finished
              case Complete(items) =>
                && finished && complete
                && msglen == |Payload(Segs(items))| <= bufsize && mp[..msglen] == Payload(Segs(items))
    {
      hide Payload, Flagged, Stored, AllShaped, Take, Holds, Await, AfterStatus, Joined, Good;
      msglen, checksum := msglen0, checksum0;
      complete, finished := false, true;
      var oldseg := 0xFF;
      NothingTaken();
      ghost var items: seq<Item>, chain: seq<Segment> := [], [];
      StartAttempt(mp[..], bufsize, msglen, checksum);
      var r := 0;
      while true
        invariant Valid() && mp[bufsize..] == old(mp[bufsize..])
        invariant r <= rounds && chain == Segs(items) && AllShaped(chain) && finished && !complete
        invariant AttemptAt(dev, old(clock), bufsize, rounds) == AttemptFrom(dev, clock, items, bufsize, rounds - r)
        invariant Holds(chain, mp[..], bufsize, oldseg, msglen, checksum)
        decreases rounds - r
      {
        if r == rounds {
          finished := false;
          return;
        }
        r := r + 1;
        ghost var start := clock;
        ghost var end := Round(dev, clock, chain, bufsize);
        var error := AwaitHeader(dev);
        if error != 0 {
          return;
        }
        error, oldseg, msglen, checksum := TakeNext(dev, mp, bufsize, oldseg, msglen, checksum, start, chain);
        if error != 0 {
          return;
        }
        StoredFacts(items, end.item, mp[..], bufsize, oldseg, msglen, checksum);
        if lastSegment {
          complete := true;
          return;
        }
        items := Joined(items, end.item);
        chain := Segs(items);
        error := RunCommands(dev);
        if error != 0 {
          return;
        }
      }
    }

    /** RecvCiBMessage, watched for at most `rounds` rounds of each attempt: the call ends as the
        device makes it end. An accepted message is in the buffer and its length stored. When
        all six attempts fail the code is zero as well, with the buffer size left as it was,
        for the code of the failure has by then been overwritten. */
    method RecvCiBMessage(dev: Device, mp: array<bv8>, bufsize0: nat, rounds: nat)
      returns (code: nat, bufsize: nat, finished: bool)
      requires Valid() && bufsize0 <= mp.Length && Apart(mp) && Ordinary(dev)
      modifies this, streamBuff, mp
      ensures Valid() && mp[bufsize0..] == old(mp[bufsize0..])
      ensures match Call(dev, old(clock), bufsize0, rounds, 6)
              case Accepted(items) =>
                && finished && code == 0
                && bufsize == |Payload(Segs(items))| <= bufsize0 && mp[..bufsize] == Payload(Segs(items))
              case Exhausted => finished && code == 0 && bufsize == bufsize0
              case Stopped(e) => finished && code == e != 0 && bufsize == bufsize0
              case Watching => !finished
    {
      hide Payload, AttemptAt;
      code, bufsize, finished := 0, bufsize0, true;
      var msglen, checksum := 0, 0;
      var retry := 0;
      while retry < 6
        invariant retry <= 6 && Valid() && code == 0 && bufsize == bufsize0 && finished
        invariant mp[bufsize0..] == old(mp[bufsize0..])
        invariant Call(dev, old(clock), bufsize0, rounds, 6) == Call(dev, clock, bufsize0, rounds, 6 - retry)
      {
        var complete;
        complete, finished, msglen, checksum := Attempt(dev, mp, bufsize0, rounds, msglen, checksum);
        if !finished {
          return;
        }
        if complete {
          bufsize := msglen;
          return;
        }
        // the code of the failure is lost here
        code := dev.command(clock);
        clock := clock + 1;
        if code != 0 {
          return;
        }
        var run := dev.command(clock);
        clock := clock + 1;
        retry := retry + 1;
      }
    }
  }
}
