/** cnt1d.c: reading one counter page of a DS2423. */
module Counter {
  import opened Bits
  import opened Lfsr
  import opened CrcUtil

  /** What the device sends back for the block, or that access or transfer failed. The first
      three bytes are the echo of what was sent. */
  datatype PacketReply = NotDone | Done(block: seq<bv8>)

  /** The bytes the CRC covers: command and address as sent, then the bytes received. */
  function Covered(page: nat, block: seq<bv8>): seq<bv8>
    requires |block| == 14
  {
    [0xA5, AddressLow(page), AddressHigh(page)] + block[3..12]
  }

  function AddressLow(page: nat): bv8 {
    ((page * 32 + 31) % 256) as bv8
  }

  /** The high address byte as it is stored in the block, and as docrc16 takes it. */
  function AddressHigh(page: nat): bv8 {
    ((page * 32 + 31) / 256 % 256) as bv8
  }

  /** The CRC bytes of the packet are the complement of the CRC16 of the rest, low byte first. */
  predicate GoodPacket(page: nat, block: seq<bv8>)
    requires |block| == 14
  {
    Complements(OverBytes(Crc16, 0, Covered(page, block)), block[12], block[13])
  }

  /** The counter, least significant byte first. */
  function LittleEndian(block: seq<bv8>): bv32
    requires |block| == 14
  {
    (block[4] as bv32) | ((block[5] as bv32) << 8) | ((block[6] as bv32) << 16) | ((block[7] as bv32) << 24)
  }

  lemma Feed(start: bv16, fed: seq<bv8>, x: bv8)
    ensures OverBytes(Crc16, start, fed + [x]) == OverByte(Crc16, OverBytes(Crc16, start, fed), x)
    ensures OverBytes(Crc16, start, []) == start
  {
    hide OverByte;
    BytesAppend(Crc16, start, fed, [x]);
    var d := OverByte(Crc16, OverBytes(Crc16, start, fed), x);
    assert OverBytes(Crc16, OverBytes(Crc16, start, fed), [x]) == OverBytes(Crc16, d, []) == d;
  }

  lemma LowOf(x: bv8)
    ensures ((x as bv16) & 0xff) as bv8 == x
  {}

  /** docrc16 over bytes `from` to `to` of the block. */
  method FeedBlock(crc: CrcPort, block: seq<bv8>, from: nat, to: nat) returns (lastcrc16: bv16)
    requires from <= to <= |block|
    modifies crc
    ensures crc.utilcrc16 == lastcrc16 == OverBytes(Crc16, old(crc.utilcrc16), block[from..to])
  {
    hide OverBytes, OverByte;
    ghost var start := crc.utilcrc16;
    lastcrc16 := crc.utilcrc16;
    Feed(start, [], 0);
    assert block[from..from] == [];
    var i := from;
    while i < to
      invariant from <= i <= to
      invariant crc.utilcrc16 == lastcrc16 == OverBytes(Crc16, start, block[from..i])
    {
      assert block[from..i + 1] == block[from..i] + [block[i]];
      LowOf(block[i]);
      Feed(start, block[from..i], block[i]);
      lastcrc16 := crc.DoCrc16(block[i] as bv16);
      i := i + 1;
    }
  }

  /** The whole packet leaves 0xB001 exactly if it is a good one. */
  lemma PacketResidue(page: nat, block: seq<bv8>)
    requires |block| == 14
    ensures OverBytes(Crc16, 0, Covered(page, block) + block[12..14]) == 0xB001 <==> GoodPacket(page, block)
  {
    hide OverBytes, Covered, Complements;
    assert block[12..14] == [block[12], block[13]];
    MessageResidue16(0, Covered(page, block), block[12], block[13]);
  }

  lemma PacketAccepted(page: nat, block: seq<bv8>)
    requires |block| == 14
    ensures OverBytes(Crc16, OverBytes(Crc16, 0, [0xA5, AddressLow(page), AddressHigh(page)]), block[3..14]) == 0xB001
        <==> GoodPacket(page, block)
  {
    hide OverBytes, GoodPacket, AddressLow, AddressHigh;
    var send := [0xA5, AddressLow(page), AddressHigh(page)];
    BytesAppend(Crc16, 0, send, block[3..14]);
    assert send + block[3..14] == Covered(page, block) + block[12..14];
    PacketResidue(page, block);
  }

  /** `*Count <<= 8; *Count |= byte` */
  function ShiftIn(count: bv32, x: bv8): bv32 {
    (count << 8) | (x as bv32)
  }

  lemma Assemble(block: seq<bv8>)
    requires |block| == 14
    ensures ShiftIn(ShiftIn(ShiftIn(ShiftIn(0, block[7]), block[6]), block[5]), block[4]) == LittleEndian(block)
  {
    Assembled(block[4], block[5], block[6], block[7]);
  }

  lemma Assembled(a: bv8, b: bv8, c: bv8, d: bv8)
    ensures ShiftIn(ShiftIn(ShiftIn(ShiftIn(0, d), c), b), a)
         == (a as bv32) | ((b as bv32) << 8) | ((c as bv32) << 16) | ((d as bv32) << 24)
  {}

  /** What comes back for the fourteen bytes sent. */
  type Line = seq<bv8> -> PacketReply

  ghost predicate WellFormed(line: Line) {
    forall s :: |s| == 14 && line(s).Done? ==> |line(s).block| == 14
  }

  function Ones(n: nat): (bytes: seq<bv8>)
    ensures |bytes| == n
  {
    seq(n, _ => 0xFF)
  }

  /** The packet as it is sent: read memory and counter, the address, and room for the answer. */
  function Request(page: nat): (s: seq<bv8>)
    ensures |s| == 14
  {
    [0xA5, AddressLow(page), AddressHigh(page)] + Ones(11)
  }

  /** A number as four bytes, least significant first. */
  function FourBytes(c: bv32): seq<bv8> {
    [(c & 0xff) as bv8, ((c >> 8) & 0xff) as bv8, ((c >> 16) & 0xff) as bv8, ((c >> 24) & 0xff) as bv8]
  }

  /** The device with these counters. Asked with 0xA5 and the address of the last byte of a page of
      32 bytes, low byte first, it answers with that byte, the counter of the page, four zero
      bytes, and the complement of the CRC16 of all this, low byte first. */
  ghost predicate Ds2423(line: Line, counters: nat -> bv32, memory: nat -> bv8) {
    forall page: nat :: page < 2048 ==>
      var last := 32 * page + 31;
      var asked := [0xA5, (last % 256) as bv8, (last / 256) as bv8];
      Replies(line, asked + Ones(11), asked + ([memory(page)] + FourBytes(counters(page)) + [0, 0, 0, 0]))
  }

  ghost predicate Replies(line: Line, sent: seq<bv8>, answer: seq<bv8>) {
    && line(sent).Done? && |line(sent).block| == 14 && |answer| == 12 && line(sent).block[..12] == answer
    && Complements(OverBytes(Crc16, 0, answer), line(sent).block[12], line(sent).block[13])
  }

  lemma AddressIs(page: nat)
    requires page < 2048
    ensures AddressLow(page) == ((32 * page + 31) % 256) as bv8 && AddressHigh(page) == ((32 * page + 31) / 256) as bv8
  {}

  lemma FourBack(block: seq<bv8>, c: bv32)
    requires |block| == 14 && block[4..8] == FourBytes(c)
    ensures LittleEndian(block) == c
  {
    FourJoined(c);
    assert block[4] == FourBytes(c)[0] && block[5] == FourBytes(c)[1];
    assert block[6] == FourBytes(c)[2] && block[7] == FourBytes(c)[3];
  }

  lemma FourJoined(c: bv32)
    ensures (((c & 0xff) as bv8) as bv32) | (((((c >> 8) & 0xff) as bv8) as bv32) << 8)
          | (((((c >> 16) & 0xff) as bv8) as bv32) << 16) | (((((c >> 24) & 0xff) as bv8) as bv32) << 24) == c
  {}

  /** From such a device the packet is a good one, and carries the counter of the page. */
  lemma Ds2423Answers(line: Line, counters: nat -> bv32, memory: nat -> bv8, page: nat)
    requires Ds2423(line, counters, memory) && page < 2048
    ensures var reply := line(Request(page));
            && reply.Done? && |reply.block| == 14
            && GoodPacket(page, reply.block) && LittleEndian(reply.block) == counters(page)
  {
    hide OverBytes, Complements, LittleEndian, AddressLow, AddressHigh, FourBytes, Ones;
    AddressIs(page);
    var lo, hi := AddressLow(page), AddressHigh(page);
    var answer := [0xA5, lo, hi] + ([memory(page)] + FourBytes(counters(page)) + [0, 0, 0, 0]);
    assert Replies(line, [0xA5, lo, hi] + Ones(11), answer);
    var block := line(Request(page)).block;
    assert Covered(page, block) == block[..12];
    assert block[4..8] == block[..12][4..8] == FourBytes(counters(page));
    FourBack(block, counters(page));
  }

  /** ReadCounter accepts exactly the packets whose CRC bytes are right for the command and
      address sent and the bytes received, and then returns their counter; otherwise the
      caller's count is left alone. From a DS2423 it returns the counter of the page asked for. */
  method ReadCounter(crc: CrcPort, page: nat, accessed: bool, line: Line, count0: bv32,
                     ghost counters: nat -> bv32, ghost memory: nat -> bv8)
    returns (rt: bool, count: bv32)
    requires WellFormed(line)
    modifies crc
    ensures var reply := line(Request(page));
            && (rt <==> accessed && reply.Done? && GoodPacket(page, reply.block))
            && count == if rt then LittleEndian(reply.block) else count0
    ensures accessed && page < 2048 && Ds2423(line, counters, memory) ==> rt && count == counters(page)
  {
    hide OverBytes, OverByte, GoodPacket, LittleEndian, AddressLow, AddressHigh, Ds2423, Ones;
    if Ds2423(line, counters, memory) && page < 2048 {
      Ds2423Answers(line, counters, memory, page);
    }
    rt, count := false, count0;
    crc.SetCrc16(0);
    if accessed {
      var send := [0xA5, AddressLow(page), AddressHigh(page)];
      var lastcrc16 := FeedBlock(crc, send, 0, 3);
      assert send[0..3] == send;
      match line(send + Ones(11)) {
        case NotDone =>
        case Done(block) =>
          lastcrc16 := FeedBlock(crc, block, 3, 14);
          PacketAccepted(page, block);
          if lastcrc16 == 0xB001 {
            rt := true;
            count := CounterValue(block);
          }
      }
    }
  }

  /** The loop that shifts the four counter bytes in, from the last to the first. */
  method CounterValue(block: seq<bv8>) returns (count: bv32)
    requires |block| == 14
    ensures count == LittleEndian(block)
  {
    hide LittleEndian, ShiftIn;
    Assemble(block);
    count := 0;
    var i := 7;
    while i >= 4
      invariant 3 <= i <= 7
      invariant count == Top(block, i + 1)
    {
      count := ShiftIn(count, block[i]);
      i := i - 1;
    }
    assert Top(block, 4) == ShiftIn(ShiftIn(Top(block, 6), block[5]), block[4]);
    assert Top(block, 6) == ShiftIn(ShiftIn(Top(block, 8), block[7]), block[6]);
  }

  /** The bytes k to 7 of the block shifted in, the last one first. */
  function Top(block: seq<bv8>, k: nat): bv32
    requires |block| == 14
    decreases 8 - k
  {
    if k >= 8 then 0 else ShiftIn(Top(block, k + 1), block[k])
  }
}
