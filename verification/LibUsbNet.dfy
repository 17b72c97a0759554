/** The search functions of libusbnet.c for one port, over the static buffers they update. */
module LibUsbNet {
  import opened Bits
  import opened Lfsr
  import opened CrcUtil
  import opened RomTree
  import opened Search
  import opened Verify

  /** What comes back for a search command: no data, for whatever reason, or the sixteen
      bytes of the receive buffer and the number of them the adapter wrote. */
  datatype EpReply = NoData | Data(buf: seq<bv8>, len: nat)

  /** The adapter: which reply it gives to a search command and the eight ROM bytes sent with it. */
  type Adapter = (bv8, seq<bv8>) -> EpReply

  ghost predicate WellFormed(adapter: Adapter) {
    forall cmd, s :: adapter(cmd, s).Data? ==> |adapter(cmd, s).buf| == 16
  }

  /** The reply as the search step sees it. */
  function Seen(r: EpReply): Reply
    requires r.Data? ==> |r.buf| == 16
  {
    match r
    case NoData => Silent
    case Data(buf, len) => Answer(Stream(buf[..8]), Stream(buf[8..]), len == 8)
  }

  /** The adapter answers every search with this command as the devices `pop` make it. */
  ghost predicate Serves(pop: set<Rom>, adapter: Adapter, cmd: bv8) {
    && WellFormed(adapter)
    && forall s :: |s| == 8 ==> Answers(pop, Stream(s), Seen(adapter(cmd, s)))
  }

  /** It answers the search for all devices as the devices `pop` on the line make it. */
  ghost predicate FaultFree(pop: set<Rom>, adapter: Adapter) {
    Serves(pop, adapter, 0xF0)
  }

  lemma RomBytes(bytes: seq<bv8>)
    requires |bytes| == 8
    ensures CrcValid(Stream(bytes)) <==> OverBytes(Crc8, 0, bytes) == 0
    ensures HasFamily(Stream(bytes)) <==> bytes[0] != 0
  {
    hide OverBytes, OverBits, Unpack;
    BytesAreBits(Crc8, 0, bytes);
    assert Stream(bytes)[..8] == Unpack(bytes[0]);
    UnpackZero();
    if Unpack(bytes[0]) == Unpack(0) {
      UnpackInjective(bytes[0], 0);
    }
  }

  lemma ZeroBytes(bytes: seq<bv8>)
    requires |bytes| == 8 && forall i :: 0 <= i < 8 ==> bytes[i] == 0
    ensures Stream(bytes) == Zeros(BITS)
  {
    UnpackZero();
    forall k | 0 <= k < BITS
      ensures Stream(bytes)[k] == Zeros(BITS)[k]
    {
      StreamAt(bytes, k);
    }
  }

  lemma CrcGrows(bytes: seq<bv8>, i: nat)
    requires i < |bytes|
    ensures OverBytes(Crc8, 0, bytes[..i + 1]) == OverByte(Crc8, OverBytes(Crc8, 0, bytes[..i]), bytes[i])
  {
    hide OverByte;
    assert bytes[..i + 1] == bytes[..i] + [bytes[i]];
    BytesAppend(Crc8, 0, bytes[..i], [bytes[i]]);
    var d := OverByte(Crc8, OverBytes(Crc8, 0, bytes[..i]), bytes[i]);
    assert OverBytes(Crc8, OverBytes(Crc8, 0, bytes[..i]), [bytes[i]]) == OverBytes(Crc8, d, []);
  }

  lemma StartIs(st: SearchState, b: Rom)
    requires st.lastDiscrepancy == 0xFF ==> b == st.serial
    requires var d := st.lastDiscrepancy;
             d != 0xFF ==>
               && (d > 0 ==> b[..d - 1] == st.serial[..d - 1] && b[d - 1])
               && forall k :: d <= k < BITS ==> !b[k]
    ensures b == StartRom(st)
  {
    var d := st.lastDiscrepancy;
    if d != 0xFF {
      if d == 0 {
        assert b == Zeros(BITS);
      } else {
        assert b == b[..d - 1] + [true] + Zeros(BITS - d);
      }
    }
  }

  lemma CrcEmpty(buf: seq<bv8>)
    ensures OverBytes(Crc8, 0, buf[..0]) == (0 as bv8) as bv16
  {}

  lemma WordIsZero(x: bv8)
    ensures x == 0 <==> x as bv16 == 0
  {}

  lemma LastZeroGrows(rom: Rom, marks: Rom, i: nat, d: Discrepancy)
    requires i < BITS
    ensures LastZero(rom, marks, 0, d) == d
    ensures LastZero(rom, marks, i + 1, d) == if marks[i] && !rom[i] then i + 1 else LastZero(rom, marks, i, d)
  {}

  lemma NextIs(st: SearchState, buf: seq<bv8>, len: nat)
    requires |buf| == 16 && !st.lastDevice
    ensures var rom, marks := Stream(buf[..8]), Stream(buf[8..]);
            Next(st, false, true, Seen(Data(buf, len))) ==
            if CrcValid(rom) && HasFamily(rom)
            then (SearchState(LastZero(rom, marks, BITS, st.lastDiscrepancy), len == 8, rom), true)
            else (SearchState(0xFF, false, Zeros(BITS)), false)
  {}

  /** What owNext does, in plain terms. */
  ghost predicate Plainly(st: SearchState, doReset: bool, present: bool, reply: EpReply, st': SearchState, rt: bool)
    requires reply.Data? ==> |reply.buf| == 16
  {
    if st.lastDevice || (doReset && !present) then
      !rt && st'.lastDiscrepancy == 0 && !st'.lastDevice && st'.serial == st.serial
    else if reply.NoData? then
      !rt && st' == st
    else
      && (rt <==> OverBytes(Crc8, 0, reply.buf[..8]) == 0 && reply.buf[0] != 0)
      && (rt ==> st'.serial == Stream(reply.buf[..8]) && (st'.lastDevice <==> reply.len == 8))
      && (rt ==> forall i :: 0 <= i < BITS && LastMarked(reply.buf, i) ==> st'.lastDiscrepancy == i + 1)
      && (rt && (forall i :: 0 <= i < BITS ==> !LastMarked(reply.buf, i)) ==> st'.lastDiscrepancy == st.lastDiscrepancy)
      && (!rt ==> st'.lastDiscrepancy == 0xFF && !st'.lastDevice && st'.serial == Zeros(BITS))
  }

  /** Bit i of the reply is the last that is marked as a discrepancy and was taken as 0. */
  ghost predicate LastMarked(buf: seq<bv8>, i: nat)
    requires |buf| == 16 && i < BITS
  {
    && Stream(buf[8..])[i] && !Stream(buf[..8])[i]
    && forall j :: i < j < BITS && Stream(buf[8..])[j] ==> Stream(buf[..8])[j]
  }

  lemma NextPlainly(st: SearchState, doReset: bool, present: bool, reply: EpReply)
    requires reply.Data? ==> |reply.buf| == 16
    ensures var (st', rt) := Next(st, doReset, present, Seen(reply)); Plainly(st, doReset, present, reply, st', rt)
  {
    hide OverBytes, Stream, CrcValid, HasFamily, LastZero;
    if reply.Data? {
      RomBytes(reply.buf[..8]);
      LastZeroMarked(reply.buf, st.lastDiscrepancy);
    }
  }

  lemma LastZeroMarked(buf: seq<bv8>, d: Discrepancy)
    requires |buf| == 16
    ensures var k := LastZero(Stream(buf[..8]), Stream(buf[8..]), BITS, d);
            && (forall i :: 0 <= i < BITS && LastMarked(buf, i) ==> k == i + 1)
            && ((forall i :: 0 <= i < BITS ==> !LastMarked(buf, i)) ==> k == d)
  {
    hide Stream;
    var k := LastZero(Stream(buf[..8]), Stream(buf[8..]), BITS, d);
    LastZeroIs(Stream(buf[..8]), Stream(buf[8..]), BITS, d);
    if exists i :: 0 <= i < BITS && Stream(buf[8..])[i] && !Stream(buf[..8])[i] {
      assert LastMarked(buf, k - 1);
    }
  }

  // ----- owVerify -----

  datatype PacketEcho = Failed | Echoed(buf: seq<bv8>)

  /** A block transfer: what comes back for the bytes sent. */
  type Line = seq<bv8> -> PacketEcho

  /** Both read slots of every triplet of a search packet are sent as ones. */
  ghost predicate Slots(packet: seq<bv8>)
    requires |packet| == 25
  {
    forall k :: 0 <= k < BITS ==> Stream(packet[1..])[3 * k] && Stream(packet[1..])[3 * k + 1]
  }

  /** The bits written in the third slot of every triplet. */
  function WrittenBits(packet: seq<bv8>): Rom
    requires |packet| == 25
  {
    seq(BITS, k requires 0 <= k < BITS => Stream(packet[1..])[3 * k + 2])
  }

  /** The devices that take part in a search with this command. */
  function Responding(cmd: bv8, all: set<Rom>, alarmed: set<Rom>): set<Rom> {
    if cmd == 0xF0 then all else if cmd == 0xEC then alarmed else {}
  }

  /** A search packet comes back as the devices that answer its command make it: all that are
      there, or those in alarm. With none there the reset before it fails. */
  ghost predicate LineFaultFree(all: set<Rom>, alarmed: set<Rom>, line: Line) {
    && (all == {} ==> alarmed == {})
    && forall s :: |s| == 25 && Slots(s) ==>
         if all == {} then line(s) == Failed
         else
           && line(s).Echoed? && |line(s).buf| == 25
           && Stream(line(s).buf[1..]) == Echo(Responding(s[0], all, alarmed), WrittenBits(s), 0)
  }

  lemma FirstByte(bytes: seq<bv8>)
    requires |bytes| > 0
    ensures Stream(bytes)[..8] == Unpack(bytes[0])
  {
    hide Unpack;
  }

  lemma SplitPacket(packet: seq<bv8>)
    requires |packet| == 25
    ensures |Stream(packet)| == 200 && Stream(packet)[8..] == Stream(packet[1..])
    ensures forall k :: 0 <= k < 192 ==> Stream(packet)[8 + k] == Stream(packet[1..])[k]
  {
    hide Unpack;
    assert forall k :: 0 <= k < 192 ==> Stream(packet)[8..][k] == Stream(packet)[8 + k];
  }

  lemma OnesStream(bytes: seq<bv8>)
    requires forall j :: 0 <= j < |bytes| ==> bytes[j] == 0xFF
    ensures forall k :: 0 <= k < 8 * |bytes| ==> Stream(bytes)[k]
  {
    hide Unpack, Stream;
    forall k | 0 <= k < 8 * |bytes|
      ensures Stream(bytes)[k]
    {
      StreamAt(bytes, k);
      LowBitsAt(0xFF, 8, k % 8);
      OnesMask(k % 8);
      UnpackIsLow(0xFF);
    }
  }

  lemma UnpackIsLow(x: bv8)
    ensures Unpack(x) == LowBits(x, 8)
  {}

  lemma OnesMask(k: nat)
    requires k < 8
    ensures 0xFF & Mask(k) != 0
  {
    MaskValues();
  }

  lemma FamilyBytes(bytes: seq<bv8>, family: bv8)
    requires |bytes| == 8 && bytes[0] == family && forall j :: 1 <= j < 8 ==> bytes[j] == 0
    ensures Stream(bytes) == Unpack(family) + Zeros(BITS - 8)
  {
    hide Unpack;
    UnpackZero();
    forall k | 8 <= k < BITS
      ensures !Stream(bytes)[k]
    {
      StreamAt(bytes, k);
    }
    assert Stream(bytes)[..8] == Unpack(family);
    assert Stream(bytes) == Stream(bytes)[..8] + Stream(bytes)[8..];
    assert Stream(bytes)[8..] == Zeros(BITS - 8);
  }

  /** One triplet: an empty line ends the count at zero, a good bit counts, another does not. */
  lemma GoodBitsStep(line: seq<bool>, serial: Rom, i: nat, good: nat)
    requires |line| == 3 * BITS && i <= BITS
    ensures i == BITS ==> GoodBits(line, serial, i, good) == good
    ensures i < BITS && line[3 * i] && line[3 * i + 1] ==> GoodBits(line, serial, i, good) == 0
    ensures i < BITS && !(line[3 * i] && line[3 * i + 1]) ==>
      GoodBits(line, serial, i, good) == GoodBits(line, serial, i + 1, if Good(line, serial, i) then good + 1 else good)
  {}

  lemma VerifyIffPopulation(pop: set<Rom>, serial: Rom)
    ensures Population(pop) ==>
      (GoodBits(Echo(pop, serial, 0), serial, 0, 0) >= 8 <==> serial in pop || Mistaken(pop, serial))
    ensures Population(pop) && CrcValid(serial) ==> !Mistaken(pop, serial)
  {
    if Population(pop) {
      VerifyIff(pop, serial);
      if CrcValid(serial) {
        NoTwin(pop, serial);
      }
    }
  }

  class Port {
    var lastDiscrepancy: Discrepancy
    var lastDevice: bool
    const serialNum: array<bv8>
    const crc: CrcPort

    ghost predicate Valid()
      reads this
    {
      serialNum.Length == 8
    }

    ghost function State(): SearchState
      requires Valid()
      reads this, serialNum
    {
      SearchState(lastDiscrepancy, lastDevice, Stream(serialNum[..]))
    }

    constructor ()
      ensures Valid() && fresh(serialNum) && fresh(crc)
      ensures State() == SearchState(0, false, Zeros(BITS))
    {
      lastDiscrepancy, lastDevice := 0, false;
      serialNum := new bv8[8](_ => 0);
      crc := new CrcPort();
      new;
      ZeroBytes(serialNum[..]);
    }

    /** The ROM id owNext sends, built in a buffer of its own. */
    method BuildStart() returns (romBuf: array<bv8>)
      requires Valid()
      ensures fresh(romBuf) && romBuf.Length == 8 && Stream(romBuf[..]) == StartRom(State())
    {
      hide StartRom, Stream;
      romBuf := new bv8[8];
      var i := 0;
      while i < 8
        invariant 0 <= i <= 8
        invariant romBuf[..i] == serialNum[..i]
      {
        romBuf[i] := serialNum[i];
        i := i + 1;
      }
      assert romBuf[..] == romBuf[..8] && serialNum[..] == serialNum[..8];
      ghost var d := lastDiscrepancy;
      ghost var was := Stream(serialNum[..]);
      if lastDiscrepancy != 0xFF {
        if lastDiscrepancy > 0 {
          BitWrite(romBuf, lastDiscrepancy - 1, true);
        }
        i := lastDiscrepancy;
        while i < BITS
          invariant d <= i <= BITS
          invariant |Stream(romBuf[..])| == BITS
          invariant d > 0 ==> Stream(romBuf[..])[..d - 1] == was[..d - 1] && Stream(romBuf[..])[d - 1]
          invariant forall k :: d <= k < i ==> !Stream(romBuf[..])[k]
        {
          BitWrite(romBuf, i, false);
          i := i + 1;
        }
      }
      StartIs(State(), Stream(romBuf[..]));
    }

    /** The part of owNext that takes in the reply: id, CRC check, discrepancy scan. */
    method TakeReply(buf: seq<bv8>, len: nat) returns (rt: bool)
      requires Valid() && |buf| == 16 && !lastDevice
      modifies this, serialNum, crc
      ensures Valid()
      ensures (State(), rt) == Next(old(State()), false, true, Seen(Data(buf, len)))
    {
      hide OverBytes, OverByte, Stream, CrcValid, HasFamily, LastZero, Next, Seen;
      ghost var st := State();
      var retBuf := new bv8[16](i requires 0 <= i < 16 => buf[i]);
      assert retBuf[..] == buf;
      ghost var rom: Rom, marks: Rom := Stream(buf[..8]), Stream(buf[8..]);
      assert buf == buf[..8] + buf[8..];
      StreamAppend(buf[..8], buf[8..]);
      lastDevice := len == 8;
      crc.SetCrc8(0);
      var lastcrc8: bv8 := 0;
      CrcEmpty(buf);
      var i := 0;
      while i < 8
        invariant 0 <= i <= 8
        invariant retBuf[..] == buf
        invariant lastDiscrepancy == st.lastDiscrepancy && lastDevice == (len == 8)
        invariant serialNum[..i] == buf[..i]
        invariant crc.utilcrc8 == lastcrc8 && lastcrc8 as bv16 == OverBytes(Crc8, 0, buf[..i])
      {
        serialNum[i] := retBuf[i];
        CrcGrows(buf, i);
        lastcrc8 := crc.DoCrc8(retBuf[i]);
        i := i + 1;
      }
      assert serialNum[..] == serialNum[..8] == buf[..8];
      RomBytes(buf[..8]);
      WordIsZero(lastcrc8);
      LastZeroGrows(rom, marks, 0, st.lastDiscrepancy);
      if lastcrc8 == 0 && serialNum[0] != 0 {
        i := 0;
        while i < BITS
          invariant 0 <= i <= BITS
          invariant retBuf[..] == buf && serialNum[..] == buf[..8] && lastDevice == (len == 8)
          invariant lastDiscrepancy == LastZero(rom, marks, i, st.lastDiscrepancy)
        {
          LastZeroGrows(rom, marks, i, st.lastDiscrepancy);
          var mark := BitRead(retBuf, 64 + i);
          var bit := BitRead(retBuf, i);
          if mark && !bit {
            lastDiscrepancy := i + 1;
          }
          i := i + 1;
        }
        rt := true;
      } else {
        lastDiscrepancy := 0xFF;
        lastDevice := false;
        i := 0;
        while i < 8
          invariant 0 <= i <= 8
          invariant lastDiscrepancy == 0xFF && !lastDevice
          invariant forall j :: 0 <= j < i ==> serialNum[j] == 0
        {
          serialNum[i] := 0;
          i := i + 1;
        }
        ZeroBytes(serialNum[..]);
        rt := false;
      }
      NextIs(st, buf, len);
    }

    /** owNext: the step of the search on what the adapter answers. In plain terms: nothing is
        asked after the last device or without a presence pulse, and the search then starts
        over; a transfer that fails changes nothing and finds nothing; and a reply is reported
        exactly if its first eight bytes have a good CRC and a family code. */
    method OwNext(alarmOnly: bool, doReset: bool, present: bool, adapter: Adapter) returns (rt: bool, ghost sent: seq<bv8>)
      requires Valid() && WellFormed(adapter)
      modifies this, serialNum, crc
      ensures Valid()
      ensures |sent| == 8
      ensures var cmd := if alarmOnly then 0xEC else 0xF0;
              var reply := adapter(cmd, sent);
              && (!old(lastDevice) && (present || !doReset) ==> Stream(sent) == StartRom(old(State())))
              && (State(), rt) == Next(old(State()), doReset, present, Seen(reply))
              && Plainly(old(State()), doReset, present, reply, State(), rt)
    {
      sent := serialNum[..];
      rt := false;
      ghost var st := State();
      var cmd := if alarmOnly then 0xEC else 0xF0;
      NextPlainly(st, doReset, present, adapter(cmd, sent));
      if lastDevice {
        lastDiscrepancy, lastDevice := 0, false;
        return;
      }
      if doReset {
        if !present {
          lastDiscrepancy := 0;
          return;
        }
      }
      var romBuf := BuildStart();
      sent := romBuf[..];
      NextPlainly(st, doReset, present, adapter(cmd, sent));
      match adapter(cmd, romBuf[..]) {
        case NoData =>
        case Data(buf, len) =>
          rt := TakeReply(buf, len);
      }
    }

    method OwFirst(alarmOnly: bool, doReset: bool, present: bool, adapter: Adapter) returns (rt: bool, ghost sent: seq<bv8>)
      requires Valid() && WellFormed(adapter)
      modifies this, serialNum, crc
      ensures Valid() && |sent| == 8
      ensures var cmd := if alarmOnly then 0xEC else 0xF0;
              var reply := adapter(cmd, sent);
              && (present || !doReset ==> Stream(sent) == Zeros(BITS))
              && (State(), rt) == Next(Fresh(old(State())), doReset, present, Seen(reply))
              && Plainly(Fresh(old(State())), doReset, present, reply, State(), rt)
    {
      lastDiscrepancy := 0;
      lastDevice := false;
      rt, sent := OwNext(alarmOnly, doReset, present, adapter);
    }

    /** owSerialNum with do_read TRUE: the id found last, copied out. */
    method ReadSerialNum() returns (id: seq<bv8>)
      requires Valid()
      ensures id == serialNum[..]
    {
      id := [];
      var i := 0;
      while i < 8
        invariant 0 <= i <= 8
        invariant id == serialNum[..i]
      {
        id := id + [serialNum[i]];
        i := i + 1;
      }
    }

    /** owSerialNum with do_read FALSE: only the serial number changes. */
    method SetSerialNum(id: seq<bv8>)
      requires Valid() && |id| == 8
      modifies serialNum
      ensures serialNum[..] == id
      ensures State() == old(State()).(serial := Stream(id))
    {
      var i := 0;
      while i < 8
        invariant 0 <= i <= 8
        invariant serialNum[..i] == id[..i]
      {
        serialNum[i] := id[i];
        i := i + 1;
      }
      assert serialNum[..] == serialNum[..8] == id;
    }

    method OwFamilySearchSetup(family: bv8)
      requires Valid()
      modifies this, serialNum
      ensures Valid()
      ensures State() == FamilySetup(Unpack(family))
      ensures lastDiscrepancy == 64 && !lastDevice
      ensures serialNum[0] == family && forall j :: 1 <= j < 8 ==> serialNum[j] == 0
    {
      hide Unpack;
      serialNum[0] := family;
      var i := 1;
      while i < 8
        invariant 1 <= i <= 8
        invariant serialNum[0] == family && forall j :: 1 <= j < i ==> serialNum[j] == 0
      {
        serialNum[i] := 0;
        i := i + 1;
      }
      lastDiscrepancy := BITS;
      lastDevice := false;
      FamilyBytes(serialNum[..], family);
    }

    /** owVerify on a fault-free line: TRUE exactly if the device is among all devices, or among
        those in alarm if only these are asked for, or if its serial number is the twin of one
        of them and misleads. For a serial number with a good CRC that is presence alone. */
    method OwVerify(alarmOnly: bool, line: Line, ghost all: set<Rom>, ghost alarmed: set<Rom>) returns (ok: bool)
      requires Valid() && LineFaultFree(all, alarmed, line)
      ensures var pop := if alarmOnly then alarmed else all;
              && (all != {} ==> (ok <==> GoodBits(Echo(pop, State().serial, 0), State().serial, 0, 0) >= 8))
              && (Population(pop) ==> (ok <==> State().serial in pop || Mistaken(pop, State().serial)))
              && (Population(pop) && CrcValid(State().serial) ==> (ok <==> State().serial in pop))
    {
      hide Unpack, Stream, Echo, GoodBits, CrcValid, Population, Twin, Slots, WrittenBits;
      var packet := BuildPacket(alarmOnly);
      VerifyIffPopulation(if alarmOnly then alarmed else all, State().serial);
      match line(packet[..]) {
        case Failed =>
          return false;
        case Echoed(buf) =>
          var good := CountGood(buf);
          return good >= 8;
      }
    }

    /** The search packet: command, then for each bit two read slots and the bit of the serial number. */
    method BuildPacket(alarmOnly: bool) returns (packet: array<bv8>)
      requires Valid()
      ensures fresh(packet) && packet.Length == 25 && packet[0] == if alarmOnly then 0xEC else 0xF0
      ensures Slots(packet[..]) && WrittenBits(packet[..]) == State().serial
    {
      hide Unpack, Stream;
      packet := new bv8[25];
      packet[0] := if alarmOnly then 0xEC else 0xF0;
      ghost var serial, cmd := State().serial, packet[0];
      var i := 1;
      while i <= 24
        invariant 1 <= i <= 25
        invariant packet[0] == cmd && forall j :: 1 <= j < i ==> packet[j] == 0xFF
      {
        packet[i] := 0xFF;
        i := i + 1;
      }
      SplitPacket(packet[..]);
      OnesStream(packet[..][1..]);
      FirstByte(packet[..]);
      i := 0;
      while i < BITS
        invariant 0 <= i <= BITS
        invariant |Stream(packet[..])| == 200 && State().serial == serial
        invariant Stream(packet[..])[..8] == Unpack(cmd)
        invariant forall k :: 0 <= k < BITS ==> Stream(packet[..])[8 + 3 * k] && Stream(packet[..])[8 + 3 * k + 1]
        invariant forall k :: 0 <= k < i ==> Stream(packet[..])[8 + 3 * k + 2] == serial[k]
      {
        var bit := BitRead(serialNum, i);
        BitWrite(packet, 8 + ((i + 1) * 3 - 1), bit);
        i := i + 1;
      }
      SplitPacket(packet[..]);
      FirstByte(packet[..]);
      UnpackInjective(packet[0], cmd);
      assert WrittenBits(packet[..]) == serial;
      assert Slots(packet[..]);
    }

    /** The loop of owVerify over the triplets that came back. */
    method CountGood(buf: seq<bv8>) returns (goodbits: nat)
      requires Valid() && |buf| == 25
      ensures goodbits == GoodBits(Stream(buf[1..]), State().serial, 0, 0)
    {
      hide Unpack, Stream, GoodBits;
      var packet := new bv8[25](i requires 0 <= i < 25 => buf[i]);
      assert packet[..] == buf;
      SplitPacket(buf);
      ghost var serial, tail := State().serial, Stream(buf[1..]);
      goodbits := 0;
      var i, cnt := 0, 0;
      while i < 192
        invariant 0 <= cnt <= BITS && i == 3 * cnt
        invariant packet[..] == buf && State().serial == serial
        invariant GoodBits(tail, serial, cnt, goodbits) == GoodBits(tail, serial, 0, 0)
      {
        var hi := BitRead(packet, 8 + i);
        var lo := BitRead(packet, 8 + i + 1);
        var s := BitRead(serialNum, cnt);
        GoodBitsStep(tail, serial, cnt, goodbits);
        cnt := cnt + 1;
        if hi && lo {
          goodbits := 0;
          break;
        }
        if (s && hi && !lo) || (!s && !hi && lo) {
          goodbits := goodbits + 1;
        }
        i := i + 3;
      }
      GoodBitsStep(tail, serial, cnt, goodbits);
    }
  }
}
