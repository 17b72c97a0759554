/** There is a fault-free adapter, and a fault-free line, for every population. */
module Buses {
  import opened Bits
  import opened RomTree
  import opened Search
  import opened Verify
  import opened LibUsbNet
  import opened Coupler
  import opened SelectDevice
  import opened ReadPass

  /** What the adapter hands back when these devices are on the line. */
  ghost function ReplyOf(pop: set<Rom>, sent: seq<bv8>): (r: EpReply)
    ensures r.Data? ==> |r.buf| == 16
  {
    if pop == {} || |sent| != 8 then NoData
    else
      var f := RomTree.Search(pop, Stream(sent));
      Data(Pack(f.rom + f.marks), if forall i :: 0 <= i < BITS && f.marks[i] ==> f.rom[i] then 8 else 16)
  }

  /** The adapter when these are all the devices there are, and these the ones in alarm. */
  ghost function AdapterOf(all: set<Rom>, alarmed: set<Rom>): Adapter {
    (cmd, s) => ReplyOf(Responding(cmd, all, alarmed), s)
  }

  lemma PackParts(a: seq<bool>, b: seq<bool>)
    requires |a| == |b| == 64
    ensures |Pack(a + b)| == 16 && Stream(Pack(a + b)[..8]) == a && Stream(Pack(a + b)[8..]) == b
  {
    hide Stream, Pack;
    var bytes := Pack(a + b);
    StreamPack(a + b);
    assert bytes == bytes[..8] + bytes[8..];
    StreamAppend(bytes[..8], bytes[8..]);
    assert a == (a + b)[..64] && b == (a + b)[64..];
  }

  lemma ReplyAnswers(pop: set<Rom>, sent: seq<bv8>)
    requires |sent| == 8
    ensures Answers(pop, Stream(sent), Seen(ReplyOf(pop, sent)))
  {
    hide Stream, Pack, RomTree.Search;
    if pop != {} {
      var f := RomTree.Search(pop, Stream(sent));
      PackParts(f.rom, f.marks);
    }
  }

  /** Every population has a fault-free adapter, for both search commands. */
  lemma AdapterExists(all: set<Rom>, alarmed: set<Rom>)
    ensures Serves(all, AdapterOf(all, alarmed), 0xF0) && Serves(alarmed, AdapterOf(all, alarmed), 0xEC)
    ensures FaultFree(all, AdapterOf(all, alarmed))
  {
    hide Stream, ReplyOf, Answers, Seen;
    forall s | |s| == 8
      ensures Answers(all, Stream(s), Seen(AdapterOf(all, alarmed)(0xF0, s)))
      ensures Answers(alarmed, Stream(s), Seen(AdapterOf(all, alarmed)(0xEC, s)))
    {
      ReplyAnswers(all, s);
      ReplyAnswers(alarmed, s);
      assert AdapterOf(all, alarmed)(0xF0, s) == ReplyOf(Responding(0xF0, all, alarmed), s) == ReplyOf(all, s);
      assert AdapterOf(all, alarmed)(0xEC, s) == ReplyOf(Responding(0xEC, all, alarmed), s) == ReplyOf(alarmed, s);
    }
  }

  ghost function EchoBits(pop: set<Rom>, sent: Rom): (e: seq<bool>)
    ensures |e| == 192
  {
    Echo(pop, sent, 0)
  }

  ghost function EchoBytes(pop: set<Rom>, sent: Rom): (bytes: seq<bv8>)
    ensures |bytes| == 24 && Stream(bytes) == Echo(pop, sent, 0)
  {
    StreamPack(EchoBits(pop, sent));
    Pack(EchoBits(pop, sent))
  }

  ghost function EchoOf(all: set<Rom>, alarmed: set<Rom>, packet: seq<bv8>): PacketEcho {
    if all == {} || |packet| != 25 then Failed
    else Echoed([packet[0]] + EchoBytes(Responding(packet[0], all, alarmed), WrittenBits(packet)))
  }

  ghost function LineOf(all: set<Rom>, alarmed: set<Rom>): Line {
    s => EchoOf(all, alarmed, s)
  }

  /** And a fault-free line. */
  lemma LineExists(all: set<Rom>, alarmed: set<Rom>)
    requires alarmed <= all
    ensures LineFaultFree(all, alarmed, LineOf(all, alarmed))
  {
    hide Stream, EchoBytes, Echo, WrittenBits, Responding;
    forall s | |s| == 25 && Slots(s) && all != {}
      ensures LineOf(all, alarmed)(s).Echoed? && |LineOf(all, alarmed)(s).buf| == 25
      ensures Stream(LineOf(all, alarmed)(s).buf[1..]) == Echo(Responding(s[0], all, alarmed), WrittenBits(s), 0)
    {
      var bytes := EchoBytes(Responding(s[0], all, alarmed), WrittenBits(s));
      assert ([s[0]] + bytes)[1..] == bytes;
    }
  }

  ghost function SiteOf(world: Wiring, devs: seq<Device>): Site {
    Site(world,
         (w: nat) => w < |devs| && Reach(world, devs, w) != {},
         (w: nat) => AdapterOf(if w < |devs| then Reach(world, devs, w) else {}, {}))
  }

  /** Whatever valid devices hang on trunk and branches, an adapter can answer for each selection. */
  lemma SiteExists(world: Wiring, devs: seq<Device>)
    requires Population(world.trunk) && forall i, lines :: Population(world.behind(i, lines))
    ensures Faithful(SiteOf(world, devs), devs)
  {
    hide FaultFree, AdapterOf, CrcValid;
    forall w | 0 <= w < |devs|
      ensures Population(Reach(world, devs, w))
    {
      if devs[w].branch.Some? {
        var b := devs[w].branch.value;
        assert Population(world.behind(b.device, b.lines));
      }
    }
    forall w | 0 <= w < |devs|
      ensures FaultFree(Reach(world, devs, w), SiteOf(world, devs).adapter(w))
    {
      AdapterExists(Reach(world, devs, w), {});
    }
  }
}
