/** The bit triplets of `owVerify`: what the line answers, and what the count of good bits means. */
module Verify {
  import opened Bits
  import opened Lfsr
  import opened RomTree

  /** Nobody pulls the line low on bit k, or on its complement. */
  ghost predicate AllOnes(c: set<Rom>, k: nat)
    requires k < BITS
  {
    forall r :: r in c ==> r[k]
  }

  ghost predicate AllZeros(c: set<Rom>, k: nat)
    requires k < BITS
  {
    forall r :: r in c ==> !r[k]
  }

  /** The line during a search pass in which the master writes the bits of `sent`. For each
      bit the devices still taking part pull the line to the AND of their bits, then to the
      AND of the complements; after the write only those that agree with it stay. */
  ghost function Echo(c: set<Rom>, sent: Rom, i: nat): (line: seq<bool>)
    requires i <= BITS
    ensures |line| == 3 * (BITS - i)
    decreases BITS - i
  {
    if i == BITS then [] else
      var stay := set r | r in c && r[i] == sent[i];
      [AllOnes(c, i), AllZeros(c, i), sent[i]] + Echo(stay, sent, i + 1)
  }

  /** The number of good bits owVerify ends up with: zero once a triplet shows no device. */
  function GoodBits(line: seq<bool>, serial: Rom, i: nat, good: nat): nat
    requires |line| == 3 * BITS && i <= BITS
    decreases BITS - i
  {
    if i == BITS then good
    else if line[3 * i] && line[3 * i + 1] then 0
    else GoodBits(line, serial, i + 1,
                  if line[3 * i] == serial[i] && line[3 * i + 1] != serial[i] then good + 1 else good)
  }

  lemma Narrowed(pop: set<Rom>, sent: Rom, i: nat)
    requires i < BITS
    ensures Matching(pop, sent[..i + 1]) == set r | r in Matching(pop, sent[..i]) && r[i] == sent[i]
  {
    MatchingStep(pop, sent[..i], sent[i]);
    assert sent[..i] + [sent[i]] == sent[..i + 1];
  }

  /** Bit k of the pass is answered by the devices that share the first k bits of the serial number. */
  lemma {:induction false} EchoAt(pop: set<Rom>, sent: Rom, i: nat, k: nat)
    requires i <= k < BITS
    ensures var line, c := Echo(Matching(pop, sent[..i]), sent, i), Matching(pop, sent[..k]);
            && line[3 * (k - i)] == AllOnes(c, k)
            && line[3 * (k - i) + 1] == AllZeros(c, k)
    decreases k - i
  {
    hide AllOnes, AllZeros, Matching;
    if i < k {
      Narrowed(pop, sent, i);
      EchoAt(pop, sent, i + 1, k);
      assert 3 * (k - i) - 3 == 3 * (k - (i + 1));
    }
  }

  lemma MatchingAll(pop: set<Rom>, sent: Rom)
    ensures Matching(pop, sent[..0]) == pop
  {
    forall r | r in pop
      ensures r[..0] == sent[..0]
    {
    }
  }

  lemma EchoFrom0(pop: set<Rom>, sent: Rom, k: nat)
    requires k < BITS
    ensures var line, c := Echo(pop, sent, 0), Matching(pop, sent[..k]);
            && line[3 * k] == AllOnes(c, k)
            && line[3 * k + 1] == AllZeros(c, k)
  {
    hide AllOnes, AllZeros, Echo;
    MatchingAll(pop, sent);
    EchoAt(pop, sent, 0, k);
  }

  /** A triplet counts as good. */
  predicate Good(line: seq<bool>, serial: Rom, i: nat)
    requires |line| == 3 * BITS && i < BITS
  {
    line[3 * i] == serial[i] && line[3 * i + 1] != serial[i]
  }

  lemma PresentTriplet(pop: set<Rom>, serial: Rom, i: nat)
    requires Determined(pop) && serial in pop && i < BITS
    ensures var line := Echo(pop, serial, 0);
            && !(line[3 * i] && line[3 * i + 1])
            && (i >= 56 ==> Good(line, serial, i))
  {
    hide Echo;
    EchoFrom0(pop, serial, i);
    var c := Matching(pop, serial[..i]);
    assert serial in c;
    if i >= 56 {
      forall r | r in c
        ensures r == serial
      {
        assert r[..56] == r[..i][..56] == serial[..i][..56] == serial[..56];
      }
    }
  }

  /** With the device present no triplet shows an empty line, and from bit 56 on every bit is good. */
  lemma {:induction false} PresentCounts(pop: set<Rom>, serial: Rom, i: nat, good: nat)
    requires Determined(pop) && serial in pop && i <= BITS
    ensures GoodBits(Echo(pop, serial, 0), serial, i, good) >= good + if i <= 56 then 8 else BITS - i
    decreases BITS - i
  {
    hide Echo, Determined;
    if i < BITS {
      PresentTriplet(pop, serial, i);
      var line := Echo(pop, serial, 0);
      PresentCounts(pop, serial, i + 1, if Good(line, serial, i) then good + 1 else good);
    }
  }

  /** Once the devices that share the first k bits are none, the count ends at zero. */
  lemma {:induction false} AbsentCountsZero(pop: set<Rom>, serial: Rom, k: nat, i: nat, good: nat)
    requires i <= k < BITS && Matching(pop, serial[..k]) == {}
    ensures GoodBits(Echo(pop, serial, 0), serial, i, good) == 0
    decreases k - i
  {
    hide Echo;
    var line := Echo(pop, serial, 0);
    if i == k {
      EchoFrom0(pop, serial, k);
    } else if !(line[3 * i] && line[3 * i + 1]) {
      var g := if line[3 * i] == serial[i] && line[3 * i + 1] != serial[i] then good + 1 else good;
      AbsentCountsZero(pop, serial, k, i + 1, g);
    }
  }

  /** The serial number that differs in its last bit. */
  function Twin(serial: Rom): Rom {
    serial[63 := !serial[63]]
  }

  /** The number of positions from i on, before the CRC byte, where the population does not split along q. */
  ghost function Unsplit(pop: set<Rom>, q: Rom, i: nat): (n: nat)
    requires i <= 56
    ensures n > 0 <==> exists j :: i <= j < 56 && !Split(pop, q, j)
    decreases 56 - i
  {
    if i == 56 then 0 else (if Split(pop, q, i) then 0 else 1) + Unsplit(pop, q, i + 1)
  }

  /** With the twin of the serial number present no triplet shows an empty line. A bit before the
      CRC byte is good exactly if the population does not split there; then all are but the last. */
  lemma TwinTriplet(pop: set<Rom>, serial: Rom, i: nat)
    requires Determined(pop) && Twin(serial) in pop && i < BITS
    ensures var line := Echo(pop, serial, 0);
            && !(line[3 * i] && line[3 * i + 1])
            && (Good(line, serial, i) <==> if i < 56 then !Split(pop, Twin(serial), i) else i < 63)
  {
    hide Echo;
    var q := Twin(serial);
    EchoFrom0(pop, serial, i);
    var c := Matching(pop, serial[..i]);
    assert serial[..i] == q[..i];
    assert q in c;
    if i >= 56 {
      forall r | r in c
        ensures r == q
      {
        assert r[..56] == r[..i][..56] == q[..i][..56] == q[..56];
      }
    } else if Split(pop, q, i) {
      var r :| r in pop && r[..i] == q[..i] && r[i] != q[i];
      assert r in c;
    }
  }

  /** So the count is seven more than the number of such positions. */
  lemma {:induction false} TwinCounts(pop: set<Rom>, serial: Rom, i: nat, good: nat)
    requires Determined(pop) && Twin(serial) in pop && i <= BITS
    ensures GoodBits(Echo(pop, serial, 0), serial, i, good)
         == good + if i <= 56 then 7 + Unsplit(pop, Twin(serial), i) else if i < 63 then 63 - i else 0
    decreases BITS - i
  {
    hide Echo, Determined, Twin, Split;
    if i < BITS {
      TwinTriplet(pop, serial, i);
      var line := Echo(pop, serial, 0);
      TwinCounts(pop, serial, i + 1, if Good(line, serial, i) then good + 1 else good);
    }
  }

  /** What misleads owVerify: the twin is present, and at some bit before the CRC byte all the
      devices that share the bits before it agree. */
  ghost predicate Mistaken(pop: set<Rom>, serial: Rom) {
    Twin(serial) in pop && exists j :: 0 <= j < 56 && !Split(pop, Twin(serial), j)
  }

  /** When owVerify says yes, for every population and every serial number whatever: if the
      device is present, or if its twin misleads. */
  lemma VerifyIff(pop: set<Rom>, serial: Rom)
    requires Population(pop)
    ensures GoodBits(Echo(pop, serial, 0), serial, 0, 0) >= 8 <==> serial in pop || Mistaken(pop, serial)
  {
    hide GoodBits, Echo, Twin, Population;
    PopulationDetermined(pop);
    if serial in pop {
      PresentCounts(pop, serial, 0, 0);
    } else if Twin(serial) in pop {
      TwinCounts(pop, serial, 0, 0);
    } else {
      NeitherPresent(pop, serial);
      AbsentCountsZero(pop, serial, 63, 0, 0);
    }
  }

  lemma NeitherPresent(pop: set<Rom>, serial: Rom)
    requires serial !in pop && Twin(serial) !in pop
    ensures Matching(pop, serial[..63]) == {}
  {
    forall r | r in pop
      ensures r[..63] != serial[..63]
    {
      SelfOrTwin(r, serial);
    }
  }

  lemma SelfOrTwin(r: Rom, serial: Rom)
    ensures r[..63] == serial[..63] ==> r == serial || r == Twin(serial)
  {
    assert r == r[..63] + [r[63]] && serial == serial[..63] + [serial[63]];
    assert Twin(serial) == serial[..63] + [!serial[63]];
    if r[63] == serial[63] {
      assert r == r[..63] + [serial[63]];
    } else {
      assert r == r[..63] + [!serial[63]];
    }
  }

  /** A serial number with a good CRC has no twin to mislead. */
  lemma NoTwin(pop: set<Rom>, serial: Rom)
    requires Population(pop) && CrcValid(serial)
    ensures !Mistaken(pop, serial)
  {
    hide CrcValid;
    var q := Twin(serial);
    assert serial[..56] == q[..56] && serial[63] != q[63];
    if CrcValid(q) {
      CrcDetermines(serial, q);
    }
  }

  /** So owVerify is exact for serial numbers with a good CRC: at least eight good bits are
      counted exactly if that device is on the bus. */
  lemma VerifyExact(pop: set<Rom>, serial: Rom)
    requires Population(pop) && CrcValid(serial)
    ensures GoodBits(Echo(pop, serial, 0), serial, 0, 0) >= 8 <==> serial in pop
  {
    VerifyIff(pop, serial);
    NoTwin(pop, serial);
  }

  /** Without a good CRC it can mislead: the twin of the only device on the bus gets 63 good bits. */
  lemma LastBitGoesUnnoticed(device: Rom)
    ensures GoodBits(Echo({device}, Twin(device), 0), Twin(device), 0, 0) == 63
  {
    hide GoodBits, Echo;
    assert Twin(Twin(device)) == device;
    TwinCounts({device}, Twin(device), 0, 0);
    AloneUnsplit(device, 0);
  }

  lemma {:induction false} AloneUnsplit(device: Rom, i: nat)
    requires i <= 56
    ensures Unsplit({device}, device, i) == 56 - i
    decreases 56 - i
  {
    if i < 56 {
      AloneUnsplit(device, i + 1);
    }
  }
}
