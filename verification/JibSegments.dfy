/** Segments of the JiB protocol: the checks a receiver makes on them, one after the other,
    and what they guarantee over any run of attempts. */
module JibSegments {
  import opened Arith
  import opened Lfsr
  import opened JibCrc
  import opened JibStream
  import opened Wrappers

  const SEGSIZE: nat := 128
  const CE_BADSEQ: nat := 2
  const ER_CHECKSUM: nat := 8
  const ER_HDRCRC: nat := 11
  const ER_OVERRUN: nat := 13

  function Num(x: bv8): (n: nat)
    ensures n < 256
  {
    x as nat
  }

  /** Segment number without the flag of the last segment. */
  function Number(x: bv8): (n: nat)
    ensures n < 128
  {
    (x & 127) as nat
  }

  predicate Flagged(x: bv8) {
    x & 128 == 128
  }

  function Word16(lo: bv8, hi: bv8): bv16 {
    ((hi as bv16) << 8) | (lo as bv16)
  }

  /** A segment as the receiver has it after RecvHeader and RecvData: the eight header bytes
      (segment number, size, bytes remaining, data CRC, running checksum), and the data block
      as read back: command, length, data. */
  datatype Segment = Segment(hdr: seq<bv8>, block: seq<bv8>)

  predicate Shaped(s: Segment) {
    |s.hdr| == 8 && |s.block| == Num(s.hdr[1]) + 2
  }

  function Data(s: Segment): seq<bv8>
    requires Shaped(s)
  {
    s.block[2..]
  }

  function SumOf(bytes: seq<bv8>): nat {
    if bytes == [] then 0 else SumOf(bytes[..|bytes| - 1]) + Num(bytes[|bytes| - 1])
  }

  /** The checksum a header must carry, given the running checksum before the segment. */
  function Expected(before: nat, s: Segment): nat
    requires Shaped(s)
  {
    (before + SumOf(s.hdr[..6]) + SumOf(Data(s))) % 0x1_0000
  }

  function CarriedSum(s: Segment): nat
    requires Shaped(s)
  {
    Num(s.hdr[6]) + 256 * Num(s.hdr[7])
  }

  predicate AllShaped(segs: seq<Segment>) {
    forall i :: 0 <= i < |segs| ==> Shaped(segs[i])
  }

  /** The running checksum after some segments, their own checksum bytes included. */
  function Running(segs: seq<Segment>): nat
    requires AllShaped(segs)
    decreases |segs|
  {
    if segs == [] then 0
    else
      var s := segs[|segs| - 1];
      (Expected(Running(segs[..|segs| - 1]), s) + Num(s.hdr[6]) + Num(s.hdr[7])) % 0x1_0000
  }

  /** The message carried by some segments. */
  function Payload(segs: seq<Segment>): seq<bv8>
    requires AllShaped(segs)
    decreases |segs|
  {
    if segs == [] then [] else Payload(segs[..|segs| - 1]) + Data(segs[|segs| - 1])
  }

  /** The data CRC in the header covers length and data. */
  predicate DataCrcMatches(s: Segment)
    requires Shaped(s)
  {
    Crc(s.block[1..]) == Word16(s.hdr[4], s.hdr[5])
  }

  datatype Verdict = Refused(code: nat) | Taken(chain: seq<Segment>)

  /** What a segment with this number is added to: nothing, if it is the first of a message. */
  function Base(chain: seq<Segment>, seg: bv8): seq<Segment> {
    if Number(seg) == 0 then [] else chain
  }

  /** The tests made on a header before its data is read: zero, or the error code. */
  function Admission(chain: seq<Segment>, hdr: seq<bv8>, bufsize: nat): nat
    requires AllShaped(chain) && |hdr| == 8
  {
    var k := Number(hdr[0]);
    if k != 0 && (chain == [] || |chain| != k) then CE_BADSEQ
    else if |Payload(Base(chain, hdr[0]))| + Num(hdr[1]) > bufsize then ER_OVERRUN
    else 0
  }

  /** One segment offered to the receiver, in the order of RecvCiBMessage: number, room, data
      CRC, checksum. `chain` are the segments taken since the last one numbered 0 of the
      current attempt. */
  function Take(chain: seq<Segment>, s: Segment, bufsize: nat): Verdict
    requires AllShaped(chain) && Shaped(s)
  {
    var base := Base(chain, s.hdr[0]);
    if Admission(chain, s.hdr, bufsize) != 0 then Refused(Admission(chain, s.hdr, bufsize))
    else if !DataCrcMatches(s) then Refused(ER_HDRCRC)
    else if CarriedSum(s) != Expected(Running(base), s) then Refused(ER_CHECKSUM)
    else Taken(base + [s])
  }

  /** Segment k has its number, its CRC and its checksum right. */
  predicate LinkAt(chain: seq<Segment>, k: nat)
    requires AllShaped(chain) && k < |chain|
  {
    && Number(chain[k].hdr[0]) == k
    && DataCrcMatches(chain[k])
    && CarriedSum(chain[k]) == Expected(Running(chain[..k]), chain[k])
  }

  /** What a complete chain is worth: segments numbered from 0 on without a gap, every data
      CRC and every running checksum right, none but the last flagged as last. */
  ghost predicate Good(chain: seq<Segment>) {
    && AllShaped(chain)
    && (forall k :: 0 <= k < |chain| ==> LinkAt(chain, k))
    && (forall k :: 0 <= k < |chain| - 1 ==> !Flagged(chain[k].hdr[0]))
  }

  /** The chain can still grow: its last segment is not flagged as the last. */
  ghost predicate Open(chain: seq<Segment>) {
    && Good(chain)
    && (chain != [] ==> !Flagged(chain[|chain| - 1].hdr[0]))
  }

  /** A segment with the next number, its CRC and its checksum right, continues a good chain. */
  lemma GoodMore(base: seq<Segment>, s: Segment)
    requires Open(base) && Shaped(s) && AllShaped(base)
    requires Number(s.hdr[0]) == |base| && DataCrcMatches(s) && CarriedSum(s) == Expected(Running(base), s)
    ensures AllShaped(base + [s]) && Good(base + [s])
  {
    hide LinkAt, Flagged, Shaped;
    var c := base + [s];
    forall k | 0 <= k < |c|
      ensures LinkAt(c, k)
    {
      if k < |base| {
        LinkKept(base, s, k);
      } else {
        LinkNew(base, s);
      }
    }
  }

  lemma LinkKept(base: seq<Segment>, s: Segment, k: nat)
    requires AllShaped(base) && Shaped(s) && AllShaped(base + [s]) && k < |base| && LinkAt(base, k)
    ensures LinkAt(base + [s], k)
  {
    hide Num, Number, Running, Expected, CarriedSum, DataCrcMatches;
    assert (base + [s])[..k] == base[..k] && (base + [s])[k] == base[k];
  }

  lemma LinkNew(base: seq<Segment>, s: Segment)
    requires AllShaped(base) && Shaped(s) && AllShaped(base + [s])
    requires Number(s.hdr[0]) == |base| && DataCrcMatches(s) && CarriedSum(s) == Expected(Running(base), s)
    ensures LinkAt(base + [s], |base|)
  {
    hide Num, Number, Running, Expected, CarriedSum, DataCrcMatches;
    assert (base + [s])[..|base|] == base;
  }

  /** Taking a segment keeps a chain good. */
  lemma TakeKeepsGood(chain: seq<Segment>, s: Segment, bufsize: nat)
    requires Open(chain) && Shaped(s) && Take(chain, s, bufsize).Taken?
    ensures var c := Take(chain, s, bufsize).chain;
            Good(c) && c != [] && c[|c| - 1] == s && |Payload(c)| <= bufsize
  {
    hide Good, Num, Number, Running, Payload, Expected, CarriedSum, DataCrcMatches, Data;
    OpenEmpty();
    OpenShaped(chain);
    var base := Base(chain, s.hdr[0]);
    PayloadOneMore(base, s);
    GoodMore(base, s);
  }

  lemma PayloadOneMore(base: seq<Segment>, s: Segment)
    requires AllShaped(base) && Shaped(s)
    ensures AllShaped(base + [s])
    ensures Payload(base + [s]) == Payload(base) + Data(s)
    ensures |Payload(base + [s])| == |Payload(base)| + Num(s.hdr[1])
    ensures Running(base + [s]) == (Expected(Running(base), s) + Num(s.hdr[6]) + Num(s.hdr[7])) % 0x1_0000
  {
    hide SumOf, Num;
    assert (base + [s])[..|base|] == base;
  }

  /** One attempt: the segments it takes in turn until one is refused or the message is
      complete. The result is the complete chain, if there is one. */
  function Attempt(chain: seq<Segment>, segs: seq<Segment>, bufsize: nat): Option<seq<Segment>>
    requires AllShaped(chain) && AllShaped(segs)
    decreases |segs|
  {
    if segs == [] then None
    else match Take(chain, segs[0], bufsize)
      case Refused(_) => None
      case Taken(c) =>
        if Flagged(segs[0].hdr[0]) then Some(c) else Attempt(c, segs[1..], bufsize)
  }

  lemma OpenShaped(chain: seq<Segment>)
    requires Open(chain)
    ensures AllShaped(chain)
  {}

  lemma OpenEmpty()
    ensures Open([])
  {}

  lemma TakenShaped(chain: seq<Segment>, s: Segment, bufsize: nat)
    requires AllShaped(chain) && Shaped(s)
    ensures Take(chain, s, bufsize).Taken? ==> AllShaped(Take(chain, s, bufsize).chain)
  {}

  // ----- checksums -----

  lemma SumOfNone()
    ensures SumOf([]) == 0
  {}

  lemma SumGrows(bytes: seq<bv8>, i: nat)
    requires i < |bytes|
    ensures SumOf(bytes[..i + 1]) == SumOf(bytes[..i]) + Num(bytes[i])
  {
    assert bytes[..i + 1][..i] == bytes[..i];
  }

  /** The loops that add bytes to a sixteen-bit checksum accumulator. */
  method AddUp(bytes: seq<bv8>, psum0: nat) returns (psum: nat)
    requires psum0 < 0x1_0000
    ensures psum == (psum0 + SumOf(bytes)) % 0x1_0000
  {
    hide Num, SumOf;
    psum := psum0;
    var i := 0;
    SumOfNone();
    assert bytes[..0] == [];
    while i < |bytes|
      invariant 0 <= i <= |bytes| && psum == (psum0 + SumOf(bytes[..i])) % 0x1_0000
    {
      SumGrows(bytes, i);
      ModAdd(psum0 + SumOf(bytes[..i]), Num(bytes[i]), 0x1_0000);
      psum := (psum + Num(bytes[i])) % 0x1_0000;
      i := i + 1;
    }
    assert bytes[..i] == bytes;
  }
}
