/** Sender and receiver together: what SendCiBMessage sends, played back by a device, is what
    RecvCiBMessage receives. */
module JibRoundTrip {
  import opened JibCrc
  import opened JibStream
  import opened JibSegments
  import opened JibSend
  import opened JibDevice
  import opened JibRecv
  import opened Wrappers

  /** What eight bits of the length leave of a message. */
  function Cut(msg: seq<bv8>): (part: seq<bv8>)
    ensures |part| == |msg| % 256
  {
    msg[..|msg| % 256]
  }

  /** From exchange c on the device gets the segments of the message across, within the rounds watched. */
  ghost predicate GetsAcross(dev: Device, c: nat, msg: seq<bv8>, rounds: nat) {
    rounds >= |Sent(msg, 0, 0)| && Plays(dev, c, Sent(msg, 0, 0))
  }

  /** The first n bytes of the buffer are what eight bits of the length leave of the message:
      all of it below 256 bytes. */
  predicate Arrived(buffer: seq<bv8>, n: nat, msg: seq<bv8>) {
    && n == |msg| % 256 && n <= |buffer| && buffer[..n] == msg[..n]
    && (|msg| < 256 ==> buffer[..n] == msg)
  }

  lemma ArrivedCut(buffer: seq<bv8>, n: nat, msg: seq<bv8>)
    requires n == |msg| % 256 && n <= |buffer| && buffer[..n] == Cut(msg)
    ensures Arrived(buffer, n, msg)
  {}

  /** The call accepts these segments, and their data is this. */
  ghost predicate Brings(e: CallEnd, segs: seq<Segment>, data: seq<bv8>) {
    e.Accepted? && AllShaped(segs) && Segs(e.items) == segs && Payload(segs) == data
  }

  /** A device that gets the segments of a message across makes the call accept exactly what
      was sent, up to its length modulo 256. */
  lemma SentIsReceived(dev: Device, c: nat, msg: seq<bv8>, bufsize: nat, rounds: nat)
    requires |msg| % 256 <= bufsize && GetsAcross(dev, c, msg, rounds)
    ensures Brings(Call(dev, c, bufsize, rounds, 6), Sent(msg, 0, 0), Cut(msg))
  {
    hide Payload, Plays, AttemptFrom, JibSegments.Attempt, Sent, Shaped;
    var segs := Sent(msg, 0, 0);
    RoundTrip(msg, bufsize);
    NothingTaken();
    assert [] + segs == segs;
    PlayedIsReceived(dev, c, [], segs, bufsize, rounds);
  }

  /** SendCiBMessage without a transfer error, then RecvCiBMessage from the device that `line`
      makes of the segments sent: if it gets them across, the code is zero, the length stored is
      that of the message modulo 256, and the buffer holds that much of it. */
  method SendAndReceive(r: Receiver, line: seq<Segment> -> Device, msg: array<bv8>, mp: array<bv8>, rounds: nat)
    returns (frames: seq<Segment>, code: nat, bufsize: nat)
    requires r.Valid() && r.Apart(mp) && msg != mp && msg != r.streamBuff
    requires msg.Length % 256 <= mp.Length
    requires var dev := line(Sent(msg[..], 0, 0)); Ordinary(dev) && GetsAcross(dev, r.clock, msg[..], rounds)
    modifies r, r.streamBuff, mp
    ensures frames == Sent(msg[..], 0, 0)
    ensures code == 0 && Arrived(mp[..], bufsize, msg[..])
  {
    hide Payload, Plays, Call, Sent, GetsAcross, Arrived, Cut;
    ghost var m := msg[..];
    var wire;
    frames, wire := SendCiBMessage(r.tables, msg);
    var dev := line(frames);
    SentIsReceived(dev, r.clock, m, mp.Length, rounds);
    var finished;
    code, bufsize, finished := r.RecvCiBMessage(dev, mp, mp.Length, rounds);
    ArrivedCut(mp[..], bufsize, m);
  }

  /** The same with a device that plays back exactly what was sent: nothing is assumed of it. */
  method Loopback(r: Receiver, msg: array<bv8>, mp: array<bv8>) returns (frames: seq<Segment>, code: nat, bufsize: nat)
    requires r.Valid() && r.Apart(mp) && msg != mp && msg != r.streamBuff
    requires msg.Length % 256 <= mp.Length
    modifies r, r.streamBuff, mp
    ensures frames == Sent(msg[..], 0, 0)
    ensures code == 0 && Arrived(mp[..], bufsize, msg[..])
  {
    hide Payload, Plays, Call, Sent, Playback, Arrived, Cut;
    ghost var m := msg[..];
    var wire;
    frames, wire := SendCiBMessage(r.tables, msg);
    var dev := Playback(frames, r.clock);
    PlaybackPlays(frames, r.clock);
    SentIsReceived(dev, r.clock, m, mp.Length, |frames|);
    var finished;
    code, bufsize, finished := r.RecvCiBMessage(dev, mp, mp.Length, |frames|);
    ArrivedCut(mp[..], bufsize, m);
  }

  function At(bytes: seq<bv8>, i: nat): bv8 {
    if i < |bytes| then bytes[i] else 0xFF
  }

  /** What a device that sends these segments from exchange c on, each block closed with its
      CRC and undisturbed, puts on the line in exchange n. It answers the read commands for
      header and data block, the latter for the length of the segment, and nothing else. */
  function Answer(segs: seq<Segment>, c: nat, n: nat, sent: seq<bv8>, i: nat): bv8
    requires AllShaped(segs)
  {
    if n < c || (n - c) / 6 >= |segs| then 0xFF
    else
      var s := segs[(n - c) / 6];
      if (n - c) % 6 == 1 && sent == [0x22, 8] + Ones(10) then At(Closed([0x22, 8] + s.hdr), i)
      else if (n - c) % 6 == 3 && sent == [0xAA, s.hdr[1]] + Ones(|s.block|) then At(Closed(s.block), i)
      else 0xFF
  }

  function Playback(segs: seq<Segment>, c: nat): Device
    requires AllShaped(segs)
  {
    Device(n => Status(0, 8, 0, 0), n => true, (n: nat, sent: seq<bv8>, i: nat) => Answer(segs, c, n, sent, i),
           n => 0, n => 0)
  }

  /** There is such a device for any segments. */
  lemma PlaybackPlays(segs: seq<Segment>, c: nat)
    requires AllShaped(segs)
    ensures Ordinary(Playback(segs, c)) && Plays(Playback(segs, c), c, segs)
  {
    hide Closed, Repaired, Answer;
    var dev := Playback(segs, c);
    forall k | 0 <= k < |segs|
      ensures Offers(dev, c + 6 * k, segs[k])
    {
      var s := segs[k];
      SentIn(segs, c, k);
      BlocksPass(s);
      RawIs(dev, c + 6 * k + 1, [0x22, 8] + Ones(10), Closed([0x22, 8] + s.hdr));
      RawIs(dev, c + 6 * k + 3, [0xAA, s.hdr[1]] + Ones(|s.block|), Closed(s.block));
    }
  }

  lemma SentIn(segs: seq<Segment>, c: nat, k: nat)
    requires AllShaped(segs) && k < |segs|
    ensures forall i :: Answer(segs, c, c + 6 * k + 1, [0x22, 8] + Ones(10), i) == At(Closed([0x22, 8] + segs[k].hdr), i)
    ensures forall i ::
      Answer(segs, c, c + 6 * k + 3, [0xAA, segs[k].hdr[1]] + Ones(|segs[k].block|), i) == At(Closed(segs[k].block), i)
  {
    hide Closed, At, Ones;
    assert (6 * k + 1) / 6 == k && (6 * k + 1) % 6 == 1;
    assert (6 * k + 3) / 6 == k && (6 * k + 3) % 6 == 3;
  }

  lemma RawIs(dev: Device, n: nat, sent: seq<bv8>, bytes: seq<bv8>)
    requires |sent| == |bytes| && forall i :: dev.byte(n, sent, i) == At(bytes, i)
    ensures Raw(dev, n, sent) == bytes
  {}
}
