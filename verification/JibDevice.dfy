/** A run of RecvCiBMessage as a function of what the device does: which exchange is read as
    what, where every attempt starts and ends, and how the call ends. */
module JibDevice {
  import opened JibCrc
  import opened JibStream
  import opened JibSegments
  import opened Wrappers

  const ER_POR: nat := 3
  const ER_ACCESS: nat := 4
  const ER_CRC: nat := 7
  const ER_NOHEADER: nat := 9
  const ER_BADHEADER: nat := 10
  const ER_RECVHDR: nat := 0x80
  const ER_RECVDATA: nat := 0x90

  /** An error code before its group is added. */
  type Cause = n: nat | n < 16

  /** What GetStatus returns: its error code, and the status bytes it stores. */
  datatype Status = Status(error: nat, outUsed: bv8, owms: bv8, cpst: bv8)

  /** A device and the line to it. What it does in its n-th exchange may depend on n in any
      way: whether access and transfer succeed, the bytes read back for the bytes sent, the
      result of a release sequence, and the result codes of SendStatus and SendRun. */
  datatype Device = Device(status: nat -> Status, reached: nat -> bool, byte: (nat, seq<bv8>, nat) -> bv8,
                           release: nat -> Cause, command: nat -> nat)

  /** No status asks for the mode of the Java-powered iButton. */
  ghost predicate Ordinary(dev: Device) {
    forall n :: dev.status(n).owms != 14
  }

  /** What is read back in exchange n for the bytes sent. */
  function Raw(dev: Device, n: nat, sent: seq<bv8>): (r: seq<bv8>)
    ensures |r| == |sent|
  {
    seq(|sent|, i requires 0 <= i < |sent| => dev.byte(n, sent, i))
  }

  /** The bytes sent so that the device can drive the line. */
  function Ones(n: nat): (bytes: seq<bv8>)
    ensures |bytes| == n && forall i :: 0 <= i < n ==> bytes[i] == 0xFF
  {
    seq(n, _ => 0xFF)
  }

  // ----- reading one segment -----

  /** Bytes read in exchange `at`, or the error of the last try; and the next exchange. */
  datatype Fetch = Failed(error: Cause, clock: nat) | Got(bytes: seq<bv8>, at: nat, clock: nat)

  /** One transfer of a block of n bytes, the two given first, and its CRC, repaired if need be. */
  function BlockOnce(dev: Device, c: nat, head: seq<bv8>, n: nat): (f: Fetch)
    requires n >= 2 && |head| == 2
    ensures f.clock == c + 1 && (f.Got? ==> |f.bytes| == n && f.at == c)
    ensures f.Failed? ==> f.error != 0
  {
    if !dev.reached(c) then Failed(ER_ACCESS, c + 1)
    else match Repaired(Raw(dev, c, head + Ones(n)), n)
      case None => Failed(ER_CRC, c + 1)
      case Some(block) => Got(block, c, c + 1)
  }

  /** One try at the header: the block, then the release sequence. */
  function HeaderOnce(dev: Device, c: nat): (f: Fetch)
    ensures f.clock > c && (f.Got? ==> |f.bytes| == 8 && f.at == c)
    ensures f.Failed? ==> f.error != 0
  {
    var f := BlockOnce(dev, c, [0x22, 8], 10);
    if f.Failed? then f
    else if dev.release(f.clock) != 0 then Failed(dev.release(f.clock), f.clock + 1)
    else Got(f.bytes[2..], f.at, f.clock + 1)
  }

  /** The header as RecvHeader gets it in so many tries. */
  function Header(dev: Device, c: nat, tries: nat): (f: Fetch)
    requires tries > 0
    ensures f.clock > c && (f.Got? ==> |f.bytes| == 8 && c <= f.at < f.clock)
    ensures f.Failed? ==> f.error != 0
    decreases tries
  {
    var f := HeaderOnce(dev, c);
    if f.Got? || tries == 1 then f else Header(dev, f.clock, tries - 1)
  }

  /** One try at the data block: its CRC must be the one the header named. */
  function DataOnce(dev: Device, c: nat, size: bv8, hdrcrc: bv16): (f: Fetch)
    ensures f.clock == c + 1 && (f.Got? ==> |f.bytes| == Num(size) + 2 && f.at == c && Crc(f.bytes[1..]) == hdrcrc)
    ensures f.Failed? ==> f.error != 0
  {
    var f := BlockOnce(dev, c, [0xAA, size], Num(size) + 2);
    if f.Got? && Crc(f.bytes[1..]) != hdrcrc then Failed(ER_HDRCRC, f.clock) else f
  }

  /** The data block as RecvData gets it in so many tries. */
  function DataBlock(dev: Device, c: nat, size: bv8, hdrcrc: bv16, tries: nat): (f: Fetch)
    requires tries > 0
    ensures f.clock > c
    ensures f.Got? ==> |f.bytes| == Num(size) + 2 && c <= f.at < f.clock && Crc(f.bytes[1..]) == hdrcrc
    ensures f.Failed? ==> f.error != 0
    decreases tries
  {
    var f := DataOnce(dev, c, size, hdrcrc);
    if f.Got? || tries == 1 then f else DataBlock(dev, f.clock, size, hdrcrc, tries - 1)
  }

  /** The part of the status the receiver acts on before it looks for a header. */
  predicate PowerOnReset(owms: bv8) {
    owms & 0x40 != 0
  }

  predicate NeedsRun(st: Status) {
    st.cpst & 1 != 0 || st.owms & 0x20 != 0
  }

  /** An error code, zero for none, and the next exchange. */
  datatype Outcome = Outcome(error: nat, clock: nat)

  /** SendStatus and then, if that went well, SendRun. */
  function Commands(dev: Device, c: nat): (o: Outcome)
    ensures o.clock > c && (o.error == 0 ==> o.clock == c + 2)
  {
    if dev.command(c) != 0 then Outcome(dev.command(c), c + 1) else Outcome(dev.command(c + 1), c + 2)
  }

  /** From the status to the point where a header of the right length is known to wait. */
  function Await(dev: Device, c: nat): (o: Outcome)
    ensures o.clock > c
  {
    var st := dev.status(c);
    var run := if NeedsRun(st) then Commands(dev, c + 1) else Outcome(0, c + 1);
    if st.error != 0 then Outcome(st.error, c + 1)
    else if PowerOnReset(st.owms) then Outcome(ER_POR, c + 1)
    else if run.error != 0 then run
    else if st.outUsed == 0 then Outcome(ER_NOHEADER, run.clock)
    else if st.outUsed != 8 then Outcome(ER_BADHEADER, run.clock)
    else run
  }

  /** A segment taken: the round for it began in exchange `start`, its header and its block
      were read in exchanges `headerAt` and `blockAt`, and `clock` is the next exchange. */
  datatype Item = Item(s: Segment, start: nat, headerAt: nat, blockAt: nat, clock: nat)

  datatype RoundEnd = Lost(error: nat, clock: nat) | Took(item: Item)

  /** The rest of a round once its header, read in exchange `headerAt`, has been admitted. */
  function AfterHeader(dev: Device, c: nat, start: nat, headerAt: nat, hdr: seq<bv8>, chain: seq<Segment>, bufsize: nat)
    : (r: RoundEnd)
    requires AllShaped(chain) && |hdr| == 8
    ensures r.Lost? ==> r.clock > c && r.error != 0
    ensures r.Took? ==> Shaped(r.item.s) && r.item.clock > c && Take(chain, r.item.s, bufsize).Taken?
  {
    var d := DataBlock(dev, c, hdr[1], Word16(hdr[4], hdr[5]), 3);
    if d.Failed? then Lost(d.error + ER_RECVDATA, d.clock) else
    match Take(chain, Segment(hdr, d.bytes), bufsize)
    case Refused(code) => Lost(code, d.clock)
    case Taken(_) => Took(Item(Segment(hdr, d.bytes), start, headerAt, d.at, d.clock))
  }

  /** The rest of a round once a header is known to wait. */
  function AfterStatus(dev: Device, c: nat, start: nat, chain: seq<Segment>, bufsize: nat): (r: RoundEnd)
    requires AllShaped(chain)
    ensures r.Lost? ==> r.clock > c && r.error != 0
    ensures r.Took? ==> Shaped(r.item.s) && r.item.clock > c && Take(chain, r.item.s, bufsize).Taken?
  {
    var h := Header(dev, c, 3);
    if h.Failed? then Lost(h.error + ER_RECVHDR, h.clock)
    else if Admission(chain, h.bytes, bufsize) != 0 then Lost(Admission(chain, h.bytes, bufsize), h.clock)
    else AfterHeader(dev, h.clock, start, h.at, h.bytes, chain, bufsize)
  }

  /** One round of the receiving loop, with `chain` the segments taken before. */
  function Round(dev: Device, c: nat, chain: seq<Segment>, bufsize: nat): (r: RoundEnd)
    requires AllShaped(chain)
    ensures r.Lost? ==> r.clock > c && r.error != 0
    ensures r.Took? ==> Shaped(r.item.s) && r.item.clock > c && Take(chain, r.item.s, bufsize).Taken?
  {
    var w := Await(dev, c);
    if w.error != 0 then Lost(w.error, w.clock) else AfterStatus(dev, w.clock, c, chain, bufsize)
  }

  // ----- attempts -----

  function Segs(items: seq<Item>): (segs: seq<Segment>)
    ensures |segs| == |items|
  {
    seq(|items|, i requires 0 <= i < |items| => items[i].s)
  }

  /** The items of the current message once one more has been taken. */
  function Joined(items: seq<Item>, item: Item): (all: seq<Item>)
    requires |item.s.hdr| == 8
    ensures |all| > 0 && all[|all| - 1] == item
    ensures Segs(all) == Base(Segs(items), item.s.hdr[0]) + [item.s]
  {
    (if Number(item.s.hdr[0]) == 0 then [] else items) + [item]
  }

  /** How an attempt ends: broken off, complete, or not at an end after the rounds watched. */
  datatype AttemptEnd = Broke(clock: nat) | Complete(items: seq<Item>) | Unfinished

  /** An attempt from exchange c on, with `items` taken so far. */
  function AttemptFrom(dev: Device, c: nat, items: seq<Item>, bufsize: nat, rounds: nat): (e: AttemptEnd)
    requires AllShaped(Segs(items))
    ensures e.Broke? ==> e.clock > c
    ensures e.Complete? ==> AllShaped(Segs(e.items))
    decreases rounds
  {
    if rounds == 0 then Unfinished
    else match Round(dev, c, Segs(items), bufsize)
      case Lost(_, clock) => Broke(clock)
      case Took(item) =>
        var all := Joined(items, item);
        TakenShaped(Segs(items), item.s, bufsize);
        if Flagged(item.s.hdr[0]) then Complete(all) else
        var next := Commands(dev, item.clock);
        if next.error != 0 then Broke(next.clock) else AttemptFrom(dev, next.clock, all, bufsize, rounds - 1)
  }

  lemma NothingTaken()
    ensures Segs([]) == [] && AllShaped(Segs([]))
  {}

  /** Every attempt starts with no segment taken. */
  function AttemptAt(dev: Device, c: nat, bufsize: nat, rounds: nat): (e: AttemptEnd)
    ensures e.Broke? ==> e.clock > c
    ensures e.Complete? ==> AllShaped(Segs(e.items))
  {
    NothingTaken();
    AttemptFrom(dev, c, [], bufsize, rounds)
  }

  // ----- the call -----

  datatype CallEnd = Accepted(items: seq<Item>) | Exhausted | Stopped(code: nat) | Watching

  /** So many attempts from exchange c on, a SendStatus and a SendRun after each that broke off.
      A SendStatus that fails ends the call; the result of the SendRun does not matter. */
  function Call(dev: Device, c: nat, bufsize: nat, rounds: nat, attempts: nat): (e: CallEnd)
    ensures e.Accepted? ==> AllShaped(Segs(e.items))
    decreases attempts
  {
    if attempts == 0 then Exhausted
    else match AttemptAt(dev, c, bufsize, rounds)
      case Complete(items) => Accepted(items)
      case Unfinished => Watching
      case Broke(k) =>
        if dev.command(k) != 0 then Stopped(dev.command(k)) else Call(dev, k + 2, bufsize, rounds, attempts - 1)
  }

  /** An attempt that ends within the rounds watched ends the same way however long it is watched. */
  lemma {:induction false} AttemptLonger(dev: Device, c: nat, items: seq<Item>, bufsize: nat, rounds: nat, more: nat)
    requires AllShaped(Segs(items)) && rounds <= more && AttemptFrom(dev, c, items, bufsize, rounds) != Unfinished
    ensures AttemptFrom(dev, c, items, bufsize, more) == AttemptFrom(dev, c, items, bufsize, rounds)
    decreases rounds
  {
    hide Round, Joined, Flagged, Commands, Take;
    var r := Round(dev, c, Segs(items), bufsize);
    if r.Took? && !Flagged(r.item.s.hdr[0]) && Commands(dev, r.item.clock).error == 0 {
      TakenShaped(Segs(items), r.item.s, bufsize);
      AttemptLonger(dev, Commands(dev, r.item.clock).clock, Joined(items, r.item), bufsize, rounds - 1, more - 1);
    }
  }

  /** And so does a call: the bound is no part of its result. */
  lemma {:induction false} CallLonger(dev: Device, c: nat, bufsize: nat, rounds: nat, more: nat, attempts: nat)
    requires rounds <= more && Call(dev, c, bufsize, rounds, attempts) != Watching
    ensures Call(dev, c, bufsize, more, attempts) == Call(dev, c, bufsize, rounds, attempts)
    decreases attempts
  {
    hide AttemptFrom;
    if attempts > 0 {
      NothingTaken();
      AttemptLonger(dev, c, [], bufsize, rounds, more);
      var e := AttemptAt(dev, c, bufsize, rounds);
      if e.Broke? && dev.command(e.clock) == 0 {
        CallLonger(dev, e.clock + 2, bufsize, rounds, more, attempts - 1);
      }
    }
  }

  /** The exchange attempt a starts in, if the attempts before it break off. */
  function Start(dev: Device, c: nat, bufsize: nat, rounds: nat, a: nat): nat
    decreases a
  {
    if a == 0 then c else
    var e := AttemptAt(dev, c, bufsize, rounds);
    if e.Broke? then Start(dev, e.clock + 2, bufsize, rounds, a - 1) else c
  }

  function AttemptNo(dev: Device, c: nat, bufsize: nat, rounds: nat, a: nat): (e: AttemptEnd)
    ensures e.Complete? ==> AllShaped(Segs(e.items))
  {
    AttemptAt(dev, Start(dev, c, bufsize, rounds, a), bufsize, rounds)
  }

  /** Attempt a breaks off, and the SendStatus after it succeeds. */
  predicate Fails(dev: Device, c: nat, bufsize: nat, rounds: nat, a: nat) {
    var e := AttemptNo(dev, c, bufsize, rounds, a);
    e.Broke? && dev.command(e.clock) == 0
  }

  lemma StartLater(dev: Device, c: nat, bufsize: nat, rounds: nat, a: nat)
    requires AttemptAt(dev, c, bufsize, rounds).Broke?
    ensures var k := AttemptAt(dev, c, bufsize, rounds).clock + 2;
            && AttemptNo(dev, c, bufsize, rounds, a + 1) == AttemptNo(dev, k, bufsize, rounds, a)
            && (Fails(dev, c, bufsize, rounds, a + 1) <==> Fails(dev, k, bufsize, rounds, a))
            && Start(dev, c, bufsize, rounds, a + 1) == Start(dev, k, bufsize, rounds, a)
  {
    hide AttemptAt;
  }

  /** All attempts fail exactly if each of them breaks off and each SendStatus after one
      succeeds. This is when RecvCiBMessage returns zero without a message. */
  lemma {:induction false} ExhaustedIff(dev: Device, c: nat, bufsize: nat, rounds: nat, attempts: nat)
    ensures Call(dev, c, bufsize, rounds, attempts) == Exhausted
        <==> forall a :: 0 <= a < attempts ==> Fails(dev, c, bufsize, rounds, a)
    decreases attempts
  {
    hide AttemptAt, Fails;
    if attempts > 0 {
      FirstFails(dev, c, bufsize, rounds);
      if Fails(dev, c, bufsize, rounds, 0) {
        var k := AttemptAt(dev, c, bufsize, rounds).clock + 2;
        ExhaustedIff(dev, k, bufsize, rounds, attempts - 1);
        forall a: nat
          ensures Fails(dev, c, bufsize, rounds, a + 1) <==> Fails(dev, k, bufsize, rounds, a)
        {
          StartLater(dev, c, bufsize, rounds, a);
        }
        if forall a :: 0 <= a < attempts - 1 ==> Fails(dev, k, bufsize, rounds, a) {
          forall a | 0 <= a < attempts
            ensures Fails(dev, c, bufsize, rounds, a)
          {
            if a > 0 { assert Fails(dev, k, bufsize, rounds, a - 1); }
          }
        } else {
          var a :| 0 <= a < attempts - 1 && !Fails(dev, k, bufsize, rounds, a);
          assert !Fails(dev, c, bufsize, rounds, a + 1);
        }
      } else {
        assert Call(dev, c, bufsize, rounds, attempts) != Exhausted;
      }
    }
  }

  lemma FirstFails(dev: Device, c: nat, bufsize: nat, rounds: nat)
    ensures var e := AttemptAt(dev, c, bufsize, rounds);
            Fails(dev, c, bufsize, rounds, 0) <==> e.Broke? && dev.command(e.clock) == 0
  {
    hide AttemptAt;
  }

  /** A message is accepted exactly if some attempt completes it and all before it fail. */
  lemma {:induction false} AcceptedIff(dev: Device, c: nat, bufsize: nat, rounds: nat, attempts: nat, items: seq<Item>)
    ensures Call(dev, c, bufsize, rounds, attempts) == Accepted(items)
        <==> exists a :: 0 <= a < attempts && Wins(dev, c, bufsize, rounds, a, items)
    decreases attempts
  {
    hide AttemptAt, Fails, Start;
    if attempts > 0 {
      FirstFails(dev, c, bufsize, rounds);
      FirstWins(dev, c, bufsize, rounds, items);
      if Fails(dev, c, bufsize, rounds, 0) {
        var k := AttemptAt(dev, c, bufsize, rounds).clock + 2;
        AcceptedIff(dev, k, bufsize, rounds, attempts - 1, items);
        forall a: nat
          ensures Wins(dev, c, bufsize, rounds, a + 1, items) <==> Wins(dev, k, bufsize, rounds, a, items)
        {
          WinsLater(dev, c, bufsize, rounds, a, items);
        }
        if a :| 0 <= a < attempts - 1 && Wins(dev, k, bufsize, rounds, a, items) {
          assert Wins(dev, c, bufsize, rounds, a + 1, items);
        }
        if a :| 0 <= a < attempts && Wins(dev, c, bufsize, rounds, a, items) {
          assert a > 0;
          assert Wins(dev, k, bufsize, rounds, a - 1, items);
        }
      } else if a :| 0 <= a < attempts && Wins(dev, c, bufsize, rounds, a, items) {
        assert a == 0;
      }
    }
  }

  /** Attempt a completes with these segments, after all before it have failed. */
  ghost predicate Wins(dev: Device, c: nat, bufsize: nat, rounds: nat, a: nat, items: seq<Item>) {
    && AttemptNo(dev, c, bufsize, rounds, a) == Complete(items)
    && forall b :: 0 <= b < a ==> Fails(dev, c, bufsize, rounds, b)
  }

  lemma FirstWins(dev: Device, c: nat, bufsize: nat, rounds: nat, items: seq<Item>)
    ensures Wins(dev, c, bufsize, rounds, 0, items) <==> AttemptAt(dev, c, bufsize, rounds) == Complete(items)
  {
    hide AttemptAt, Fails;
  }

  lemma WinsLater(dev: Device, c: nat, bufsize: nat, rounds: nat, a: nat, items: seq<Item>)
    requires AttemptAt(dev, c, bufsize, rounds).Broke? && Fails(dev, c, bufsize, rounds, 0)
    ensures var k := AttemptAt(dev, c, bufsize, rounds).clock + 2;
            Wins(dev, c, bufsize, rounds, a + 1, items) <==> Wins(dev, k, bufsize, rounds, a, items)
  {
    hide AttemptAt, Fails, Start;
    var k := AttemptAt(dev, c, bufsize, rounds).clock + 2;
    StartLater(dev, c, bufsize, rounds, a);
    forall b: nat
      ensures Fails(dev, c, bufsize, rounds, b + 1) <==> Fails(dev, k, bufsize, rounds, b)
    {
      StartLater(dev, c, bufsize, rounds, b);
    }
    if Wins(dev, c, bufsize, rounds, a + 1, items) {
      forall b | 0 <= b < a
        ensures Fails(dev, k, bufsize, rounds, b)
      {
        assert Fails(dev, c, bufsize, rounds, b + 1);
      }
    }
    if Wins(dev, k, bufsize, rounds, a, items) {
      forall b | 0 <= b < a + 1
        ensures Fails(dev, c, bufsize, rounds, b)
      {
        if b > 0 { assert Fails(dev, k, bufsize, rounds, b - 1); }
      }
    }
  }

  /** After failed attempts the call goes on where the last of them left the device. */
  lemma {:induction false} CallAfter(dev: Device, c: nat, bufsize: nat, rounds: nat, attempts: nat, a: nat)
    requires a <= attempts && forall b :: 0 <= b < a ==> Fails(dev, c, bufsize, rounds, b)
    ensures Call(dev, c, bufsize, rounds, attempts)
         == Call(dev, Start(dev, c, bufsize, rounds, a), bufsize, rounds, attempts - a)
    decreases a
  {
    hide AttemptAt, Fails;
    if a > 0 {
      FirstFails(dev, c, bufsize, rounds);
      assert Fails(dev, c, bufsize, rounds, 0);
      StartLater(dev, c, bufsize, rounds, a - 1);
      var k := AttemptAt(dev, c, bufsize, rounds).clock + 2;
      forall b | 0 <= b < a - 1
        ensures Fails(dev, k, bufsize, rounds, b)
      {
        StartLater(dev, c, bufsize, rounds, b);
        assert Fails(dev, c, bufsize, rounds, b + 1);
      }
      CallAfter(dev, k, bufsize, rounds, attempts - 1, a - 1);
    }
  }

  /** Attempt a breaks off after failed ones, and the SendStatus after it fails with this code. */
  ghost predicate Stops(dev: Device, c: nat, bufsize: nat, rounds: nat, a: nat, code: nat) {
    var e := AttemptNo(dev, c, bufsize, rounds, a);
    && (forall b :: 0 <= b < a ==> Fails(dev, c, bufsize, rounds, b))
    && e.Broke? && code != 0 && dev.command(e.clock) == code
  }

  /** The call ends with an error code exactly if such an attempt is made, and with that code. */
  lemma StoppedIff(dev: Device, c: nat, bufsize: nat, rounds: nat, attempts: nat, code: nat)
    ensures Call(dev, c, bufsize, rounds, attempts) == Stopped(code)
        <==> exists a :: 0 <= a < attempts && Stops(dev, c, bufsize, rounds, a, code)
  {
    hide AttemptAt, Start, Call;
    if Call(dev, c, bufsize, rounds, attempts) == Stopped(code) {
      ExhaustedIff(dev, c, bufsize, rounds, attempts);
      var a := FirstNot(dev, c, bufsize, rounds, attempts);
      CallAfter(dev, c, bufsize, rounds, attempts, a);
      CallEnds(dev, Start(dev, c, bufsize, rounds, a), bufsize, rounds, attempts - a);
      assert Stops(dev, c, bufsize, rounds, a, code);
    }
    if a :| 0 <= a < attempts && Stops(dev, c, bufsize, rounds, a, code) {
      CallAfter(dev, c, bufsize, rounds, attempts, a);
      CallEnds(dev, Start(dev, c, bufsize, rounds, a), bufsize, rounds, attempts - a);
    }
  }

  lemma CallEnds(dev: Device, c: nat, bufsize: nat, rounds: nat, attempts: nat)
    requires attempts > 0
    ensures var e := AttemptAt(dev, c, bufsize, rounds);
            (e.Broke? ==> dev.command(e.clock) != 0 ==>
               Call(dev, c, bufsize, rounds, attempts) == Stopped(dev.command(e.clock)))
            && (!e.Broke? ==> !Call(dev, c, bufsize, rounds, attempts).Stopped?)
  {
    hide AttemptAt;
  }

  /** The first attempt that does not fail. */
  lemma FirstNot(dev: Device, c: nat, bufsize: nat, rounds: nat, attempts: nat) returns (a: nat)
    requires exists b :: 0 <= b < attempts && !Fails(dev, c, bufsize, rounds, b)
    ensures a < attempts && !Fails(dev, c, bufsize, rounds, a)
    ensures forall b :: 0 <= b < a ==> Fails(dev, c, bufsize, rounds, b)
  {
    hide Fails;
    a := 0;
    while Fails(dev, c, bufsize, rounds, a)
      invariant a < attempts && forall b :: 0 <= b < a ==> Fails(dev, c, bufsize, rounds, b)
      decreases attempts - a
    {
      a := a + 1;
    }
  }

  // ----- no mixing -----

  /** The device delivered header and block of the segment in the exchanges named, intact or repaired. */
  ghost predicate FromDevice(dev: Device, item: Item) {
    && Shaped(item.s)
    && Repaired(Raw(dev, item.blockAt, [0xAA, item.s.hdr[1]] + Ones(|item.s.block|)), |item.s.block|) == Some(item.s.block)
    && exists head :: |head| == 2 && Repaired(Raw(dev, item.headerAt, [0x22, 8] + Ones(10)), 10) == Some(head + item.s.hdr)
  }

  /** The items were read one right after the other in the exchanges from `from` on: nothing
      but the SendStatus and SendRun that bring up the next segment lies between two rounds, and
      both were successful. */
  ghost predicate Unbroken(dev: Device, from: nat, items: seq<Item>) {
    && (forall i :: 0 <= i < |items| ==>
          && FromDevice(dev, items[i])
          && from <= items[i].start < items[i].headerAt < items[i].blockAt < items[i].clock)
    && (forall i :: 0 < i < |items| ==> Follows(dev, items[i - 1], items[i].start))
  }

  predicate Follows(dev: Device, item: Item, start: nat) {
    start == item.clock + 2 && dev.command(item.clock) == 0 && dev.command(item.clock + 1) == 0
  }

  lemma {:induction false} HeaderFrom(dev: Device, c: nat, tries: nat)
    requires tries > 0 && Header(dev, c, tries).Got?
    ensures var h := Header(dev, c, tries);
            exists head :: |head| == 2 && Repaired(Raw(dev, h.at, [0x22, 8] + Ones(10)), 10) == Some(head + h.bytes)
    decreases tries
  {
    hide Repaired, Raw;
    var f := HeaderOnce(dev, c);
    if f.Got? {
      var b := BlockOnce(dev, c, [0x22, 8], 10);
      assert b.bytes == b.bytes[..2] + f.bytes;
      assert |b.bytes[..2]| == 2 && Repaired(Raw(dev, f.at, [0x22, 8] + Ones(10)), 10) == Some(b.bytes[..2] + f.bytes);
    } else if tries > 1 {
      HeaderFrom(dev, f.clock, tries - 1);
    }
  }

  lemma {:induction false} BlockFrom(dev: Device, c: nat, size: bv8, hdrcrc: bv16, tries: nat)
    requires tries > 0 && DataBlock(dev, c, size, hdrcrc, tries).Got?
    ensures var d := DataBlock(dev, c, size, hdrcrc, tries);
            |d.bytes| == Num(size) + 2 && Repaired(Raw(dev, d.at, [0xAA, size] + Ones(|d.bytes|)), |d.bytes|) == Some(d.bytes)
    decreases tries
  {
    hide Repaired, Raw, Crc;
    var f := DataOnce(dev, c, size, hdrcrc);
    if f.Failed? && tries > 1 {
      BlockFrom(dev, f.clock, size, hdrcrc, tries - 1);
    }
  }

  /** What a round takes came from the device within that round. */
  lemma RoundFrom(dev: Device, c: nat, chain: seq<Segment>, bufsize: nat)
    requires AllShaped(chain) && Round(dev, c, chain, bufsize).Took?
    ensures var item := Round(dev, c, chain, bufsize).item;
            && FromDevice(dev, item) && item.start == c
            && item.start < item.headerAt < item.blockAt < item.clock
  {
    hide Repaired, Raw, Crc, Header, DataBlock, Await, Take, Num;
    var w := Await(dev, c);
    var h := Header(dev, w.clock, 3);
    var d := DataBlock(dev, h.clock, h.bytes[1], Word16(h.bytes[4], h.bytes[5]), 3);
    HeaderFrom(dev, w.clock, 3);
    BlockFrom(dev, h.clock, h.bytes[1], Word16(h.bytes[4], h.bytes[5]), 3);
  }

  /** A complete message: good segments, the last one flagged, that fit the buffer. */
  ghost predicate Whole(items: seq<Item>, bufsize: nat) {
    && items != [] && AllShaped(Segs(items)) && Shaped(items[|items| - 1].s)
    && Good(Segs(items)) && Flagged(items[|items| - 1].s.hdr[0]) && |Payload(Segs(items))| <= bufsize
  }

  lemma JoinedUnbroken(dev: Device, from: nat, items: seq<Item>, item: Item)
    requires Unbroken(dev, from, items) && FromDevice(dev, item)
    requires from <= item.start < item.headerAt < item.blockAt < item.clock
    requires items != [] ==> Follows(dev, items[|items| - 1], item.start)
    ensures Unbroken(dev, from, Joined(items, item))
  {
    hide FromDevice;
  }

  /** What an attempt completes is good, flagged at its end, fits the buffer, and was read
      without a break within that attempt. */
  lemma {:induction false} AttemptUnbroken(dev: Device, from: nat, c: nat, items: seq<Item>, bufsize: nat, rounds: nat)
    requires Open(Segs(items)) && AllShaped(Segs(items)) && Unbroken(dev, from, items)
    requires from <= c && (items != [] ==> Follows(dev, items[|items| - 1], c))
    requires AttemptFrom(dev, c, items, bufsize, rounds).Complete?
    ensures var all := AttemptFrom(dev, c, items, bufsize, rounds).items;
            Whole(all, bufsize) && Unbroken(dev, from, all)
    decreases rounds
  {
    hide Round, Good, Payload, Unbroken, FromDevice, Flagged, Take, Joined;
    var item := Round(dev, c, Segs(items), bufsize).item;
    RoundFrom(dev, c, Segs(items), bufsize);
    JoinedUnbroken(dev, from, items, item);
    TakeJoined(items, item, bufsize);
    var all := Joined(items, item);
    if !Flagged(item.s.hdr[0]) {
      AttemptUnbroken(dev, from, Commands(dev, item.clock).clock, all, bufsize, rounds - 1);
    }
  }

  lemma TakeJoined(items: seq<Item>, item: Item, bufsize: nat)
    requires Open(Segs(items)) && Shaped(item.s) && AllShaped(Segs(items)) && Take(Segs(items), item.s, bufsize).Taken?
    ensures var all := Joined(items, item);
            && AllShaped(Segs(all)) && Good(Segs(all)) && |Payload(Segs(all))| <= bufsize
            && Take(Segs(items), item.s, bufsize) == Taken(Segs(all))
            && (!Flagged(item.s.hdr[0]) ==> Open(Segs(all)))
  {
    hide Payload, Running, Expected, CarriedSum, Number, Flagged, Num;
    TakeKeepsGood(Segs(items), item.s, bufsize);
    assert Segs(Joined(items, item))[|Joined(items, item)| - 1] == item.s;
  }

  lemma OpenNothing(dev: Device, from: nat)
    ensures Open(Segs([])) && AllShaped(Segs([])) && Unbroken(dev, from, [])
  {}

  /** No accepted message mixes attempts. Whatever the device does, an accepted message is the
      work of one attempt after failed ones: its segments are numbered 0, 1, .. and only the
      last is flagged, every CRC and running checksum is right, it fits the buffer, and its
      headers and blocks were read in that attempt's exchanges, one right after the other. */
  lemma NoMixing(dev: Device, c: nat, bufsize: nat, rounds: nat, attempts: nat)
    requires Call(dev, c, bufsize, rounds, attempts).Accepted?
    ensures var items := Call(dev, c, bufsize, rounds, attempts).items;
            && Whole(items, bufsize)
            && exists a :: 0 <= a < attempts && Wins(dev, c, bufsize, rounds, a, items)
                           && Unbroken(dev, Start(dev, c, bufsize, rounds, a), items)
  {
    hide Call, Whole, Unbroken, Start, Fails;
    var items := Call(dev, c, bufsize, rounds, attempts).items;
    AcceptedIff(dev, c, bufsize, rounds, attempts, items);
    var a :| 0 <= a < attempts && Wins(dev, c, bufsize, rounds, a, items);
    var from := Start(dev, c, bufsize, rounds, a);
    OpenNothing(dev, from);
    AttemptUnbroken(dev, from, from, [], bufsize, rounds);
  }

  /** Attempts do not overlap: each starts after the one before it and its two recovery commands. */
  lemma {:induction false} StartsApart(dev: Device, c: nat, bufsize: nat, rounds: nat, a: nat)
    requires AttemptNo(dev, c, bufsize, rounds, a).Broke?
    requires forall b :: 0 <= b < a ==> Fails(dev, c, bufsize, rounds, b)
    ensures Start(dev, c, bufsize, rounds, a) < AttemptNo(dev, c, bufsize, rounds, a).clock
    ensures Start(dev, c, bufsize, rounds, a + 1) == AttemptNo(dev, c, bufsize, rounds, a).clock + 2
    decreases a
  {
    hide AttemptAt;
    if a == 0 {
      StartLater(dev, c, bufsize, rounds, 0);
      assert Start(dev, c, bufsize, rounds, 0) == c;
    } else {
      assert Fails(dev, c, bufsize, rounds, 0);
      var k := AttemptAt(dev, c, bufsize, rounds).clock + 2;
      StartLater(dev, c, bufsize, rounds, a);
      StartLater(dev, c, bufsize, rounds, a - 1);
      forall b | 0 <= b < a - 1
        ensures Fails(dev, k, bufsize, rounds, b)
      {
        StartLater(dev, c, bufsize, rounds, b);
        assert Fails(dev, c, bufsize, rounds, b + 1);
      }
      StartsApart(dev, k, bufsize, rounds, a - 1);
    }
  }

  // ----- two kinds of device -----

  /** A device that never has a message header of the right length waiting. */
  ghost predicate Silent(dev: Device) {
    forall n :: dev.status(n).error == 0 ==> dev.status(n).outUsed != 8
  }

  lemma SilentRound(dev: Device, c: nat, chain: seq<Segment>, bufsize: nat)
    requires Silent(dev) && AllShaped(chain)
    ensures Round(dev, c, chain, bufsize).Lost?
  {}

  /** Against a silent device that takes its commands the call always ends like this. */
  lemma {:induction false} SilentExhausts(dev: Device, c: nat, bufsize: nat, rounds: nat, attempts: nat)
    requires Silent(dev) && rounds > 0 && forall n :: dev.command(n) == 0
    ensures Call(dev, c, bufsize, rounds, attempts) == Exhausted
    decreases attempts
  {
    hide Round, Silent;
    if attempts > 0 {
      NothingTaken();
      SilentRound(dev, c, Segs([]), bufsize);
      SilentExhausts(dev, AttemptAt(dev, c, bufsize, rounds).clock + 2, bufsize, rounds, attempts - 1);
    }
  }

  /** A device that has a segment ready in exchange c and gets it across: the header and the
      block arrive intact, or so that the repair restores them. */
  ghost predicate Offers(dev: Device, c: nat, s: Segment)
    requires Shaped(s)
  {
    && dev.status(c).error == 0 && dev.status(c).outUsed == 8
    && !PowerOnReset(dev.status(c).owms) && !NeedsRun(dev.status(c))
    && dev.reached(c + 1) && Repaired(Raw(dev, c + 1, [0x22, 8] + Ones(10)), 10) == Some([0x22, 8] + s.hdr)
    && dev.release(c + 2) == 0
    && dev.reached(c + 3) && Repaired(Raw(dev, c + 3, [0xAA, s.hdr[1]] + Ones(|s.block|)), |s.block|) == Some(s.block)
    && dev.command(c + 4) == 0 && dev.command(c + 5) == 0
  }

  /** It plays these segments, one after the other, from exchange c on. */
  ghost predicate Plays(dev: Device, c: nat, segs: seq<Segment>)
    requires AllShaped(segs)
  {
    forall i :: 0 <= i < |segs| ==> Offers(dev, c + 6 * i, segs[i])
  }

  /** A segment that gets across, if the rules admit it, is taken in that round. */
  lemma OfferTaken(dev: Device, c: nat, s: Segment, chain: seq<Segment>, bufsize: nat)
    requires AllShaped(chain) && Shaped(s) && Offers(dev, c, s) && Take(chain, s, bufsize).Taken?
    ensures Round(dev, c, chain, bufsize) == Took(Item(s, c, c + 1, c + 3, c + 4))
  {
    hide Repaired, Raw, Crc, PowerOnReset, NeedsRun, Running, Payload, Expected, CarriedSum;
    assert ([0x22, 8] + s.hdr)[2..] == s.hdr;
    assert HeaderOnce(dev, c + 1) == Got(s.hdr, c + 1, c + 3);
    assert Header(dev, c + 1, 3) == Got(s.hdr, c + 1, c + 3);
    assert DataOnce(dev, c + 3, s.hdr[1], Word16(s.hdr[4], s.hdr[5])) == Got(s.block, c + 3, c + 4);
  }

  /** What a device plays is received exactly as the rules for segments say. */
  lemma {:induction false} PlayedIsReceived(dev: Device, c: nat, items: seq<Item>, segs: seq<Segment>, bufsize: nat, rounds: nat)
    requires AllShaped(Segs(items)) && AllShaped(segs) && Plays(dev, c, segs) && rounds >= |segs|
    requires JibSegments.Attempt(Segs(items), segs, bufsize).Some?
    ensures var e := AttemptFrom(dev, c, items, bufsize, rounds);
            e.Complete? && Segs(e.items) == JibSegments.Attempt(Segs(items), segs, bufsize).value
    decreases |segs|
  {
    hide Round, Take, Flagged, Joined, Offers, Plays, Commands;
    PlaysOn(dev, c, segs);
    OfferTaken(dev, c, segs[0], Segs(items), bufsize);
    TakenIs(items, Item(segs[0], c, c + 1, c + 3, c + 4), bufsize);
    TakenShaped(Segs(items), segs[0], bufsize);
    if !Flagged(segs[0].hdr[0]) {
      CommandsOf(dev, c, segs[0]);
      PlayedIsReceived(dev, c + 6, Joined(items, Item(segs[0], c, c + 1, c + 3, c + 4)), segs[1..], bufsize, rounds - 1);
    }
  }

  lemma PlaysOn(dev: Device, c: nat, segs: seq<Segment>)
    requires AllShaped(segs) && segs != [] && Plays(dev, c, segs)
    ensures Offers(dev, c, segs[0]) && AllShaped(segs[1..]) && Plays(dev, c + 6, segs[1..])
  {
    hide Offers, Shaped;
    assert Offers(dev, c + 6 * 0, segs[0]);
    forall i | 0 <= i < |segs| - 1
      ensures Offers(dev, c + 6 + 6 * i, segs[1..][i])
    {
      assert Offers(dev, c + 6 * (i + 1), segs[i + 1]);
    }
  }

  lemma TakenIs(items: seq<Item>, item: Item, bufsize: nat)
    requires AllShaped(Segs(items)) && Shaped(item.s) && Take(Segs(items), item.s, bufsize).Taken?
    ensures Take(Segs(items), item.s, bufsize) == Taken(Segs(Joined(items, item)))
  {
    hide Payload, Running, Expected, CarriedSum, Number, Num;
  }

  lemma CommandsOf(dev: Device, c: nat, s: Segment)
    requires Shaped(s) && Offers(dev, c, s)
    ensures Commands(dev, c + 4) == Outcome(0, c + 6)
  {}
}
