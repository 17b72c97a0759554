/** The search state of a port (libusbnet.c) as a value, one `owNext` as a step on it, and
    what a whole run of searches over a fixed population returns. */
module Search {
  import opened Bits
  import opened Lfsr
  import opened RomTree
  import opened Arith

  /** LastDiscrepancy: 0, a bit position plus one, or 0xFF after a corrupt reply. */
  type Discrepancy = d: nat | d <= BITS || d == 0xFF

  datatype SearchState = SearchState(lastDiscrepancy: Discrepancy, lastDevice: bool, serial: Rom)

  /** What the adapter hands back for one search command: nothing (a failed transfer, or no
      data), or a ROM id with the discrepancy bits. A short answer carries eight bytes; its
      `marks` are then whatever the buffer held before. */
  datatype Reply = Silent | Answer(rom: Rom, marks: Rom, short: bool)

  /** The ROM id sent to the adapter to steer the search. */
  function StartRom(st: SearchState): Rom {
    var d := st.lastDiscrepancy;
    if d == 0xFF then st.serial
    else if d == 0 then Zeros(BITS)
    else st.serial[..d - 1] + [true] + Zeros(BITS - d)
  }

  /** The id sent, in plain terms: after a corrupt reply the serial number as it is; otherwise the
      serial number before the last discrepancy, a one there, and zeros after it. */
  lemma StartPlainly(st: SearchState)
    ensures var start, d := StartRom(st), st.lastDiscrepancy;
            && (d == 0xFF ==> start == st.serial)
            && (d <= 64 ==>
                  && (forall i :: 0 <= i < d - 1 ==> start[i] == st.serial[i])
                  && (d > 0 ==> start[d - 1])
                  && (forall i :: d <= i < 64 ==> !start[i]))
  {}

  /** The position after the last marked bit below n that was taken as 0, else `d`. */
  function LastZero(rom: Rom, marks: Rom, n: nat, d: Discrepancy): (k: Discrepancy)
    requires n <= BITS
  {
    if n == 0 then d
    else if marks[n - 1] && !rom[n - 1] then n
    else LastZero(rom, marks, n - 1, d)
  }

  /** owNext: the state afterwards and the result. */
  function Next(st: SearchState, doReset: bool, present: bool, reply: Reply): (SearchState, bool) {
    if st.lastDevice then
      (SearchState(0, false, st.serial), false)
    else if doReset && !present then
      (SearchState(0, false, st.serial), false)
    else match reply
      case Silent => (st, false)
      case Answer(rom, marks, short) =>
        if CrcValid(rom) && HasFamily(rom)
        then (SearchState(LastZero(rom, marks, BITS, st.lastDiscrepancy), short, rom), true)
        else (SearchState(0xFF, false, Zeros(BITS)), false)
  }

  /** The state `owFirst` starts from. */
  function Fresh(st: SearchState): SearchState {
    SearchState(0, false, st.serial)
  }

  /** The state `owFamilySearchSetup` leaves. */
  function FamilySetup(family: seq<bool>): SearchState
    requires |family| == 8
  {
    SearchState(BITS, false, family + Zeros(BITS - 8))
  }

  /** The reply of a fault-free adapter with these devices on the line: nothing if there is
      none, otherwise the id its walk finds; the discrepancy bits follow unless none of the
      marked bits was taken as 0. */
  ghost predicate Answers(pop: set<Rom>, start: Rom, reply: Reply) {
    if pop == {} then reply == Silent
    else
      var f := RomTree.Search(pop, start);
      && reply.Answer? && reply.rom == f.rom
      && (reply.short <==> forall i :: 0 <= i < BITS && f.marks[i] ==> f.rom[i])
      && (!reply.short ==> reply.marks == f.marks)
  }

  /** One `owNext(port, TRUE, ...)` on a fault-free bus. */
  ghost predicate Steps(pop: set<Rom>, st: SearchState, st': SearchState, ok: bool) {
    exists reply :: Answers(pop, StartRom(st), reply) && (st', ok) == Next(st, true, pop != {}, reply)
  }

  /** The state stands at device r: the next search is steered to the last split where r went 0. */
  ghost predicate At(pop: set<Rom>, st: SearchState, r: Rom) {
    && r in pop && st.serial == r
    && (st.lastDevice ==> forall j :: 0 <= j < BITS && Split(pop, r, j) ==> r[j])
    && (!st.lastDevice ==>
          && 1 <= st.lastDiscrepancy <= BITS
          && Split(pop, r, st.lastDiscrepancy - 1) && !r[st.lastDiscrepancy - 1]
          && forall j :: st.lastDiscrepancy <= j < BITS && Split(pop, r, j) ==> r[j])
  }

  /** r is the last device in walk order. */
  ghost predicate IsLast(pop: set<Rom>, r: Rom) {
    r in pop && forall p :: p in pop ==> p == r || Before(p, r)
  }

  /** r' is the device right after r. */
  ghost predicate Follows(pop: set<Rom>, r: Rom, r': Rom) {
    && r in pop && r' in pop && Before(r, r')
    && forall p :: p in pop && Before(r, p) ==> p == r' || Before(r', p)
  }

  lemma {:induction false} LastZeroIs(rom: Rom, marks: Rom, n: nat, d: Discrepancy)
    requires n <= BITS
    ensures var k := LastZero(rom, marks, n, d);
            if forall i :: 0 <= i < n && marks[i] ==> rom[i] then k == d
            else 1 <= k <= n && marks[k - 1] && !rom[k - 1] && forall i :: k <= i < n && marks[i] ==> rom[i]
  {
    if n > 0 && !(marks[n - 1] && !rom[n - 1]) {
      LastZeroIs(rom, marks, n - 1, d);
    }
  }

  /** A search over a non-empty population always finds a device, and stands at it. */
  lemma Finds(pop: set<Rom>, st: SearchState, st': SearchState, ok: bool)
    requires Population(pop) && pop != {} && !st.lastDevice
    requires Steps(pop, st, st', ok)
    ensures ok && At(pop, st', st'.serial) && Walks(pop, StartRom(st), st'.serial)
  {
    var start := StartRom(st);
    var reply :| Answers(pop, start, reply) && (st', ok) == Next(st, true, pop != {}, reply);
    SearchWalks(pop, start);
    LastZeroIs(reply.rom, reply.marks, BITS, st.lastDiscrepancy);
  }

  /** Devices before and after the one the state stands at. */
  lemma LastDeviceIsLast(pop: set<Rom>, st: SearchState, r: Rom)
    requires Determined(pop) && At(pop, st, r)
    ensures st.lastDevice <==> IsLast(pop, r)
  {
    if st.lastDevice {
      forall p | p in pop
        ensures p == r || Before(p, r)
      {
        if p != r {
          var i := FirstDiff(r, p);
          assert Split(pop, r, i);
          FirstDiffIs(p, r, i);
        }
      }
    } else {
      var k := st.lastDiscrepancy - 1;
      var q :| q in pop && q[..k] == r[..k] && q[k] != r[k];
      FirstDiffIs(r, q, k);
      BeforeTotal(q, r);
      assert !IsLast(pop, r);
    }
  }

  /** The splits of a population of valid ids all lie before the CRC byte. */
  lemma SplitsEarly(pop: set<Rom>, r: Rom, j: nat)
    requires Determined(pop) && r in pop && j < BITS && Split(pop, r, j)
    ensures j < 56
  {
    var q :| q in pop && q[..j] == r[..j] && q[j] != r[j];
    SamePrefix(q, r, j, 56);
  }

  /** A further search moves to the very next device. */
  lemma NextFollows(pop: set<Rom>, st: SearchState, r: Rom, r': Rom)
    requires Determined(pop) && At(pop, st, r) && !st.lastDevice
    requires Walks(pop, StartRom(st), r')
    ensures Follows(pop, r, r')
  {
    var d := st.lastDiscrepancy;
    var k := d - 1;
    var start := StartRom(st);
    SplitsEarly(pop, r, k);
    var q :| q in pop && q[..k] == r[..k] && q[k] != r[k];
    assert start[..d] == r[..k] + [true];
    assert q[..d] == q[..k] + [q[k]] == start[..d];
    assert q in Matching(pop, start[..d]);
    Lands(pop, start, d, r');
    assert r'[..d] == start[..d];
    assert r'[..k] == r'[..d][..k] == r[..k] && r'[k] == r'[..d][k];
    FirstDiffIs(r, r', k);
    forall p | p in pop && Before(r, p)
      ensures p == r' || Before(r', p)
    {
      NoneNearer(pop, st, r, r', p);
    }
  }

  /** No device lies between the one found last and the one the walk leads to. */
  lemma NoneNearer(pop: set<Rom>, st: SearchState, r: Rom, r': Rom, p: Rom)
    requires Determined(pop) && At(pop, st, r) && !st.lastDevice && p in pop && Before(r, p)
    requires var d := st.lastDiscrepancy;
             && r'[..d] == StartRom(st)[..d] && r'[..d - 1] == r[..d - 1]
             && forall q :: q in Matching(pop, StartRom(st)[..d]) ==> q == r' || Before(r', q)
    ensures p == r' || Before(r', p)
  {
    var d := st.lastDiscrepancy;
    var i, k := FirstDiff(r, p), d - 1;
    assert Split(pop, r, i);
    assert i <= k;
    if i == k {
      assert p[..d] == p[..k] + [p[k]];
      assert StartRom(st)[..d] == r[..k] + [true];
      assert p in Matching(pop, StartRom(st)[..d]);
    } else {
      assert r'[..i] == r'[..k][..i] == r[..k][..i] == p[..i];
      assert r'[i] == r'[..k][i] == r[..k][i];
      FirstDiffIs(r', p, i);
    }
  }

  // ----- whole runs -----

  /** The devices of a population in walk order, each once. */
  ghost predicate Listing(pop: set<Rom>, list: seq<Rom>) {
    && (forall r :: r in pop <==> r in list)
    && (forall i, j :: 0 <= i < j < |list| ==> Before(list[i], list[j]))
  }

  lemma ListingExists(pop: set<Rom>) returns (list: seq<Rom>)
    requires Determined(pop)
    ensures Listing(pop, list)
    decreases |pop|
  {
    if pop == {} {
      return [];
    }
    var r := RomTree.Search(pop, Zeros(BITS)).rom;
    SearchWalks(pop, Zeros(BITS));
    var q :| q in pop;
    assert q[..0] == Zeros(BITS)[..0];
    assert q in Matching(pop, Zeros(BITS)[..0]);
    Lands(pop, Zeros(BITS), 0, r);
    var rest := ListingExists(pop - {r});
    list := [r] + rest;
    forall p | p in pop
      ensures p == r || Before(r, p)
    {
      assert p[..0] == Zeros(BITS)[..0];
      assert p in Matching(pop, Zeros(BITS)[..0]);
    }
    ListingPrepend(pop, r, rest);
  }

  lemma ListingPrepend(pop: set<Rom>, r: Rom, rest: seq<Rom>)
    requires r in pop && Listing(pop - {r}, rest)
    requires forall p :: p in pop ==> p == r || Before(r, p)
    ensures Listing(pop, [r] + rest)
  {
    hide Before;
    var list := [r] + rest;
    forall i, j | 0 <= i < j < |list|
      ensures Before(list[i], list[j])
    {
      assert list[j] == rest[j - 1] && rest[j - 1] in rest;
      assert i > 0 ==> list[i] == rest[i - 1];
    }
  }

  lemma ListingOrder(pop: set<Rom>, list: seq<Rom>, i: nat, j: nat)
    requires Listing(pop, list) && i < |list| && j < |list|
    ensures Before(list[i], list[j]) <==> i < j
    ensures list[i] == list[j] <==> i == j
  {
    BeforeTotal(list[i], list[j]);
    if i < j {
      assert Before(list[i], list[j]);
    } else if j < i {
      assert Before(list[j], list[i]);
    }
  }

  /** The device after the k-th is the one after it in the listing; the last is the last. */
  lemma ListingFollows(pop: set<Rom>, list: seq<Rom>, k: nat, r': Rom)
    requires Listing(pop, list) && k < |list| && Follows(pop, list[k], r')
    ensures k + 1 < |list| && r' == list[k + 1]
  {
    assert r' in list;
    var m: nat :| m < |list| && list[m] == r';
    ListingOrder(pop, list, k, m);
    var p := list[k + 1];
    assert p in list && Before(list[k], p);
    ListingOrder(pop, list, m, k + 1);
    BeforeTotal(p, r');
  }

  lemma ListingLast(pop: set<Rom>, list: seq<Rom>, k: nat)
    requires Listing(pop, list) && k < |list|
    ensures IsLast(pop, list[k]) <==> k == |list| - 1
  {
    var last := list[|list| - 1];
    assert last in list;
    if k < |list| - 1 {
      assert Before(list[k], last);
      BeforeTotal(list[k], last);
    } else {
      forall p | p in pop
        ensures p == last || Before(p, last)
      {
        var m: nat :| m < |list| && list[m] == p;
      }
    }
  }

  /** From a state at the k-th device one more search goes to the next device, or reports
      the end and leaves the state as good as new. */
  lemma StepInListing(pop: set<Rom>, list: seq<Rom>, k: nat, st: SearchState, st': SearchState, ok: bool)
    requires Population(pop) && Listing(pop, list) && k < |list|
    requires At(pop, st, list[k]) && Steps(pop, st, st', ok)
    ensures ok <==> k + 1 < |list|
    ensures ok ==> st'.serial == list[k + 1] && At(pop, st', list[k + 1])
    ensures !ok ==> st' == Fresh(st)
  {
    PopulationDetermined(pop);
    LastDeviceIsLast(pop, st, list[k]);
    ListingLast(pop, list, k);
    if !st.lastDevice {
      Finds(pop, st, st', ok);
      NextFollows(pop, st, list[k], st'.serial);
      ListingFollows(pop, list, k, st'.serial);
    }
  }

  /** From a reset state, or after a corrupt reply, the search finds the first device. */
  lemma StartsAtFirst(pop: set<Rom>, list: seq<Rom>, st: SearchState, st': SearchState, ok: bool)
    requires Population(pop) && Listing(pop, list) && list != []
    requires !st.lastDevice && StartRom(st) == Zeros(BITS)
    requires Steps(pop, st, st', ok)
    ensures ok && st'.serial == list[0] && At(pop, st', list[0])
  {
    PopulationDetermined(pop);
    assert list[0] in list;
    Finds(pop, st, st', ok);
    var r := st'.serial;
    assert list[0][..0] == StartRom(st)[..0];
    assert list[0] in Matching(pop, StartRom(st)[..0]);
    Lands(pop, StartRom(st), 0, r);
    var m: nat :| m < |list| && list[m] == r;
    ListingOrder(pop, list, 0, m);
    BeforeTotal(list[0], r);
  }

  /** A run of searches on a fault-free bus with fixed devices. */
  ghost predicate Run(pop: set<Rom>, states: seq<SearchState>, oks: seq<bool>) {
    && |states| == |oks| + 1
    && forall i :: 0 <= i < |oks| ==> Steps(pop, states[i], states[i + 1], oks[i])
  }

  /** What the search is bound to do when k devices of the listing have been reported:
      report the next one, or report the end and be as good as new. */
  ghost predicate Outcome(pop: set<Rom>, list: seq<Rom>, k: nat, st: SearchState, st': SearchState, ok: bool) {
    && (ok <==> k < |list|)
    && (k < |list| ==> st'.serial == list[k] && At(pop, st', list[k]))
    && (k >= |list| ==> st' == Fresh(st))
  }

  /** The enumeration is complete and exact, over any number of calls: an `owFirst` followed
      by `owNext` calls returns each device on the bus exactly once, in walk order, then
      FALSE once, and then starts again from the first. */
  lemma {:induction false} Enumeration(pop: set<Rom>, list: seq<Rom>, states: seq<SearchState>, oks: seq<bool>, n: nat)
    requires Population(pop) && Listing(pop, list) && list != []
    requires Run(pop, states, oks) && states[0] == Fresh(states[0])
    requires n < |oks|
    ensures Outcome(pop, list, n % (|list| + 1), states[n], states[n + 1], oks[n])
  {
    hide Population, Listing, Steps, Outcome, Fresh;
    assert Steps(pop, states[n], states[n + 1], oks[n]);
    if n == 0 {
      FirstOutcome(pop, list, states[0], states[1], oks[0]);
    } else {
      Enumeration(pop, list, states, oks, n - 1);
      Cycle(n, |list| + 1);
      var k := (n - 1) % (|list| + 1);
      NextOutcome(pop, list, k, states[n - 1], states[n], oks[n - 1], states[n + 1], oks[n]);
    }
  }

  lemma FirstOutcome(pop: set<Rom>, list: seq<Rom>, st: SearchState, st': SearchState, ok: bool)
    requires Population(pop) && Listing(pop, list) && list != []
    requires st == Fresh(st) && Steps(pop, st, st', ok)
    ensures Outcome(pop, list, 0, st, st', ok)
  {
    hide Population, Listing, Steps, At, StartRom;
    FreshStart(st);
    StartsAtFirst(pop, list, st, st', ok);
  }

  lemma NextOutcome(pop: set<Rom>, list: seq<Rom>, k: nat,
                    was: SearchState, st: SearchState, okWas: bool, st': SearchState, ok: bool)
    requires Population(pop) && Listing(pop, list) && list != [] && k <= |list|
    requires Outcome(pop, list, k, was, st, okWas) && Steps(pop, st, st', ok)
    ensures Outcome(pop, list, if k == |list| then 0 else k + 1, st, st', ok)
  {
    hide Population, Listing, Steps, At, StartRom;
    if k == |list| {
      FirstOutcome(pop, list, st, st', ok);
    } else {
      StepInListing(pop, list, k, st, st', ok);
    }
  }

  lemma FreshStart(st: SearchState)
    ensures StartRom(Fresh(st)) == Zeros(BITS) && !Fresh(st).lastDevice
    ensures st == Fresh(st) ==> StartRom(st) == Zeros(BITS) && !st.lastDevice
  {}

  lemma Cycle(n: nat, m: nat)
    requires n > 0 && m > 1
    ensures n % m == if (n - 1) % m == m - 1 then 0 else (n - 1) % m + 1
  {
    var q, r := (n - 1) / m, (n - 1) % m;
    Quotient(n - 1, m);
    if r == m - 1 {
      Distribute(m, q, 1);
      DivModUnique(n, m, q + 1, 0);
    } else {
      DivModUnique(n, m, q, r + 1);
    }
  }

  /** On an empty bus every search fails, and the state is reset. */
  lemma EmptyBus(st: SearchState, st': SearchState, ok: bool)
    requires Steps({}, st, st', ok)
    ensures !ok && st' == Fresh(st)
  {}

  /** A corrupt reply is never reported as a device, and it makes the next search start over:
      the id it sends is the one a fresh search sends. */
  lemma CorruptReplyRestarts(st: SearchState, doReset: bool, reply: Reply)
    requires !st.lastDevice && reply.Answer? && !(CrcValid(reply.rom) && HasFamily(reply.rom))
    ensures var (st', ok) := Next(st, doReset, true, reply);
            !ok && !st'.lastDevice && StartRom(st') == StartRom(Fresh(st))
  {}
}
