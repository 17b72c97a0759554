/** The loop of tstfind.c and w1find.c that lists the bus with owFirst and owNext. */
module FindAll {
  import opened Bits
  import opened Lfsr
  import opened RomTree
  import opened Search
  import opened LibUsbNet
  import opened FindType

  /** Whatever state the port is in, the loop ends, and finds every device on the bus, or every
      one in alarm if only these are asked for, each once, in walk order; the port is then ready
      to start again. */
  method ListBus(port: Port, alarmOnly: bool, present: bool, adapter: Adapter,
                 ghost all: set<Rom>, ghost alarmed: set<Rom>, ghost list: seq<Rom>)
    returns (ids: seq<seq<bv8>>)
    requires port.Valid() && Serves(all, adapter, 0xF0) && Serves(alarmed, adapter, 0xEC)
    requires alarmed <= all && (present <==> all != {})
    requires Population(all) && Listing(if alarmOnly then alarmed else all, list)
    modifies port, port.serialNum, port.crc
    ensures port.Valid() && port.State() == Fresh(port.State())
    ensures (forall i :: 0 <= i < |ids| ==> |ids[i]| == 8) && Ids(ids) == list
  {
    hide Stream, Population, Listing, Steps, Next, At, Outcome, Fresh, Ids, Found, Listed, Serves, WellFormed;
    ghost var pop, cmd: bv8 := if alarmOnly then alarmed else all, if alarmOnly then 0xEC else 0xF0;
    WellFormedFrom(all, adapter, 0xF0);
    PartOfPopulation(all, alarmed);
    ids := [];
    ghost var st, k := Fresh(port.State()), 0;
    FreshOfFresh(port.State());
    ListedNone(list);
    var rslt, sent := port.OwFirst(alarmOnly, true, present, adapter);
    FirstCall(pop, list, adapter, cmd, present, st, sent, port.State(), rslt);
    while rslt
      invariant port.Valid() && k <= |list|
      invariant Listed(ids, list, k)
      invariant Found(pop, list, k, port.State(), rslt)
      decreases |list| - k
    {
      FoundFacts(pop, list, k, port.State(), rslt);
      SomeDevice(pop, list, k);
      st := port.State();
      var id := port.ReadSerialNum();
      ListedNext(ids, id, list, k);
      ids := ids + [id];
      rslt, sent := port.OwNext(alarmOnly, true, present, adapter);
      LaterCall(pop, list, k, adapter, cmd, st, sent, port.State(), rslt);
      k := k + 1;
    }
    FoundFacts(pop, list, k, port.State(), rslt);
    ListedAll(ids, list);
  }

  /** k devices have been listed; the search has just found the next one, or the end. */
  ghost predicate Found(pop: set<Rom>, list: seq<Rom>, k: nat, st: SearchState, ok: bool) {
    && k <= |list| && (ok <==> k < |list|)
    && (ok ==> st.serial == list[k] && At(pop, st, list[k]))
    && (!ok ==> st == Fresh(st))
  }

  lemma FoundFacts(pop: set<Rom>, list: seq<Rom>, k: nat, st: SearchState, ok: bool)
    requires Found(pop, list, k, st, ok)
    ensures k <= |list| && (ok <==> k < |list|) && (ok ==> st.serial == list[k]) && (!ok ==> st == Fresh(st))
  {}

  /** The ids are the first k devices of the listing, in bytes. */
  ghost predicate Listed(ids: seq<seq<bv8>>, list: seq<Rom>, k: nat) {
    k <= |list| && (forall i :: 0 <= i < |ids| ==> |ids[i]| == 8) && Ids(ids) == list[..k]
  }

  lemma ListedNone(list: seq<Rom>)
    ensures Listed([], list, 0)
  {
    NoIds([]);
  }

  lemma ListedNext(ids: seq<seq<bv8>>, id: seq<bv8>, list: seq<Rom>, k: nat)
    requires Listed(ids, list, k) && |id| == 8 && k < |list| && Stream(id) == list[k]
    ensures Listed(ids + [id], list, k + 1)
  {
    hide Ids, Stream;
    IdsGrow(ids, id);
    assert list[..k + 1] == list[..k] + [list[k]];
  }

  lemma ListedAll(ids: seq<seq<bv8>>, list: seq<Rom>)
    requires Listed(ids, list, |list|)
    ensures (forall i :: 0 <= i < |ids| ==> |ids[i]| == 8) && Ids(ids) == list
  {
    hide Ids;
    assert list[..|list|] == list;
  }

  lemma SomeDevice(pop: set<Rom>, list: seq<Rom>, k: nat)
    requires Listing(pop, list) && k < |list|
    ensures pop != {}
  {
    assert list[k] in list;
  }

  lemma PartOfPopulation(all: set<Rom>, alarmed: set<Rom>)
    requires Population(all) && alarmed <= all
    ensures Population(alarmed)
  {}

  lemma WellFormedFrom(pop: set<Rom>, adapter: Adapter, cmd: bv8)
    requires Serves(pop, adapter, cmd)
    ensures WellFormed(adapter)
  {}

  lemma FreshOfFresh(st: SearchState)
    ensures Fresh(Fresh(st)) == Fresh(st) && !Fresh(st).lastDevice
  {}

  lemma FirstCall(pop: set<Rom>, list: seq<Rom>, adapter: Adapter, cmd: bv8, present: bool,
                  st: SearchState, sent: seq<bv8>, st': SearchState, ok: bool)
    requires Population(pop) && Listing(pop, list) && Serves(pop, adapter, cmd) && |sent| == 8
    requires st == Fresh(st) && (present ==> Stream(sent) == Zeros(BITS)) && (pop != {} ==> present)
    requires (st', ok) == Next(st, true, present, Seen(adapter(cmd, sent)))
    ensures Found(pop, list, 0, st', ok)
  {
    hide Population, Stream, Steps, StartRom, At;
    FreshStart(st);
    if list == [] {
      EmptyIfNone(pop, list);
    } else {
      assert list[0] in list;
      hide Next;
      CallSteps(pop, adapter, cmd, st, sent, st', ok);
      FirstOutcome(pop, list, st, st', ok);
    }
  }

  lemma EmptyIfNone(pop: set<Rom>, list: seq<Rom>)
    requires Listing(pop, list) && list == []
    ensures pop == {}
  {}

  lemma LaterCall(pop: set<Rom>, list: seq<Rom>, k: nat, adapter: Adapter, cmd: bv8, st: SearchState, sent: seq<bv8>,
                  st': SearchState, ok: bool)
    requires Population(pop) && Listing(pop, list) && Serves(pop, adapter, cmd) && |sent| == 8
    requires k < |list| && Found(pop, list, k, st, true)
    requires !st.lastDevice && pop != {} ==> Stream(sent) == StartRom(st)
    requires (st', ok) == Next(st, true, pop != {}, Seen(adapter(cmd, sent)))
    ensures Found(pop, list, k + 1, st', ok)
  {
    hide Population, Stream, Next, Steps, StartRom, At, Listing;
    CallSteps(pop, adapter, cmd, st, sent, st', ok);
    StepInListing(pop, list, k, st, st', ok);
    FreshOfFresh(st);
  }
}
