/** w1_select_device: switch to the branch of a device, then look for the device on the bus. */
module SelectDevice {
  import opened Bits
  import opened Lfsr
  import opened RomTree
  import opened Search
  import opened Families
  import opened LibUsbNet
  import opened FindType
  import opened Coupler
  import opened Wrappers

  /** How the line is wired: the devices on the trunk, and those behind each branch. */
  datatype Wiring = Wiring(trunk: set<Rom>, behind: (nat, Lines) -> set<Rom>)

  /** The devices that answer with the switches in these positions. */
  function Visible(world: Wiring, actual: seq<Lines>): set<Rom> {
    world.trunk + set i: nat, r | i < |actual| && actual[i] != AllOff && r in world.behind(i, actual[i]) :: r
  }

  /** The devices meant to be reached when device w is selected: the trunk and its own branch. */
  function Reach(world: Wiring, devs: seq<Device>, w: nat): set<Rom>
    requires w < |devs|
  {
    if devs[w].branch.Some?
    then world.trunk + world.behind(devs[w].branch.value.device, devs[w].branch.value.lines)
    else world.trunk
  }

  /** After the switching of a selection exactly the trunk and the device's own
      branch answer, if the switches obey. */
  lemma VisibleIsReach(world: Wiring, devs: seq<Device>, s: Switches, w: nat, obeys: Obeys)
    requires Sound(devs, s) && w < |devs| && forall n :: obeys(n)
    ensures Visible(world, Perform(devs, s, Select(w), obeys).actual) == Reach(world, devs, w)
  {
    PerformExact(devs, s, Select(w), obeys);
    var actual := Perform(devs, s, Select(w), obeys).actual;
    if devs[w].branch.Some? {
      var b := devs[w].branch.value;
      forall r | r in world.behind(b.device, b.lines)
        ensures r in Visible(world, actual)
      {
        assert actual[b.device] == Wanted(devs, Select(w), b.device) == b.lines;
      }
    }
    forall r | r in Visible(world, actual)
      ensures r in Reach(world, devs, w)
    {
      if r !in world.trunk {
        var i: nat :| i < |actual| && actual[i] != AllOff && r in world.behind(i, actual[i]);
        assert actual[i] == Wanted(devs, Select(w), i);
      }
    }
  }

  /** Progress of the confirmation loop: the devices list[k0..k] have been seen, none is the wanted one. */
  ghost predicate Looking(pop: set<Rom>, list: seq<Rom>, wanted: Rom, st: SearchState, k0: nat, k: nat) {
    if k == 0 then st == FamilySetup(wanted[..8])
    else
      && k0 < k <= |list| && At(pop, st, list[k - 1])
      && (forall i :: 0 <= i < k ==> list[i] != wanted)
  }

  /** One search of the confirmation loop. */
  lemma LookStep(pop: set<Rom>, list: seq<Rom>, wanted: Rom, st: SearchState, st': SearchState, rt: bool, k0: nat, k: nat)
    returns (k0': nat, k': nat)
    requires Population(pop) && Listing(pop, list)
    requires Looking(pop, list, wanted, st, k0, k) && Steps(pop, st, st', rt)
    ensures !rt ==> wanted !in pop
    ensures rt ==> k < k' <= |list| && st'.serial in pop
    ensures rt && st'.serial != wanted ==> Looking(pop, list, wanted, st', k0', k')
  {
    hide Population, Steps, At, Matching, FirstWith, Listing;
    k0', k' := k0, k + 1;
    if k > 0 {
      StepInListing(pop, list, k - 1, st, st', rt);
      if rt {
        Listed(pop, list, k);
      } else {
        Unlisted(pop, list, wanted);
      }
    } else if pop == {} {
      EmptyBusFails(st, st', rt);
    } else {
      FamilyLanding(pop, wanted[..8], st', rt);
      k0' := PlaceOf(pop, list, st'.serial);
      k' := k0' + 1;
      NoneBefore(pop, list, wanted, k0');
    }
  }

  lemma Listed(pop: set<Rom>, list: seq<Rom>, k: nat)
    requires Listing(pop, list) && k < |list|
    ensures list[k] in pop
  {
    assert list[k] in list;
  }

  lemma Unlisted(pop: set<Rom>, list: seq<Rom>, r: Rom)
    requires Listing(pop, list) && forall i :: 0 <= i < |list| ==> list[i] != r
    ensures r !in pop
  {}

  lemma PlaceOf(pop: set<Rom>, list: seq<Rom>, r: Rom) returns (k: nat)
    requires Listing(pop, list) && r in pop
    ensures k < |list| && list[k] == r
  {
    assert r in list;
    k :| k < |list| && list[k] == r;
  }

  lemma EmptyBusFails(st: SearchState, st': SearchState, ok: bool)
    requires Steps({}, st, st', ok)
    ensures !ok
  {}

  /** Nothing the loop skips by starting at its landing place is the wanted device. */
  lemma NoneBefore(pop: set<Rom>, list: seq<Rom>, wanted: Rom, k: nat)
    requires Listing(pop, list) && k < |list|
    requires Matching(pop, wanted[..8]) != {} ==> FirstWith(pop, wanted[..8], list[k])
    ensures forall i :: 0 <= i < k ==> list[i] != wanted
  {
    forall i | 0 <= i < k
      ensures list[i] != wanted
    {
      if list[i] == wanted {
        assert list[i] in list;
        assert wanted in Matching(pop, wanted[..8]);
        ListingOrder(pop, list, i, k);
        BeforeTotal(list[i], list[k]);
      }
    }
  }

  class Bus {
    const devs: seq<Device>
    const port: Port
    /** `active_lines` of each device. */
    const cached: array<Lines>
    /** What the switches do, and every position they have been in. */
    ghost var actual: seq<Lines>
    ghost var history: seq<seq<Lines>>

    ghost predicate Valid()
      reads this, port, cached
    {
      && port.Valid() && cached.Length == |devs| == |actual| && Configured(devs)
      && cached as object != port.serialNum as object
    }

    ghost function Now(): Switches
      reads this, cached
    {
      Switches(cached[..], actual)
    }

    /** w1_initialize_couplers leaves every cache undefined; the switches are where they are. */
    constructor (devices: seq<Device>, ghost positions: seq<Lines>)
      requires Configured(devices) && |positions| == |devices|
      requires forall i :: 0 <= i < |devices| ==> positions[i] != Undefined
      requires forall i :: 0 <= i < |devices| && !(devices[i].isCoupler && devices[i].hasPrivate) ==> positions[i] == AllOff
      ensures Valid() && devs == devices && actual == positions && history == [] && Sound(devs, Now())
    {
      devs := devices;
      port := new Port();
      cached := new Lines[|devices|](_ => Undefined);
      actual := positions;
      history := [];
    }

    method SetCoupler(w: nat, lines: Lines, obeys: bool)
      requires cached.Length == |devs| == |actual| && w < |devs|
      modifies this, cached
      ensures Now() == Set(devs, old(Now()), w, lines, obeys)
      ensures history == if actual == old(actual) then old(history) else old(history) + [actual]
    {
      ghost var before := actual;
      if devs[w].isCoupler && devs[w].hasPrivate {
        if cached[w] != lines {
          if obeys {
            actual := actual[w := lines];
          }
          cached[w] := lines;
        }
      }
      if actual != before {
        history := history + [actual];
      }
    }

    /** The first loop of both functions: every coupler off except `spare`, which the selection
        is to leave on. */
    method OthersOff(spare: Option<nat>, obeys: Obeys)
      requires cached.Length == |devs| == |actual|
      modifies this, cached
      ensures |devs| == |actual| && Now() == OffFrom(devs, old(Now()), 0, spare, obeys)
      ensures history == old(history) + Moves(old(actual), OffTrace(devs, old(Now()), 0, spare, obeys))
    {
      hide OneBranch, OffFrom, OffTrace, Moves, Set;
      var i := 0;
      ghost var start := Now();
      while i < |devs|
        invariant 0 <= i <= |devs| && cached.Length == |devs| == |actual|
        invariant OffFrom(devs, Now(), i, spare, obeys) == OffFrom(devs, start, 0, spare, obeys)
        invariant history + Moves(actual, OffTrace(devs, Now(), i, spare, obeys))
               == old(history) + Moves(start.actual, OffTrace(devs, start, 0, spare, obeys))
      {
        OffMoves(devs, Now(), i, spare, obeys);
        ghost var s, h := Now(), history;
        if devs[i].isCoupler {
          if spare != Some(i) {
            SetCoupler(i, AllOff, obeys(i));
          }
        }
        MoreMoves(h, s.actual, actual, Moves(actual, OffTrace(devs, Now(), i + 1, spare, obeys)));
        i := i + 1;
      }
      OffDone(devs, Now(), spare, obeys);
    }

    /** The switching of w1_select_device, whatever the switches make of it: exactly the
        positions of the operation are passed through. */
    method SwitchTo(w: nat, obeys: Obeys)
      requires cached.Length == |devs| == |actual| && Configured(devs) && w < |devs|
      modifies this, cached
      ensures |devs| == |actual| && Did(devs, old(Now()), old(history), [Step(Select(w), obeys)], Now(), history)
      ensures OneBranch(old(actual)) ==> (Safe(old(history), history) <==> OneBranch(actual))
    {
      hide OffFrom, OffTrace, Moves, Did, OneBranch, Safe;
      ghost var s, h := Now(), history;
      TraceMoves(devs, s, Select(w), obeys);
      OthersOff(Spare(devs[w]), obeys);
      if devs[w].branch.Some? {
        var b := devs[w].branch.value;
        SetCoupler(b.device, b.lines, obeys(b.device));
      }
      DidOne(devs, s, h, Step(Select(w), obeys), Now(), history);
      if OneBranch(s.actual) {
        DidOneSafe(devs, s, h, Step(Select(w), obeys), Now(), history);
      }
    }

    /** w1_all_couplers_off while readings are made, whatever the switches make of it. From a
        right cache, and obeyed, it leaves every coupler off. */
    method AllCouplersOff(obeys: Obeys)
      requires Valid()
      modifies this, cached
      ensures Valid() && Did(devs, old(Now()), old(history), [Step(Coupler.AllCouplersOff, obeys)], Now(), history)
      ensures OneBranch(old(actual)) ==> OneBranch(actual) && Safe(old(history), history)
      ensures old(Sound(devs, Now())) && (forall n :: obeys(n)) ==>
        Sound(devs, Now()) && forall i :: 0 <= i < |actual| ==> actual[i] == AllOff
    {
      hide OffFrom, OffTrace, Moves, Did, OneBranch, Safe, Perform;
      ghost var s, h := Now(), history;
      OffIsOff(devs, s, obeys);
      TraceMoves(devs, s, Coupler.AllCouplersOff, obeys);
      OthersOff(None, obeys);
      DidOne(devs, s, h, Step(Coupler.AllCouplersOff, obeys), Now(), history);
      if OneBranch(s.actual) {
        OffAddsNone(devs, s, Coupler.AllCouplersOff, obeys);
        DidOneSafe(devs, s, h, Step(Coupler.AllCouplersOff, obeys), Now(), history);
      }
      if Sound(devs, s) && forall n :: obeys(n) {
        PerformExact(devs, s, Coupler.AllCouplersOff, obeys);
      }
    }

    /** The devices that will answer once device w has been selected. */
    ghost function Answering(world: Wiring, w: nat, obeys: Obeys): set<Rom>
      requires Valid() && w < |devs|
      reads this, port, cached
    {
      Visible(world, Perform(devs, Now(), Select(w), obeys).actual)
    }

    /** w1_select_device on a fault-free line: it always ends, and the answer is TRUE exactly if
        the device is then visible, whatever the cache held and the switches did. From a right
        cache, and obeyed, exactly the trunk and the device's own branch are visible then, and
        no other branch is on. */
    method SelectDevice(w: nat, world: Wiring, obeys: Obeys, present: bool, adapter: Adapter) returns (found: bool)
      requires Valid() && w < |devs|
      requires Population(Answering(world, w, obeys)) && FaultFree(Answering(world, w, obeys), adapter)
      requires present <==> Answering(world, w, obeys) != {}
      modifies this, cached, port, port.serialNum, port.crc
      ensures Valid() && Did(devs, old(Now()), old(history), [Step(Select(w), obeys)], Now(), history)
      ensures OneBranch(old(actual)) ==> (Safe(old(history), history) <==> OneBranch(actual))
      ensures found <==> Stream(devs[w].serno) in Visible(world, actual)
      ensures old(Sound(devs, Now())) && (forall n :: obeys(n)) ==>
        Sound(devs, Now()) && OneBranch(actual) && Visible(world, actual) == Reach(world, devs, w)
    {
      hide OneBranch, Stream, Population, FaultFree, Perform, Sound, Visible, Reach, Did, Safe;
      ghost var s, h := Now(), history;
      ghost var pop := Answering(world, w, obeys);
      SwitchTo(w, obeys);
      DidIs(devs, s, h, Step(Select(w), obeys), Now(), history);
      if Sound(devs, s) && forall n :: obeys(n) {
        PerformExact(devs, s, Select(w), obeys);
        VisibleIsReach(world, devs, s, w, obeys);
      }
      found := Confirm(devs[w].serno, present, adapter, pop);
    }

    /** The loop of w1_select_device that confirms the device is present on the bus. */
    method Confirm(serno: seq<bv8>, present: bool, adapter: Adapter, ghost pop: set<Rom>) returns (found: bool)
      requires port.Valid() && |serno| == 8
      requires Population(pop) && FaultFree(pop, adapter) && (present <==> pop != {})
      modifies port, port.serialNum, port.crc
      ensures port.Valid()
      ensures found <==> Stream(serno) in pop
    {
      hide Stream, Unpack, Population, Listing, Steps, Next, StartRom, Looking;
      ghost var wanted := Stream(serno);
      PopulationDetermined(pop);
      ghost var list := ListingExists(pop);
      found := false;
      port.OwFamilySearchSetup(serno[0]);
      StartsLooking(pop, list, serno);
      ghost var k0: nat, k: nat := 0, 0;
      while true
        invariant port.Valid() && !found && k <= |list|
        invariant Looking(pop, list, wanted, port.State(), k0, k)
        decreases |list| - k
      {
        ghost var st := port.State();
        var rt, sent := port.OwNext(false, true, present, adapter);
        CallSteps(pop, adapter, 0xF0, st, sent, port.State(), rt);
        k0, k := LookStep(pop, list, wanted, st, port.State(), rt, k0, k);
        if !rt {
          break;
        }
        var thisdev := port.ReadSerialNum();
        if thisdev == serno {
          found := true;
          break;
        }
        if Stream(thisdev) == Stream(serno) {
          StreamInjective(thisdev, serno);
        }
      }
    }
  }

  lemma StartsLooking(pop: set<Rom>, list: seq<Rom>, serno: seq<bv8>)
    requires |serno| == 8
    ensures Looking(pop, list, Stream(serno), FamilySetup(Unpack(serno[0])), 0, 0)
  {
    hide Unpack;
    assert Stream(serno)[..8] == Unpack(serno[0]);
  }
}
