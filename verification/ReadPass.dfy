/** w1_read_all_sensors: one reading pass over the device list, coupler switching and search included. */
module ReadPass {
  import opened Bits
  import opened RomTree
  import opened LibUsbNet
  import opened Coupler
  import opened SelectDevice
  import opened Timetable

  const W1_RETRY: nat := 10

  /** What is on the site: for each device whether there is a reading function for its type,
      and how many valid values attempt k gives once the device has been selected. */
  datatype Sensors = Sensors(readable: nat -> bool, values: (nat, nat) -> nat)

  /** What hangs on the line, and the adapter as it answers while device w is selected. */
  datatype Site = Site(world: Wiring, present: nat -> bool, adapter: nat -> Adapter)

  /** Whatever is selected, the adapter answers as the devices then reachable make it. */
  ghost predicate Faithful(site: Site, devs: seq<Device>) {
    forall w :: 0 <= w < |devs| ==>
      var pop := Reach(site.world, devs, w);
      Population(pop) && FaultFree(pop, site.adapter(w)) && (site.present(w) <==> pop != {})
  }

  /** A pass begun at `secs` has anything to do with device n. */
  predicate Wants(secs: nat, intvl: seq<nat>, sensors: Sensors, n: nat)
    requires n < |intvl|
  {
    Due(secs, intvl[n]) && sensors.readable(n)
  }

  /** The device can be found when it is selected. */
  predicate Reachable(site: Site, devs: seq<Device>, n: nat)
    requires n < |devs|
  {
    |devs[n].serno| == 8 && Stream(devs[n].serno) in Reach(site.world, devs, n)
  }

  /** The first attempt from k on that gives values decides; there are ten attempts. */
  function FirstValues(sensors: Sensors, n: nat, k: nat): nat
    decreases W1_RETRY - k
  {
    if k >= W1_RETRY then 0
    else if sensors.values(n, k) != 0 then sensors.values(n, k)
    else FirstValues(sensors, n, k + 1)
  }

  lemma {:induction false} SomeAttempt(sensors: Sensors, n: nat, k: nat)
    ensures FirstValues(sensors, n, k) != 0 <==> exists a :: k <= a < W1_RETRY && sensors.values(n, a) != 0
    decreases W1_RETRY - k
  {
    if k < W1_RETRY {
      SomeAttempt(sensors, n, k + 1);
    }
  }

  /** Attempt a is the first from k on that gives values. */
  ghost predicate GivesFirst(sensors: Sensors, n: nat, k: nat, a: nat) {
    sensors.values(n, a) != 0 && forall b :: k <= b < a ==> sensors.values(n, b) == 0
  }

  lemma {:induction false} InVain(sensors: Sensors, n: nat, k: nat)
    requires k <= 10 && forall a :: k <= a < 10 ==> sensors.values(n, a) == 0
    ensures FirstValues(sensors, n, k) == 0 && Attempts(sensors, true, n, k) == 10 - k
    decreases 10 - k
  {
    if k < 10 {
      InVain(sensors, n, k + 1);
    }
  }

  lemma {:induction false} UpToFirst(sensors: Sensors, n: nat, k: nat, a: nat)
    requires k <= a < 10 && GivesFirst(sensors, n, k, a)
    ensures FirstValues(sensors, n, k) == sensors.values(n, a) && Attempts(sensors, true, n, k) == a + 1 - k
    decreases 10 - k
  {
    if k < a {
      UpToFirst(sensors, n, k + 1, a);
    }
  }

  lemma {:induction false} NotReached(sensors: Sensors, n: nat, k: nat)
    requires k <= 10
    ensures Attempts(sensors, false, n, k) == 10 - k
    decreases 10 - k
  {
    if k < 10 {
      NotReached(sensors, n, k + 1);
    }
  }

  /** The values a reachable device gives, and the attempts made on it: those of the first of ten
      attempts that gives any, and none after ten in vain. */
  lemma AttemptsIs(sensors: Sensors, n: nat)
    ensures (forall a :: 0 <= a < 10 ==> sensors.values(n, a) == 0) ==>
      FirstValues(sensors, n, 0) == 0 && Attempts(sensors, true, n, 0) == 10
    ensures forall a :: 0 <= a < 10 && GivesFirst(sensors, n, 0, a) ==>
      FirstValues(sensors, n, 0) == sensors.values(n, a) && Attempts(sensors, true, n, 0) == a + 1
    ensures Attempts(sensors, false, n, 0) == 10
  {
    hide FirstValues, Attempts, GivesFirst;
    NotReached(sensors, n, 0);
    if forall a :: 0 <= a < 10 ==> sensors.values(n, a) == 0 {
      InVain(sensors, n, 0);
    }
    forall a | 0 <= a < 10 && GivesFirst(sensors, n, 0, a)
      ensures FirstValues(sensors, n, 0) == sensors.values(n, a) && Attempts(sensors, true, n, 0) == a + 1
    {
      UpToFirst(sensors, n, 0, a);
    }
  }

  /** What device n contributes to a pass. */
  function Yield(secs: nat, intvl: seq<nat>, sensors: Sensors, site: Site, devs: seq<Device>, n: nat): nat
    requires n < |devs| == |intvl|
  {
    if Wants(secs, intvl, sensors, n) && Reachable(site, devs, n) then FirstValues(sensors, n, 0) else 0
  }

  function Total(secs: nat, intvl: seq<nat>, sensors: Sensors, site: Site, devs: seq<Device>, n: nat): nat
    requires n <= |devs| == |intvl|
  {
    if n == 0 then 0 else Total(secs, intvl, sensors, site, devs, n - 1) + Yield(secs, intvl, sensors, site, devs, n - 1)
  }

  /** The number of attempts made on a device from attempt k on: up to the first that gives
      values, or all. */
  function Attempts(sensors: Sensors, reachable: bool, n: nat, k: nat): nat
    decreases W1_RETRY - k
  {
    if k >= W1_RETRY then 0
    else if reachable && sensors.values(n, k) != 0 then 1
    else 1 + Attempts(sensors, reachable, n, k + 1)
  }

  /** The device selected so many times. */
  function Selections(n: nat, times: nat): (steps: seq<Step>)
    ensures |steps| == times && forall i :: 0 <= i < times ==> steps[i] == Step(Select(n), AllObey())
  {
    seq(times, i requires 0 <= i < times => Step(Select(n), AllObey()))
  }

  /** What the switches are told in a pass over the first n devices. */
  function Visits(secs: nat, intvl: seq<nat>, sensors: Sensors, site: Site, devs: seq<Device>, n: nat): (steps: seq<Step>)
    requires n <= |devs| == |intvl|
    ensures Possible(devs, steps) && forall i :: 0 <= i < |steps| ==> steps[i].obeys == AllObey()
  {
    if n == 0 then []
    else
      Visits(secs, intvl, sensors, site, devs, n - 1)
        + if Wants(secs, intvl, sensors, n - 1)
          then Selections(n - 1, Attempts(sensors, Reachable(site, devs, n - 1), n - 1, 0)) else []
  }

  /** And in a whole pass. */
  function PassSteps(secs: nat, intvl: seq<nat>, sensors: Sensors, site: Site, devs: seq<Device>): (steps: seq<Step>)
    requires |devs| == |intvl|
    ensures Possible(devs, steps) && forall i :: 0 <= i < |steps| ==> steps[i].obeys == AllObey()
  {
    Visits(secs, intvl, sensors, site, devs, |devs|) + [Step(Coupler.AllCouplersOff, AllObey())]
  }

  lemma SelectionsMore(n: nat, times: nat)
    ensures Selections(n, times + 1) == Selections(n, times) + [Step(Select(n), AllObey())]
    ensures Selections(n, 0) == []
  {}

  /** The attempts on one device: select it, read it, and stop at the first attempt that gives
      values. A device that cannot be reached gives none in any of them. */
  method ReadDevice(bus: Bus, n: nat, sensors: Sensors, site: Site) returns (r: nat)
    requires bus.Valid() && Sound(bus.devs, bus.Now()) && n < |bus.devs| && Faithful(site, bus.devs)
    modifies bus, bus.cached, bus.port, bus.port.serialNum, bus.port.crc
    ensures bus.Valid() && Sound(bus.devs, bus.Now())
    ensures r == if Reachable(site, bus.devs, n) then FirstValues(sensors, n, 0) else 0
    ensures Did(bus.devs, old(bus.Now()), old(bus.history),
                Selections(n, Attempts(sensors, Reachable(site, bus.devs, n), n, 0)), bus.Now(), bus.history)
    ensures OneBranch(old(bus.actual)) ==> Safe(old(bus.history), bus.history)
  {
    hide Safe, Stream, Population, FaultFree, Did, Sound, Reach, Visible, OneBranch, Selections;
    r := 0;
    var rtry := 0;
    ghost var reachable := Reachable(site, bus.devs, n);
    ghost var s, h := bus.Now(), bus.history;
    SelectionsMore(n, 0);
    SoundSized(bus.devs, s);
    DidNothing(bus.devs, s, h);
    while rtry < W1_RETRY
      invariant bus.Valid() && Sound(bus.devs, bus.Now()) && rtry <= W1_RETRY && r == 0
      invariant reachable ==> FirstValues(sensors, n, rtry) == FirstValues(sensors, n, 0)
      invariant rtry + Attempts(sensors, reachable, n, rtry) == Attempts(sensors, reachable, n, 0)
      invariant Did(bus.devs, s, h, Selections(n, rtry), bus.Now(), bus.history)
    {
      ghost var t, g := bus.Now(), bus.history;
      VisibleIsReach(site.world, bus.devs, t, n, AllObey());
      var found := bus.SelectDevice(n, site.world, AllObey(), site.present(n), site.adapter(n));
      DidThen(bus.devs, s, h, Selections(n, rtry), t, g, [Step(Select(n), AllObey())], bus.Now(), bus.history);
      SelectionsMore(n, rtry);
      if found {
        r := sensors.values(n, rtry);
      }
      if r != 0 {
        break;
      }
      rtry := rtry + 1;
    }
    if OneBranch(s.actual) {
      ObeyedSafe(bus.devs, s, h, Selections(n, Attempts(sensors, reachable, n, 0)), bus.Now(), bus.history);
    }
  }

  lemma SoundSized(devs: seq<Device>, s: Switches)
    requires Sound(devs, s)
    ensures |devs| == |s.cached| == |s.actual| && Configured(devs)
  {}

  /** A reading pass: exactly the due devices that are on the line and give values in one of
      their attempts are read, their values add up, no value of an earlier pass stays valid, the
      switches make exactly the moves of these attempts, and the pass ends with every coupler
      off. `valid` holds how many sensors of each device have a valid value. */
  method ReadAllSensors(bus: Bus, doread: bool, secs: nat, intvl: seq<nat>, sensors: Sensors, site: Site, valid: array<nat>)
    returns (nv: nat, read: set<nat>)
    requires bus.Valid() && Sound(bus.devs, bus.Now()) && |intvl| == |bus.devs| == valid.Length && Faithful(site, bus.devs)
    requires valid as object != bus.cached as object && valid as object != bus.port.serialNum as object
    modifies bus, bus.cached, bus.port, bus.port.serialNum, bus.port.crc, valid
    ensures bus.Valid() && Sound(bus.devs, bus.Now())
    ensures doread ==> forall n :: 0 <= n < valid.Length ==> valid[n] == Yield(secs, intvl, sensors, site, bus.devs, n)
    ensures !doread ==> valid[..] == old(valid[..])
    ensures nv == if doread then SumOf(valid[..]) else 0
    ensures nv == if doread then Total(secs, intvl, sensors, site, bus.devs, |bus.devs|) else 0
    ensures forall n: nat :: n in read <==>
      && doread && n < |bus.devs|
      && Due(secs, intvl[n]) && sensors.readable(n) && Reachable(site, bus.devs, n)
      && exists a :: 0 <= a < 10 && sensors.values(n, a) != 0
    ensures doread ==> forall i :: 0 <= i < |bus.actual| ==> bus.actual[i] == AllOff
    ensures OneBranch(old(bus.actual)) ==> Safe(old(bus.history), bus.history)
    ensures Did(bus.devs, old(bus.Now()), old(bus.history),
                if doread then PassSteps(secs, intvl, sensors, site, bus.devs) else [], bus.Now(), bus.history)
  {
    hide Stream, Population, FaultFree, Faithful, Reachable, FirstValues, Attempts, Did, Sound, Visits, Yield, Total, OneBranch, Safe;
    nv, read := 0, {};
    ghost var devs, s, h := bus.devs, bus.Now(), bus.history;
    SoundSized(devs, s);
    DidNothing(devs, s, h);
    if !doread {
      if OneBranch(s.actual) {
        ObeyedSafe(devs, s, h, [], s, h);
      }
      return;
    }
    var n := 0;
    NoVisits(secs, intvl, sensors, site, devs);
    while n < |bus.devs|
      invariant bus.Valid() && Sound(bus.devs, bus.Now()) && n <= |bus.devs|
      invariant nv == Total(secs, intvl, sensors, site, bus.devs, n)
      invariant forall d :: 0 <= d < n ==> valid[d] == Yield(secs, intvl, sensors, site, bus.devs, d)
      invariant forall d: nat :: d in read <==> d < n && Yield(secs, intvl, sensors, site, bus.devs, d) != 0
      invariant Did(devs, s, h, Visits(secs, intvl, sensors, site, devs, n), bus.Now(), bus.history)
    {
      ghost var t, g := bus.Now(), bus.history;
      Visit(secs, intvl, sensors, site, devs, n);
      valid[n] := 0;
      if Due(secs, intvl[n]) && sensors.readable(n) {
        var r := ReadDevice(bus, n, sensors, site);
        valid[n] := r;
        nv := nv + r;
        read := read + if r != 0 then {n} else {};
        DidThen(devs, s, h, Visits(secs, intvl, sensors, site, devs, n), t, g,
                Selections(n, Attempts(sensors, Reachable(site, devs, n), n, 0)), bus.Now(), bus.history);
      }
      n := n + 1;
    }
    ReadIff(secs, intvl, sensors, site, devs, read);
    TotalIsSum(secs, intvl, sensors, site, devs, valid[..]);
    ghost var t, g := bus.Now(), bus.history;
    bus.AllCouplersOff(AllObey());
    DidThen(devs, s, h, Visits(secs, intvl, sensors, site, devs, n), t, g,
            [Step(Coupler.AllCouplersOff, AllObey())], bus.Now(), bus.history);
    if OneBranch(s.actual) {
      ObeyedSafe(devs, s, h, PassSteps(secs, intvl, sensors, site, devs), bus.Now(), bus.history);
    }
  }

  /** The plain sum of some numbers. */
  function SumOf(xs: seq<nat>): nat {
    if xs == [] then 0 else SumOf(xs[..|xs| - 1]) + xs[|xs| - 1]
  }

  lemma {:induction false} TotalUpTo(secs: nat, intvl: seq<nat>, sensors: Sensors, site: Site, devs: seq<Device>,
                                     xs: seq<nat>, n: nat)
    requires |devs| == |intvl| == |xs| && n <= |xs|
    requires forall d :: 0 <= d < |xs| ==> xs[d] == Yield(secs, intvl, sensors, site, devs, d)
    ensures Total(secs, intvl, sensors, site, devs, n) == SumOf(xs[..n])
  {
    hide Yield;
    if n > 0 {
      TotalUpTo(secs, intvl, sensors, site, devs, xs, n - 1);
      assert xs[..n][..n - 1] == xs[..n - 1];
    }
  }

  lemma TotalIsSum(secs: nat, intvl: seq<nat>, sensors: Sensors, site: Site, devs: seq<Device>, xs: seq<nat>)
    requires |devs| == |intvl| == |xs|
    requires forall d :: 0 <= d < |xs| ==> xs[d] == Yield(secs, intvl, sensors, site, devs, d)
    ensures Total(secs, intvl, sensors, site, devs, |devs|) == SumOf(xs)
  {
    TotalUpTo(secs, intvl, sensors, site, devs, xs, |xs|);
    assert xs[..|xs|] == xs;
  }

  /** A pass selects exactly the due devices that have a reading function, one device after the
      other in the order of the list, and then switches all couplers off. */
  lemma VisitsInOrder(secs: nat, intvl: seq<nat>, sensors: Sensors, site: Site, devs: seq<Device>)
    requires |devs| == |intvl|
    ensures var steps := PassSteps(secs, intvl, sensors, site, devs);
            && |steps| > 0 && steps[|steps| - 1].op == Coupler.AllCouplersOff
            && (forall i :: 0 <= i < |steps| - 1 ==> steps[i].op.Select?)
            && (forall i, j :: 0 <= i < j < |steps| - 1 ==> steps[i].op.w <= steps[j].op.w)
            && forall n: nat :: Selected(steps, n) <==> n < |devs| && Due(secs, intvl[n]) && sensors.readable(n)
  {
    hide Reachable, Attempts, Due, Visits;
    var visits := Visits(secs, intvl, sensors, site, devs, |devs|);
    VisitsUpTo(secs, intvl, sensors, site, devs, |devs|);
    var steps := PassSteps(secs, intvl, sensors, site, devs);
    assert steps == visits + [Step(Coupler.AllCouplersOff, AllObey())];
    forall n: nat
      ensures Selected(steps, n) <==> Selected(visits, n)
    {
      if Selected(visits, n) {
        var i :| 0 <= i < |visits| && visits[i].op == Select(n);
        assert steps[i].op == Select(n);
      }
    }
  }

  ghost predicate Selected(steps: seq<Step>, n: nat) {
    exists i :: 0 <= i < |steps| && steps[i].op == Select(n)
  }

  lemma {:induction false} VisitsUpTo(secs: nat, intvl: seq<nat>, sensors: Sensors, site: Site, devs: seq<Device>, n: nat)
    requires n <= |devs| == |intvl|
    ensures var steps := Visits(secs, intvl, sensors, site, devs, n);
            && (forall i :: 0 <= i < |steps| ==> steps[i].op.Select? && steps[i].op.w < n)
            && (forall i, j :: 0 <= i < j < |steps| ==> steps[i].op.w <= steps[j].op.w)
            && forall d: nat :: Selected(steps, d) <==> d < n && Due(secs, intvl[d]) && sensors.readable(d)
  {
    hide Reachable, Attempts, Due, Visits, Total, Yield, Selections;
    if n == 0 {
      NoVisits(secs, intvl, sensors, site, devs);
    } else {
      VisitsUpTo(secs, intvl, sensors, site, devs, n - 1);
      Visit(secs, intvl, sensors, site, devs, n - 1);
      var before := Visits(secs, intvl, sensors, site, devs, n - 1);
      if Due(secs, intvl[n - 1]) && sensors.readable(n - 1) {
        var times := Attempts(sensors, Reachable(site, devs, n - 1), n - 1, 0);
        AtLeastOne(sensors, Reachable(site, devs, n - 1), n - 1);
        VisitsMore(before, n - 1, times);
      }
    }
  }

  lemma AtLeastOne(sensors: Sensors, reachable: bool, n: nat)
    ensures Attempts(sensors, reachable, n, 0) >= 1
  {}

  lemma VisitsMore(before: seq<Step>, n: nat, times: nat)
    requires times >= 1 && forall i :: 0 <= i < |before| ==> before[i].op.Select? && before[i].op.w < n
    requires forall i, j :: 0 <= i < j < |before| ==> before[i].op.w <= before[j].op.w
    ensures var steps := before + Selections(n, times);
            && (forall i :: 0 <= i < |steps| ==> steps[i].op.Select? && steps[i].op.w <= n)
            && (forall i, j :: 0 <= i < j < |steps| ==> steps[i].op.w <= steps[j].op.w)
            && forall d: nat :: Selected(steps, d) <==> Selected(before, d) || d == n
  {
    var steps := before + Selections(n, times);
    assert steps[|before|].op == Select(n);
    forall d: nat
      ensures Selected(steps, d) <==> Selected(before, d) || d == n
    {
      if Selected(before, d) {
        var i :| 0 <= i < |before| && before[i].op == Select(d);
        assert steps[i].op == Select(d);
      }
    }
  }

  lemma NoVisits(secs: nat, intvl: seq<nat>, sensors: Sensors, site: Site, devs: seq<Device>)
    requires |devs| == |intvl|
    ensures Visits(secs, intvl, sensors, site, devs, 0) == [] && Total(secs, intvl, sensors, site, devs, 0) == 0
  {}

  /** What one more device adds to a pass. */
  lemma Visit(secs: nat, intvl: seq<nat>, sensors: Sensors, site: Site, devs: seq<Device>, n: nat)
    requires n < |devs| == |intvl|
    ensures var wants := Due(secs, intvl[n]) && sensors.readable(n);
            var more := Visits(secs, intvl, sensors, site, devs, n);
            && (wants ==>
                  Visits(secs, intvl, sensors, site, devs, n + 1)
                  == more + Selections(n, Attempts(sensors, Reachable(site, devs, n), n, 0)))
            && (!wants ==> Visits(secs, intvl, sensors, site, devs, n + 1) == more)
            && Total(secs, intvl, sensors, site, devs, n + 1)
                 == Total(secs, intvl, sensors, site, devs, n) + Yield(secs, intvl, sensors, site, devs, n)
            && Yield(secs, intvl, sensors, site, devs, n)
                 == if wants && Reachable(site, devs, n) then FirstValues(sensors, n, 0) else 0
  {
    hide Due, Reachable, FirstValues, Attempts, Selections;
  }

  /** A device contributes exactly if it is due, has a reading function, is reachable, and gives
      values in one of the ten attempts. */
  lemma YieldNonzero(secs: nat, intvl: seq<nat>, sensors: Sensors, site: Site, devs: seq<Device>, n: nat)
    requires n < |devs| == |intvl|
    ensures Yield(secs, intvl, sensors, site, devs, n) != 0 <==>
      && Due(secs, intvl[n]) && sensors.readable(n) && Reachable(site, devs, n)
      && exists a :: 0 <= a < W1_RETRY && sensors.values(n, a) != 0
  {
    hide Reachable, FirstValues, Due;
    SomeAttempt(sensors, n, 0);
  }

  lemma ReadIff(secs: nat, intvl: seq<nat>, sensors: Sensors, site: Site, devs: seq<Device>, read: set<nat>)
    requires |devs| == |intvl|
    requires forall d: nat :: d in read <==> d < |devs| && Yield(secs, intvl, sensors, site, devs, d) != 0
    ensures forall n: nat :: n in read <==>
      && n < |devs| && Due(secs, intvl[n]) && sensors.readable(n) && Reachable(site, devs, n)
      && exists a :: 0 <= a < W1_RETRY && sensors.values(n, a) != 0
  {
    hide Yield, Due, Reachable;
    forall n: nat | n < |devs|
      ensures n in read <==>
        && Due(secs, intvl[n]) && sensors.readable(n) && Reachable(site, devs, n)
        && exists a :: 0 <= a < W1_RETRY && sensors.values(n, a) != 0
    {
      YieldNonzero(secs, intvl, sensors, site, devs, n);
    }
  }
}
