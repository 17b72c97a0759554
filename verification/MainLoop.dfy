/** The main loop of w1retap.c: timed passes over the device list, and what is logged after each. */
module MainLoop {
  import opened Intervals
  import opened Timetable
  import opened Search
  import opened RomTree
  import opened LibUsbNet
  import opened Coupler
  import opened SelectDevice
  import opened ReadPass

  /** A pass: when it began, the devices read in it, how many values each device gave, and what
      was done with them. */
  datatype Pass = Pass(time: nat, read: set<nat>, values: seq<nat>, actions: Actions)

  /** Device n can be found and gives values in one of the attempts of the pass at this time. */
  ghost predicate Gives(sensors: nat -> Sensors, site: Site, devs: seq<Device>, time: nat, n: nat)
    requires n < |devs|
  {
    && sensors(time).readable(n) && Reachable(site, devs, n)
    && exists a :: 0 <= a < W1_RETRY && sensors(time).values(n, a) != 0
  }

  /** The pass read the devices that were due and gave values, and no other, and left each device
      with the values it gave. */
  ghost predicate ReadsDue(p: Pass, intvl: seq<nat>, sensors: nat -> Sensors, site: Site, devs: seq<Device>)
    requires |intvl| == |devs|
  {
    && (forall n: nat :: n in p.read <==> n < |devs| && Due(p.time, intvl[n]) && Gives(sensors, site, devs, p.time, n))
    && |p.values| == |devs|
    && (forall n :: 0 <= n < |devs| ==> p.values[n] == Yield(p.time, intvl, sensors(p.time), site, devs, n))
  }

  /** Its values were logged if there were any, the temporary log written with them when all are due. */
  ghost predicate LogsDue(p: Pass, logtmp: bool, cycle: int, intvl: seq<nat>)
    requires forall i :: 0 <= i < |intvl| ==> intvl[i] > 0
  {
    && (p.actions.log <==> p.read != {})
    && (p.actions.temporaryLog
        <==> p.read != {} && logtmp && (cycle == -1 || forall i :: 0 <= i < |intvl| ==> p.time % intvl[i] == 0))
  }

  lemma {:induction false} TotalNonzero(secs: nat, intvl: seq<nat>, sensors: Sensors, site: Site, devs: seq<Device>, n: nat)
    requires n <= |devs| == |intvl|
    ensures Total(secs, intvl, sensors, site, devs, n) != 0
        <==> exists d :: 0 <= d < n && Yield(secs, intvl, sensors, site, devs, d) != 0
  {
    hide Yield;
    if n > 0 {
      TotalNonzero(secs, intvl, sensors, site, devs, n - 1);
    }
  }

  /** A pass gives values exactly if it reads a device. */
  lemma ValuesIffRead(secs: nat, intvl: seq<nat>, sensors: Sensors, site: Site, devs: seq<Device>, read: set<nat>)
    requires |devs| == |intvl|
    requires forall n: nat :: n in read <==>
      && n < |devs| && Due(secs, intvl[n]) && sensors.readable(n) && Reachable(site, devs, n)
      && exists a :: 0 <= a < W1_RETRY && sensors.values(n, a) != 0
    ensures Total(secs, intvl, sensors, site, devs, |devs|) != 0 <==> read != {}
  {
    hide Reachable, Total, Yield;
    TotalNonzero(secs, intvl, sensors, site, devs, |devs|);
    forall n: nat | n < |devs|
      ensures Yield(secs, intvl, sensors, site, devs, n) != 0 <==> n in read
    {
      YieldNonzero(secs, intvl, sensors, site, devs, n);
    }
    if n: nat :| n in read {
      assert Yield(secs, intvl, sensors, site, devs, n) != 0;
    }
  }

  /** One turn after an uninterrupted sleep: the pass, and the actions on its values. */
  method OnePass(bus: Bus, time: nat, cycle: int, intvl: seq<nat>, logtmp: bool, sensors: nat -> Sensors, site: Site,
                 valid: array<nat>)
    returns (p: Pass)
    requires bus.Valid() && Sound(bus.devs, bus.Now()) && |intvl| == |bus.devs| == valid.Length
    requires Faithful(site, bus.devs)
    requires valid as object != bus.cached as object && valid as object != bus.port.serialNum as object
    requires forall i :: 0 <= i < |intvl| ==> intvl[i] > 0
    requires cycle == -1 || IsLcm(cycle, intvl)
    modifies bus, bus.cached, bus.port, bus.port.serialNum, bus.port.crc, valid
    ensures bus.Valid() && Sound(bus.devs, bus.Now())
    ensures p.time == time && ReadsDue(p, intvl, sensors, site, bus.devs) && LogsDue(p, logtmp, cycle, intvl)
    ensures valid[..] == p.values
    ensures forall i :: 0 <= i < |bus.actual| ==> bus.actual[i] == AllOff
    ensures Did(bus.devs, old(bus.Now()), old(bus.history),
                PassSteps(time, intvl, sensors(time), site, bus.devs), bus.Now(), bus.history)
  {
    hide Sound, Faithful, Reachable, Total, Yield, Did, PassSteps, IsLcm, Due;
    var nv, read := ReadAllSensors(bus, true, time, intvl, sensors(time), site, valid);
    ValuesIffRead(time, intvl, sensors(time), site, bus.devs, read);
    var done := AfterPass(nv, logtmp, time, cycle, intvl);
    p := Pass(time, read, valid[..], done);
  }

  /** The log has one pass for each wake-up, and each of them read and logged what was due. */
  ghost predicate Faultless(log: seq<Pass>, wakes: seq<nat>, logtmp: bool, cycle: int, intvl: seq<nat>,
                            sensors: nat -> Sensors, site: Site, devs: seq<Device>)
    requires |intvl| == |devs| && forall i :: 0 <= i < |intvl| ==> intvl[i] > 0
  {
    && |log| == |wakes|
    && forall k :: 0 <= k < |log| ==>
         && log[k].time == wakes[k]
         && ReadsDue(log[k], intvl, sensors, site, devs) && LogsDue(log[k], logtmp, cycle, intvl)
  }

  lemma FaultlessMore(log: seq<Pass>, wakes: seq<nat>, p: Pass, logtmp: bool, cycle: int, intvl: seq<nat>,
                      sensors: nat -> Sensors, site: Site, devs: seq<Device>)
    requires |intvl| == |devs| && forall i :: 0 <= i < |intvl| ==> intvl[i] > 0
    requires Faultless(log, wakes, logtmp, cycle, intvl, sensors, site, devs)
    requires ReadsDue(p, intvl, sensors, site, devs) && LogsDue(p, logtmp, cycle, intvl)
    ensures Faultless(log + [p], wakes + [p.time], logtmp, cycle, intvl, sensors, site, devs)
  {
    hide ReadsDue, LogsDue;
  }

  lemma FaultlessNone(logtmp: bool, cycle: int, intvl: seq<nat>, sensors: nat -> Sensors, site: Site, devs: seq<Device>)
    requires |intvl| == |devs| && forall i :: 0 <= i < |intvl| ==> intvl[i] > 0
    ensures Faultless([], [], logtmp, cycle, intvl, sensors, site, devs)
  {}

  /** What the switches are told over all these passes. */
  function LoopSteps(wakes: seq<nat>, intvl: seq<nat>, sensors: nat -> Sensors, site: Site, devs: seq<Device>)
    : (steps: seq<Step>)
    requires |intvl| == |devs|
    ensures Possible(devs, steps) && forall i :: 0 <= i < |steps| ==> steps[i].obeys == AllObey()
  {
    if wakes == [] then []
    else
      var last := wakes[|wakes| - 1];
      LoopSteps(wakes[..|wakes| - 1], intvl, sensors, site, devs) + PassSteps(last, intvl, sensors(last), site, devs)
  }

  lemma LoopMore(wakes: seq<nat>, req: nat, intvl: seq<nat>, sensors: nat -> Sensors, site: Site, devs: seq<Device>)
    requires |intvl| == |devs|
    ensures LoopSteps([], intvl, sensors, site, devs) == []
    ensures LoopSteps(wakes + [req], intvl, sensors, site, devs)
         == LoopSteps(wakes, intvl, sensors, site, devs) + PassSteps(req, intvl, sensors(req), site, devs)
  {
    hide PassSteps;
    assert (wakes + [req])[..|wakes|] == wakes;
  }

  /** The loop over any sleeps: one pass for each that is not interrupted, at its wake time. The
      switches make exactly the moves of these passes; after the last one every coupler is off
      and the values it gave are the valid ones. */
  method Watch(bus: Bus, delay: nat, cycle: int, intvl: seq<nat>, logtmp: bool, sleeps: seq<Sleep>,
               sensors: nat -> Sensors, site: Site, valid: array<nat>)
    returns (log: seq<Pass>)
    requires delay >= 1 && bus.Valid() && Sound(bus.devs, bus.Now()) && |intvl| == |bus.devs| == valid.Length
    requires Faithful(site, bus.devs)
    requires valid as object != bus.cached as object && valid as object != bus.port.serialNum as object
    requires forall i :: 0 <= i < |intvl| ==> intvl[i] > 0
    requires cycle == -1 || IsLcm(cycle, intvl)
    modifies bus, bus.cached, bus.port, bus.port.serialNum, bus.port.crc, valid
    ensures bus.Valid() && Sound(bus.devs, bus.Now())
    ensures Faultless(log, Wakes(delay, sleeps), logtmp, cycle, intvl, sensors, site, bus.devs)
    ensures OneBranch(old(bus.actual)) ==> Safe(old(bus.history), bus.history)
    ensures log == [] ==> valid[..] == old(valid[..]) && bus.Now() == old(bus.Now()) && bus.history == old(bus.history)
    ensures log != [] ==> valid[..] == log[|log| - 1].values
    ensures log != [] ==> forall i :: 0 <= i < |bus.actual| ==> bus.actual[i] == AllOff
    ensures Did(bus.devs, old(bus.Now()), old(bus.history),
                LoopSteps(Wakes(delay, sleeps), intvl, sensors, site, bus.devs), bus.Now(), bus.history)
  {
    hide Sound, Faithful, Faultless, ReadsDue, LogsDue, Did, PassSteps, LoopSteps, IsLcm, Wakes, WakeTime, OneBranch, Safe;
    log := [];
    var i := 0;
    ghost var wakes: seq<nat> := [];
    ghost var devs, s, h := bus.devs, bus.Now(), bus.history;
    assert sleeps[0..] == sleeps;
    SoundSized(devs, s);
    LoopMore([], 0, intvl, sensors, site, devs);
    DidNothing(devs, s, h);
    FaultlessNone(logtmp, cycle, intvl, sensors, site, devs);
    while i < |sleeps|
      invariant 0 <= i <= |sleeps|
      invariant bus.Valid() && Sound(bus.devs, bus.Now())
      invariant wakes + Wakes(delay, sleeps[i..]) == Wakes(delay, sleeps)
      invariant Faultless(log, wakes, logtmp, cycle, intvl, sensors, site, bus.devs)
      invariant log == [] ==> valid[..] == old(valid[..]) && bus.Now() == s && bus.history == h
      invariant log != [] ==> valid[..] == log[|log| - 1].values
      invariant log != [] ==> forall i :: 0 <= i < |bus.actual| ==> bus.actual[i] == AllOff
      invariant Did(devs, s, h, LoopSteps(wakes, intvl, sensors, site, devs), bus.Now(), bus.history)
    {
      NextWake(delay, sleeps, i);
      var req := (sleeps[i].start / delay) * delay + delay;
      RequestIsWake(sleeps[i].start, delay, req);
      if !sleeps[i].interrupted {
        ghost var t, g := bus.Now(), bus.history;
        var p := OnePass(bus, req, cycle, intvl, logtmp, sensors, site, valid);
        DidThen(devs, s, h, LoopSteps(wakes, intvl, sensors, site, devs), t, g,
                PassSteps(req, intvl, sensors(req), site, devs), bus.Now(), bus.history);
        LoopMore(wakes, req, intvl, sensors, site, devs);
        FaultlessMore(log, wakes, p, logtmp, cycle, intvl, sensors, site, devs);
        log := log + [p];
        wakes := wakes + [req];
      }
      i := i + 1;
    }
    NoWake(delay);
    assert sleeps[i..] == [] && wakes + [] == wakes;
    if OneBranch(s.actual) {
      ObeyedSafe(devs, s, h, LoopSteps(wakes, intvl, sensors, site, devs), bus.Now(), bus.history);
    }
  }

  /** Within the run every device is read exactly at the multiples of its interval at which it
      can be found and gives values. */
  ghost predicate ReadAtMultiples(log: seq<Pass>, delay: nat, sleeps: seq<Sleep>, intvl: seq<nat>,
                                  sensors: nat -> Sensors, site: Site, devs: seq<Device>)
    requires delay >= 1 && sleeps != [] && |intvl| == |devs| && forall i :: 0 <= i < |intvl| ==> intvl[i] > 0
  {
    forall n: nat, t: nat :: n < |devs| && Within(delay, sleeps, t) ==>
      ((exists k :: 0 <= k < |log| && log[k].time == t && n in log[k].read)
       <==> t % intvl[n] == 0 && Gives(sensors, site, devs, t, n))
  }

  /** The timetable kept, on a punctual run, with the intervals and the period w1_verify_intervals settles on. */
  lemma ReadExactlyWhenDue(vs: seq<int>, delay: int, sleeps: seq<Sleep>, log: seq<Pass>, logtmp: bool, cycle: int,
                           sensors: nat -> Sensors, site: Site, devs: seq<Device>)
    requires delay >= 1 && |vs| == |devs| && Period(vs, delay) >= 1 && Punctual(Period(vs, delay), sleeps)
    requires Faultless(log, Wakes(Period(vs, delay), sleeps), logtmp, cycle, Normal(vs, delay), sensors, site, devs)
    ensures ReadAtMultiples(log, Period(vs, delay), sleeps, Normal(vs, delay), sensors, site, devs)
  {
    hide Period, Normal, Clock, Wakes, Gives, LogsDue, Due, Yield, Within, WakeTime;
    var wakes := Wakes(Period(vs, delay), sleeps);
    forall n: nat, t: nat | n < |devs| && Within(Period(vs, delay), sleeps, t)
      ensures (exists k :: 0 <= k < |log| && log[k].time == t && n in log[k].read)
          <==> t % Normal(vs, delay)[n] == 0 && Gives(sensors, site, devs, t, n)
    {
      NormalTimetable(vs, delay, sleeps, n, t);
      if t in wakes && Due(t, Normal(vs, delay)[n]) && Gives(sensors, site, devs, t, n) {
        var k :| 0 <= k < |wakes| && wakes[k] == t;
        assert ReadsDue(log[k], Normal(vs, delay), sensors, site, devs);
        assert n in log[k].read;
      }
    }
  }

  /** After the couplers have first been switched off no two branches are ever on together. */
  lemma StartedSafe(devs: seq<Device>, s: Switches, h: seq<seq<Lines>>, t: Switches, g: seq<seq<Lines>>,
                    steps: seq<Step>, u: Switches, f: seq<seq<Lines>>)
    requires Sound(devs, s) && Did(devs, s, h, [Step(Coupler.AllCouplersOff, AllObey())], t, g) && Did(devs, t, g, steps, u, f)
    requires forall i :: 0 <= i < |steps| ==> steps[i].obeys == AllObey()
    ensures Safe(g, f)
  {
    hide Did, Sound, OneBranch, Safe;
    DidIs(devs, s, h, Step(Coupler.AllCouplersOff, AllObey()), t, g);
    PerformExact(devs, s, Coupler.AllCouplersOff, AllObey());
    ObeyedSafe(devs, t, g, steps, u, f);
  }

  /** From the configured intervals to the log: the intervals are made to fit, the couplers are
      switched off, and the loop runs. Whatever was configured, and however the sleeps went, each
      pass reads and logs what is due; if the run was punctual every device is read exactly at
      the multiples of its interval; and from the first switch-off on no two branches are ever on
      together. `begun` is the length of the record then. */
  method Run(bus: Bus, list: DevList, modulus: nat, logtmp: bool, sleeps: seq<Sleep>, sensors: nat -> Sensors, site: Site,
             valid: array<nat>, ghost lcm: int)
    returns (overflow: bool, log: seq<Pass>, ghost begun: nat)
    requires bus.Valid() && Sound(bus.devs, bus.Now()) && list.intvl.Length == |bus.devs| == valid.Length
    requires Faithful(site, bus.devs)
    requires valid as object != bus.cached as object && valid as object != bus.port.serialNum as object
    requires list.intvl as object != bus.cached as object && list.intvl as object != bus.port.serialNum as object
    requires list.intvl as object != valid as object
    requires 1 <= list.delay < INT_LIMIT && list.intvl.Length >= 1 && modulus > 1
    requires IsLcm(lcm, Normal(list.intvl[..], list.delay))
    modifies list, list.intvl, bus, bus.cached, bus.port, bus.port.serialNum, bus.port.crc, valid
    ensures var vs, d0 := old(list.intvl[..]), old(list.delay);
            && 1 <= list.delay == Period(vs, d0) && list.intvl[..] == Normal(vs, d0)
            && Greatest(Normal(vs, d0)) < INT_LIMIT && (overflow <==> Overflows(Normal(vs, d0), modulus, lcm))
            && (!overflow ==>
                  && Faultless(log, Wakes(list.delay, sleeps), logtmp, list.cycle, Normal(vs, d0), sensors, site, bus.devs)
                  && (Punctual(list.delay, sleeps) ==>
                        ReadAtMultiples(log, list.delay, sleeps, Normal(vs, d0), sensors, site, bus.devs)))
    ensures !overflow ==> bus.Valid() && Sound(bus.devs, bus.Now())
    ensures !overflow ==> forall i :: 0 <= i < |bus.actual| ==> bus.actual[i] == AllOff
    ensures !overflow ==> valid[..] == if log == [] then old(valid[..]) else log[|log| - 1].values
    ensures !overflow ==>
      && Did(bus.devs, old(bus.Now()), old(bus.history),
             [Step(Coupler.AllCouplersOff, AllObey())]
               + LoopSteps(Wakes(list.delay, sleeps), Normal(old(list.intvl[..]), old(list.delay)), sensors, site, bus.devs),
             bus.Now(), bus.history)
      && begun == |old(bus.history)| + |Moves(old(bus.actual), Trace(bus.devs, old(bus.Now()), Coupler.AllCouplersOff, AllObey()))|
      && begun <= |bus.history| && forall a :: a in bus.history[begun..] ==> OneBranch(a)
  {
    hide Sound, Faithful, Faultless, Did, LoopSteps, Wakes, Normal, Period, IsLcm, Greatest, Overflows, OneBranch, Moves,
      Trace, ReadAtMultiples, Punctual, Product;
    ghost var vs, d0 := list.intvl[..], list.delay;
    ghost var devs, s, h := bus.devs, bus.Now(), bus.history;
    log, begun := [], 0;
    NormalFacts(vs, d0);
    overflow := list.VerifyIntervals(modulus, lcm);
    if overflow {
      return;
    }
    var intvl: seq<nat> := list.intvl[..];
    bus.AllCouplersOff(AllObey());
    ghost var t, g := bus.Now(), bus.history;
    begun := |g|;
    RecordIs(devs, s, h, Step(Coupler.AllCouplersOff, AllObey()), t, g);
    log := Watch(bus, list.delay, list.cycle, intvl, logtmp, sleeps, sensors, site, valid);
    ghost var steps := LoopSteps(Wakes(list.delay, sleeps), intvl, sensors, site, devs);
    DidThen(devs, s, h, [Step(Coupler.AllCouplersOff, AllObey())], t, g, steps, bus.Now(), bus.history);
    StartedSafe(devs, s, h, t, g, steps, bus.Now(), bus.history);
    if Punctual(list.delay, sleeps) {
      ReadExactlyWhenDue(vs, d0, sleeps, log, logtmp, list.cycle, sensors, site, devs);
    }
  }

  lemma RecordIs(devs: seq<Device>, s: Switches, h: seq<seq<Lines>>, step: Step, t: Switches, g: seq<seq<Lines>>)
    requires Did(devs, s, h, [step], t, g)
    ensures |devs| == |s.cached| == |s.actual| && Configured(devs) && (step.op.Select? ==> step.op.w < |devs|)
    ensures |g| == |h| + |Moves(s.actual, Trace(devs, s, step.op, step.obeys))|
  {
    hide After, RunTrace, Trace, Moves, Perform;
    PossibleOne(devs, step);
    OneStep(devs, s, step);
  }
}
