/** Branch couplers (w1sensors.c): a cached switch state per coupler that saves commands, and
    the aim that only one branch is ever active. */
module Coupler {

  import opened Wrappers

  /** COUPLER_UNDEFINED, COUPLER_ALL_OFF, COUPLER_MAIN_ON, COUPLER_AUX_ON. */
  datatype Lines = Undefined | AllOff | MainOn | AuxOn

  /** The branch a device hangs on: the index of its coupler and the lines that reach it. */
  datatype Branch = Branch(device: nat, lines: Lines)

  /** A configured device: whether it is a coupler, whether it got its private switch state
      (couplers beyond the first 64 branch entries do not), and its own branch, if any. */
  datatype Device = Device(serno: seq<bv8>, isCoupler: bool, hasPrivate: bool, branch: Option<Branch>)

  predicate Configured(devs: seq<Device>) {
    forall i :: 0 <= i < |devs| ==>
      && |devs[i].serno| == 8
      && (devs[i].branch.Some? ==>
            var b := devs[i].branch.value;
            && b.device < |devs| && devs[b.device].isCoupler && devs[b.device].hasPrivate
            && (b.lines == MainOn || b.lines == AuxOn))
  }

  /** The cached `active_lines` and what the switches really do. */
  datatype Switches = Switches(cached: seq<Lines>, actual: seq<Lines>)

  /** w1_set_coupler: no command if the cache already says so; the cache is updated whether
      or not the switch obeyed. */
  function Set(devs: seq<Device>, s: Switches, w: nat, lines: Lines, obeys: bool): Switches
    requires w < |devs| == |s.cached| == |s.actual|
  {
    if devs[w].isCoupler && devs[w].hasPrivate && s.cached[w] != lines
    then Switches(s.cached[w := lines], if obeys then s.actual[w := lines] else s.actual)
    else s
  }

  /** Every switch with a branch on is the same one. */
  ghost predicate OneBranch(actual: seq<Lines>) {
    forall i, j :: 0 <= i < |actual| && 0 <= j < |actual| && actual[i] != AllOff && actual[j] != AllOff ==> i == j
  }

  /** The cache is undefined or right, so a skipped command changes nothing. */
  ghost predicate CacheRight(s: Switches)
    requires |s.cached| == |s.actual|
  {
    forall i :: 0 <= i < |s.cached| ==> s.cached[i] == Undefined || s.cached[i] == s.actual[i]
  }

  ghost predicate Sound(devs: seq<Device>, s: Switches) {
    && |s.cached| == |s.actual| == |devs| && Configured(devs)
    && (forall i :: 0 <= i < |devs| ==> s.actual[i] != Undefined)
    && (forall i :: 0 <= i < |devs| && !(devs[i].isCoupler && devs[i].hasPrivate) ==> s.actual[i] == AllOff)
    && CacheRight(s)
  }

  /** A command that is sent keeps the cache right exactly if the switch obeys it, or was
      there already. */
  lemma SetKeepsCacheIff(devs: seq<Device>, s: Switches, w: nat, lines: Lines, obeys: bool)
    requires Sound(devs, s) && w < |devs| && lines != Undefined
    requires devs[w].isCoupler && devs[w].hasPrivate && s.cached[w] != lines
    ensures CacheRight(Set(devs, s, w, lines, obeys)) <==> obeys || s.actual[w] == lines
  {
    var t := Set(devs, s, w, lines, obeys);
    if CacheRight(t) {
      assert t.cached[w] == Undefined || t.cached[w] == t.actual[w];
    }
  }

  // ----- operations -----

  /** What w1_select_device and w1_all_couplers_off are asked to do. */
  datatype Operation = Select(w: nat) | AllCouplersOff

  /** Which switches obey the commands sent to them. */
  type Obeys = nat -> bool

  function AllObey(): Obeys {
    n => true
  }

  /** Turning off, from device i on, every coupler but `spare`. */
  function OffFrom(devs: seq<Device>, s: Switches, i: nat, spare: Option<nat>, obeys: Obeys): (t: Switches)
    requires |devs| == |s.cached| == |s.actual| && i <= |devs|
    ensures |t.cached| == |t.actual| == |devs|
    decreases |devs| - i
  {
    if i == |devs| then s
    else OffFrom(devs, OffAt(devs, s, i, spare, obeys), i + 1, spare, obeys)
  }

  /** What the loop does for device i. */
  function OffAt(devs: seq<Device>, s: Switches, i: nat, spare: Option<nat>, obeys: Obeys): (t: Switches)
    requires i < |devs| == |s.cached| == |s.actual|
    ensures |t.cached| == |t.actual| == |devs|
  {
    if devs[i].isCoupler && spare != Some(i) then Set(devs, s, i, AllOff, obeys(i)) else s
  }

  function Spare(d: Device): Option<nat> {
    if d.branch.Some? then Some(d.branch.value.device) else None
  }

  /** The coupler an operation does not switch off. */
  function SpareOf(devs: seq<Device>, op: Operation): Option<nat>
    requires op.Select? ==> op.w < |devs|
  {
    if op.Select? then Spare(devs[op.w]) else None
  }

  /** The switching of one operation. */
  function Perform(devs: seq<Device>, s: Switches, op: Operation, obeys: Obeys): (t: Switches)
    requires |devs| == |s.cached| == |s.actual| && Configured(devs)
    requires op.Select? ==> op.w < |devs|
    ensures |t.cached| == |t.actual| == |devs|
  {
    var off := OffFrom(devs, s, 0, SpareOf(devs, op), obeys);
    if op.Select? && devs[op.w].branch.Some? then
      var b := devs[op.w].branch.value;
      Set(devs, off, b.device, b.lines, obeys(b.device))
    else off
  }

  /** What is on when an operation is done: nothing but the branch of the device selected. */
  function Wanted(devs: seq<Device>, op: Operation, i: nat): Lines
    requires Configured(devs) && (op.Select? ==> op.w < |devs|)
  {
    if op.Select? && devs[op.w].branch.Some? && devs[op.w].branch.value.device == i
    then devs[op.w].branch.value.lines else AllOff
  }

  predicate Switchable(d: Device) {
    d.isCoupler && d.hasPrivate
  }

  /** The loop tells every coupler but the spare one to switch off, those whose cache says off
      excepted; the cache then says off, and the switches that obey are off. */
  lemma {:induction false} OffFromIs(devs: seq<Device>, s: Switches, i: nat, spare: Option<nat>, obeys: Obeys)
    requires |devs| == |s.cached| == |s.actual| && i <= |devs|
    ensures var t := OffFrom(devs, s, i, spare, obeys);
            forall j :: 0 <= j < |devs| ==>
              if i <= j && Switchable(devs[j]) && spare != Some(j) then
                && t.cached[j] == AllOff
                && t.actual[j] == if s.cached[j] != AllOff && obeys(j) then AllOff else s.actual[j]
              else t.cached[j] == s.cached[j] && t.actual[j] == s.actual[j]
    decreases |devs| - i
  {
    if i < |devs| {
      OffFromIs(devs, OffAt(devs, s, i, spare, obeys), i + 1, spare, obeys);
    }
  }

  lemma ObeyedIs(devs: seq<Device>, s: Switches, op: Operation, obeys: Obeys, i: nat)
    requires Sound(devs, s) && (op.Select? ==> op.w < |devs|) && i < |devs|
    requires forall n :: obeys(n)
    ensures var t := Perform(devs, s, op, obeys);
            t.actual[i] == Wanted(devs, op, i) && (t.cached[i] == Undefined || t.cached[i] == t.actual[i])
  {
    hide OffFrom;
    OffFromIs(devs, s, 0, SpareOf(devs, op), obeys);
  }

  lemma WantedSound(devs: seq<Device>, t: Switches, op: Operation)
    requires |t.cached| == |t.actual| == |devs| && Configured(devs) && (op.Select? ==> op.w < |devs|)
    requires CacheRight(t) && forall i :: 0 <= i < |devs| ==> t.actual[i] == Wanted(devs, op, i)
    ensures Sound(devs, t) && OneBranch(t.actual)
  {}

  /** Each operation leaves the switches exactly as wanted, the cache right, and nothing else
      on, if the switches obey. */
  lemma PerformExact(devs: seq<Device>, s: Switches, op: Operation, obeys: Obeys)
    requires Sound(devs, s) && (op.Select? ==> op.w < |devs|)
    requires forall n :: obeys(n)
    ensures var t := Perform(devs, s, op, obeys);
            && Sound(devs, t) && OneBranch(t.actual)
            && forall i :: 0 <= i < |devs| ==> t.actual[i] == Wanted(devs, op, i)
  {
    hide Perform, Wanted;
    var t := Perform(devs, s, op, obeys);
    forall i | 0 <= i < |devs|
      ensures t.actual[i] == Wanted(devs, op, i) && (t.cached[i] == Undefined || t.cached[i] == t.actual[i])
    {
      ObeyedIs(devs, s, op, obeys, i);
    }
    WantedSound(devs, t, op);
  }

  // ----- switches that do not obey -----

  /** The branch is on, and no switch-off reaches it: none is sent, or it is not obeyed. */
  predicate StaysOn(devs: seq<Device>, s: Switches, j: nat, obeys: Obeys)
    requires j < |devs| == |s.cached| == |s.actual|
  {
    s.actual[j] != AllOff && !(Switchable(devs[j]) && s.cached[j] != AllOff && obeys(j))
  }

  /** The operation switches a branch on, that is, the command is sent and obeyed, while
      another stays on. */
  ghost predicate Doubles(devs: seq<Device>, s: Switches, op: Operation, obeys: Obeys)
    requires |devs| == |s.cached| == |s.actual| && Configured(devs)
    requires op.Select? ==> op.w < |devs|
  {
    && op.Select? && devs[op.w].branch.Some?
    && var b := devs[op.w].branch.value;
       && s.cached[b.device] != b.lines && obeys(b.device)
       && exists j :: 0 <= j < |devs| && j != b.device && StaysOn(devs, s, j, obeys)
  }

  /** No operation that switches nothing on adds a branch to those that are on. */
  lemma OffAddsNone(devs: seq<Device>, s: Switches, op: Operation, obeys: Obeys)
    requires |devs| == |s.cached| == |s.actual| && Configured(devs) && OneBranch(s.actual)
    requires op.Select? ==> op.w < |devs| && devs[op.w].branch.None?
    ensures OneBranch(Perform(devs, s, op, obeys).actual)
  {
    hide OffFrom;
    OffFromIs(devs, s, 0, None, obeys);
  }

  /** The switches after a selection with a branch, one by one. */
  lemma SelectionIs(devs: seq<Device>, s: Switches, w: nat, obeys: Obeys)
    requires |devs| == |s.cached| == |s.actual| && Configured(devs) && w < |devs| && devs[w].branch.Some?
    ensures var b := devs[w].branch.value;
            var t := Perform(devs, s, Select(w), obeys);
            && t.actual[b.device] == (if s.cached[b.device] != b.lines && obeys(b.device) then b.lines else s.actual[b.device])
            && forall j :: 0 <= j < |devs| && j != b.device ==>
                 t.actual[j] == if StaysOn(devs, s, j, obeys) then s.actual[j] else AllOff
  {
    hide OffFrom;
    OffFromIs(devs, s, 0, SpareOf(devs, Select(w)), obeys);
  }

  /** When two branches end up on together, from any state with at most one on, a cache that is
      wrong included, and for any obedience of the switches. */
  lemma TwoBranchesIff(devs: seq<Device>, s: Switches, op: Operation, obeys: Obeys)
    requires |devs| == |s.cached| == |s.actual| && Configured(devs) && OneBranch(s.actual)
    requires op.Select? ==> op.w < |devs|
    ensures OneBranch(Perform(devs, s, op, obeys).actual) <==> !Doubles(devs, s, op, obeys)
  {
    hide Perform;
    if op.Select? && devs[op.w].branch.Some? {
      SelectionIs(devs, s, op.w, obeys);
      var b := devs[op.w].branch.value;
      var t := Perform(devs, s, op, obeys);
      if Doubles(devs, s, op, obeys) {
        var j :| 0 <= j < |devs| && j != b.device && StaysOn(devs, s, j, obeys);
        assert t.actual[j] != AllOff && t.actual[b.device] != AllOff;
      } else {
        OneLeft(s.actual, t.actual, b.device);
      }
    } else {
      OffAddsNone(devs, s, op, obeys);
    }
  }

  /** One branch on is left one if the others only go off, and none of them is on when a new one comes on. */
  lemma OneLeft(before: seq<Lines>, after: seq<Lines>, b: nat)
    requires |before| == |after| && b < |before| && OneBranch(before)
    requires forall j :: 0 <= j < |before| && j != b && after[j] != AllOff ==> before[j] != AllOff
    requires after[b] == before[b] || forall j :: 0 <= j < |before| && j != b ==> after[j] == AllOff
    ensures OneBranch(after)
  {}

  /** The branch is on although the cache says it is off. */
  predicate Stuck(s: Switches, j: nat)
    requires j < |s.cached| == |s.actual|
  {
    s.cached[j] == AllOff && s.actual[j] != AllOff
  }

  /** The operation selects a device behind coupler j. */
  predicate Selects(devs: seq<Device>, op: Operation, j: nat) {
    op.Select? && op.w < |devs| && devs[op.w].branch.Some? && devs[op.w].branch.value.device == j
  }

  /** A branch is stuck after an operation exactly if it was on, its coupler was not the one
      selected, and it was stuck before or its switch did not obey. */
  lemma StuckIff(devs: seq<Device>, s: Switches, op: Operation, obeys: Obeys, j: nat)
    requires |devs| == |s.cached| == |s.actual| && Configured(devs) && (op.Select? ==> op.w < |devs|)
    requires j < |devs| && Switchable(devs[j])
    ensures Stuck(Perform(devs, s, op, obeys), j)
        <==> s.actual[j] != AllOff && !Selects(devs, op, j) && (s.cached[j] == AllOff || !obeys(j))
  {
    hide OffFrom;
    OffFromIs(devs, s, 0, SpareOf(devs, op), obeys);
  }

  /** An operation and the switches that obey in it. */
  datatype Step = Step(op: Operation, obeys: Obeys)

  predicate Possible(devs: seq<Device>, steps: seq<Step>) {
    forall i :: 0 <= i < |steps| && steps[i].op.Select? ==> steps[i].op.w < |devs|
  }

  /** The switches after a run of operations. */
  function After(devs: seq<Device>, s: Switches, steps: seq<Step>): (t: Switches)
    requires |devs| == |s.cached| == |s.actual| && Configured(devs) && Possible(devs, steps)
    ensures |t.cached| == |t.actual| == |devs|
    decreases |steps|
  {
    if steps == [] then s else After(devs, Perform(devs, s, steps[0].op, steps[0].obeys), steps[1..])
  }

  /** A stuck branch stays on over every run of operations that selects no device behind its
      coupler, however its switch would obey: no command is sent to it. */
  lemma {:induction false} StuckStays(devs: seq<Device>, s: Switches, steps: seq<Step>, j: nat)
    requires |devs| == |s.cached| == |s.actual| && Configured(devs) && Possible(devs, steps)
    requires j < |devs| && Stuck(s, j)
    requires forall i :: 0 <= i < |steps| ==> !Selects(devs, steps[i].op, j)
    ensures var t := After(devs, s, steps); Stuck(t, j) && t.actual[j] == s.actual[j]
    decreases |steps|
  {
    hide OffFrom;
    if steps != [] {
      OffFromIs(devs, s, 0, SpareOf(devs, steps[0].op), steps[0].obeys);
      StuckStays(devs, Perform(devs, s, steps[0].op, steps[0].obeys), steps[1..], j);
    }
  }

  /** Selecting a device behind the coupler, whether or not its switch obeys, ends that: the
      next operation that does not select it sends the switch-off, and if that is obeyed the
      branch is off. */
  lemma SelectionFrees(devs: seq<Device>, s: Switches, first: Step, next: Step, j: nat)
    requires |devs| == |s.cached| == |s.actual| && Configured(devs)
    requires next.op.Select? ==> next.op.w < |devs|
    requires j < |devs| && Stuck(s, j)
    requires Selects(devs, first.op, j) && !Selects(devs, next.op, j)
    ensures var t := Perform(devs, s, first.op, first.obeys);
            var u := Perform(devs, t, next.op, next.obeys);
            && !Stuck(t, j) && t.cached[j] != AllOff
            && (u.actual[j] == AllOff <==> next.obeys(j) || t.actual[j] == AllOff)
  {
    hide OffFrom;
    OffFromIs(devs, s, 0, SpareOf(devs, first.op), first.obeys);
    var t := Perform(devs, s, first.op, first.obeys);
    OffFromIs(devs, t, 0, SpareOf(devs, next.op), next.obeys);
  }

  // ----- every state on the way -----

  /** The switch positions after each device OffFrom looks at. */
  function OffTrace(devs: seq<Device>, s: Switches, i: nat, spare: Option<nat>, obeys: Obeys): seq<seq<Lines>>
    requires |devs| == |s.cached| == |s.actual| && i <= |devs|
    decreases |devs| - i
  {
    if i == |devs| then []
    else
      var next := OffAt(devs, s, i, spare, obeys);
      [next.actual] + OffTrace(devs, next, i + 1, spare, obeys)
  }

  /** The switch positions an operation passes through, the last one included. */
  function Trace(devs: seq<Device>, s: Switches, op: Operation, obeys: Obeys): seq<seq<Lines>>
    requires |devs| == |s.cached| == |s.actual| && Configured(devs)
    requires op.Select? ==> op.w < |devs|
  {
    OffTrace(devs, s, 0, SpareOf(devs, op), obeys) + [Perform(devs, s, op, obeys).actual]
  }

  /** All switch positions of a run of operations. */
  function RunTrace(devs: seq<Device>, s: Switches, steps: seq<Step>): seq<seq<Lines>>
    requires |devs| == |s.cached| == |s.actual| && Configured(devs) && Possible(devs, steps)
    decreases |steps|
  {
    if steps == [] then []
    else
      var t := Perform(devs, s, steps[0].op, steps[0].obeys);
      Trace(devs, s, steps[0].op, steps[0].obeys) + RunTrace(devs, t, steps[1..])
  }

  lemma {:induction false} OffTraceOneBranch(devs: seq<Device>, s: Switches, i: nat, spare: Option<nat>, obeys: Obeys)
    requires |devs| == |s.cached| == |s.actual| && OneBranch(s.actual) && i <= |devs|
    ensures forall a :: a in OffTrace(devs, s, i, spare, obeys) ==> OneBranch(a)
    decreases |devs| - i
  {
    if i < |devs| {
      OffTraceOneBranch(devs, OffAt(devs, s, i, spare, obeys), i + 1, spare, obeys);
    }
  }

  /** Step k of a run doubles in the state the steps before it have led to. */
  ghost predicate DoublesAt(devs: seq<Device>, s: Switches, steps: seq<Step>, k: nat)
    requires |devs| == |s.cached| == |s.actual| && Configured(devs) && Possible(devs, steps) && k < |steps|
  {
    Doubles(devs, After(devs, s, steps[..k]), steps[k].op, steps[k].obeys)
  }

  lemma DoublesLater(devs: seq<Device>, s: Switches, steps: seq<Step>, k: nat)
    requires |devs| == |s.cached| == |s.actual| && Configured(devs) && Possible(devs, steps) && k + 1 < |steps|
    ensures DoublesAt(devs, s, steps, k + 1)
        <==> DoublesAt(devs, Perform(devs, s, steps[0].op, steps[0].obeys), steps[1..], k)
  {
    hide Perform, Doubles;
    assert steps[..k + 1][1..] == steps[1..][..k];
  }

  lemma DoublesFirst(devs: seq<Device>, s: Switches, steps: seq<Step>)
    requires |devs| == |s.cached| == |s.actual| && Configured(devs) && Possible(devs, steps) && steps != []
    ensures DoublesAt(devs, s, steps, 0) <==> Doubles(devs, s, steps[0].op, steps[0].obeys)
  {}

  /** One operation: all positions it passes through are safe exactly if it does not double. */
  lemma TraceSafe(devs: seq<Device>, s: Switches, op: Operation, obeys: Obeys)
    requires |devs| == |s.cached| == |s.actual| && Configured(devs) && OneBranch(s.actual)
    requires op.Select? ==> op.w < |devs|
    ensures (forall a :: a in Trace(devs, s, op, obeys) ==> OneBranch(a)) <==> !Doubles(devs, s, op, obeys)
  {
    hide Perform, Doubles, OneBranch;
    TwoBranchesIff(devs, s, op, obeys);
    OffTraceOneBranch(devs, s, 0, SpareOf(devs, op), obeys);
    assert Perform(devs, s, op, obeys).actual in Trace(devs, s, op, obeys);
  }

  /** When a run is safe: at most one branch is on at every moment of it exactly if no step of it
      doubles, for any operations, any obedience of the switches, and whatever the cache holds. */
  lemma {:induction false} RunIff(devs: seq<Device>, s: Switches, steps: seq<Step>)
    requires |devs| == |s.cached| == |s.actual| && Configured(devs) && Possible(devs, steps) && OneBranch(s.actual)
    ensures (forall a :: a in RunTrace(devs, s, steps) ==> OneBranch(a))
        <==> forall k :: 0 <= k < |steps| ==> !DoublesAt(devs, s, steps, k)
    decreases |steps|
  {
    hide Perform, Doubles, OneBranch, DoublesAt, Trace;
    if steps != [] {
      var first := steps[0];
      var t := Perform(devs, s, first.op, first.obeys);
      DoublesFirst(devs, s, steps);
      TraceSafe(devs, s, first.op, first.obeys);
      if !Doubles(devs, s, first.op, first.obeys) {
        TwoBranchesIff(devs, s, first.op, first.obeys);
        RunIff(devs, t, steps[1..]);
        forall k: nat | k + 1 < |steps|
          ensures DoublesAt(devs, s, steps, k + 1) <==> DoublesAt(devs, t, steps[1..], k)
        {
          DoublesLater(devs, s, steps, k);
        }
        ShiftedAgree(devs, s, t, steps);
      }
    }
  }

  lemma ShiftedAgree(devs: seq<Device>, s: Switches, t: Switches, steps: seq<Step>)
    requires |devs| == |s.cached| == |s.actual| == |t.cached| == |t.actual| && Configured(devs) && Possible(devs, steps)
    requires steps != [] && !DoublesAt(devs, s, steps, 0)
    requires forall k: nat | k + 1 < |steps| :: DoublesAt(devs, s, steps, k + 1) <==> DoublesAt(devs, t, steps[1..], k)
    ensures (forall k :: 0 <= k < |steps| ==> !DoublesAt(devs, s, steps, k))
        <==> forall k :: 0 <= k < |steps[1..]| ==> !DoublesAt(devs, t, steps[1..], k)
  {
    hide DoublesAt;
    if forall k :: 0 <= k < |steps[1..]| ==> !DoublesAt(devs, t, steps[1..], k) {
      forall k | 0 <= k < |steps|
        ensures !DoublesAt(devs, s, steps, k)
      {
        if k > 0 {
          assert DoublesAt(devs, s, steps, k - 1 + 1) <==> DoublesAt(devs, t, steps[1..], k - 1);
        }
      }
    }
    if forall k :: 0 <= k < |steps| ==> !DoublesAt(devs, s, steps, k) {
      forall k | 0 <= k < |steps[1..]|
        ensures !DoublesAt(devs, t, steps[1..], k)
      {
        assert DoublesAt(devs, s, steps, k + 1) <==> DoublesAt(devs, t, steps[1..], k);
      }
    }
  }

  // ----- what a bus records -----

  /** The changes of position along a trace. */
  function Moves(from: seq<Lines>, trace: seq<seq<Lines>>): (moves: seq<seq<Lines>>)
    ensures forall a :: a in moves ==> a in trace
    decreases |trace|
  {
    if trace == [] then []
    else (if trace[0] == from then [] else [trace[0]]) + Moves(trace[0], trace[1..])
  }

  /** Where a trace ends. */
  function End(from: seq<Lines>, trace: seq<seq<Lines>>): seq<Lines> {
    if trace == [] then from else trace[|trace| - 1]
  }

  lemma EndAppend(from: seq<Lines>, a: seq<seq<Lines>>, b: seq<seq<Lines>>)
    ensures End(from, a + b) == End(End(from, a), b)
    ensures a != [] ==> End(a[0], a[1..]) == End(from, a)
  {}

  lemma MovesFirst(from: seq<Lines>, a: seq<Lines>, rest: seq<seq<Lines>>)
    ensures Moves(from, [a] + rest) == (if a == from then [] else [a]) + Moves(a, rest)
  {
    assert ([a] + rest)[1..] == rest;
  }

  lemma {:induction false} MovesAppend(from: seq<Lines>, a: seq<seq<Lines>>, b: seq<seq<Lines>>)
    ensures Moves(from, a + b) == Moves(from, a) + Moves(End(from, a), b)
    decreases |a|
  {
    hide Moves, End;
    EndAppend(from, a, b);
    if a == [] {
      NoMoves(from);
      assert a + b == b;
    } else {
      assert a == [a[0]] + a[1..] && a + b == [a[0]] + (a[1..] + b);
      MovesFirst(from, a[0], a[1..]);
      MovesFirst(from, a[0], a[1..] + b);
      MovesAppend(a[0], a[1..], b);
    }
  }

  lemma NoMoves(from: seq<Lines>)
    ensures Moves(from, []) == [] && End(from, []) == from
  {}

  /** Every position of a trace is where it started, or a move. */
  lemma {:induction false} MovesCover(from: seq<Lines>, trace: seq<seq<Lines>>, a: seq<Lines>)
    requires a in trace
    ensures a == from || a in Moves(from, trace)
    decreases |trace|
  {
    if a != trace[0] {
      assert a in trace[1..];
      MovesCover(trace[0], trace[1..], a);
    }
  }

  lemma {:induction false} OffTraceEnds(devs: seq<Device>, s: Switches, i: nat, spare: Option<nat>, obeys: Obeys)
    requires |devs| == |s.cached| == |s.actual| && i <= |devs|
    ensures End(s.actual, OffTrace(devs, s, i, spare, obeys)) == OffFrom(devs, s, i, spare, obeys).actual
    decreases |devs| - i
  {
    hide OffAt;
    if i < |devs| {
      var next := OffAt(devs, s, i, spare, obeys);
      OffTraceEnds(devs, next, i + 1, spare, obeys);
      EndAppend(s.actual, [next.actual], OffTrace(devs, next, i + 1, spare, obeys));
    }
  }

  /** The next device of the loop makes the next move, or none. */
  lemma OffMoves(devs: seq<Device>, s: Switches, i: nat, spare: Option<nat>, obeys: Obeys)
    requires i < |devs| == |s.cached| == |s.actual|
    ensures var next := OffAt(devs, s, i, spare, obeys);
            && OffFrom(devs, s, i, spare, obeys) == OffFrom(devs, next, i + 1, spare, obeys)
            && Moves(s.actual, OffTrace(devs, s, i, spare, obeys))
               == (if next.actual == s.actual then [] else [next.actual])
                  + Moves(next.actual, OffTrace(devs, next, i + 1, spare, obeys))
  {
    hide OffAt;
  }

  lemma OffDone(devs: seq<Device>, s: Switches, spare: Option<nat>, obeys: Obeys)
    requires |devs| == |s.cached| == |s.actual|
    ensures OffFrom(devs, s, |devs|, spare, obeys) == s
    ensures Moves(s.actual, OffTrace(devs, s, |devs|, spare, obeys)) == []
  {}

  lemma MoreMoves(h: seq<seq<Lines>>, from: seq<Lines>, to: seq<Lines>, rest: seq<seq<Lines>>)
    ensures h + ((if to == from then [] else [to]) + rest) == (if to == from then h else h + [to]) + rest
  {}

  lemma OffIsOff(devs: seq<Device>, s: Switches, obeys: Obeys)
    requires |devs| == |s.cached| == |s.actual| && Configured(devs)
    ensures Perform(devs, s, AllCouplersOff, obeys) == OffFrom(devs, s, 0, None, obeys)
  {}

  /** One move more, or none. */
  lemma MovesOne(from: seq<Lines>, to: seq<Lines>)
    ensures Moves(from, [to]) == if to == from then [] else [to]
  {
    assert [to][1..] == [];
  }

  /** The positions recorded in an operation: those of its switch-offs, and the last one. */
  lemma TraceMoves(devs: seq<Device>, s: Switches, op: Operation, obeys: Obeys)
    requires |devs| == |s.cached| == |s.actual| && Configured(devs)
    requires op.Select? ==> op.w < |devs|
    ensures var off := OffFrom(devs, s, 0, SpareOf(devs, op), obeys).actual;
            var t := Perform(devs, s, op, obeys).actual;
            Moves(s.actual, Trace(devs, s, op, obeys))
              == Moves(s.actual, OffTrace(devs, s, 0, SpareOf(devs, op), obeys)) + if t == off then [] else [t]
  {
    hide Moves, Perform, OffFrom, OffTrace;
    var offs := OffTrace(devs, s, 0, SpareOf(devs, op), obeys);
    var t := Perform(devs, s, op, obeys).actual;
    OffTraceEnds(devs, s, 0, SpareOf(devs, op), obeys);
    MovesAppend(s.actual, offs, [t]);
    MovesOne(End(s.actual, offs), t);
  }

  /** The record has grown from h to g by positions with at most one branch on. */
  ghost predicate Safe(h: seq<seq<Lines>>, g: seq<seq<Lines>>) {
    |h| <= |g| && g[..|h|] == h && forall a :: a in g[|h|..] ==> OneBranch(a)
  }

  /** From state s and record h to state t and record g, exactly these steps were made. */
  ghost predicate Did(devs: seq<Device>, s: Switches, h: seq<seq<Lines>>, steps: seq<Step>, t: Switches, g: seq<seq<Lines>>) {
    && |devs| == |s.cached| == |s.actual| && Configured(devs) && Possible(devs, steps)
    && t == After(devs, s, steps)
    && g == h + Moves(s.actual, RunTrace(devs, s, steps))
  }

  lemma DidNothing(devs: seq<Device>, s: Switches, h: seq<seq<Lines>>)
    requires |devs| == |s.cached| == |s.actual| && Configured(devs)
    ensures Did(devs, s, h, [], s, h)
  {
    assert h + [] == h;
  }

  lemma DidOne(devs: seq<Device>, s: Switches, h: seq<seq<Lines>>, step: Step, t: Switches, g: seq<seq<Lines>>)
    requires |devs| == |s.cached| == |s.actual| && Configured(devs)
    requires step.op.Select? ==> step.op.w < |devs|
    requires t == Perform(devs, s, step.op, step.obeys)
    requires g == h + Moves(s.actual, Trace(devs, s, step.op, step.obeys))
    ensures Did(devs, s, h, [step], t, g)
  {
    hide After, RunTrace, Trace, Moves, Perform;
    OneStep(devs, s, step);
  }

  lemma OneStep(devs: seq<Device>, s: Switches, step: Step)
    requires |devs| == |s.cached| == |s.actual| && Configured(devs)
    requires step.op.Select? ==> step.op.w < |devs|
    ensures Possible(devs, [step])
    ensures After(devs, s, [step]) == Perform(devs, s, step.op, step.obeys)
    ensures RunTrace(devs, s, [step]) == Trace(devs, s, step.op, step.obeys)
  {
    hide Perform, Trace;
    var one := [step];
    var t := Perform(devs, s, step.op, step.obeys);
    assert one[0] == step && one[1..] == [];
    assert After(devs, t, []) == t && RunTrace(devs, t, []) == [];
    assert RunTrace(devs, s, one) == Trace(devs, s, step.op, step.obeys) + RunTrace(devs, t, one[1..]);
  }

  lemma DidIs(devs: seq<Device>, s: Switches, h: seq<seq<Lines>>, step: Step, t: Switches, g: seq<seq<Lines>>)
    requires Did(devs, s, h, [step], t, g)
    ensures step.op.Select? ==> step.op.w < |devs|
    ensures t == Perform(devs, s, step.op, step.obeys)
  {
    hide Perform, After, RunTrace, Moves;
    PossibleOne(devs, step);
    OneStep(devs, s, step);
  }

  lemma PossibleOne(devs: seq<Device>, step: Step)
    ensures Possible(devs, [step]) <==> (step.op.Select? ==> step.op.w < |devs|)
  {
    assert [step][0] == step;
  }

  lemma {:induction false} RunAppend(devs: seq<Device>, s: Switches, a: seq<Step>, b: seq<Step>)
    requires |devs| == |s.cached| == |s.actual| && Configured(devs) && Possible(devs, a) && Possible(devs, b)
    ensures Possible(devs, a + b)
    ensures After(devs, s, a + b) == After(devs, After(devs, s, a), b)
    ensures RunTrace(devs, s, a + b) == RunTrace(devs, s, a) + RunTrace(devs, After(devs, s, a), b)
    decreases |a|
  {
    hide Perform, Trace;
    if a == [] {
      assert a + b == b;
    } else {
      var t := Perform(devs, s, a[0].op, a[0].obeys);
      assert (a + b)[1..] == a[1..] + b;
      RunAppend(devs, t, a[1..], b);
      assert RunTrace(devs, s, a + b)
          == Trace(devs, s, a[0].op, a[0].obeys) + (RunTrace(devs, t, a[1..]) + RunTrace(devs, After(devs, t, a[1..]), b));
    }
  }

  lemma {:induction false} RunEnds(devs: seq<Device>, s: Switches, steps: seq<Step>)
    requires |devs| == |s.cached| == |s.actual| && Configured(devs) && Possible(devs, steps)
    ensures End(s.actual, RunTrace(devs, s, steps)) == After(devs, s, steps).actual
    decreases |steps|
  {
    hide Perform, OffTrace;
    if steps != [] {
      var t := Perform(devs, s, steps[0].op, steps[0].obeys);
      RunEnds(devs, t, steps[1..]);
      EndAppend(s.actual, Trace(devs, s, steps[0].op, steps[0].obeys), RunTrace(devs, t, steps[1..]));
    }
  }

  /** Steps made one run after the other. */
  lemma DidThen(devs: seq<Device>, s: Switches, h: seq<seq<Lines>>, a: seq<Step>, t: Switches, g: seq<seq<Lines>>,
                b: seq<Step>, u: Switches, f: seq<seq<Lines>>)
    requires Did(devs, s, h, a, t, g) && Did(devs, t, g, b, u, f)
    ensures Did(devs, s, h, a + b, u, f)
  {
    hide After, RunTrace, Moves;
    RunAppend(devs, s, a, b);
    RunEnds(devs, s, a);
    MovesAppend(s.actual, RunTrace(devs, s, a), RunTrace(devs, t, b));
    assert h + Moves(s.actual, RunTrace(devs, s, a)) + Moves(t.actual, RunTrace(devs, t, b))
        == h + (Moves(s.actual, RunTrace(devs, s, a)) + Moves(t.actual, RunTrace(devs, t, b)));
  }

  // ----- runs in which the switch-offs are obeyed -----

  /** A coupler believed off is off. Weaker than a right cache: it survives a switch-on that failed. */
  ghost predicate Honest(devs: seq<Device>, s: Switches) {
    && |s.cached| == |s.actual| == |devs| && Configured(devs)
    && forall i :: 0 <= i < |devs| && (!Switchable(devs[i]) || s.cached[i] == AllOff) ==> s.actual[i] == AllOff
  }

  lemma SoundHonest(devs: seq<Device>, s: Switches)
    requires Sound(devs, s)
    ensures Honest(devs, s)
  {}

  /** Every coupler that is to be switched off obeys. */
  ghost predicate OffsObeyed(devs: seq<Device>, step: Step) {
    forall j :: 0 <= j < |devs| && !Selects(devs, step.op, j) ==> step.obeys(j)
  }

  lemma StepHonest(devs: seq<Device>, s: Switches, step: Step)
    requires Honest(devs, s) && (step.op.Select? ==> step.op.w < |devs|) && OffsObeyed(devs, step)
    ensures Honest(devs, Perform(devs, s, step.op, step.obeys)) && !Doubles(devs, s, step.op, step.obeys)
  {
    hide OffFrom;
    OffFromIs(devs, s, 0, SpareOf(devs, step.op), step.obeys);
  }

  lemma {:induction false} HonestNeverDoubles(devs: seq<Device>, s: Switches, steps: seq<Step>, k: nat)
    requires Honest(devs, s) && Possible(devs, steps) && k < |steps|
    requires forall i :: 0 <= i < |steps| ==> OffsObeyed(devs, steps[i])
    ensures !DoublesAt(devs, s, steps, k)
    decreases k
  {
    hide Perform, Doubles, OffsObeyed, DoublesAt;
    StepHonest(devs, s, steps[0]);
    if k == 0 {
      DoublesFirst(devs, s, steps);
    } else {
      DoublesLater(devs, s, steps, k - 1);
      HonestNeverDoubles(devs, Perform(devs, s, steps[0].op, steps[0].obeys), steps[1..], k - 1);
    }
  }

  /** At most one branch is on at any moment of any run of operations in which the switch-offs
      are obeyed, whatever becomes of the switch-ons. */
  lemma RunSafe(devs: seq<Device>, s: Switches, steps: seq<Step>)
    requires Honest(devs, s) && OneBranch(s.actual) && Possible(devs, steps)
    requires forall i :: 0 <= i < |steps| ==> OffsObeyed(devs, steps[i])
    ensures forall a :: a in RunTrace(devs, s, steps) ==> OneBranch(a)
  {
    hide OffsObeyed, DoublesAt, RunTrace;
    forall k | 0 <= k < |steps|
      ensures !DoublesAt(devs, s, steps, k)
    {
      HonestNeverDoubles(devs, s, steps, k);
    }
    RunIff(devs, s, steps);
  }

  /** From start-up on, with the caches undefined and the switches in whatever position: once the
      first w1_all_couplers_off has been obeyed, every such run is safe. */
  lemma StartUpSafe(devs: seq<Device>, s: Switches, obeys: Obeys, steps: seq<Step>)
    requires Sound(devs, s) && Possible(devs, steps)
    requires OffsObeyed(devs, Step(AllCouplersOff, obeys))
    requires forall i :: 0 <= i < |steps| ==> OffsObeyed(devs, steps[i])
    ensures forall a :: a in RunTrace(devs, Perform(devs, s, AllCouplersOff, obeys), steps) ==> OneBranch(a)
  {
    hide OffFrom, RunTrace;
    SoundHonest(devs, s);
    StepHonest(devs, s, Step(AllCouplersOff, obeys));
    OffFromIs(devs, s, 0, None, obeys);
    assert OneBranch(Perform(devs, s, AllCouplersOff, obeys).actual);
    hide OffsObeyed;
    RunSafe(devs, Perform(devs, s, AllCouplersOff, obeys), steps);
  }

  /** When what was recorded is safe: exactly if no step doubled. */
  lemma DidSafeIff(devs: seq<Device>, s: Switches, h: seq<seq<Lines>>, steps: seq<Step>, t: Switches, g: seq<seq<Lines>>)
    requires Did(devs, s, h, steps, t, g) && OneBranch(s.actual)
    ensures |h| <= |g| && g[..|h|] == h
    ensures Safe(h, g) <==> forall k :: 0 <= k < |steps| ==> !DoublesAt(devs, s, steps, k)
  {
    hide OneBranch, DoublesAt, RunTrace, After, Moves;
    RunIff(devs, s, steps);
    var trace := RunTrace(devs, s, steps);
    var moves := Moves(s.actual, trace);
    assert g == h + moves && g[..|h|] == h && g[|h|..] == moves;
    if forall a :: a in moves ==> OneBranch(a) {
      forall a | a in trace
        ensures OneBranch(a)
      {
        MovesCover(s.actual, trace, a);
      }
    }
    MovesFrom(s.actual, trace);
  }

  lemma MovesFrom(from: seq<Lines>, trace: seq<seq<Lines>>)
    ensures forall a :: a in Moves(from, trace) ==> a in trace
  {}

  /** Every position recorded over steps whose switch-offs are obeyed has at most one branch on. */
  lemma DidSafe(devs: seq<Device>, s: Switches, h: seq<seq<Lines>>, steps: seq<Step>, t: Switches, g: seq<seq<Lines>>)
    requires Did(devs, s, h, steps, t, g) && Honest(devs, s) && OneBranch(s.actual)
    requires forall i :: 0 <= i < |steps| ==> OffsObeyed(devs, steps[i])
    ensures Safe(h, g)
  {
    hide OneBranch, OffsObeyed, DoublesAt, Did;
    DidFacts(devs, s, h, steps, t, g);
    DidSafeIff(devs, s, h, steps, t, g);
    forall k | 0 <= k < |steps|
      ensures !DoublesAt(devs, s, steps, k)
    {
      HonestNeverDoubles(devs, s, steps, k);
    }
  }

  /** Obedient steps from a right cache record no position with two branches on. */
  lemma ObeyedSafe(devs: seq<Device>, s: Switches, h: seq<seq<Lines>>, steps: seq<Step>, t: Switches, g: seq<seq<Lines>>)
    requires Sound(devs, s) && OneBranch(s.actual) && Did(devs, s, h, steps, t, g)
    requires forall i :: 0 <= i < |steps| ==> steps[i].obeys == AllObey()
    ensures Safe(h, g)
  {
    hide Did, Sound, OneBranch;
    SoundHonest(devs, s);
    forall i | 0 <= i < |steps|
      ensures OffsObeyed(devs, steps[i])
    {
      assert forall n :: AllObey()(n);
    }
    DidSafe(devs, s, h, steps, t, g);
  }

  /** One operation records a position with two branches on exactly if it ends in one. */
  lemma DidOneSafe(devs: seq<Device>, s: Switches, h: seq<seq<Lines>>, step: Step, t: Switches, g: seq<seq<Lines>>)
    requires Did(devs, s, h, [step], t, g) && OneBranch(s.actual)
    ensures Safe(h, g) <==> OneBranch(t.actual)
  {
    hide Did, OneBranch, Doubles, DoublesAt;
    DidFacts(devs, s, h, [step], t, g);
    PossibleOne(devs, step);
    DidIs(devs, s, h, step, t, g);
    DidSafeIff(devs, s, h, [step], t, g);
    DoublesFirst(devs, s, [step]);
    TwoBranchesIff(devs, s, step.op, step.obeys);
  }

  lemma DidFacts(devs: seq<Device>, s: Switches, h: seq<seq<Lines>>, steps: seq<Step>, t: Switches, g: seq<seq<Lines>>)
    requires Did(devs, s, h, steps, t, g)
    ensures |devs| == |s.cached| == |s.actual| == |t.cached| == |t.actual| && Configured(devs) && Possible(devs, steps)
  {}
}
