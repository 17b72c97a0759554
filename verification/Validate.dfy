/** The reading filter w1_validate: range, rate of change and, for rain-gauge counters, order.
    Values are reals; rounding is not modelled. */
module Validate {

  /** Configuration of a sensor: which checks its flags enable, their bounds, and whether its
      abbreviation starts with RGC. */
  datatype Limits = Limits(hasMin: bool, rmin: real, hasMax: bool, rmax: real, hasRoc: bool, roc: real, counter: bool)

  datatype Verdict = Ok | Rate | Min | Max | Seq

  datatype Sensor = Sensor(value: real, lval: real, ltime: int, valid: bool, reason: Verdict)

  function Abs(x: real): real {
    if x < 0.0 then -x else x
  }

  predicate InRange(c: Limits, v: real) {
    (c.hasMin ==> c.rmin <= v) && (c.hasMax ==> v <= c.rmax)
  }

  /** The rate test, made only against an earlier reading of another time. */
  predicate TooFast(c: Limits, lval: real, ltime: int, v: real, logtime: int) {
    c.hasRoc && ltime > 0 && ltime != logtime
    && Abs(v - lval) * 60.0 / (logtime - ltime) as real > c.roc
  }

  /** w1_validate with `s.value` the new reading. */
  function Checked(c: Limits, s: Sensor, logtime: int): Sensor {
    var (v1, k1) := if c.hasMin && s.value < c.rmin then (if s.ltime != 0 then s.lval else c.rmin, Min) else (s.value, Ok);
    var (v2, k2) := if c.hasMax && v1 > c.rmax then (if s.ltime != 0 then s.lval else c.rmax, Max) else (v1, k1);
    var (v3, k3) := if k2 == Ok && TooFast(c, s.lval, s.ltime, v2, logtime) then (s.lval, Rate) else (v2, k2);
    var (v4, k4) := if k3 == Ok && c.counter && v3 < s.lval then (s.lval, Seq) else (v3, k3);
    if k4 == Ok then Sensor(v4, v4, logtime, true, k3)
    else Sensor(v4, s.lval, s.ltime, false, k3)
  }

  class SensorCell {
    const limits: Limits
    var value: real
    var lval: real
    var ltime: int
    var valid: bool
    var reason: Verdict

    ghost function Now(): Sensor
      reads this
    {
      Sensor(value, lval, ltime, valid, reason)
    }

    constructor (c: Limits)
      ensures limits == c && Now() == Sensor(0.0, 0.0, 0, false, Ok)
    {
      limits := c;
      value, lval, ltime, valid, reason := 0.0, 0.0, 0, false, Ok;
    }

    method W1Validate(logtime: int) returns (ok: bool)
      modifies this
      ensures Now() == Checked(limits, old(Now()), logtime)
      ensures ok == valid
    {
      var chk := Ok;
      if limits.hasMin && value < limits.rmin {
        value := if ltime != 0 then lval else limits.rmin;
        chk := Min;
      }
      if limits.hasMax && value > limits.rmax {
        value := if ltime != 0 then lval else limits.rmax;
        chk := Max;
      }
      if chk == Ok && limits.hasRoc {
        if ltime > 0 && ltime != logtime {
          var rate := Abs(value - lval) * 60.0 / (logtime - ltime) as real;
          if rate > limits.roc {
            value := lval;
            chk := Rate;
          }
        }
      }
      reason := chk;
      if chk == Ok && limits.counter {
        if value < lval {
          value := lval;
          chk := Seq;
        }
      }
      if chk == Ok {
        ltime := logtime;
        lval := value;
        valid := true;
      } else {
        valid := false;
      }
      ok := valid;
    }
  }

  // ----- one reading -----

  /** Two values no further apart than the rate per minute allows in `seconds`. */
  predicate Within(roc: real, v: real, w: real, seconds: int) {
    Abs(v - w) * 60.0 <= roc * seconds as real
  }

  /** Rates add up over successive spans. */
  lemma WithinChain(roc: real, u: real, v: real, w: real, x: int, y: int)
    requires Within(roc, u, v, x) && Within(roc, v, w, y)
    ensures Within(roc, u, w, x + y)
  {
    var p, q := x as real, y as real;
    assert (x + y) as real == p + q;
    assert roc * (p + q) == roc * p + roc * q;
    assert Abs(u - w) <= Abs(u - v) + Abs(v - w);
  }

  lemma RateBound(x: real, d: real, roc: real)
    requires d > 0.0
    ensures x / d > roc <==> x > roc * d
  {
    var q := x / d;
    assert x == q * d;
    if q > roc {
      assert (q - roc) * d > 0.0;
    } else {
      assert (roc - q) * d >= 0.0;
    }
  }

  /** With a later time, a reading is accepted exactly if it is in range, changes by no more
      than the rate allows since the last accepted one, and does not fall below it if it is a
      rain-gauge count. It is then reported and kept as it is. */
  lemma AcceptedIff(c: Limits, s: Sensor, logtime: int)
    requires logtime > s.ltime >= 0
    ensures var t := Checked(c, s, logtime);
            && (t.valid <==>
                 && (c.hasMin ==> c.rmin <= s.value) && (c.hasMax ==> s.value <= c.rmax)
                 && (c.hasRoc && s.ltime > 0 ==>
                      (if s.value < s.lval then s.lval - s.value else s.value - s.lval) * 60.0
                        <= c.roc * (logtime - s.ltime) as real)
                 && (c.counter ==> s.lval <= s.value))
            && (t.valid ==> t.value == t.lval == s.value && t.ltime == logtime)
  {
    RateBound(Abs(s.value - s.lval) * 60.0, (logtime - s.ltime) as real, c.roc);
  }

  /** A rejected reading changes neither the last accepted value nor its time; what is shown
      instead is the last accepted value once there is one. */
  lemma RejectedKeeps(c: Limits, s: Sensor, logtime: int)
    requires !Checked(c, s, logtime).valid
    ensures var t := Checked(c, s, logtime);
            t.lval == s.lval && t.ltime == s.ltime && (s.ltime != 0 ==> t.value == s.lval)
  {}

  /** Why a reading was rejected and what is shown instead, for consistent bounds that the last
      accepted value meets: out of range takes precedence over the rate, the rate over the order of
      a rain-gauge count, which leaves no reason. Before anything has been accepted the bound that
      was broken is shown. */
  lemma RejectedIs(c: Limits, s: Sensor, logtime: int)
    requires logtime > s.ltime >= 0 && (c.hasMin && c.hasMax ==> c.rmin <= c.rmax)
    requires s.ltime != 0 ==> (c.hasMin ==> c.rmin <= s.lval) && (c.hasMax ==> s.lval <= c.rmax)
    ensures var t := Checked(c, s, logtime);
            var low := c.hasMin && s.value < c.rmin;
            var high := c.hasMax && s.value > c.rmax;
            var fast := !low && !high && c.hasRoc && s.ltime > 0
                        && Abs(s.value - s.lval) * 60.0 > c.roc * (logtime - s.ltime) as real;
            && t.reason == (if low then Min else if high then Max else if fast then Rate else Ok)
            && (t.valid <==> t.reason == Ok && !(c.counter && s.value < s.lval))
            && (!t.valid ==> t.value == if low && s.ltime == 0 then c.rmin else if high && s.ltime == 0 then c.rmax else s.lval)
  {
    RateBound(Abs(s.value - s.lval) * 60.0, (logtime - s.ltime) as real, c.roc);
  }

  lemma NegativeRate(x: real, d: real)
    requires x >= 0.0 && d < 0.0
    ensures x / d <= 0.0
  {
    var q := x / d;
    assert x == q * d;
    assert q > 0.0 ==> q * -d > 0.0;
  }

  /** The rate is checked only against an earlier time. A reading at the time of the last
      accepted one (as a forced pass makes, which does not set the log time) or before it is
      accepted however far it jumps, if range and order allow. */
  lemma RateNotCheckedIff(c: Limits, s: Sensor, logtime: int)
    requires c.hasRoc && c.roc >= 0.0 && s.ltime > 0 && logtime <= s.ltime
    ensures Checked(c, s, logtime).valid <==> InRange(c, s.value) && (c.counter ==> s.lval <= s.value)
  {
    if logtime < s.ltime {
      NegativeRate(Abs(s.value - s.lval) * 60.0, (logtime - s.ltime) as real);
    }
  }

  /** When an accepted reading obeys the rate against the last accepted one: always at a later
      time; at the same time exactly if it repeats the value; before it exactly if it repeats the
      value and the rate allowed is zero. */
  lemma RateHeldIff(c: Limits, s: Sensor, logtime: int)
    requires c.hasRoc && c.roc >= 0.0 && s.ltime > 0 && Checked(c, s, logtime).valid
    ensures Within(c.roc, s.value, s.lval, logtime - s.ltime)
        <==> logtime > s.ltime || (s.value == s.lval && (logtime == s.ltime || c.roc == 0.0))
  {
    if logtime > s.ltime {
      AcceptedIff(c, s, logtime);
    } else if logtime < s.ltime {
      NegativeSpan(c.roc, (logtime - s.ltime) as real);
    }
  }

  lemma NegativeSpan(roc: real, d: real)
    requires roc >= 0.0 && d < 0.0
    ensures roc * d <= 0.0
    ensures roc * d == 0.0 <==> roc == 0.0
  {
    if roc > 0.0 {
      assert roc * -d > 0.0;
    }
  }

  // ----- a run of readings -----

  datatype Reading = Reading(value: real, time: int)

  /** The readings a run accepts, in order. */
  function Accepted(c: Limits, s: Sensor, run: seq<Reading>): seq<Reading>
    decreases |run|
  {
    if run == [] then []
    else
      var t := Checked(c, s.(value := run[0].value), run[0].time);
      (if t.valid then [run[0]] else []) + Accepted(c, t, run[1..])
  }

  /** Log times strictly increase, from after the last accepted one. */
  ghost predicate Ticks(last: int, run: seq<Reading>)
  {
    && (forall i :: 0 <= i < |run| ==> run[i].time > last)
    && (forall i, j :: 0 <= i < j < |run| ==> run[i].time < run[j].time)
  }

  /** One reading of a run: what the state after it is, and that the rest of the run starts from it. */
  lemma Turn(c: Limits, s: Sensor, run: seq<Reading>)
    requires s.ltime >= 0 && Ticks(s.ltime, run) && run != []
    ensures var t := Checked(c, s.(value := run[0].value), run[0].time);
            && t.ltime >= 0 && Ticks(t.ltime, run[1..])
            && (!t.valid ==> t.lval == s.lval && t.ltime == s.ltime)
            && (t.valid ==>
                  && t.lval == run[0].value && t.ltime == run[0].time > s.ltime && InRange(c, run[0].value)
                  && (c.hasRoc && s.ltime > 0 ==> Within(c.roc, run[0].value, s.lval, run[0].time - s.ltime))
                  && (c.counter ==> s.lval <= run[0].value))
  {
    hide Checked;
    AcceptedIff(c, s.(value := run[0].value), run[0].time);
    RestTicks(c, s, run);
  }

  /** Every accepted reading of a run: in range, later than the last one kept before the run,
      within the rate of it, and not below it for a counter. */
  lemma {:induction false} AcceptedFromLast(c: Limits, s: Sensor, run: seq<Reading>, k: nat)
    requires s.ltime >= 0 && Ticks(s.ltime, run) && k < |Accepted(c, s, run)|
    ensures var a := Accepted(c, s, run)[k];
            && InRange(c, a.value) && a.time > s.ltime
            && (c.hasRoc && s.ltime > 0 ==> Within(c.roc, a.value, s.lval, a.time - s.ltime))
            && (c.counter ==> s.lval <= a.value)
    decreases |run|
  {
    hide Within, Checked, InRange, Ticks, Accepted;
    NoneAccepted(c, s);
    var t := Checked(c, s.(value := run[0].value), run[0].time);
    Turn(c, s, run);
    AcceptedHead(c, s, run);
    if !t.valid {
      AcceptedFromLast(c, t, run[1..], k);
    } else if k > 0 {
      AcceptedFromLast(c, t, run[1..], k - 1);
      var a := Accepted(c, t, run[1..])[k - 1];
      if c.hasRoc && s.ltime > 0 {
        WithinChain(c.roc, a.value, t.lval, s.lval, a.time - t.ltime, t.ltime - s.ltime);
      }
    }
  }

  lemma NoneAccepted(c: Limits, s: Sensor)
    ensures Accepted(c, s, []) == []
  {}

  lemma AcceptedHead(c: Limits, s: Sensor, run: seq<Reading>)
    requires run != []
    ensures var t := Checked(c, s.(value := run[0].value), run[0].time);
            Accepted(c, s, run) == if t.valid then [run[0]] + Accepted(c, t, run[1..]) else Accepted(c, t, run[1..])
  {
    hide Checked;
    var t := Checked(c, s.(value := run[0].value), run[0].time);
    assert [] + Accepted(c, t, run[1..]) == Accepted(c, t, run[1..]);
  }

  /** The rest of a run starts from the state its first reading leaves. */
  lemma RestTicks(c: Limits, s: Sensor, run: seq<Reading>)
    requires run != [] && Ticks(s.ltime, run)
    ensures var t := Checked(c, s.(value := run[0].value), run[0].time);
            Ticks(t.ltime, run[1..]) && (!t.valid ==> t.lval == s.lval && t.ltime == s.ltime)
  {
    hide TooFast;
  }

  /** Over a run with increasing times: every accepted value is in range; any two, however far
      apart, obey the rate between them; and the counts of a rain gauge never fall. */
  lemma {:induction false} RunBounded(c: Limits, s: Sensor, run: seq<Reading>, i: nat, j: nat)
    requires s.ltime >= 0 && Ticks(s.ltime, run) && i < j < |Accepted(c, s, run)|
    ensures var a, b := Accepted(c, s, run)[i], Accepted(c, s, run)[j];
            && InRange(c, a.value) && InRange(c, b.value) && a.time < b.time
            && (c.hasRoc ==> Within(c.roc, b.value, a.value, b.time - a.time))
            && (c.counter ==> a.value <= b.value)
    decreases |run|
  {
    hide Within, Checked, InRange, Ticks, Accepted;
    NoneAccepted(c, s);
    var t := Checked(c, s.(value := run[0].value), run[0].time);
    Turn(c, s, run);
    AcceptedHead(c, s, run);
    if !t.valid {
      RunBounded(c, t, run[1..], i, j);
    } else if i > 0 {
      RunBounded(c, t, run[1..], i - 1, j - 1);
    } else {
      AcceptedFromLast(c, t, run[1..], j - 1);
    }
  }

  /** Without increasing times the bound fails: two readings with one log time, far apart. */
  lemma SameTimeEscapes()
    ensures exists c: Limits, s: Sensor, run: seq<Reading> ::
      && c.hasRoc && s.ltime == 0 && |run| == 2 && run[0].time == run[1].time > 0
      && Accepted(c, s, run) == run
      && !Within(c.roc, run[1].value, run[0].value, run[1].time - run[0].time)
  {
    var c := Limits(false, 0.0, false, 0.0, true, 1.0, false);
    var s := Sensor(0.0, 0.0, 0, false, Ok);
    var run := [Reading(0.0, 1), Reading(100.0, 1)];
    var t := Checked(c, s.(value := 0.0), 1);
    assert t == Sensor(0.0, 0.0, 1, true, Ok);
    assert Checked(c, t.(value := 100.0), 1).valid;
    assert run[1..] == [Reading(100.0, 1)];
    var u := Checked(c, t.(value := 100.0), 1);
    assert run[1..][1..] == [];
    assert Accepted(c, u, []) == [];
    assert Accepted(c, t, run[1..]) == [run[1]];
    assert Accepted(c, s, run) == run;
  }
}
