/** The wait-and-read loop of w1retap.c: when it wakes, and which devices it then reads. */
module Timetable {
  import opened Arith
  import opened Intervals

  /** One turn of the waiting loop: the time it reads before sleeping, and whether a signal
      ends the sleep before its time. A sleep that is not interrupted ends on time. */
  datatype Sleep = Sleep(start: nat, interrupted: bool)

  /** The absolute time a sleep is set to end at. */
  function WakeTime(now: nat, delay: nat): nat
    requires delay >= 1
  {
    (now / delay) * delay + delay
  }

  /** It is the least multiple of the period after now. */
  lemma WakeIsNext(now: nat, delay: nat)
    requires delay >= 1
    ensures var w := WakeTime(now, delay);
            && w % delay == 0 && now < w <= now + delay
            && forall t :: t % delay == 0 && t > now ==> t >= w
  {
    var q := now / delay;
    var w := WakeTime(now, delay);
    Quotient(now, delay);
    Distribute(delay, q, 1);
    Multiple(w, delay, q + 1);
    Multiple(w - delay, delay, q);
    forall t | t % delay == 0 && t > now
      ensures t >= w
    {
      Apart(w - delay, t, delay);
    }
  }

  /** When the loop has come to rest again after a sleep: its wake time, or, if a signal cut
      the sleep short, no later than the time it started. */
  function Rested(s: Sleep, delay: nat): nat
    requires delay >= 1
  {
    if s.interrupted then s.start else WakeTime(s.start, delay)
  }

  /** The clock does not go back: what a turn reads is not before what came before it. */
  ghost predicate Clock(delay: nat, sleeps: seq<Sleep>)
    requires delay >= 1
  {
    forall i, j :: 0 <= i < j < |sleeps| && j == i + 1 ==> Rested(sleeps[i], delay) <= sleeps[j].start
  }

  lemma ClockRest(delay: nat, sleeps: seq<Sleep>)
    requires delay >= 1 && |sleeps| >= 2 && Clock(delay, sleeps)
    ensures Clock(delay, sleeps[1..])
    ensures Rested(sleeps[0], delay) <= sleeps[1].start <= Rested(sleeps[1], delay)
  {
    WakeIsNext(sleeps[1].start, delay);
  }

  /** The times at which a timed reading pass starts. */
  function Wakes(delay: nat, sleeps: seq<Sleep>): seq<nat>
    requires delay >= 1
  {
    if sleeps == [] then []
    else (if sleeps[0].interrupted then [] else [WakeTime(sleeps[0].start, delay)]) + Wakes(delay, sleeps[1..])
  }

  lemma RequestIsWake(now: nat, delay: nat, req: nat)
    requires delay >= 1 && req == (now / delay) * delay + delay
    ensures req == WakeTime(now, delay)
  {}

  /** The loop as written: sleep again after a signal, otherwise take the time and read. */
  method TimedPasses(delay: nat, sleeps: seq<Sleep>) returns (passes: seq<nat>)
    requires delay >= 1
    ensures passes == Wakes(delay, sleeps)
  {
    hide WakeTime, Wakes;
    passes := [];
    var i := 0;
    assert sleeps[0..] == sleeps;
    while i < |sleeps|
      invariant 0 <= i <= |sleeps|
      invariant passes + Wakes(delay, sleeps[i..]) == Wakes(delay, sleeps)
    {
      NextWake(delay, sleeps, i);
      var req := (sleeps[i].start / delay) * delay + delay;
      RequestIsWake(sleeps[i].start, delay, req);
      if !sleeps[i].interrupted {
        passes := passes + [req];
      }
      i := i + 1;
    }
    NoWake(delay);
    assert sleeps[i..] == [];
  }

  lemma NextWake(delay: nat, sleeps: seq<Sleep>, i: nat)
    requires delay >= 1 && i < |sleeps|
    ensures Wakes(delay, sleeps[i..]) ==
      (if sleeps[i].interrupted then [] else [WakeTime(sleeps[i].start, delay)]) + Wakes(delay, sleeps[i + 1..])
  {
    hide WakeTime;
    assert sleeps[i..][1..] == sleeps[i + 1..];
  }

  lemma NoWake(delay: nat)
    requires delay >= 1
    ensures Wakes(delay, []) == []
  {}

  /** The loop was busy over time t: a pass, or the work a signal asked for, began before t
      and was not over by t. */
  ghost predicate Busy(delay: nat, sleeps: seq<Sleep>, t: int)
    requires delay >= 1
  {
    exists i :: 0 <= i < |sleeps| - 1 && Rested(sleeps[i], delay) < t <= sleeps[i + 1].start
  }

  /** Every wake-up lies after the time the loop started waiting, and on a multiple of the period. */
  lemma {:induction false} WakesLater(delay: nat, sleeps: seq<Sleep>, t: nat)
    requires delay >= 1 && sleeps != [] && Clock(delay, sleeps) && t in Wakes(delay, sleeps)
    ensures t > sleeps[0].start && t % delay == 0
    decreases |sleeps|
  {
    hide WakeTime;
    WakeIsNext(sleeps[0].start, delay);
    if sleeps[0].interrupted || t != WakeTime(sleeps[0].start, delay) {
      var rest := sleeps[1..];
      assert t in Wakes(delay, rest);
      assert rest != [];
      ClockRest(delay, sleeps);
      WakesLater(delay, rest, t);
    }
  }

  lemma BusyLater(delay: nat, sleeps: seq<Sleep>, t: int)
    requires delay >= 1 && |sleeps| >= 2
    ensures Busy(delay, sleeps, t) <==>
      Rested(sleeps[0], delay) < t <= sleeps[1].start || Busy(delay, sleeps[1..], t)
  {
    hide WakeTime;
    var rest := sleeps[1..];
    if Busy(delay, sleeps, t) {
      var i :| 0 <= i < |sleeps| - 1 && Rested(sleeps[i], delay) < t <= sleeps[i + 1].start;
      if i > 0 {
        assert rest[i - 1] == sleeps[i] && rest[i - 1 + 1] == sleeps[i + 1];
      }
    }
    if Busy(delay, rest, t) {
      var i :| 0 <= i < |rest| - 1 && Rested(rest[i], delay) < t <= rest[i + 1].start;
      assert rest[i] == sleeps[i + 1] && rest[i + 1] == sleeps[i + 1 + 1];
    }
  }

  lemma {:induction false} BusyAfter(delay: nat, sleeps: seq<Sleep>, t: int)
    requires delay >= 1 && sleeps != [] && Clock(delay, sleeps) && Busy(delay, sleeps, t)
    ensures t > Rested(sleeps[0], delay)
    decreases |sleeps|
  {
    hide WakeTime;
    BusyLater(delay, sleeps, t);
    if !(Rested(sleeps[0], delay) < t <= sleeps[1].start) {
      var rest := sleeps[1..];
      ClockRest(delay, sleeps);
      BusyAfter(delay, rest, t);
      WakeIsNext(sleeps[1].start, delay);
    }
  }

  lemma OneWake(delay: nat, sleeps: seq<Sleep>)
    requires delay >= 1 && |sleeps| == 1 && !sleeps[0].interrupted
    ensures Wakes(delay, sleeps) == [WakeTime(sleeps[0].start, delay)]
  {
    assert sleeps[1..] == [] && Wakes(delay, []) == [];
  }

  lemma NeverBusy(delay: nat, sleeps: seq<Sleep>, t: int)
    requires delay >= 1 && |sleeps| == 1
    ensures !Busy(delay, sleeps, t)
  {}

  /** Up to the end of the run, the loop wakes at a multiple of the period exactly if it was
      not busy over it: nothing is skipped without cause, and nothing that was slept through
      is made up for. */
  lemma {:induction false} WakesExact(delay: nat, sleeps: seq<Sleep>, t: nat)
    requires delay >= 1 && sleeps != [] && Clock(delay, sleeps)
    requires !sleeps[|sleeps| - 1].interrupted
    requires t % delay == 0 && sleeps[0].start < t <= WakeTime(sleeps[|sleeps| - 1].start, delay)
    ensures t in Wakes(delay, sleeps) <==> !Busy(delay, sleeps, t)
    decreases |sleeps|
  {
    hide WakeTime, Busy, Clock;
    var first := sleeps[0];
    WakeIsNext(first.start, delay);
    var w := WakeTime(first.start, delay);
    if |sleeps| == 1 {
      OneWake(delay, sleeps);
      NeverBusy(delay, sleeps, t);
    } else {
      var rest := sleeps[1..];
      ClockRest(delay, sleeps);
      assert rest[|rest| - 1] == sleeps[|sleeps| - 1];
      BusyLater(delay, sleeps, t);
      if t > sleeps[1].start {
        WakesExact(delay, rest, t);
      } else {
        if t in Wakes(delay, rest) { WakesLater(delay, rest, t); }
        WakeIsNext(sleeps[1].start, delay);
        if Busy(delay, rest, t) { BusyAfter(delay, rest, t); }
      }
    }
  }

  /** w1_read_all_sensors reads a device in a pass begun at `secs`; a pass at time zero, as at
      start-up and on request, reads all. */
  predicate Due(secs: nat, intvl: nat) {
    secs == 0 || intvl == 0 || secs % intvl == 0
  }

  /** In plain terms: when the time is a multiple of the interval, or the interval is zero. */
  lemma DueIff(secs: nat, intvl: nat)
    ensures Due(secs, intvl) <==> intvl == 0 || exists k: nat :: secs == k * intvl
  {
    if intvl != 0 {
      if secs % intvl == 0 {
        Quotient(secs, intvl);
        assert secs == (secs / intvl) * intvl;
      }
      if k: nat :| secs == k * intvl {
        Multiple(secs, intvl, k);
      }
      if secs == 0 {
        assert secs == 0 * intvl;
      }
    }
  }

  /** A run that ends with a pass, each pass over before the next wake-up, and the work a signal
      asked for over before the wake-up it delays. */
  ghost predicate Punctual(delay: nat, sleeps: seq<Sleep>)
    requires delay >= 1
  {
    && sleeps != [] && Clock(delay, sleeps) && !sleeps[|sleeps| - 1].interrupted
    && forall i :: 0 <= i < |sleeps| - 1 ==>
         sleeps[i + 1].start < if sleeps[i].interrupted then WakeTime(sleeps[i].start, delay)
                               else WakeTime(sleeps[i].start, delay) + delay
  }

  /** The time lies within the run: after the loop first waits, up to its last wake-up. */
  predicate Within(delay: nat, sleeps: seq<Sleep>, t: nat)
    requires delay >= 1 && sleeps != []
  {
    sleeps[0].start < t <= WakeTime(sleeps[|sleeps| - 1].start, delay)
  }

  /** With normal intervals and a punctual run a device is read at every multiple of its interval
      and at no other timed wake-up. */
  lemma ReadExactlyAtMultiples(delay: nat, sleeps: seq<Sleep>, intvl: nat, t: nat)
    requires delay >= 1 && intvl >= 1 && intvl % delay == 0
    requires Punctual(delay, sleeps) && Within(delay, sleeps, t)
    ensures t in Wakes(delay, sleeps) && Due(t, intvl) <==> t % intvl == 0
  {
    if t % intvl == 0 {
      Through(t, intvl, delay);
      if Busy(delay, sleeps, t) {
        var i :| 0 <= i < |sleeps| - 1 && Rested(sleeps[i], delay) < t <= sleeps[i + 1].start;
        WakeIsNext(sleeps[i].start, delay);
        if !sleeps[i].interrupted {
          Apart(WakeTime(sleeps[i].start, delay), t, delay);
        }
        assert false;
      }
      WakesExact(delay, sleeps, t);
    }
  }

  /** The same for the intervals and the period w1_verify_intervals settles on, whatever was configured. */
  lemma NormalTimetable(vs: seq<int>, delay: int, sleeps: seq<Sleep>, n: nat, t: nat)
    requires delay >= 1 && n < |vs| && Period(vs, delay) >= 1
    requires Punctual(Period(vs, delay), sleeps) && Within(Period(vs, delay), sleeps, t)
    ensures t in Wakes(Period(vs, delay), sleeps) && Due(t, Normal(vs, delay)[n]) <==> t % Normal(vs, delay)[n] == 0
  {
    hide Period, Normal, WakeTime, Clock, Within, Due;
    NormalFacts(vs, delay);
    ReadExactlyAtMultiples(Period(vs, delay), sleeps, Normal(vs, delay)[n], t);
  }

  /** The test that writes the temporary log, with the remainder of C, where -1 divides everything. */
  predicate CycleDone(now: nat, cycle: int)
    requires cycle != 0
  {
    now % (if cycle < 0 then -cycle else cycle) == 0
  }

  /** What the main loop does after a pass: hand its values to the loggers, write the temporary log. */
  datatype Actions = Actions(log: bool, temporaryLog: bool)

  /** With the cycle w1_verify_intervals leaves, values are logged whenever there are some; the
      temporary log is written with them if it is wanted and the time is a multiple of every
      interval, or always if w1_lcm gave up. */
  method AfterPass(nv: nat, logtmp: bool, now: nat, cycle: int, ghost intvls: seq<nat>) returns (done: Actions)
    requires forall i :: 0 <= i < |intvls| ==> intvls[i] > 0
    requires cycle == -1 || IsLcm(cycle, intvls)
    ensures done.log <==> nv != 0
    ensures done.temporaryLog
        <==> nv != 0 && logtmp && (cycle == -1 || forall i :: 0 <= i < |intvls| ==> now % intvls[i] == 0)
  {
    done := Actions(false, false);
    if nv != 0 {
      done := done.(log := true);
      if cycle != -1 {
        CommonIffMultiple(intvls, cycle, now);
      }
      if logtmp && CycleDone(now, cycle) {
        done := done.(temporaryLog := true);
      }
    }
  }

  /** When the cycle is the least common multiple, the test holds exactly when all devices are
      due; when w1_lcm gave up with -1, at every time. */
  lemma CycleTest(intvls: seq<nat>, lcm: int, now: nat)
    requires forall i :: 0 <= i < |intvls| ==> intvls[i] > 0
    requires IsLcm(lcm, intvls)
    ensures CycleDone(now, lcm) <==> now == 0 || forall i :: 0 <= i < |intvls| ==> Due(now, intvls[i])
    ensures CycleDone(now, -1)
  {
    CommonIffMultiple(intvls, lcm, now);
    if now == 0 {
      Multiple(0, lcm, 0);
    }
  }
}
