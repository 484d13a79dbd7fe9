/**
 The two polling helpers of the end-to-end harnesses, against a clock that
 never runs backwards and a sleep that lasts at least as long as asked.
 */
module Waiting {
  import opened Basics

  const INTERVAL: real := 0.05

  /**
   The world a harness polls: a condition that holds a value at some times and
   none at others, and the time. Time may pass anywhere. The log keeps when the
   condition was looked at, what the clock read, and how often the poller slept.
   */
  class World<V> {
    const cond: real -> Option<V>
    var now: real
    var samples: seq<real>
    var readings: seq<real>
    var sleeps: nat

    constructor (cond: real -> Option<V>, start: real)
      ensures this.cond == cond && now == start && samples == [] && readings == [] && sleeps == 0
    {
      this.cond, now, samples, readings, sleeps := cond, start, [], [], 0;
    }

    method Monotonic() returns (t: real)
      modifies `now, `readings
      ensures t == now && now >= old(now)
      ensures readings == old(readings) + [t]
    {
      var passed: real :| passed >= 0.0;
      now := now + passed;
      t := now;
      readings := readings + [t];
    }

    method Probe() returns (got: Option<V>)
      modifies `now, `samples
      ensures |samples| == |old(samples)| + 1 && samples == old(samples) + [samples[|old(samples)|]]
      ensures old(now) <= samples[|old(samples)|] <= now
      ensures got == cond(samples[|old(samples)|])
    {
      var before: real, after: real :| before >= 0.0 && after >= 0.0;
      samples := samples + [now + before];
      got := cond(now + before);
      now := now + before + after;
    }

    method Sleep(d: real)
      requires d >= 0.0
      modifies `now, `sleeps
      ensures now >= old(now) + d && sleeps == old(sleeps) + 1
    {
      var more: real :| more >= 0.0;
      now, sleeps := now + d + more, sleeps + 1;
    }
  }

  // How many whole intervals are left before the deadline.
  function Left(deadline: real, now: real): nat {
    if now < deadline then ((deadline - now) / INTERVAL).Floor + 1 else 0
  }

  lemma LeftFalls(deadline: real, before: real, after: real)
    requires before < deadline && after >= before + INTERVAL
    ensures Left(deadline, after) < Left(deadline, before)
  {
    var x, y := (deadline - after) / INTERVAL, (deadline - before) / INTERVAL;
    assert y == (deadline - before) * 20.0 && x == (deadline - after) * 20.0;
    assert y >= x + 1.0;
    assert y.Floor >= x.Floor + 1;
  }

  // ---------------------------------------------------------------- wait_for

  datatype Outcome<+V> = Returned(value: V) | Raised

  /**
   A run of `wait_for` from `start`: probe, read the clock, sleep, and again.
   Samples and readings alternate, and readings before the last are in time.
   */
  ghost predicate WaitTrace(start: real, timeout: real, samples: seq<real>, readings: seq<real>) {
    && 0 < |samples| && |samples| - 1 <= |readings| <= |samples|
    && start <= samples[0]
    && (forall k :: 0 <= k < |readings| ==> samples[k] <= readings[k])
    && (forall k :: 0 <= k < |samples| - 1 ==> readings[k] + INTERVAL <= samples[k + 1])
    && (forall k :: 0 <= k < |samples| - 1 ==> readings[k] < start + timeout)
  }

  // The trace of a run that has not ended: every look failed and was in time.
  ghost predicate Polling<V>(cond: real -> Option<V>, start: real, deadline: real, now: real, samples: seq<real>,
                             checks: seq<real>) {
    && |checks| == |samples|
    && (samples != [] ==> start <= samples[0] && checks[|checks| - 1] + INTERVAL <= now)
    && (forall k :: 0 <= k < |samples| ==> samples[k] <= checks[k] && checks[k] < deadline && cond(samples[k]) == None)
    && (forall k :: 0 <= k < |samples| - 1 ==> checks[k] + INTERVAL <= samples[k + 1])
  }

  /** What a finished run leaves in the log, the reading it started from first. */
  ghost predicate Waited<V>(cond: real -> Option<V>, timeout: real, samples: seq<real>, readings: seq<real>,
                            outcome: Outcome<V>) {
    && readings != [] && WaitTrace(readings[0], timeout, samples, readings[1..])
    && (forall k :: 0 <= k < |samples| - 1 ==> cond(samples[k]) == None)
    && match outcome
       case Returned(v) => cond(samples[|samples| - 1]) == Some(v) && |readings| == |samples|
       case Raised =>
         && cond(samples[|samples| - 1]) == None && |readings| == |samples| + 1
         && readings[|samples|] >= readings[0] + timeout
  }

  lemma PollReturns<V>(cond: real -> Option<V>, start: real, timeout: real, now: real, samples: seq<real>,
                       checks: seq<real>, x: real, v: V)
    requires Polling(cond, start, start + timeout, now, samples, checks) && start <= now <= x && cond(x) == Some(v)
    ensures Waited(cond, timeout, samples + [x], [start] + checks, Returned(v))
  {
    assert ([start] + checks)[1..] == checks;
  }

  lemma PollRaises<V>(cond: real -> Option<V>, start: real, timeout: real, now: real, samples: seq<real>,
                      checks: seq<real>, x: real, t: real)
    requires Polling(cond, start, start + timeout, now, samples, checks) && start <= now <= x <= t && cond(x) == None
    requires t >= start + timeout
    ensures Waited(cond, timeout, samples + [x], [start] + (checks + [t]), Raised)
  {
    assert ([start] + (checks + [t]))[1..] == checks + [t];
  }

  lemma PollMore<V>(cond: real -> Option<V>, start: real, deadline: real, now: real, samples: seq<real>,
                    checks: seq<real>, x: real, t: real, later: real)
    requires Polling(cond, start, deadline, now, samples, checks) && start <= now <= x <= t && cond(x) == None
    requires t < deadline && later >= t + INTERVAL
    ensures Polling(cond, start, deadline, later, samples + [x], checks + [t])
  {}

  method WaitFor<V>(world: World<V>, timeout: real) returns (outcome: Outcome<V>)
    requires world.samples == [] && world.readings == [] && world.sleeps == 0
    modifies world
    ensures Waited(world.cond, timeout, world.samples, world.readings, outcome)
    ensures old(world.now) <= world.readings[0] && world.sleeps == |world.samples| - 1
  {
    hide WaitTrace, Polling, Left, Waited;
    var start := world.Monotonic();
    var deadline := start + timeout;
    ghost var checks := [];
    StartPolling(world.cond, start, deadline, world.now);
    while true
      invariant world.readings == [start] + checks && |checks| == |world.samples| == world.sleeps
      invariant old(world.now) <= start <= world.now
      invariant Polling(world.cond, start, deadline, world.now, world.samples, checks)
      decreases Left(deadline, world.now)
    {
      ghost var began, before := world.now, world.samples;
      var got := world.Probe();
      ghost var x := world.samples[|before|];
      assert world.samples == before + [x];
      if got.Some? {
        PollReturns(world.cond, start, timeout, began, before, checks, x, got.value);
        return Returned(got.value);
      }
      var t := world.Monotonic();
      assert world.readings == [start] + (checks + [t]);
      if t >= deadline {
        PollRaises(world.cond, start, timeout, began, before, checks, x, t);
        return Raised;
      }
      world.Sleep(INTERVAL);
      PollMore(world.cond, start, deadline, began, before, checks, x, t, world.now);
      checks := checks + [t];
      LeftFalls(deadline, t, world.now);
      LeftMonotone(deadline, began, t);
    }
  }

  lemma StartPolling<V>(cond: real -> Option<V>, start: real, deadline: real, now: real)
    ensures Polling(cond, start, deadline, now, [], [])
  {}

  lemma LeftMonotone(deadline: real, before: real, after: real)
    requires before <= after
    ensures Left(deadline, after) <= Left(deadline, before)
  {
    if after < deadline {
      assert (deadline - after) / INTERVAL <= (deadline - before) / INTERVAL;
    }
  }

  function Ceil(x: real): int {
    -((-x).Floor)
  }

  lemma {:induction false} ReadingsAdvance(start: real, timeout: real, samples: seq<real>, readings: seq<real>, k: nat)
    requires WaitTrace(start, timeout, samples, readings) && k < |readings|
    ensures start + k as real * INTERVAL <= readings[k]
    decreases k
  {
    if k > 0 {
      ReadingsAdvance(start, timeout, samples, readings, k - 1);
      assert readings[k - 1] + INTERVAL <= samples[k] <= readings[k];
    } else {
      assert samples[0] <= readings[0];
    }
  }

  /** Whatever time does, the condition is looked at no more than once an interval, and once more. */
  lemma ProbesAreBounded(start: real, timeout: real, samples: seq<real>, readings: seq<real>)
    requires WaitTrace(start, timeout, samples, readings)
    ensures |samples| <= 1 || |samples| <= Ceil(timeout / INTERVAL) + 1
  {
    if |samples| > 1 {
      var k := |samples| - 2;
      ReadingsAdvance(start, timeout, samples, readings, k);
      assert k as real * INTERVAL < timeout;
      assert (k as real) < timeout / INTERVAL by { assert timeout / INTERVAL == timeout * 20.0; }
      assert k < Ceil(timeout / INTERVAL);
    }
  }

  ghost predicate StableFrom<V>(cond: real -> Option<V>, since: real) {
    forall t :: t >= since ==> cond(t).Some?
  }

  /**
   A run that raises looked for the last time before the condition had settled:
   it settled, if ever, less than the lag of that last look before the deadline
   at the earliest. With instantaneous probes it settled after the deadline.
   */
  lemma RaisesOnlyTooLate<V>(cond: real -> Option<V>, start: real, timeout: real, samples: seq<real>,
                             readings: seq<real>, since: real)
    requires WaitTrace(start, timeout, samples, readings) && |readings| == |samples|
    requires readings[|samples| - 1] >= start + timeout && cond(samples[|samples| - 1]) == None
    requires StableFrom(cond, since)
    ensures since > samples[|samples| - 1]
    ensures var lag := readings[|samples| - 1] - samples[|samples| - 1];
            lag >= 0.0 && since > start + timeout - lag
    ensures samples[|samples| - 1] == readings[|samples| - 1] ==> since > start + timeout
  {
    var last := samples[|samples| - 1];
    assert last <= readings[|samples| - 1];
    assert last >= since ==> cond(last).Some?;
  }

  // The condition holds from `since` on and not before.
  ghost predicate SettlesAt<V>(cond: real -> Option<V>, since: real) {
    forall t :: cond(t).Some? <==> t >= since
  }

  /** A run that raises, in which every look is answered at most `lag` before the clock is read again. */
  ghost predicate Misses<V>(cond: real -> Option<V>, start: real, timeout: real, lag: real, samples: seq<real>,
                            readings: seq<real>) {
    && WaitTrace(start, timeout, samples, readings) && |readings| == |samples|
    && readings[|samples| - 1] >= start + timeout
    && (forall k :: 0 <= k < |samples| ==> cond(samples[k]) == None)
    && (forall k :: 0 <= k < |samples| ==> readings[k] - samples[k] <= lag)
  }

  /**
   With looks that lag by no more than `lag`, some run misses a condition that
   settles at `since` exactly when it settles after the start and less than `lag`
   before the deadline. A lag as long as the timeout can miss anything that is
   not there from the start.
   */
  lemma MissedIff<V>(cond: real -> Option<V>, start: real, timeout: real, lag: real, since: real)
    requires lag >= 0.0 && SettlesAt(cond, since)
    ensures (exists samples, readings :: Misses(cond, start, timeout, lag, samples, readings)) <==>
            since > start && since > start + timeout - lag
  {
    if samples: seq<real>, readings: seq<real> :| Misses(cond, start, timeout, lag, samples, readings) {
      var last := |samples| - 1;
      SamplesAdvance(start, timeout, samples, readings, last);
      assert cond(samples[last]) == None && readings[last] - samples[last] <= lag;
    }
    if since > start && since > start + timeout - lag {
      var s := if timeout > lag then start + timeout - lag else start;
      assert Misses(cond, start, timeout, lag, [s], [s + lag]);
    }
  }

  lemma SamplesAdvance(start: real, timeout: real, samples: seq<real>, readings: seq<real>, k: nat)
    requires WaitTrace(start, timeout, samples, readings) && k < |samples|
    ensures start <= samples[k]
  {
    if k > 0 {
      ReadingsAdvance(start, timeout, samples, readings, k - 1);
    }
  }

  /** With instantaneous looks and time to wait, only what settles after the deadline is missed. */
  lemma InstantLooksMissNothing<V>(cond: real -> Option<V>, start: real, timeout: real, since: real)
    requires timeout >= 0.0 && SettlesAt(cond, since)
    ensures (exists samples, readings :: Misses(cond, start, timeout, 0.0, samples, readings)) <==>
            since > start + timeout
  {
    MissedIff(cond, start, timeout, 0.0, since);
  }

  /** A look that takes a second misses what settled at the deadline itself. */
  lemma SlowProbeCanMiss()
    ensures var cond := (t: real) => if t >= 1.0 then Some(true) else None;
            SettlesAt(cond, 1.0) && Misses(cond, 0.0, 1.0, 1.0, [0.5], [1.5])
  {}

  // -------------------------------------------------------------- stays_empty

  /** A run of `stays_empty`: read the clock, probe, sleep; past the deadline, probe once more. */
  ghost predicate WatchTrace(start: real, window: real, readings: seq<real>, samples: seq<real>) {
    && 0 < |readings| == |samples|
    && start <= readings[0]
    && (forall k :: 0 <= k < |readings| ==> readings[k] <= samples[k])
    && (forall k :: 0 <= k < |readings| - 1 ==> samples[k] + INTERVAL <= readings[k + 1])
    && readings[|readings| - 1] >= start + window
  }

  method StaysEmpty<V>(world: World<V>, window: real) returns (found: Option<V>)
    requires world.samples == [] && world.readings == [] && world.sleeps == 0
    modifies world
    ensures world.readings != [] && old(world.now) <= world.readings[0] && world.samples != []
    ensures found == world.cond(world.samples[|world.samples| - 1])
    ensures forall k :: 0 <= k < |world.samples| - 1 ==> world.cond(world.samples[k]) == None
    ensures found == None ==>
              && WatchTrace(world.readings[0], window, world.readings[1..], world.samples)
              && forall t :: t in world.samples ==> world.cond(t) == None
  {
    hide Left;
    var start := world.Monotonic();
    var deadline := start + window;
    while true
      invariant |world.readings| == |world.samples| + 1 && world.readings[0] == start
      invariant old(world.now) <= start <= world.now
      invariant |world.samples| > 0 ==>
                  world.now >= world.samples[|world.samples| - 1] + INTERVAL && start <= world.readings[1]
      invariant forall k :: 0 <= k < |world.samples| ==>
                  world.readings[k + 1] <= world.samples[k] && world.cond(world.samples[k]) == None
      invariant forall k :: 0 <= k < |world.samples| - 1 ==> world.samples[k] + INTERVAL <= world.readings[k + 2]
      decreases Left(deadline, world.now)
    {
      ghost var began := world.now;
      var t := world.Monotonic();
      if t >= deadline {
        break;
      }
      found := world.Probe();
      if found.Some? {
        return;
      }
      world.Sleep(INTERVAL);
      LeftFalls(deadline, t, world.now);
      LeftMonotone(deadline, began, t);
    }
    found := world.Probe();
  }

  // The last look before number `k`, or the start of the watch.
  ghost function Before(start: real, samples: seq<real>, k: nat): real
    requires k < |samples|
  {
    if k == 0 then start else samples[k - 1]
  }

  lemma {:induction false} FirstPast(samples: seq<real>, b: real, n: nat) returns (k: nat)
    requires n < |samples| && samples[n] > b
    ensures k <= n && samples[k] > b && forall i :: 0 <= i < k ==> samples[i] <= b
    decreases n
  {
    k := 0;
    while samples[k] <= b
      invariant k <= n && forall i :: 0 <= i < k ==> samples[i] <= b
      decreases n - k
    {
      k := k + 1;
    }
  }

  /**
   If the watch found nothing, every episode inside the window during which the
   condition held lies strictly between two looks, and is shorter than that gap.
   */
  lemma EpisodesFitAGap<V>(cond: real -> Option<V>, start: real, window: real, readings: seq<real>,
                           samples: seq<real>, a: real, b: real)
    requires WatchTrace(start, window, readings, samples)
    requires forall t :: t in samples ==> cond(t) == None
    requires start <= a <= b <= start + window
    requires forall t :: a <= t <= b ==> cond(t).Some?
    ensures exists k :: 0 <= k < |samples| && Before(start, samples, k) <= a && b < samples[k]
              && b - a < samples[k] - Before(start, samples, k)
  {
    var n := |samples| - 1;
    assert samples[n] >= readings[n] >= start + window >= b;
    forall i | 0 <= i < |samples| ensures !(a <= samples[i] <= b) {
      assert samples[i] in samples;
    }
    var k := FirstPast(samples, b, n);
    assert k > 0 ==> samples[k - 1] <= b && samples[k - 1] < a;
  }
}
