/** Elapsed time since a track's first frame, from raw 32-bit RTP timestamps. */
module RtpClocks {
  import opened Bytes
  import opened Options

  const VIDEO_CLOCK_RATE_HZ := 90_000
  const NANOS_PER_SECOND := 1_000_000_000

  function Nanos(ticks: nat): nat {
    ticks * NANOS_PER_SECOND / VIDEO_CLOCK_RATE_HZ
  }

  /** What a video clock that started at `first` says at `timestamp`. */
  function ElapsedSince(first: u32, timestamp: u32): nat {
    Nanos(WrappingSub(timestamp, first))
  }

  class RtpClock {
    var first: Option<u32>

    /** A clock for video. */
    constructor ()
      ensures first == None
    {
      first := None;
    }

    /** The first call seeds the epoch. */
    method Elapsed(rtpTimestamp: u32) returns (nanos: nat)
      modifies this
      ensures first == Some(old(first).GetOr(rtpTimestamp))
      ensures nanos == ElapsedSince(first.value, rtpTimestamp)
    {
      if first.None? {
        first := Some(rtpTimestamp);
      }
      var ticks := WrappingSub(rtpTimestamp, first.value);
      nanos := ticks * NANOS_PER_SECOND / VIDEO_CLOCK_RATE_HZ;
    }
  }

  /** A second is 90000 ticks, and every reading is the ticks' time, rounded down to a nanosecond. */
  lemma NanosOfTicks(ticks: nat)
    ensures Nanos(90_000 * ticks) == 1_000_000_000 * ticks
    ensures Nanos(ticks) * 90_000 <= ticks * 1_000_000_000 < (Nanos(ticks) + 1) * 90_000
  {
  }

  lemma NanosMonotone(a: nat, b: nat)
    ensures a < b ==> Nanos(a) < Nanos(b)
    ensures a <= b ==> Nanos(a) <= Nanos(b)
  {
    assert a < b ==> a * NANOS_PER_SECOND + VIDEO_CLOCK_RATE_HZ <= b * NANOS_PER_SECOND;
  }

  /** The clock is right exactly while less than one whole wrap has passed since its epoch. */
  lemma ElapsedIsTrue(start: nat, now: nat)
    requires start <= now
    ensures ElapsedSince(start % U32_LIMIT, now % U32_LIMIT) == Nanos(now - start) <==> now - start < U32_LIMIT
  {
    WrappingSubModulo(now, start);
    NanosMonotone((now - start) % U32_LIMIT, now - start);
  }

  // ----- When readings fall back

  /** What the clock says at the `i`-th of the timestamps it is given. */
  ghost function Reading(timestamps: seq<u32>, i: nat): nat
    requires i < |timestamps|
  {
    ElapsedSince(timestamps[0], timestamps[i])
  }

  ghost predicate FallsBack(timestamps: seq<u32>) {
    exists i, j :: 0 <= i < j < |timestamps| && Reading(timestamps, i) > Reading(timestamps, j)
  }

  /** Presentation times as the camera sends them. */
  function Wrapped(times: seq<int>): (timestamps: seq<u32>)
    ensures |timestamps| == |times|
  {
    seq(|times|, i requires 0 <= i < |times| => times[i] % U32_LIMIT)
  }

  /** Frames in presentation order, each less than a whole wrap after the one before. */
  ghost predicate InOrder(times: seq<int>) {
    forall i :: 0 < i < |times| ==> 0 <= times[i] - times[i - 1] < U32_LIMIT
  }

  lemma ReadingOf(times: seq<int>, i: nat)
    requires i < |times|
    ensures Reading(Wrapped(times), i) == Nanos((times[i] - times[0]) % U32_LIMIT)
  {
    WrappingSubModulo(times[i], times[0]);
  }

  lemma {:induction false} LaterTimes(times: seq<int>, i: nat, j: nat)
    requires InOrder(times) && i <= j < |times|
    ensures times[i] <= times[j]
    decreases j
  {
    if i < j {
      LaterTimes(times, i, j - 1);
    }
  }

  /** A run that outlasts a wrap has a step that crosses it. */
  lemma {:induction false} CrossingStep(times: seq<int>, n: nat) returns (k: nat)
    requires n < |times| && times[n] - times[0] >= U32_LIMIT
    ensures k < n && times[k] - times[0] < U32_LIMIT <= times[k + 1] - times[0]
  {
    if times[n - 1] - times[0] < U32_LIMIT {
      k := n - 1;
    } else {
      k := CrossingStep(times, n - 1);
    }
  }

  lemma WithinFirstWrap(times: seq<int>, i: nat, j: nat)
    requires InOrder(times) && i < j < |times| && times[|times| - 1] - times[0] < U32_LIMIT
    ensures Reading(Wrapped(times), i) <= Reading(Wrapped(times), j)
  {
    LaterTimes(times, 0, i);
    LaterTimes(times, i, j);
    LaterTimes(times, j, |times| - 1);
    ReadingOf(times, i);
    ReadingOf(times, j);
    NanosMonotone(times[i] - times[0], times[j] - times[0]);
  }

  /** One step, forward or back, of less than a wrap, from a moment some ticks into its wrap: the
      reading falls back exactly when a step forward leaves the wrap or a step back stays in it. */
  lemma StepFallsBack(start: int, now: int, step: int)
    requires -U32_LIMIT < step < U32_LIMIT
    ensures var ticks := (now - start) % U32_LIMIT;
      ElapsedSince(start % U32_LIMIT, (now + step) % U32_LIMIT) < ElapsedSince(start % U32_LIMIT, now % U32_LIMIT)
      <==> if step >= 0 then ticks + step >= U32_LIMIT else ticks + step >= 0
  {
    var ticks := (now - start) % U32_LIMIT;
    WrappingSubModulo(now, start);
    WrappingSubModulo(now + step, start);
    var moved := (now + step - start) % U32_LIMIT;
    StepWithinWrap(now - start, step);
    NanosMonotone(moved, ticks);
    NanosMonotone(ticks, moved);
  }

  lemma StepWithinWrap(elapsed: int, step: int)
    requires -U32_LIMIT < step < U32_LIMIT
    ensures var ticks := elapsed % U32_LIMIT;
      (elapsed + step) % U32_LIMIT
      == if ticks + step < 0 then ticks + step + U32_LIMIT
         else if ticks + step >= U32_LIMIT then ticks + step - U32_LIMIT
         else ticks + step
  {
    var wraps, ticks := elapsed / U32_LIMIT, elapsed % U32_LIMIT;
    assert elapsed == wraps * U32_LIMIT + ticks;
    var shift := if ticks + step < 0 then -1 else if ticks + step >= U32_LIMIT then 1 else 0;
    assert elapsed + step == (wraps + shift) * U32_LIMIT + (ticks + step - shift * U32_LIMIT);
  }

  /** The step to the `i`-th frame leaves the wrap it starts in forwards, or stays in it backwards. */
  ghost predicate FallingStep(times: seq<int>, i: nat)
    requires 0 < i < |times|
  {
    var ticks, step := (times[i - 1] - times[0]) % U32_LIMIT, times[i] - times[i - 1];
    if step >= 0 then ticks + step >= U32_LIMIT else ticks + step >= 0
  }

  ghost predicate SmallSteps(times: seq<int>) {
    forall i :: 0 < i < |times| ==> -U32_LIMIT < times[i] - times[i - 1] < U32_LIMIT
  }

  lemma FallingStepFalls(times: seq<int>, i: nat)
    requires SmallSteps(times) && 0 < i < |times|
    ensures FallingStep(times, i) <==> Reading(Wrapped(times), i) < Reading(Wrapped(times), i - 1)
  {
    StepFallsBack(times[0], times[i - 1], times[i] - times[i - 1]);
  }

  lemma {:induction false} NoFallingStep(times: seq<int>, i: nat, j: nat)
    requires SmallSteps(times) && i <= j < |times|
    requires forall k :: 0 < k < |times| ==> !FallingStep(times, k)
    ensures Reading(Wrapped(times), i) <= Reading(Wrapped(times), j)
    decreases j
  {
    if i < j {
      NoFallingStep(times, i, j - 1);
      FallingStepFalls(times, j);
    }
  }

  /** Over frames in any order, each less than a whole wrap from the one before, some reading falls
      back exactly when one of the steps does. */
  lemma FallsBackAtStep(times: seq<int>)
    requires SmallSteps(times)
    ensures FallsBack(Wrapped(times)) <==> exists i :: 0 < i < |times| && FallingStep(times, i)
  {
    if exists i :: 0 < i < |times| && FallingStep(times, i) {
      var i :| 0 < i < |times| && FallingStep(times, i);
      FallingStepFalls(times, i);
      assert Reading(Wrapped(times), i - 1) > Reading(Wrapped(times), i);
    } else {
      forall i, j | 0 <= i < j < |times|
        ensures Reading(Wrapped(times), i) <= Reading(Wrapped(times), j)
      {
        NoFallingStep(times, i, j);
      }
    }
  }

  /** Over frames in presentation order no reading falls back exactly when the run, from its first
      frame to its last, is shorter than one whole wrap. */
  lemma ElapsedNeverDecreases(times: seq<int>)
    requires times != [] && InOrder(times)
    ensures !FallsBack(Wrapped(times)) <==> times[|times| - 1] - times[0] < U32_LIMIT
  {
    if times[|times| - 1] - times[0] < U32_LIMIT {
      forall i, j | 0 <= i < j < |times|
        ensures Reading(Wrapped(times), i) <= Reading(Wrapped(times), j)
      {
        WithinFirstWrap(times, i, j);
      }
    } else {
      var k := CrossingStep(times, |times| - 1);
      LaterTimes(times, 0, k);
      FallingStepFalls(times, k + 1);
      assert Reading(Wrapped(times), k) > Reading(Wrapped(times), k + 1);
    }
  }

  /** One tick after a whole wrap the clock falls back to zero. */
  lemma ElapsedFallsBack()
    ensures ElapsedSince(0, (U32_LIMIT - 1) % U32_LIMIT) > ElapsedSince(0, U32_LIMIT % U32_LIMIT)
  {
    NanosMonotone(0, U32_LIMIT - 1);
  }

  /** Frames sent in decoding order carry timestamps that step back, and so do the readings. */
  lemma ReorderedFramesFallBack()
    ensures FallsBack([0, 6000, 3000])
  {
    NanosMonotone(3000, 6000);
    assert Reading([0, 6000, 3000], 1) > Reading([0, 6000, 3000], 2);
  }
}
