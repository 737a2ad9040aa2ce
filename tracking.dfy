/**
 * The arithmetic of the step tracker in RunnerService, as functions of its
 * fields: how one step-counter event moves the day total, what a run of
 * events adds up to, and the ten-second throttle on persisting snapshots.
 */
module Tracking {
  import opened StepOfDay

  /** Minimum wall-clock gap between two persisted snapshots. */
  const InsertIntervalMillis: int := 10 * 1000

  /**
   * Day total after one step-counter event with raw value `countSinceReboot`;
   * `resolved` is what the day-boundary resolver gives at that moment and is
   * used only while the total still holds the sentinel.
   */
  function NextStepCount(stepCount: int, lastCountSinceReboot: int, countSinceReboot: int, resolved: int): int
  {
    if stepCount == UninitializedValue then resolved
    else stepCount + countSinceReboot - lastCountSinceReboot
  }

  /** Day total after the events `raws`, in order. */
  function Track(stepCount: int, lastCountSinceReboot: int, raws: seq<int>, resolved: int): int
    decreases |raws|
  {
    if raws == [] then stepCount
    else Track(NextStepCount(stepCount, lastCountSinceReboot, raws[0], resolved), raws[0], raws[1..], resolved)
  }

  predicate Nondecreasing(s: seq<int>)
  {
    forall i, j :: 0 <= i <= j < |s| ==> s[i] <= s[j]
  }

  /** Last raw value seen after the events `raws`. */
  function LastRaw(lastCountSinceReboot: int, raws: seq<int>): int
  {
    if raws == [] then lastCountSinceReboot else raws[|raws| - 1]
  }

  /**
   * While tracking, a non-decreasing run of raw values adds exactly the raw
   * increase to the total, and the total never falls back to the sentinel.
   */
  lemma {:induction false} TrackWhileTracking(stepCount: int, lastCountSinceReboot: int, raws: seq<int>, resolved: int)
    requires stepCount >= 0
    requires Nondecreasing([lastCountSinceReboot] + raws)
    ensures Track(stepCount, lastCountSinceReboot, raws, resolved)
              == stepCount + LastRaw(lastCountSinceReboot, raws) - lastCountSinceReboot
    decreases |raws|
  {
    if raws != [] {
      var next := stepCount + raws[0] - lastCountSinceReboot;
      assert ([lastCountSinceReboot] + raws)[0] <= ([lastCountSinceReboot] + raws)[1] == raws[0];
      assert [raws[0]] + raws[1..] == raws[..];
      assert Nondecreasing([raws[0]] + raws[1..]) by {
        forall i, j | 0 <= i <= j < |raws| ensures raws[i] <= raws[j] {
          assert ([lastCountSinceReboot] + raws)[i + 1] == raws[i];
          assert ([lastCountSinceReboot] + raws)[j + 1] == raws[j];
        }
      }
      TrackWhileTracking(next, raws[0], raws[1..], resolved);
    }
  }

  /**
   * From a fresh tracker, non-decreasing raw values r0..rN give the resolved
   * total of the first event plus rN - r0.
   */
  lemma TrackFromFresh(raws: seq<int>, resolved: int)
    requires |raws| > 0 && Nondecreasing(raws) && resolved >= 0
    ensures Track(UninitializedValue, UninitializedValue, raws, resolved)
              == resolved + raws[|raws| - 1] - raws[0]
  {
    assert [raws[0]] + raws[1..] == raws;
    TrackWhileTracking(resolved, raws[0], raws[1..], resolved);
  }

  /**
   * The count is not clamped, and the sentinel doubles as a count: a raw
   * value that falls brings the total to -1, and the next event is then
   * taken for the first one and re-resolved instead of adding its delta.
   */
  lemma SentinelCollision(resolved: int)
    ensures NextStepCount(5, 10, 4, resolved) == UninitializedValue
    ensures Track(5, 10, [4, 20], resolved) == resolved
  {
  }

  /** insertRecord's condition: first insert of this service, or ten seconds since the last. */
  predicate ShouldInsert(lastInsertTime: int, now: int)
  {
    lastInsertTime == UninitializedValue || now - lastInsertTime >= InsertIntervalMillis
  }

  /** Wall times, among the events at `times`, at which a snapshot is persisted. */
  function Throttle(lastInsertTime: int, times: seq<int>): seq<int>
    decreases |times|
  {
    if times == [] then []
    else if ShouldInsert(lastInsertTime, times[0]) then [times[0]] + Throttle(times[0], times[1..])
    else Throttle(lastInsertTime, times[1..])
  }

  /**
   * Persisted snapshots are at least ten seconds apart (unless the earlier
   * one fell on the sentinel time itself), and each is one of the events.
   */
  lemma {:induction false} ThrottleSpaced(lastInsertTime: int, times: seq<int>)
    ensures var ins := Throttle(lastInsertTime, times);
      && |ins| <= |times|
      && (forall t :: t in ins ==> t in times)
      && (|ins| > 0 && lastInsertTime != UninitializedValue ==> ins[0] - lastInsertTime >= InsertIntervalMillis)
      && (forall i :: 0 < i < |ins| && ins[i - 1] != UninitializedValue
            ==> ins[i] - ins[i - 1] >= InsertIntervalMillis)
    decreases |times|
  {
    if times != [] {
      var t := times[0];
      if ShouldInsert(lastInsertTime, t) {
        ThrottleSpaced(t, times[1..]);
        var rest := Throttle(t, times[1..]);
        assert Throttle(lastInsertTime, times) == [t] + rest;
      } else {
        ThrottleSpaced(lastInsertTime, times[1..]);
      }
    }
  }

  /** Events at 0 s, 3 s, 6 s and 12 s persist two snapshots, at 0 s and 12 s. */
  lemma ThrottleExample()
    ensures Throttle(UninitializedValue, [0, 3000, 6000, 12000]) == [0, 12000]
  {
  }
}
