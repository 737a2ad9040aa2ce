/**
 * An independent account of what "steps today" means, against which the
 * day-boundary resolver is judged. The user's walk is the sequence of the
 * wall times at which each step was taken; the hardware counter reports the
 * steps taken since boot, and a record reports at most the steps of its own
 * day up to its capture time. Given such a record, the resolver never
 * overcounts, and it is exact whenever no step escaped both the record and
 * the counter. Rows the service itself writes after midnight, while it has
 * been running since the previous day, do not meet that condition: the
 * running total is never reset, so they still hold yesterday's steps
 * (CarriedOverRowOvercounts).
 */
module DayTruth {
  import opened Common
  import opened StepOfDay

  /** Number of steps of `walk` taken in the interval [from, to). */
  function StepsIn(walk: seq<int>, from: int, to: int): (n: nat)
    ensures n <= |walk|
    decreases |walk|
  {
    if walk == [] then 0
    else (if from <= walk[0] < to then 1 else 0) + StepsIn(walk[1..], from, to)
  }

  /** Steps taken from local midnight up to `now`. */
  function StepsToday(walk: seq<int>, now: int, zoneOffsetMillis: int): nat
  {
    StepsIn(walk, DayStart(now, zoneOffsetMillis), now)
  }

  /** Counting over adjacent intervals adds up. */
  lemma {:induction false} StepsInSplit(walk: seq<int>, a: int, b: int, c: int)
    requires a <= b <= c
    ensures StepsIn(walk, a, c) == StepsIn(walk, a, b) + StepsIn(walk, b, c)
    decreases |walk|
  {
    if walk != [] {
      StepsInSplit(walk[1..], a, b, c);
    }
  }

  /**
   * The inputs agree with the walk: the device booted before now and its
   * counter holds the steps since boot; a record was captured no later than
   * now, holds at most the steps of its day so far, and, when captured after
   * the current boot, the counter value of that moment.
   */
  predicate Consistent(walk: seq<int>, record: Option<StepRecord>, countSinceReboot: int, clock: Clock)
  {
    var now, boot, z := clock.currentTimeMillis, BootTime(clock), clock.zoneOffsetMillis;
    && boot <= now
    && countSinceReboot == StepsIn(walk, boot, now)
    && (record.Some? ==>
          var rec := record.value;
          && rec.stepTime <= now
          && 0 <= rec.stepCount <= StepsToday(walk, rec.stepTime, z)
          && (boot <= rec.stepTime ==> rec.countSinceReboot == StepsIn(walk, boot, rec.stepTime)))
  }

  /** Whatever branch it takes, the resolver reports between zero and the true day total. */
  lemma CalcStepOfDayNeverOvercounts(walk: seq<int>, record: Option<StepRecord>, countSinceReboot: int, clock: Clock)
    requires Consistent(walk, record, countSinceReboot, clock)
    ensures 0 <= CalcStepOfDay(record, countSinceReboot, clock)
                <= StepsToday(walk, clock.currentTimeMillis, clock.zoneOffsetMillis)
  {
    CalcStepOfDayAccounts(walk, record, countSinceReboot, clock);
  }

  /**
   * Exactly what the resolver misses in each branch: the steps before boot
   * (no record from today), the record's own shortfall, and the steps taken
   * between the record and a reboot.
   */
  lemma CalcStepOfDayAccounts(walk: seq<int>, record: Option<StepRecord>, countSinceReboot: int, clock: Clock)
    requires Consistent(walk, record, countSinceReboot, clock)
    ensures var now, boot, z := clock.currentTimeMillis, BootTime(clock), clock.zoneOffsetMillis;
      var r := CalcStepOfDay(record, countSinceReboot, clock);
      && 0 <= r <= StepsToday(walk, now, z)
      && ((!IsUsable(record, clock) && IsSameDay(boot, now, z))
            ==> r == StepsToday(walk, now, z) - StepsIn(walk, DayStart(now, z), boot))
      && ((IsUsable(record, clock) && boot <= record.value.stepTime)
            ==> r == StepsToday(walk, now, z)
                     - (StepsToday(walk, record.value.stepTime, z) - record.value.stepCount))
      && ((IsUsable(record, clock) && boot > record.value.stepTime)
            ==> r == StepsToday(walk, now, z)
                     - (StepsToday(walk, record.value.stepTime, z) - record.value.stepCount)
                     - StepsIn(walk, record.value.stepTime, boot))
  {
    var now, boot, z := clock.currentTimeMillis, BootTime(clock), clock.zoneOffsetMillis;
    var midnight := DayStart(now, z);
    if !IsUsable(record, clock) {
      if IsSameDay(boot, now, z) {
        SameDayShareMidnight(boot, now, z);
        StepsInSplit(walk, midnight, boot, now);
      }
    } else {
      var rec := record.value;
      SameDayShareMidnight(rec.stepTime, now, z);
      if boot > rec.stepTime {
        StepsInSplit(walk, midnight, rec.stepTime, boot);
        StepsInSplit(walk, midnight, boot, now);
      } else {
        StepsInSplit(walk, boot, rec.stepTime, now);
        StepsInSplit(walk, midnight, rec.stepTime, now);
      }
    }
  }

  /**
   * When nothing escaped, the resolver is exact: an exact record from today
   * with no reboot after it, or no usable record and no step between
   * midnight and a boot earlier today.
   */
  lemma CalcStepOfDayExact(walk: seq<int>, record: Option<StepRecord>, countSinceReboot: int, clock: Clock)
    requires Consistent(walk, record, countSinceReboot, clock)
    requires var now, boot, z := clock.currentTimeMillis, BootTime(clock), clock.zoneOffsetMillis;
      if IsUsable(record, clock) then
        && record.value.stepCount == StepsToday(walk, record.value.stepTime, z)
        && (boot > record.value.stepTime ==> StepsIn(walk, record.value.stepTime, boot) == 0)
      else
        IsSameDay(boot, now, z) && StepsIn(walk, DayStart(now, z), boot) == 0
    ensures CalcStepOfDay(record, countSinceReboot, clock)
              == StepsToday(walk, clock.currentTimeMillis, clock.zoneOffsetMillis)
  {
    CalcStepOfDayAccounts(walk, record, countSinceReboot, clock);
  }

  /**
   * A service that counted 1000 steps by 23:59:50 and 1010 by 00:00:05 the
   * next day writes the row StepRecord(1010, MillisPerDay + 5000, 1010); at
   * most 10 of those steps belong to the new day, so the row breaks the
   * bound that Consistent asks of a record.
   */
  lemma CarriedOverRowOvercounts(walk: seq<int>)
    requires StepsIn(walk, 0, MillisPerDay - 10000) == 1000
    requires StepsIn(walk, 0, MillisPerDay + 5000) == 1010
    ensures StepsToday(walk, MillisPerDay + 5000, 0) <= 10
    ensures !Consistent(walk, Some(StepRecord(1010, MillisPerDay + 5000, 1010)), 1020,
                        Clock(MillisPerDay + 60000, MillisPerDay + 60000, 0))
  {
    assert DayStart(MillisPerDay + 5000, 0) == MillisPerDay;
    StepsInSplit(walk, 0, MillisPerDay - 10000, MillisPerDay);
    StepsInSplit(walk, 0, MillisPerDay, MillisPerDay + 5000);
  }

  /** The worked cases of the resolver, on one day starting at `t`. */
  lemma CalcStepOfDayExamples()
    ensures var t := 20000 * MillisPerDay;
      var hour, minute := 60 * 60 * 1000, 60 * 1000;
      // no record, booted an hour ago today
      && CalcStepOfDay(None, 500, Clock(t + 2 * hour, hour, 0)) == 500
      // no record, booted yesterday
      && CalcStepOfDay(None, 500, Clock(t + 2 * hour, 3 * hour, 0)) == 0
      // record at t0 = t + 1h, no reboot since
      && CalcStepOfDay(Some(StepRecord(300, t + hour, 300)), 450, Clock(t + hour + 5 * minute, 2 * hour, 0)) == 450
      // record at t0 = t + 1h, reboot one minute after it
      && CalcStepOfDay(Some(StepRecord(300, t + hour, 300)), 20, Clock(t + hour + 5 * minute, 4 * minute, 0)) == 320
  {
  }
}
