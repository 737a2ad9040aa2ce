/**
 * The day-boundary resolver of RunnerService: on the first step-counter event
 * after the service starts, it turns the sensor's reboot-relative count into
 * "steps today" from the latest persisted StepRecord, the boot time and the
 * current wall time.
 */
module StepOfDay {
  import opened Common

  /** Sentinel the tracker's fields hold before their first value. */
  const UninitializedValue: int := -1

  const MillisPerDay: int := 24 * 60 * 60 * 1000

  /** One persisted snapshot: raw count, wall time of capture, resolved day total. */
  datatype StepRecord = StepRecord(countSinceReboot: int, stepTime: int, stepCount: int)

  /**
   * What the resolver reads from the device at one instant: wall time,
   * milliseconds since boot, and the offset of local time from UTC.
   */
  datatype Clock = Clock(currentTimeMillis: int, elapsedRealtime: int, zoneOffsetMillis: int)

  /** Wall time at which the device booted. */
  function BootTime(clock: Clock): int
  {
    clock.currentTimeMillis - clock.elapsedRealtime
  }

  /** Number of the local calendar day containing `millis` (floor division). */
  function DayIndex(millis: int, zoneOffsetMillis: int): int
  {
    (millis + zoneOffsetMillis) / MillisPerDay
  }

  /** First millisecond of the local calendar day containing `millis`. */
  function DayStart(millis: int, zoneOffsetMillis: int): (start: int)
    ensures start <= millis < start + MillisPerDay
  {
    var x := millis + zoneOffsetMillis;
    assert x == (x / MillisPerDay) * MillisPerDay + x % MillisPerDay;
    DayIndex(millis, zoneOffsetMillis) * MillisPerDay - zoneOffsetMillis
  }

  /** Both instants fall on the same local calendar date. */
  predicate IsSameDay(a: int, b: int, zoneOffsetMillis: int)
  {
    DayIndex(a, zoneOffsetMillis) == DayIndex(b, zoneOffsetMillis)
  }

  /** Same calendar day means same midnight, so each lies within a day of the other's midnight. */
  lemma SameDayShareMidnight(a: int, b: int, zoneOffsetMillis: int)
    requires IsSameDay(a, b, zoneOffsetMillis)
    ensures DayStart(a, zoneOffsetMillis) == DayStart(b, zoneOffsetMillis)
    ensures DayStart(b, zoneOffsetMillis) <= a < DayStart(b, zoneOffsetMillis) + MillisPerDay
  {
  }

  /** A record the resolver may build on: present and from today. */
  predicate IsUsable(record: Option<StepRecord>, clock: Clock)
  {
    record.Some? && IsSameDay(record.value.stepTime, clock.currentTimeMillis, clock.zoneOffsetMillis)
  }

  /** Steps of the current day, given the latest record and the sensor's raw count. */
  function CalcStepOfDay(record: Option<StepRecord>, countSinceReboot: int, clock: Clock): int
  {
    var now := clock.currentTimeMillis;
    var bootTime := BootTime(clock);
    if !IsUsable(record, clock) then
      if IsSameDay(bootTime, now, clock.zoneOffsetMillis) then countSinceReboot else 0
    else if bootTime > record.value.stepTime then
      countSinceReboot + record.value.stepCount
    else
      record.value.stepCount + countSinceReboot - record.value.countSinceReboot
  }

  /**
   * Without a record from today, the whole raw count is today's exactly when
   * the device booted today; a boot on an earlier day restarts from zero.
   */
  lemma NoUsableRecord(record: Option<StepRecord>, countSinceReboot: int, clock: Clock)
    requires !IsUsable(record, clock)
    ensures var r := CalcStepOfDay(record, countSinceReboot, clock);
      (IsSameDay(BootTime(clock), clock.currentTimeMillis, clock.zoneOffsetMillis) ==> r == countSinceReboot)
      && (!IsSameDay(BootTime(clock), clock.currentTimeMillis, clock.zoneOffsetMillis) ==> r == 0)
    ensures var boot := BootTime(clock);
      (DayStart(clock.currentTimeMillis, clock.zoneOffsetMillis) <= boot <= clock.currentTimeMillis)
      ==> CalcStepOfDay(record, countSinceReboot, clock) == countSinceReboot
  {
  }

  /** With a record from today and a reboot after it, the raw count is added to the record's total. */
  lemma RebootSinceRecord(rec: StepRecord, countSinceReboot: int, clock: Clock)
    requires IsUsable(Some(rec), clock)
    requires BootTime(clock) > rec.stepTime
    ensures CalcStepOfDay(Some(rec), countSinceReboot, clock) == rec.stepCount + countSinceReboot
  {
  }

  /** With a record from today and no reboot since, the raw delta since the record is added. */
  lemma NoRebootSinceRecord(rec: StepRecord, countSinceReboot: int, clock: Clock)
    requires IsUsable(Some(rec), clock)
    requires BootTime(clock) <= rec.stepTime
    ensures CalcStepOfDay(Some(rec), countSinceReboot, clock)
              == rec.stepCount + (countSinceReboot - rec.countSinceReboot)
  {
  }

  /**
   * The resolver does not clamp: its result is non-negative only when the
   * inputs are, and when the raw count has not fallen below the record's
   * raw count within one boot.
   */
  lemma CalcStepOfDayNonNegative(record: Option<StepRecord>, countSinceReboot: int, clock: Clock)
    requires countSinceReboot >= 0
    requires record.Some? ==> record.value.stepCount >= 0
    requires (IsUsable(record, clock) && BootTime(clock) <= record.value.stepTime)
      ==> countSinceReboot >= record.value.countSinceReboot
    ensures CalcStepOfDay(record, countSinceReboot, clock) >= 0
  {
  }

  /** A raw count below the record's, with no reboot in between, yields a negative day total. */
  lemma CalcStepOfDayCanGoNegative()
    ensures CalcStepOfDay(Some(StepRecord(300, 1000, 10)), 200, Clock(2000, 1500, 0)) == -90
  {
  }
}
