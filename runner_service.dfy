/**
 * RunnerService's step tracker and its cross-process service surface: the
 * three tracker fields with their -1 sentinel, the step store it appends
 * snapshots to, the registered remote callbacks, and the broadcast rounds
 * that the sensor handler posts to the main thread.
 */
module Service {
  import opened Common
  import opened StepOfDay
  import opened Tracking
  import opened Callbacks

  /** A sensor event, by sensor kind; only the step counter is acted upon. */
  datatype SensorEvent = StepCounter(countSinceReboot: int) | OtherSensor(sensorType: int)

  /** The store's latest record: the one appended last, if any. */
  function LatestRecord(store: seq<StepRecord>): Option<StepRecord>
  {
    if store == [] then None else Some(store[|store| - 1])
  }

  class RunnerService {
    var stepCount: int
    var lastInsertTime: int
    var lastCountSinceReboot: int
    /** Rows of the step store, oldest first; it outlives the service. */
    var store: seq<StepRecord>
    /** Registered remote callbacks, in broadcast order. */
    var callbacks: seq<Handle>
    /** Broadcast rounds posted to the main thread and not yet run. */
    var posted: nat

    /** The store as the service found it when it started. */
    ghost var initialStore: seq<StepRecord>
    /** Step-counter events handled since the service started. */
    ghost var stepCounterEvents: nat

    /**
     * The store only grows; rows this service added are at least the
     * throttle interval apart, and lastInsertTime is the newest one's time.
     */
    ghost predicate StoreValid()
      reads this
    {
      && |initialStore| <= |store|
      && store[..|initialStore|] == initialStore
      && (|store| == |initialStore| ==> lastInsertTime == UninitializedValue)
      && (|store| > |initialStore| ==> lastInsertTime == store[|store| - 1].stepTime)
      && (forall i :: |initialStore| < i < |store| && store[i - 1].stepTime != UninitializedValue
            ==> store[i].stepTime - store[i - 1].stepTime >= InsertIntervalMillis)
    }

    ghost predicate Valid()
      reads this
    {
      && StoreValid()
      && Distinct(callbacks)
      && posted <= stepCounterEvents
      && (stepCounterEvents == 0 ==>
            && stepCount == UninitializedValue
            && lastCountSinceReboot == UninitializedValue
            && |store| == |initialStore|)
      && (stepCounterEvents > 0 ==> |store| > |initialStore|)
    }

    constructor (persisted: seq<StepRecord>)
      ensures Valid()
      ensures stepCount == UninitializedValue && lastCountSinceReboot == UninitializedValue
      ensures lastInsertTime == UninitializedValue
      ensures store == persisted && initialStore == persisted
      ensures callbacks == [] && posted == 0 && stepCounterEvents == 0
    {
      stepCount := UninitializedValue;
      lastInsertTime := UninitializedValue;
      lastCountSinceReboot := UninitializedValue;
      store := persisted;
      callbacks := [];
      posted := 0;
      initialStore := persisted;
      stepCounterEvents := 0;
    }

    /**
     * The sensor listener: a step-counter event resolves or advances the day
     * total, remembers the raw value, posts a broadcast round and offers a
     * snapshot to the throttle; any other event changes nothing.
     */
    method OnSensorChanged(event: SensorEvent, clock: Clock)
      requires Valid()
      modifies this
      ensures Valid()
      ensures event.OtherSensor? ==> unchanged(this)
      ensures event.StepCounter? ==>
        var raw, now := event.countSinceReboot, clock.currentTimeMillis;
        && stepCount == NextStepCount(old(stepCount), old(lastCountSinceReboot), raw,
                                      CalcStepOfDay(LatestRecord(old(store)), raw, clock))
        && lastCountSinceReboot == raw
        && posted == old(posted) + 1
        && stepCounterEvents == old(stepCounterEvents) + 1
        && (if ShouldInsert(old(lastInsertTime), now)
            then store == old(store) + [StepRecord(raw, now, stepCount)] && lastInsertTime == now
            else store == old(store) && lastInsertTime == old(lastInsertTime))
        && callbacks == old(callbacks) && initialStore == old(initialStore)
    {
      match event
      case OtherSensor(_) =>
      case StepCounter(countSinceReboot) =>
        if stepCount == UninitializedValue {
          stepCount := CalcStepOfDay(LatestRecord(store), countSinceReboot, clock);
        } else {
          stepCount := stepCount + countSinceReboot - lastCountSinceReboot;
        }
        lastCountSinceReboot := countSinceReboot;
        posted := posted + 1;
        stepCounterEvents := stepCounterEvents + 1;
        InsertRecord(stepCount, countSinceReboot, clock.currentTimeMillis);
    }

    /** Appends a snapshot only on the first insert or ten seconds after the last one. */
    method InsertRecord(stepCount: int, countSinceReboot: int, now: int)
      requires StoreValid()
      modifies this`store, this`lastInsertTime
      ensures StoreValid()
      ensures if ShouldInsert(old(lastInsertTime), now)
              then store == old(store) + [StepRecord(countSinceReboot, now, stepCount)] && lastInsertTime == now
              else store == old(store) && lastInsertTime == old(lastInsertTime)
    {
      if lastInsertTime == UninitializedValue || now - lastInsertTime >= InsertIntervalMillis {
        store := store + [StepRecord(countSinceReboot, now, stepCount)];
        lastInsertTime := now;
      }
    }

    /** The day total, or the sentinel until the first step-counter event. */
    method GetStepCount() returns (count: int)
      requires Valid()
      ensures count == stepCount
      ensures stepCounterEvents == 0 ==> count == UninitializedValue
    {
      count := stepCount;
    }

    /** Adds a non-null callback not yet registered; null is ignored. */
    method RegisterCallback(callback: Option<Handle>)
      requires Valid()
      modifies this`callbacks
      ensures Valid()
      ensures callback.None? ==> callbacks == old(callbacks)
      ensures callback.Some? ==>
        callbacks == if callback.value in old(callbacks) then old(callbacks) else old(callbacks) + [callback.value]
    {
      if callback.Some? && callback.value !in callbacks {
        callbacks := callbacks + [callback.value];
        assert forall k :: 0 <= k < |callbacks| - 1 ==> callbacks[k] in old(callbacks);
      }
    }

    /** Removes a non-null callback if registered; null is ignored. */
    method UnregisterCallback(callback: Option<Handle>)
      requires Valid()
      modifies this`callbacks
      ensures Valid()
      ensures callback.None? ==> callbacks == old(callbacks)
      ensures callback.Some? ==> callbacks == Without(old(callbacks), callback.value)
    {
      if callback.Some? {
        callbacks := Without(callbacks, callback.value);
      }
    }

    /**
     * One broadcast round: every handle of the snapshot is tried in turn; a
     * dead one's RemoteException is swallowed and the round goes on.
     */
    method Broadcast(count: int, dead: set<Handle>) returns (attempted: seq<Handle>, delivered: seq<Delivery>)
      ensures attempted == callbacks
      ensures delivered == Deliveries(callbacks, dead, count)
    {
      var snapshot := callbacks;
      var number := |snapshot|;
      attempted, delivered := [], [];
      for i := 0 to number
        invariant attempted == snapshot[..i]
        invariant delivered == Deliveries(snapshot[..i], dead, count)
      {
        var h := snapshot[i];
        assert snapshot[..i + 1][..i] == snapshot[..i];
        attempted := attempted + [h];
        if h !in dead {
          delivered := delivered + [Delivery(h, count)];
        }
      }
      assert snapshot[..number] == snapshot;
    }

    /**
     * The main thread runs one posted round; it sends the day total as it
     * stands when the round runs, not when it was posted.
     */
    method RunPostedBroadcast(dead: set<Handle>) returns (attempted: seq<Handle>, delivered: seq<Delivery>)
      requires Valid() && posted > 0
      modifies this`posted
      ensures Valid() && posted == old(posted) - 1
      ensures attempted == callbacks
      ensures delivered == Deliveries(callbacks, dead, stepCount)
    {
      attempted, delivered := Broadcast(stepCount, dead);
      posted := posted - 1;
    }
  }

  /** Events at 0 s, 3 s, 6 s and 12 s on a fresh service persist two snapshots. */
  method ThrottleScenario() returns (rows: seq<StepRecord>)
    ensures |rows| == 2 && rows[0].stepTime == 0 && rows[1].stepTime == 12000
  {
    var service := new RunnerService([]);
    service.OnSensorChanged(StepCounter(100), Clock(0, 0, 0));
    service.OnSensorChanged(StepCounter(110), Clock(3000, 3000, 0));
    service.OnSensorChanged(StepCounter(120), Clock(6000, 6000, 0));
    service.OnSensorChanged(StepCounter(150), Clock(12000, 12000, 0));
    rows := service.store;
  }

  /**
   * A fresh service that booted today and has no record counts the first raw
   * value, then adds each raw increase; other sensors leave it untouched.
   */
  method TrackingScenario() returns (count: int)
    ensures count == 150
  {
    var service := new RunnerService([]);
    service.OnSensorChanged(StepCounter(100), Clock(5000, 1000, 0));
    service.OnSensorChanged(OtherSensor(18), Clock(6000, 2000, 0));
    service.OnSensorChanged(StepCounter(130), Clock(7000, 3000, 0));
    service.OnSensorChanged(StepCounter(150), Clock(8000, 4000, 0));
    count := service.GetStepCount();
  }

  /**
   * A service running across midnight keeps yesterday's steps: the row it
   * writes five seconds after midnight claims 1010 steps for the new day,
   * and a restarted service resumes from it at 1020, although at most 20
   * steps were taken since midnight.
   */
  method MidnightCarryOverScenario() returns (row: StepRecord, resumed: int)
    ensures row == StepRecord(1010, MillisPerDay + 5000, 1010)
    ensures resumed == 1020
  {
    var service := new RunnerService([]);
    service.OnSensorChanged(StepCounter(1000), Clock(MillisPerDay - 10000, MillisPerDay - 10000, 0));
    service.OnSensorChanged(StepCounter(1010), Clock(MillisPerDay + 5000, MillisPerDay + 5000, 0));
    row := service.store[|service.store| - 1];
    var restarted := new RunnerService(service.store);
    restarted.OnSensorChanged(StepCounter(1020), Clock(MillisPerDay + 60000, MillisPerDay + 60000, 0));
    resumed := restarted.GetStepCount();
  }
}
