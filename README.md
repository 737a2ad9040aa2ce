# Run-With-You step tracker, modelled in Dafny

This project models the step-tracking core of the Run-With-You runner
service. On Android the core lives in `RunnerService` and `EventBus`.
The service reads the hardware step counter, whose raw value counts steps
since the last reboot, and turns it into steps since local midnight.
It persists throttled snapshots (`StepRecord` rows) and pushes each new
total to remote subscribers. `EventBus` is the in-process registry of step
listeners.

Modules:

- `Common`: `Option` (a Java reference that may be null) and `Distinct`.
- `StepOfDay`: `StepRecord`, the `Clock` an event reads (wall time, time
  since boot, zone offset), calendar days, and the day-boundary resolver
  `CalcStepOfDay` with its four branches.
- `DayTruth`: an independent definition of "steps today". The user's
  walk is a sequence of step times. Given a record that does not itself
  overcount its day, the resolver is proved never to overcount against it.
  Each branch's shortfall is stated exactly, and the result is exact when
  no step escaped. Rows the service writes after midnight, while it has
  been running since the previous day, do overcount (see below), and the
  bound does not cover a restart from such a row.
- `Tracking`: the per-event update of the day total (`NextStepCount`),
  its iteration over a run of events (`Track`), and the ten-second persist
  throttle (`ShouldInsert`, `Throttle`).
- `Callbacks`: the remote callback list, kept as a duplicate-free sequence
  of handles, and what one broadcast round delivers when some subscribers
  are dead.
- `Service`: class `RunnerService`. Its fields are `stepCount`,
  `lastCountSinceReboot` and `lastInsertTime`, all starting at the
  sentinel -1. The step store and the registered callbacks are fields too.
  The class holds the sensor listener, `insertRecord`, the binder surface
  (`getStepCount`, `registerCallback`, `unregisterCallback`) and the
  broadcast loop.
- `Events`: class `EventBus` over a `map<Subscriber, StepCallback>`, with
  pure `Register`/`Unregister` functions that its methods are proved against.

Behaviour the code has that is easy to miss, each stated by a lemma:

- Nothing is clamped. A raw count that falls makes the total fall, and
  the resolver can return a negative total (`CalcStepOfDayCanGoNegative`).
  Non-negativity is proved only for non-decreasing inputs.
- The sentinel -1 doubles as a count. A total that reaches -1 is taken
  for "uninitialised", and the next event re-runs the resolver
  (`SentinelCollision`). The same holds for `lastInsertTime` when a row
  is written at wall time -1, and the store invariant allows for that.
- While the service runs, the total is never reset at midnight. After the
  first event, the update reads no clock (`TrackWhileTracking`). A row
  written after midnight then still holds yesterday's steps
  (`CarriedOverRowOvercounts`), and a service restarted from it resumes
  from that inflated total (`MidnightCarryOverScenario`).
- The posted broadcast reads `mStepCount` when it runs on the main
  thread, not when it is posted (RunnerService.java line 136). The model
  keeps a count of posted rounds. `RunPostedBroadcast` sends the total as
  it stands at run time. A closure that captured the count at post time
  would behave differently; the model follows the code.

## Model

| member | source | states |
|---|---|---|
| `StepOfDay.NoUsableRecord` | runner/src/main/java/site/hanschen/runwithyou/service/RunnerService.java:157-162 | With no record, or one from another day, the result is the raw count if the device booted today and 0 otherwise; a boot between midnight and now gives the raw count |
| `StepOfDay.RebootSinceRecord` | runner/src/main/java/site/hanschen/runwithyou/service/RunnerService.java:165-166 | A record from today with boot time after it gives record total + raw count |
| `StepOfDay.NoRebootSinceRecord` | runner/src/main/java/site/hanschen/runwithyou/service/RunnerService.java:167-168 | A record from today with boot time at or before it gives record total + (raw − record raw) |
| `StepOfDay.CalcStepOfDayNonNegative` | runner/src/main/java/site/hanschen/runwithyou/service/RunnerService.java:152-170 | The result is ≥ 0 when the raw count and record total are, and the raw count has not fallen below the record's within one boot |
| `StepOfDay.CalcStepOfDayCanGoNegative` | runner/src/main/java/site/hanschen/runwithyou/service/RunnerService.java:167-168 | Without those conditions the unclamped no-reboot branch returns a negative total |
| `DayTruth.CalcStepOfDayAccounts` | runner/src/main/java/site/hanschen/runwithyou/service/RunnerService.java:152-170 | For inputs consistent with a walk, the result is the true day total minus exactly the steps the branch cannot see: those before boot, the record's shortfall, and steps between record and reboot |
| `DayTruth.CalcStepOfDayNeverOvercounts` | runner/src/main/java/site/hanschen/runwithyou/service/RunnerService.java:152-170 | For consistent inputs, 0 ≤ result ≤ the true number of steps since local midnight |
| `DayTruth.CalcStepOfDayExact` | runner/src/main/java/site/hanschen/runwithyou/service/RunnerService.java:152-170 | The result equals the true day total when the record is exact and no step fell between record and reboot, or, with no usable record, when no step fell between midnight and a boot today |
| `DayTruth.CalcStepOfDayExamples` | runner/src/main/java/site/hanschen/runwithyou/service/RunnerService.java:157-168 | The four worked cases: 500, 0, 450 and 320 |
| `Tracking.TrackWhileTracking` | runner/src/main/java/site/hanschen/runwithyou/service/RunnerService.java:129-132 | Once tracking, non-decreasing raw values add exactly their total increase to the count |
| `Tracking.TrackFromFresh` | runner/src/main/java/site/hanschen/runwithyou/service/RunnerService.java:126-132 | From a fresh tracker, raw values r0..rN (non-decreasing) give resolved(r0) + (rN − r0) |
| `Tracking.SentinelCollision` | runner/src/main/java/site/hanschen/runwithyou/service/RunnerService.java:127-130 | A falling raw value can bring the count to −1, after which the next event re-resolves instead of adding its delta |
| `Tracking.ThrottleSpaced` | runner/src/main/java/site/hanschen/runwithyou/service/RunnerService.java:172-178 | Persisted times are taken from the events, and each is ≥ 10 000 ms after the previous insert unless that one sat on the sentinel time |
| `Tracking.ThrottleExample` | runner/src/main/java/site/hanschen/runwithyou/service/RunnerService.java:172-178 | Events at 0, 3, 6 and 12 s persist exactly at 0 s and 12 s |
| `Callbacks.Without` | runner/src/main/java/site/hanschen/runwithyou/service/RunnerService.java:241-245 | Unregistering removes exactly that handle, keeps every other and keeps the list duplicate-free |
| `Callbacks.DeliveriesExact` | runner/src/main/java/site/hanschen/runwithyou/service/RunnerService.java:256-263 | A round delivers the count to exactly the live handles of the snapshot, once each |
| `Callbacks.DeliveriesPartialFailure` | runner/src/main/java/site/hanschen/runwithyou/service/RunnerService.java:256-263 | With three subscribers and the second dead, the first and third still receive the update |
| `Service.RunnerService.constructor` | runner/src/main/java/site/hanschen/runwithyou/service/RunnerService.java:68-70 | All three tracker fields start at −1; no callbacks; the store is as persisted |
| `Service.RunnerService.OnSensorChanged` | runner/src/main/java/site/hanschen/runwithyou/service/RunnerService.java:124-144 | A step-counter event resolves (first time) or advances the count, records the raw value, posts one round and offers a snapshot to the throttle; any other sensor changes nothing |
| `Service.RunnerService.InsertRecord` | runner/src/main/java/site/hanschen/runwithyou/service/RunnerService.java:172-178 | A row (raw, now, count) is appended iff the last insert time is the sentinel or ≥ 10 000 ms ago, and then the last insert time becomes now; otherwise nothing changes. The store invariant keeps rows written by this service 10 s apart |
| `Service.RunnerService.GetStepCount` | runner/src/main/java/site/hanschen/runwithyou/service/RunnerService.java:229-231 | Returns the count, which is −1 until the first step-counter event |
| `Service.RunnerService.RegisterCallback` | runner/src/main/java/site/hanschen/runwithyou/service/RunnerService.java:234-238 | A null handle leaves the list unchanged; a new handle is appended once; a registered one is not added again |
| `Service.RunnerService.UnregisterCallback` | runner/src/main/java/site/hanschen/runwithyou/service/RunnerService.java:241-245 | A null handle leaves the list unchanged; otherwise that handle is removed |
| `Service.RunnerService.Broadcast` | runner/src/main/java/site/hanschen/runwithyou/service/RunnerService.java:256-263 | Every handle of the snapshot is attempted in order; deliveries are those to live handles; no RemoteException escapes |
| `Service.RunnerService.RunPostedBroadcast` | runner/src/main/java/site/hanschen/runwithyou/service/RunnerService.java:252-265 | Running one posted round broadcasts the count current at run time and retires that round |
| `Service.ThrottleScenario` | runner/src/main/java/site/hanschen/runwithyou/service/RunnerService.java:172-178 | On the class itself, events at 0, 3, 6 and 12 s store exactly two rows, at 0 s and 12 s |
| `Service.MidnightCarryOverScenario` | runner/src/main/java/site/hanschen/runwithyou/service/RunnerService.java:127-142 | On the class itself, a service running across midnight writes a row claiming 1010 steps five seconds into the new day, and a restarted service resumes from it at 1020 |
| `DayTruth.CarriedOverRowOvercounts` | runner/src/main/java/site/hanschen/runwithyou/service/RunnerService.java:129-130 | That carried-over row holds more steps than the new day can have, so it is not a record the never-overcount bound applies to |
| `Service.TrackingScenario` | runner/src/main/java/site/hanschen/runwithyou/service/RunnerService.java:124-144 | On the class itself, raw 100 (boot today, no record), another sensor, then 130 and 150 give a count of 150 |
| `Events.RegisterNew` | runner/src/main/java/site/hanschen/runwithyou/eventbus/EventBus.java:36-39 | A new non-null subscriber gains exactly its entry; all other entries are kept |
| `Events.RegisterDuplicate` | runner/src/main/java/site/hanschen/runwithyou/eventbus/EventBus.java:38-42 | A subscriber already present is refused and the map is unchanged, so each key holds one callback |
| `Events.RegisterNull` | runner/src/main/java/site/hanschen/runwithyou/eventbus/EventBus.java:37 | Registering a null subscriber is a no-op |
| `Events.UnregisterRemoves` | runner/src/main/java/site/hanschen/runwithyou/eventbus/EventBus.java:46-48 | Unregistering removes that key if present, is a no-op if absent, and keeps other entries |
| `Events.UnregisterThenRegister` | runner/src/main/java/site/hanschen/runwithyou/eventbus/EventBus.java:36-48 | After unregistering, the subscriber can register again without error |
| `Events.RegisterUnregisterRoundTrip` | runner/src/main/java/site/hanschen/runwithyou/eventbus/EventBus.java:36-48 | Unregistering undoes a successful registration |
| `Events.EventBus.constructor` | runner/src/main/java/site/hanschen/runwithyou/eventbus/EventBus.java:34 | A new bus has no listeners |
| `Events.EventBus.RegisterStepCallback` | runner/src/main/java/site/hanschen/runwithyou/eventbus/EventBus.java:36-44 | Outcome and new map are those of the pure registration, so a duplicate fails with the map unchanged |
| `Events.EventBus.UnregisterCallback` | runner/src/main/java/site/hanschen/runwithyou/eventbus/EventBus.java:46-48 | The new map is the pure unregistration of the old |
| `Events.EventBus.OnStepUpdate` | runner/src/main/java/site/hanschen/runwithyou/eventbus/EventBus.java:50-58 | Each registered entry's callback is invoked once with the count; the invoked callbacks are exactly the map's values |

## Left out

- Service lifecycle is not modelled because it is Android platform plumbing. That covers `onCreate`, `onDestroy`, `onStartCommand`, `onBind`, `bind`/`unbind`, sensor registration and the SDK version checks.
- The foreground notification and the preference listener are not modelled, including `notify` on each event. They are UI and settings glue with no effect on the step count.
- Threading is not modelled. The main-thread `Handler` becomes a count of posted rounds that are run one at a time. The `volatile` field and the double-checked singleton `EventBus.getInstance` are concurrency devices; the bus here is an explicitly constructed object.
- `TimeUtils.isSameDayOfMillis` is not part of this model. "Same day" is equality of the local day index, (millis + zone offset) floor-divided by 86 400 000, with a fixed zone offset. Daylight-saving changes are not modelled.
- The step store's implementation is not part of this model. Its latest record is taken to be the row appended last.
- The source reads `System.currentTimeMillis()` twice per event, once in `calcStepOfDay` and once in `insertRecord`. The model uses one clock reading per event.
- The raw sensor value is taken as an integer. The float-to-long cast of `event.values[0]` is not modelled.
- Java `long` overflow is not modelled; integers are unbounded. Step counts and timestamps stay far from 2^63.
- Service.RunnerService.RegisterCallback: the remote callback list's own handling of dead processes is not modelled. It refuses a handle whose process is already dead and prunes handles whose process dies. Dead handles are instead a parameter of each broadcast round. Broadcast order is registration order, where the platform list's order is unspecified.
- Service.RunnerService.Broadcast: only RemoteException is caught, and only that path is modelled (a handle in the dead set). A RuntimeException from a callback (an in-process one, such as the EventBus, which is itself a RunnerCallback) would end the round early and skip finishBroadcast; the model does not capture that.
- Events.EventBus.OnStepUpdate: the dispatcher helper it uses is not part of this model. Delivery is modelled as one invocation per entry. A listener that throws (which would abort the loop) is not modelled, and neither is a null callback value.
- The `EventBus` as a remote subscriber (`RunnerCallback.Stub`) is binder plumbing and is not modelled.
- The dependency-injection wiring and the activity screens hold no step logic and are not modelled.
