/**
 * EventBus: the in-process registry of step listeners, a map from subscriber
 * to callback in which a subscriber may hold at most one entry; registering
 * it a second time is a programming error, reported as a failure that
 * leaves the map as it was.
 */
module Events {
  import opened Common

  /** An in-process subscriber object, by identity. */
  datatype Subscriber = Subscriber(identity: nat)

  /** An OnStepCallback listener. */
  datatype StepCallback = StepCallback(id: nat)

  /** One call of a listener's onStepUpdate. */
  datatype Invocation = Invocation(callback: StepCallback, count: int)

  /** registerStepCallback either returns or throws for a subscriber already present. */
  datatype Outcome = Pass | AlreadyRegistered(subscriber: Subscriber)

  /** Outcome of registering `callback` under `subscriber` (null: ignored). */
  function RegisterOutcome(m: map<Subscriber, StepCallback>, subscriber: Option<Subscriber>): Outcome
  {
    if subscriber.Some? && subscriber.value in m then AlreadyRegistered(subscriber.value) else Pass
  }

  /** The map after registering: the new entry is added only for a non-null, absent subscriber. */
  function Register(m: map<Subscriber, StepCallback>, subscriber: Option<Subscriber>, callback: StepCallback)
    : map<Subscriber, StepCallback>
  {
    if subscriber.Some? && subscriber.value !in m then m[subscriber.value := callback] else m
  }

  /** The map after unregistering (a null subscriber is never a key). */
  function Unregister(m: map<Subscriber, StepCallback>, subscriber: Option<Subscriber>): map<Subscriber, StepCallback>
  {
    if subscriber.Some? then m - {subscriber.value} else m
  }

  /** A new subscriber gains exactly its own entry; every other entry is kept. */
  lemma RegisterNew(m: map<Subscriber, StepCallback>, s: Subscriber, callback: StepCallback)
    requires s !in m
    ensures RegisterOutcome(m, Some(s)) == Pass
    ensures var m' := Register(m, Some(s), callback);
      && m'.Keys == m.Keys + {s}
      && m'[s] == callback
      && (forall k :: k in m ==> m'[k] == m[k])
      && |m'| == |m| + 1
  {
  }

  /** A subscriber already present is refused, the map untouched and its callback kept. */
  lemma RegisterDuplicate(m: map<Subscriber, StepCallback>, s: Subscriber, callback: StepCallback)
    requires s in m
    ensures RegisterOutcome(m, Some(s)) == AlreadyRegistered(s)
    ensures Register(m, Some(s), callback) == m
  {
  }

  /** Registering null is a no-op that succeeds. */
  lemma RegisterNull(m: map<Subscriber, StepCallback>, callback: StepCallback)
    ensures RegisterOutcome(m, None) == Pass && Register(m, None, callback) == m
  {
  }

  /** Unregistering removes that subscriber's entry, if any, and no other. */
  lemma UnregisterRemoves(m: map<Subscriber, StepCallback>, s: Subscriber)
    ensures var m' := Unregister(m, Some(s));
      && s !in m'
      && m'.Keys == m.Keys - {s}
      && (forall k :: k in m' ==> m'[k] == m[k])
      && (s !in m ==> m' == m)
  {
  }

  /** After unregistering, the same subscriber can be registered again without error. */
  lemma UnregisterThenRegister(m: map<Subscriber, StepCallback>, s: Subscriber, callback: StepCallback)
    ensures var m' := Unregister(m, Some(s));
      && RegisterOutcome(m', Some(s)) == Pass
      && Register(m', Some(s), callback) == m[s := callback]
  {
  }

  /** Unregistering undoes a successful registration. */
  lemma RegisterUnregisterRoundTrip(m: map<Subscriber, StepCallback>, s: Subscriber, callback: StepCallback)
    requires s !in m
    ensures Unregister(Register(m, Some(s), callback), Some(s)) == m
  {
  }

  class EventBus {
    var stepCallbacks: map<Subscriber, StepCallback>

    /** A bus with no listeners. */
    constructor ()
      ensures stepCallbacks == map[]
    {
      stepCallbacks := map[];
    }

    method RegisterStepCallback(subscriber: Option<Subscriber>, callback: StepCallback) returns (outcome: Outcome)
      modifies this
      ensures outcome == RegisterOutcome(old(stepCallbacks), subscriber)
      ensures stepCallbacks == Register(old(stepCallbacks), subscriber, callback)
    {
      outcome := Pass;
      if subscriber.Some? {
        if subscriber.value !in stepCallbacks {
          stepCallbacks := stepCallbacks[subscriber.value := callback];
        } else {
          outcome := AlreadyRegistered(subscriber.value);
        }
      }
    }

    method UnregisterCallback(subscriber: Option<Subscriber>)
      modifies this
      ensures stepCallbacks == Unregister(old(stepCallbacks), subscriber)
    {
      if subscriber.Some? {
        stepCallbacks := stepCallbacks - {subscriber.value};
      }
    }

    /**
     * Delivers `count` once per registered entry, in an order the map
     * chooses: `order` lists every subscriber exactly once and `calls[i]`
     * is its callback's invocation; no other callback is invoked.
     */
    method OnStepUpdate(count: int) returns (order: seq<Subscriber>, calls: seq<Invocation>)
      ensures Distinct(order)
      ensures forall k :: k in order <==> k in stepCallbacks
      ensures |calls| == |order|
      ensures forall i :: 0 <= i < |order| ==> calls[i] == Invocation(stepCallbacks[order[i]], count)
      ensures forall c :: Invocation(c, count) in calls <==> c in stepCallbacks.Values
      ensures forall inv :: inv in calls ==> inv.count == count
    {
      var remaining := stepCallbacks.Keys;
      order, calls := [], [];
      while remaining != {}
        invariant remaining <= stepCallbacks.Keys
        invariant Distinct(order)
        invariant forall k :: k in order <==> k in stepCallbacks && k !in remaining
        invariant |calls| == |order|
        invariant forall i :: 0 <= i < |order| ==> calls[i] == Invocation(stepCallbacks[order[i]], count)
        decreases remaining
      {
        var k :| k in remaining;
        order := order + [k];
        calls := calls + [Invocation(stepCallbacks[k], count)];
        remaining := remaining - {k};
      }
      forall c | c in stepCallbacks.Values
        ensures Invocation(c, count) in calls
      {
        var k :| k in stepCallbacks && stepCallbacks[k] == c;
        var i :| 0 <= i < |order| && order[i] == k;
        assert calls[i] == Invocation(c, count);
      }
    }
  }
}
