/**
 * The cross-process subscriber list of RunnerService (a RemoteCallbackList):
 * a duplicate-free sequence of handles, and what one broadcast round over a
 * snapshot of it delivers when some subscribers' processes have died.
 */
module Callbacks {
  import opened Common

  /** A remote callback, identified by its binder. */
  datatype Handle = Handle(binder: nat)

  /** One successful onStepUpdate call. */
  datatype Delivery = Delivery(handle: Handle, count: int)

  /** The list with `h` taken out and every other handle kept. */
  function Without(handles: seq<Handle>, h: Handle): (r: seq<Handle>)
    ensures forall x :: x in r <==> x in handles && x != h
    ensures Distinct(handles) ==> Distinct(r)
    ensures |r| <= |handles|
    decreases |handles|
  {
    if handles == [] then []
    else if handles[0] == h then Without(handles[1..], h)
    else
      var rest := Without(handles[1..], h);
      assert Distinct(handles) ==> Distinct(handles[1..]) && handles[0] !in handles[1..];
      assert forall k :: 0 < k <= |rest| ==> ([handles[0]] + rest)[k] == rest[k - 1];
      [handles[0]] + rest
  }

  /**
   * The deliveries of one round over `snapshot`, in order: every handle is
   * tried, a handle in `dead` raises RemoteException, which is swallowed.
   */
  function Deliveries(snapshot: seq<Handle>, dead: set<Handle>, count: int): seq<Delivery>
    decreases |snapshot|
  {
    if snapshot == [] then []
    else
      var last := snapshot[|snapshot| - 1];
      Deliveries(snapshot[..|snapshot| - 1], dead, count)
        + (if last in dead then [] else [Delivery(last, count)])
  }

  /**
   * A round delivers `count` to exactly the live handles of the snapshot,
   * nothing else, once each when the snapshot has no duplicates.
   */
  lemma {:induction false} DeliveriesExact(snapshot: seq<Handle>, dead: set<Handle>, count: int)
    ensures forall d :: d in Deliveries(snapshot, dead, count)
              <==> d.handle in snapshot && d.handle !in dead && d.count == count
    ensures Distinct(snapshot) ==> Distinct(Deliveries(snapshot, dead, count))
    decreases |snapshot|
  {
    if snapshot != [] {
      var front := snapshot[..|snapshot| - 1];
      var last := snapshot[|snapshot| - 1];
      DeliveriesExact(front, dead, count);
      assert snapshot == front + [last];
      var ds := Deliveries(front, dead, count);
      if Distinct(snapshot) && last !in dead {
        assert last !in front;
        assert Delivery(last, count) !in ds;
      }
    }
  }

  /** Three subscribers, the second dead: the first and third still get the update. */
  lemma DeliveriesPartialFailure(count: int)
    ensures Deliveries([Handle(1), Handle(2), Handle(3)], {Handle(2)}, count)
              == [Delivery(Handle(1), count), Delivery(Handle(3), count)]
  {
    var hs := [Handle(1), Handle(2), Handle(3)];
    var dead := {Handle(2)};
    assert hs[..2] == [Handle(1), Handle(2)] && hs[..2][..1] == [Handle(1)] && hs[..2][..1][..0] == [];
    assert Deliveries([Handle(1)], dead, count) == [Delivery(Handle(1), count)];
    assert Deliveries([Handle(1), Handle(2)], dead, count) == [Delivery(Handle(1), count)];
  }
}
