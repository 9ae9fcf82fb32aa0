/**
 * The tracker state of the application window and the operations that
 * change it in place: the six-slot id table bodiesIds, the lifetime counter
 * totalVisits and the snapshot buffer periodicDataStorage.
 */
module Window {
  import opened Kinect
  import opened Slots
  import opened SkeletonStore

  class MainWindow {
    var bodiesIds: seq<u64>
    var totalVisits: nat
    var periodicDataStorage: seq<SkeletonRecord>

    /** The table always has MAX_BODIES slots and no id occupies two of them. */
    ghost predicate Valid()
      reads this
    {
      ValidTable(bodiesIds)
    }

    /** The slot table and counter as a value. */
    ghost function State(): Tracker
      reads this
    {
      Tracker(bodiesIds, totalVisits)
    }

    /** The window starts with an empty table, no visits and an empty buffer. */
    constructor ()
      ensures Valid()
      ensures bodiesIds == EmptyTable() && totalVisits == 0 && periodicDataStorage == []
    {
      bodiesIds := [];
      totalVisits := 0;
      periodicDataStorage := [];
      new;
      InitializeBodiesIds();
    }

    /** Clears the table and refills it with MAX_BODIES empty slots. */
    method InitializeBodiesIds()
      modifies this`bodiesIds
      ensures Valid() && bodiesIds == EmptyTable()
    {
      bodiesIds := [];
      for i := 0 to MAX_BODIES
        invariant |bodiesIds| == i
        invariant forall j :: 0 <= j < i ==> bodiesIds[j] == 0
      {
        bodiesIds := bodiesIds + [0];
      }
    }

    /** The release pass: every slot whose id is not among the tracked ids becomes empty. */
    method ResetUntrackedBodies(trackedBodies: seq<Body>)
      requires Valid()
      modifies this`bodiesIds
      ensures Valid()
      ensures bodiesIds == Released(old(bodiesIds), TrackedIds(trackedBodies))
    {
      var trackedIds := TrackedIds(trackedBodies);
      ghost var expected := Released(bodiesIds, trackedIds);
      for i := 0 to |bodiesIds|
        invariant |bodiesIds| == MAX_BODIES
        invariant forall j :: 0 <= j < i ==> bodiesIds[j] == expected[j]
        invariant forall j :: i <= j < MAX_BODIES ==> bodiesIds[j] == old(bodiesIds)[j]
      {
        if bodiesIds[i] != 0 && bodiesIds[i] !in trackedIds {
          bodiesIds := bodiesIds[i := 0];
        }
      }
      ReleasedFacts(old(bodiesIds), trackedIds);
    }

    /** The lowest slot holding the id, or -1; the table is only read. */
    method FindExistingBodyIndex(trackingId: u64) returns (index: int)
      requires Valid()
      ensures index == IndexOf(bodiesIds, trackingId)
      ensures -1 <= index < MAX_BODIES
      ensures 0 <= index ==> bodiesIds[index] == trackingId && forall j :: 0 <= j < index ==> bodiesIds[j] != trackingId
      ensures index < 0 <==> trackingId !in bodiesIds
    {
      for i := 0 to MAX_BODIES
        invariant forall j :: 0 <= j < i ==> bodiesIds[j] != trackingId
      {
        if bodiesIds[i] == trackingId {
          return i;
        }
      }
      return -1;
    }

    /**
     * Puts a body whose id holds no slot into the lowest empty slot and counts
     * a visit; with every slot occupied the body is dropped and nothing changes.
     */
    method AssignNewBody(trackingId: u64)
      requires Valid() && trackingId != 0 && trackingId !in bodiesIds
      modifies this`bodiesIds, this`totalVisits
      ensures Valid()
      ensures State() == AssignNew(old(State()), trackingId)
      ensures 0 in old(bodiesIds) ==>
        && bodiesIds == old(bodiesIds)[IndexOf(old(bodiesIds), 0) := trackingId]
        && totalVisits == old(totalVisits) + 1
      ensures 0 !in old(bodiesIds) ==> bodiesIds == old(bodiesIds) && totalVisits == old(totalVisits)
    {
      for i := 0 to MAX_BODIES
        invariant forall j :: 0 <= j < i ==> bodiesIds[j] != 0
        invariant bodiesIds == old(bodiesIds) && totalVisits == old(totalVisits)
      {
        if bodiesIds[i] == 0 {
          AssignNewFacts(State(), trackingId);
          bodiesIds := bodiesIds[i := trackingId];
          totalVisits := totalVisits + 1;
          return;
        }
      }
    }

    /**
     * Runs the tracker on the tracked bodies of one frame: release pass, then
     * for each body with a reference joint either keep its slot (and note that
     * a body was matched) or assign it a new one. Returns whether the visuals
     * are cleared, which is when no body matched a slot it already held.
     */
    method DrawTrackedBodies(trackedBodies: seq<Body>, viewHeight: real) returns (cleared: bool)
      requires Valid() && NonZeroIds(trackedBodies)
      modifies this`bodiesIds, this`totalVisits
      ensures Valid()
      ensures var r := DrawFrame(old(State()), trackedBodies);
        State() == r.tracker && cleared == !r.anyBodyTracked
    {
      var anyBodyTracked := false;
      ResetUntrackedBodies(trackedBodies);
      ghost var start := Pass(State(), false);
      for n := 0 to |trackedBodies|
        invariant Valid()
        invariant Pass(State(), anyBodyTracked) == UpdatePass(start, trackedBodies[..n])
      {
        var body := trackedBodies[n];
        assert trackedBodies[..n + 1][..n] == trackedBodies[..n];
        var position := CalculateBodyPosition(body, viewHeight);
        if position.Some? {
          var existingIndex := FindExistingBodyIndex(body.trackingId);
          if existingIndex >= 0 {
            // UpdateTrackedBody redraws the slot's marker and table row only.
            anyBodyTracked := true;
          } else {
            AssignNewBody(body.trackingId);
          }
        }
      }
      assert trackedBodies[..|trackedBodies|] == trackedBodies;
      cleared := !anyBodyTracked;
    }

    /** Appends one record per tracked body of the frame, in frame order, after the buffered ones. */
    method StoreSkeletonData(bodies: seq<Body>, cameraId: string, timestamp: int)
      modifies this`periodicDataStorage
      ensures periodicDataStorage == old(periodicDataStorage) + Snapshots(bodies, cameraId, timestamp)
    {
      periodicDataStorage := periodicDataStorage + Snapshots(bodies, cameraId, timestamp);
    }

    /**
     * Flushes the buffer: when it holds records, they are what is written and
     * the buffer is emptied; an empty buffer writes nothing.
     */
    method SaveSkeletonData() returns (written: Option<seq<SkeletonRecord>>)
      modifies this`periodicDataStorage
      ensures periodicDataStorage == []
      ensures written == if old(periodicDataStorage) == [] then None else Some(old(periodicDataStorage))
    {
      if |periodicDataStorage| > 0 {
        written := Some(periodicDataStorage);
        periodicDataStorage := [];
      } else {
        written := None;
      }
    }

    /**
     * Handles one body frame: buffers its tracked bodies, then clears the
     * visuals without touching the tracker when no body is tracked, or runs
     * DrawTrackedBodies on the tracked ones.
     */
    method ProcessBodyFrame(bodies: seq<Body>, cameraId: string, timestamp: int, viewHeight: real) returns (cleared: bool)
      requires Valid() && NonZeroIds(TrackedBodies(bodies))
      modifies this
      ensures Valid()
      ensures periodicDataStorage == old(periodicDataStorage) + Snapshots(bodies, cameraId, timestamp)
      ensures var r := ProcessFrame(old(State()), bodies);
        State() == r.tracker && cleared == !r.anyBodyTracked
    {
      StoreSkeletonData(bodies, cameraId, timestamp);
      var trackedBodies := TrackedBodies(bodies);
      if |trackedBodies| == 0 {
        cleared := true;
      } else {
        cleared := DrawTrackedBodies(trackedBodies, viewHeight);
      }
    }
  }
}
