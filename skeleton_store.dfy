/**
 * The periodic snapshot buffer: one record per tracked body and frame,
 * collected until the next flush to a JSON file.
 */
module SkeletonStore {
  import opened Kinect

  /** One persisted skeleton record: sensor id, wall-clock time, body id and every joint with its state. */
  datatype SkeletonRecord = SkeletonRecord(cameraId: string, timestamp: int, bodyId: u64, joints: map<JointType, Joint>)

  function Snapshot(body: Body, cameraId: string, timestamp: int): SkeletonRecord
  {
    SkeletonRecord(cameraId, timestamp, body.trackingId, body.joints)
  }

  /** The records StoreSkeletonData builds for one frame: exactly one per tracked body, in frame order. */
  function Snapshots(bodies: seq<Body>, cameraId: string, timestamp: int): (r: seq<SkeletonRecord>)
    ensures |r| == |TrackedBodies(bodies)|
    ensures forall i :: 0 <= i < |r| ==> r[i] == Snapshot(TrackedBodies(bodies)[i], cameraId, timestamp)
  {
    if bodies == [] then []
    else
      (if bodies[0].isTracked then [Snapshot(bodies[0], cameraId, timestamp)] else [])
      + Snapshots(bodies[1..], cameraId, timestamp)
  }

  /** A frame with no tracked body adds no record. */
  lemma NoTrackedNoSnapshots(bodies: seq<Body>, cameraId: string, timestamp: int)
    requires forall i :: 0 <= i < |bodies| ==> !bodies[i].isTracked
    ensures Snapshots(bodies, cameraId, timestamp) == []
  {
    if |TrackedBodies(bodies)| > 0 {
      var b := TrackedBodies(bodies)[0];
      assert b in TrackedBodies(bodies);
    }
  }
}
