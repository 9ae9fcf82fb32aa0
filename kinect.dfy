/**
 * The body data a depth-sensor frame delivers to the window: one record per
 * body the sensor can follow, with its hardware tracking id, whether it is
 * tracked in this frame, and the joints it reports.
 */
module Kinect {

  /** An unsigned 64-bit integer, the type of a sensor tracking id (0 means "no body"). */
  newtype u64 = x: int | 0 <= x < 0x1_0000_0000_0000_0000

  datatype Option<T> = None | Some(value: T)

  /** The 25 joints of a tracked skeleton. */
  datatype JointType =
    | SpineBase | SpineMid | Neck | Head
    | ShoulderLeft | ElbowLeft | WristLeft | HandLeft
    | ShoulderRight | ElbowRight | WristRight | HandRight
    | HipLeft | KneeLeft | AnkleLeft | FootLeft
    | HipRight | KneeRight | AnkleRight | FootRight
    | SpineShoulder | HandTipLeft | ThumbLeft | HandTipRight | ThumbRight

  datatype TrackingState = NotTracked | Inferred | Tracked

  /** A point in camera space, in metres (single-precision floats in the source, reals here). */
  datatype CameraSpacePoint = CameraSpacePoint(x: real, y: real, z: real)

  datatype Joint = Joint(position: CameraSpacePoint, trackingState: TrackingState)

  datatype Body = Body(trackingId: u64, isTracked: bool, joints: map<JointType, Joint>)

  /** A position on the top-down occupancy canvas. */
  datatype PlanPoint = PlanPoint(x: real, z: real)

  /**
   * The plan-view position of a body, taken from its SpineMid joint: both
   * coordinates are scaled by viewHeight / 5000 and by 1000, and the depth is
   * flipped so that the camera sits on the bottom edge of the canvas. A body
   * that reports no SpineMid joint has no position.
   */
  function CalculateBodyPosition(body: Body, viewHeight: real): (p: Option<PlanPoint>)
    ensures p.Some? <==> SpineMid in body.joints
  {
    if SpineMid !in body.joints then None
    else
      var joint := body.joints[SpineMid];
      var positionZ := viewHeight / 5000.0;
      var bodyX := joint.position.x * positionZ * 1000.0;
      var bodyZ := joint.position.z * positionZ * 1000.0;
      Some(PlanPoint(bodyX, viewHeight - bodyZ))
  }

  /** The depth axis is mirrored: a body farther from the camera is drawn nearer the top of the canvas. */
  lemma FartherIsDrawnHigher(b1: Body, b2: Body, viewHeight: real)
    requires viewHeight > 0.0
    requires SpineMid in b1.joints && SpineMid in b2.joints
    requires b1.joints[SpineMid].position.z < b2.joints[SpineMid].position.z
    ensures CalculateBodyPosition(b2, viewHeight).value.z < CalculateBodyPosition(b1, viewHeight).value.z
  {
    var k := viewHeight / 5000.0 * 1000.0;
    assert k > 0.0;
    var z1, z2 := b1.joints[SpineMid].position.z, b2.joints[SpineMid].position.z;
    assert z1 * (viewHeight / 5000.0) * 1000.0 == z1 * k;
    assert z2 * (viewHeight / 5000.0) * 1000.0 == z2 * k;
    assert z1 * k < z2 * k;
  }

  /** A body standing at the camera (depth 0) is drawn on the bottom edge of the canvas. */
  lemma CameraIsBottomEdge(b: Body, viewHeight: real)
    requires SpineMid in b.joints && b.joints[SpineMid].position.z == 0.0
    ensures CalculateBodyPosition(b, viewHeight).value.z == viewHeight
  {
  }

  /** The tracked bodies of a frame, in frame order (the source's `Where(body => body.IsTracked)`). */
  function TrackedBodies(bodies: seq<Body>): (r: seq<Body>)
    ensures |r| <= |bodies|
    ensures forall b :: b in r <==> b in bodies && b.isTracked
  {
    if bodies == [] then []
    else (if bodies[0].isTracked then [bodies[0]] else []) + TrackedBodies(bodies[1..])
  }

  /** Filtering keeps frame order: the tracked bodies of a concatenation are the concatenation of the tracked bodies. */
  lemma {:induction false} TrackedBodiesAppend(a: seq<Body>, b: seq<Body>)
    ensures TrackedBodies(a + b) == TrackedBodies(a) + TrackedBodies(b)
  {
    if a == [] {
      assert a + b == b;
    } else {
      assert (a + b)[0] == a[0];
      assert (a + b)[1..] == a[1..] + b;
      TrackedBodiesAppend(a[1..], b);
    }
  }

  /** The set of tracking ids of a list of bodies (the source's HashSet of TrackingId). */
  function TrackedIds(bodies: seq<Body>): (ids: set<u64>)
    ensures forall i :: 0 <= i < |bodies| ==> bodies[i].trackingId in ids
    ensures forall id :: id in ids ==> exists i :: 0 <= i < |bodies| && bodies[i].trackingId == id
  {
    set i | 0 <= i < |bodies| :: bodies[i].trackingId
  }

  /** Every tracked body carries a real (non-zero) tracking id. */
  predicate NonZeroIds(bodies: seq<Body>)
  {
    forall i :: 0 <= i < |bodies| ==> bodies[i].trackingId != 0
  }

  /** No two bodies of the list share a tracking id. */
  predicate DistinctIds(bodies: seq<Body>)
  {
    forall i, j :: 0 <= i < j < |bodies| ==> bodies[i].trackingId != bodies[j].trackingId
  }
}
