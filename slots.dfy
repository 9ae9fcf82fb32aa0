/**
 * The slot table of the multi-body tracker, as values: six identity slots
 * holding sensor tracking ids (0 = empty) and the lifetime visit counter.
 * The functions here are the specifications that the imperative methods of
 * Window.MainWindow are proved against; the lemmas state what the per-frame
 * algorithm guarantees.
 */
module Slots {
  import opened Kinect

  const MAX_BODIES: nat := 6

  /** Exactly MAX_BODIES slots, and no non-zero id occupies two of them. */
  predicate ValidTable(slots: seq<u64>)
  {
    && |slots| == MAX_BODIES
    && forall i, j :: 0 <= i < j < |slots| && slots[i] != 0 ==> slots[i] != slots[j]
  }

  /** The ids that currently hold a slot. */
  function Occupants(slots: seq<u64>): set<u64>
  {
    set i | 0 <= i < |slots| && slots[i] != 0 :: slots[i]
  }

  /** The table after InitializeBodiesIds. */
  function EmptyTable(): (slots: seq<u64>)
    ensures ValidTable(slots) && Occupants(slots) == {}
    ensures forall i :: 0 <= i < |slots| ==> slots[i] == 0
  {
    seq(MAX_BODIES, _ => 0)
  }

  /** The lowest index holding `id`, or -1 when no slot holds it (FindExistingBodyIndex). */
  function IndexOf(slots: seq<u64>, id: u64): (k: int)
    ensures -1 <= k < |slots|
    ensures 0 <= k ==> slots[k] == id && forall j :: 0 <= j < k ==> slots[j] != id
    ensures k < 0 <==> id !in slots
  {
    if slots == [] then -1
    else if slots[0] == id then 0
    else
      var k := IndexOf(slots[1..], id);
      if k < 0 then -1 else k + 1
  }

  /** The release pass (ResetUntrackedBodies): every slot whose id is not tracked in this frame becomes empty. */
  function Released(slots: seq<u64>, trackedIds: set<u64>): (r: seq<u64>)
    ensures |r| == |slots|
    ensures forall i :: 0 <= i < |r| && r[i] != 0 ==> r[i] in trackedIds
    ensures forall i :: 0 <= i < |slots| && slots[i] in trackedIds ==> r[i] == slots[i]
    ensures forall i :: 0 <= i < |slots| && (slots[i] == 0 || slots[i] !in trackedIds) ==> r[i] == 0
  {
    if slots == [] then []
    else [if slots[0] != 0 && slots[0] !in trackedIds then 0 else slots[0]] + Released(slots[1..], trackedIds)
  }

  /** Slot table and visit counter (bodiesIds and totalVisits). */
  datatype Tracker = Tracker(slots: seq<u64>, visits: nat)

  /** AssignNewBody: the id goes into the lowest empty slot and the counter grows by one; with no empty slot nothing changes. */
  function AssignNew(t: Tracker, id: u64): (r: Tracker)
    ensures |r.slots| == |t.slots|
    ensures r.visits == t.visits || r.visits == t.visits + 1
    ensures r.visits == t.visits <==> 0 !in t.slots
  {
    var k := IndexOf(t.slots, 0);
    if k < 0 then t else Tracker(t.slots[k := id], t.visits + 1)
  }

  /** The tracker state inside DrawTrackedBodies: the table, the counter and the flag anyBodyTracked. */
  datatype Pass = Pass(tracker: Tracker, anyBodyTracked: bool)

  /** One iteration of the per-body loop of DrawTrackedBodies. */
  function Step(p: Pass, body: Body): (r: Pass)
    ensures |r.tracker.slots| == |p.tracker.slots|
    ensures p.tracker.visits <= r.tracker.visits <= p.tracker.visits + 1
    ensures p.anyBodyTracked ==> r.anyBodyTracked
    ensures SpineMid !in body.joints ==> r == p
  {
    if SpineMid !in body.joints then p
    else if IndexOf(p.tracker.slots, body.trackingId) >= 0 then p.(anyBodyTracked := true)
    else p.(tracker := AssignNew(p.tracker, body.trackingId))
  }

  /** The per-body loop of DrawTrackedBodies over `bodies`, in order. */
  function UpdatePass(p: Pass, bodies: seq<Body>): (r: Pass)
    ensures |r.tracker.slots| == |p.tracker.slots|
    ensures p.tracker.visits <= r.tracker.visits <= p.tracker.visits + |bodies|
    ensures p.anyBodyTracked ==> r.anyBodyTracked
  {
    if bodies == [] then p
    else Step(UpdatePass(p, bodies[..|bodies| - 1]), bodies[|bodies| - 1])
  }

  /** DrawTrackedBodies: the release pass, then the update pass; visuals are cleared when !anyBodyTracked. */
  function DrawFrame(t: Tracker, tracked: seq<Body>): (r: Pass)
    ensures |r.tracker.slots| == |t.slots|
    ensures t.visits <= r.tracker.visits <= t.visits + |tracked|
  {
    UpdatePass(Pass(Tracker(Released(t.slots, TrackedIds(tracked)), t.visits), false), tracked)
  }

  /**
   * ProcessBodyFrame: with no tracked body the tracker is not run at all
   * (slots are kept) and visuals are cleared; otherwise DrawTrackedBodies
   * runs on the tracked bodies.
   */
  function ProcessFrame(t: Tracker, bodies: seq<Body>): (r: Pass)
    ensures |r.tracker.slots| == |t.slots|
    ensures t.visits <= r.tracker.visits <= t.visits + |bodies|
    ensures TrackedBodies(bodies) == [] ==> r == Pass(t, false)
  {
    var tracked := TrackedBodies(bodies);
    if |tracked| == 0 then Pass(t, false) else DrawFrame(t, tracked)
  }

  /** The tracker after a sequence of frames. */
  function RunFrames(t: Tracker, frames: seq<seq<Body>>): (r: Tracker)
    ensures |r.slots| == |t.slots|
    ensures r.visits >= t.visits
  {
    if frames == [] then t
    else ProcessFrame(RunFrames(t, frames[..|frames| - 1]), frames[|frames| - 1]).tracker
  }

  /** Whether a frame lets the occupant `id` keep its slot: it is tracked there, or the frame has no tracked body at all. */
  predicate KeepsSlot(id: u64, frame: seq<Body>)
  {
    TrackedBodies(frame) == [] || id in TrackedIds(TrackedBodies(frame))
  }

  /** The ids of the bodies that report the SpineMid reference joint, the only ones the update pass places. */
  function ReferenceIds(bodies: seq<Body>): (ids: set<u64>)
    ensures ids <= TrackedIds(bodies)
  {
    set i | 0 <= i < |bodies| && SpineMid in bodies[i].joints :: bodies[i].trackingId
  }

  /** The bodies that report the SpineMid reference joint, in frame order; the update pass skips every other body. */
  function WithReference(bodies: seq<Body>): (r: seq<Body>)
    ensures |r| <= |bodies|
    ensures forall b :: b in r <==> b in bodies && SpineMid in b.joints
  {
    if bodies == [] then []
    else
      var n := |bodies| - 1;
      assert bodies == bodies[..n] + [bodies[n]];
      WithReference(bodies[..n]) + (if SpineMid in bodies[n].joints then [bodies[n]] else [])
  }

  /** Every body with a reference joint holds a slot, unless no slot is free. */
  predicate Placed(bodies: seq<Body>, slots: seq<u64>)
  {
    forall k :: 0 <= k < |bodies| && SpineMid in bodies[k].joints ==> bodies[k].trackingId in slots || 0 !in slots
  }

  // ---------------------------------------------------------------------------
  // Lemmas

  /** A non-zero id is in the table exactly when it is one of its occupants. */
  lemma OccupantMembership(slots: seq<u64>, id: u64)
    requires id != 0
    ensures id in slots <==> id in Occupants(slots)
  {
    if id in slots {
      var i :| 0 <= i < |slots| && slots[i] == id;
      assert slots[i] in Occupants(slots);
    }
  }

  /** There are never more occupants than slots. */
  lemma {:induction false} OccupantsBounded(slots: seq<u64>)
    ensures |Occupants(slots)| <= |slots|
  {
    if slots != [] {
      var rest := slots[1..];
      OccupantsBounded(rest);
      var head: set<u64> := if slots[0] != 0 then {slots[0]} else {};
      assert Occupants(slots) <= head + Occupants(rest) by {
        forall x | x in Occupants(slots) ensures x in head + Occupants(rest) {
          var i :| 0 <= i < |slots| && slots[i] != 0 && slots[i] == x;
          if i > 0 {
            assert rest[i - 1] == x;
          }
        }
      }
      SubsetCard(Occupants(slots), head + Occupants(rest));
    }
  }

  lemma SubsetCard(a: set<u64>, b: set<u64>)
    requires a <= b
    ensures |a| <= |b|
  {
    assert b == a + (b - a);
  }

  /** The release pass keeps a valid table valid and keeps exactly the occupants that are tracked. */
  lemma ReleasedFacts(slots: seq<u64>, trackedIds: set<u64>)
    requires ValidTable(slots)
    ensures ValidTable(Released(slots, trackedIds))
    ensures Occupants(Released(slots, trackedIds)) == Occupants(slots) * trackedIds
  {
    var r := Released(slots, trackedIds);
    forall x | x in Occupants(slots) * trackedIds ensures x in Occupants(r) {
      var i :| 0 <= i < |slots| && slots[i] != 0 && slots[i] == x;
      assert r[i] == x;
    }
  }

  /** Assigning an id that holds no slot keeps the table valid; it lands in the lowest empty slot, if there is one. */
  lemma AssignNewFacts(t: Tracker, id: u64)
    requires ValidTable(t.slots) && id != 0 && id !in t.slots
    ensures var r := AssignNew(t, id);
      && ValidTable(r.slots)
      && (forall j :: 0 <= j < |t.slots| && t.slots[j] != 0 ==> r.slots[j] == t.slots[j])
      && (0 !in t.slots ==> r == t)
      && (0 in t.slots ==>
            var k := IndexOf(t.slots, 0);
            && r.slots[k] == id
            && (forall j :: 0 <= j < |t.slots| && j != k ==> r.slots[j] == t.slots[j])
            && r.visits == t.visits + 1
            && Occupants(r.slots) == Occupants(t.slots) + {id})
  {
    var r := AssignNew(t, id);
    if 0 in t.slots {
      var k := IndexOf(t.slots, 0);
      assert r.slots == t.slots[k := id];
      forall x | x in Occupants(t.slots) + {id} ensures x in Occupants(r.slots) {
        if x == id {
          assert r.slots[k] == id;
        } else {
          var i :| 0 <= i < |t.slots| && t.slots[i] != 0 && t.slots[i] == x;
          assert r.slots[i] == x;
        }
      }
      forall x | x in Occupants(r.slots) ensures x in Occupants(t.slots) + {id} {
        var i :| 0 <= i < |r.slots| && r.slots[i] != 0 && r.slots[i] == x;
        if i != k {
          assert t.slots[i] == x;
        }
      }
    }
  }

  /** When A <= B <= C, the elements C adds to A are those B adds plus those C adds to B. */
  lemma ChainedDifference(a: set<u64>, b: set<u64>, c: set<u64>)
    requires a <= b <= c
    ensures |c - a| == |b - a| + |c - b|
  {
    assert c - a == (b - a) + (c - b);
    assert (b - a) * (c - b) == {};
  }

  /** One iteration of the per-body loop keeps the table valid, never overwrites an occupant, adds at most the body's id and counts it. */
  lemma StepFacts(q0: Pass, b: Body)
    requires ValidTable(q0.tracker.slots) && b.trackingId != 0
    ensures var q := Step(q0, b);
      && ValidTable(q.tracker.slots)
      && (forall i :: 0 <= i < |q0.tracker.slots| && q0.tracker.slots[i] != 0 ==> q.tracker.slots[i] == q0.tracker.slots[i])
      && Occupants(q0.tracker.slots) <= Occupants(q.tracker.slots)
      && Occupants(q.tracker.slots) <= Occupants(q0.tracker.slots) + (if SpineMid in b.joints then {b.trackingId} else {})
      && q.tracker.visits == q0.tracker.visits + |Occupants(q.tracker.slots) - Occupants(q0.tracker.slots)|
  {
    var q := Step(q0, b);
    if SpineMid in b.joints && IndexOf(q0.tracker.slots, b.trackingId) < 0 {
      AssignNewFacts(q0.tracker, b.trackingId);
      if 0 in q0.tracker.slots {
        var mid := Occupants(q0.tracker.slots);
        assert b.trackingId !in mid by {
          OccupantMembership(q0.tracker.slots, b.trackingId);
        }
        assert Occupants(q.tracker.slots) - mid == {b.trackingId};
      }
    }
  }

  /** Selecting the bodies with a reference joint keeps frame order: it distributes over concatenation. */
  lemma {:induction false} WithReferenceAppend(a: seq<Body>, b: seq<Body>)
    ensures WithReference(a + b) == WithReference(a) + WithReference(b)
  {
    if b == [] {
      assert a + b == a;
    } else {
      var n, ab := |b| - 1, a + b;
      var tail: seq<Body> := if SpineMid in b[n].joints then [b[n]] else [];
      assert ab[..|ab| - 1] == a + b[..n];
      assert ab[|ab| - 1] == b[n];
      calc {
        WithReference(ab);
        WithReference(a + b[..n]) + tail;
        { WithReferenceAppend(a, b[..n]); }
        (WithReference(a) + WithReference(b[..n])) + tail;
        WithReference(a) + (WithReference(b[..n]) + tail);
        WithReference(a) + WithReference(b);
      }
    }
  }

  /** The set of reference ids is the set of ids of the selected bodies. */
  lemma ReferenceIdsOfSelection(bodies: seq<Body>)
    ensures ReferenceIds(bodies) == TrackedIds(WithReference(bodies))
  {
    var refs := WithReference(bodies);
    forall id | id in ReferenceIds(bodies) ensures id in TrackedIds(refs) {
      var i :| 0 <= i < |bodies| && SpineMid in bodies[i].joints && bodies[i].trackingId == id;
      assert bodies[i] in refs;
    }
    forall id | id in TrackedIds(refs) ensures id in ReferenceIds(bodies) {
      var i :| 0 <= i < |refs| && refs[i].trackingId == id;
      assert refs[i] in bodies;
    }
  }

  /** The reference ids of a list are those of all but its last body, plus the last body's id if it has a reference joint. */
  lemma ReferenceIdsLast(bodies: seq<Body>)
    requires bodies != []
    ensures var n := |bodies| - 1;
      ReferenceIds(bodies) == ReferenceIds(bodies[..n]) + (if SpineMid in bodies[n].joints then {bodies[n].trackingId} else {})
  {
    var n := |bodies| - 1;
    var init := bodies[..n];
    forall id | id in ReferenceIds(bodies)
      ensures id in ReferenceIds(init) + (if SpineMid in bodies[n].joints then {bodies[n].trackingId} else {})
    {
      var i :| 0 <= i < |bodies| && SpineMid in bodies[i].joints && bodies[i].trackingId == id;
      if i < n {
        assert init[i] == bodies[i];
      }
    }
    forall id | id in ReferenceIds(init) ensures id in ReferenceIds(bodies) {
      var i :| 0 <= i < n && SpineMid in init[i].joints && init[i].trackingId == id;
      assert bodies[i] == init[i];
    }
  }

  /** One more iteration keeps every earlier body placed (occupants stay, a full table stays full) and places the new body. */
  lemma StepKeepsPlaced(q0: Pass, bodies: seq<Body>)
    requires bodies != [] && ValidTable(q0.tracker.slots) && NonZeroIds(bodies)
    requires Placed(bodies[..|bodies| - 1], q0.tracker.slots)
    ensures Placed(bodies, Step(q0, bodies[|bodies| - 1]).tracker.slots)
  {
    var n := |bodies| - 1;
    var b := bodies[n];
    var before, after := q0.tracker.slots, Step(q0, b).tracker.slots;
    StepFacts(q0, b);
    assert 0 !in before ==> 0 !in after by {
      if 0 !in before {
        forall i | 0 <= i < |after| ensures after[i] != 0 {
          assert before[i] != 0;
        }
      }
    }
    forall k | 0 <= k < n && SpineMid in bodies[k].joints
      ensures bodies[k].trackingId in after || 0 !in after
    {
      assert bodies[..n][k] == bodies[k];
      var id := bodies[k].trackingId;
      if id in before {
        var i :| 0 <= i < |before| && before[i] == id;
        assert after[i] == id;
      }
    }
    if SpineMid in b.joints && IndexOf(before, b.trackingId) < 0 {
      AssignNewFacts(q0.tracker, b.trackingId);
    }
  }

  /**
   * The shape of the update pass: the table stays valid, an occupied slot keeps
   * its occupant, new occupants are ids of bodies with a reference joint, and
   * the counter grows by exactly the number of new occupants.
   */
  lemma {:induction false} UpdatePassShape(p: Pass, bodies: seq<Body>)
    requires ValidTable(p.tracker.slots) && NonZeroIds(bodies)
    ensures var q := UpdatePass(p, bodies);
      && ValidTable(q.tracker.slots)
      && (forall i :: 0 <= i < |p.tracker.slots| && p.tracker.slots[i] != 0 ==> q.tracker.slots[i] == p.tracker.slots[i])
      && Occupants(p.tracker.slots) <= Occupants(q.tracker.slots)
      && Occupants(q.tracker.slots) <= Occupants(p.tracker.slots) + ReferenceIds(bodies)
      && q.tracker.visits == p.tracker.visits + |Occupants(q.tracker.slots) - Occupants(p.tracker.slots)|
  {
    if bodies != [] {
      var n := |bodies| - 1;
      var init, b := bodies[..n], bodies[n];
      assert NonZeroIds(init) by {
        forall i | 0 <= i < |init| ensures init[i].trackingId != 0 {
          assert init[i] == bodies[i];
        }
      }
      UpdatePassShape(p, init);
      ReferenceIdsLast(bodies);
      var q0 := UpdatePass(p, init);
      assert UpdatePass(p, bodies) == Step(q0, b);
      StepFacts(q0, b);
      ChainedDifference(Occupants(p.tracker.slots), Occupants(q0.tracker.slots), Occupants(Step(q0, b).tracker.slots));
    }
  }

  /** After the update pass, every body with a reference joint holds a slot unless the table is full. */
  lemma {:induction false} UpdatePassPlaces(p: Pass, bodies: seq<Body>)
    requires ValidTable(p.tracker.slots) && NonZeroIds(bodies)
    ensures Placed(bodies, UpdatePass(p, bodies).tracker.slots)
  {
    if bodies != [] {
      var n := |bodies| - 1;
      var init := bodies[..n];
      assert NonZeroIds(init) by {
        forall i | 0 <= i < |init| ensures init[i].trackingId != 0 {
          assert init[i] == bodies[i];
        }
      }
      UpdatePassPlaces(p, init);
      UpdatePassShape(p, init);
      var q0 := UpdatePass(p, init);
      assert UpdatePass(p, bodies) == Step(q0, bodies[n]);
      StepKeepsPlaced(q0, bodies);
    }
  }

  /**
   * The update pass keeps the table valid; an occupied slot keeps its
   * occupant; every new occupant is the id of a body with a reference joint;
   * every body with a reference joint ends up holding a slot unless the table
   * is full; and the counter grows by exactly the number of new occupants.
   */
  lemma UpdatePassFacts(p: Pass, bodies: seq<Body>)
    requires ValidTable(p.tracker.slots) && NonZeroIds(bodies)
    ensures var q := UpdatePass(p, bodies);
      && ValidTable(q.tracker.slots)
      && (forall i :: 0 <= i < |p.tracker.slots| && p.tracker.slots[i] != 0 ==> q.tracker.slots[i] == p.tracker.slots[i])
      && Occupants(p.tracker.slots) <= Occupants(q.tracker.slots)
      && Occupants(q.tracker.slots) <= Occupants(p.tracker.slots) + ReferenceIds(bodies)
      && Placed(bodies, q.tracker.slots)
      && q.tracker.visits == p.tracker.visits + |Occupants(q.tracker.slots) - Occupants(p.tracker.slots)|
  {
    UpdatePassShape(p, bodies);
    UpdatePassPlaces(p, bodies);
  }

  /** Some body of the list has its reference joint and an id that is in `slots`. */
  predicate AnyPreexisting(bodies: seq<Body>, slots: seq<u64>)
  {
    exists k :: 0 <= k < |bodies| && SpineMid in bodies[k].joints && bodies[k].trackingId in slots
  }

  /** A body of the list matches iff one of all but the last matches or the last one does. */
  lemma AnyPreexistingSplit(bodies: seq<Body>, slots: seq<u64>)
    requires bodies != []
    ensures var n := |bodies| - 1;
      AnyPreexisting(bodies, slots) <==>
        AnyPreexisting(bodies[..n], slots) || (SpineMid in bodies[n].joints && bodies[n].trackingId in slots)
  {
    var n := |bodies| - 1;
    var init := bodies[..n];
    if AnyPreexisting(bodies, slots) {
      var k :| 0 <= k < |bodies| && SpineMid in bodies[k].joints && bodies[k].trackingId in slots;
      if k < n {
        assert init[k] == bodies[k];
      }
    }
    if AnyPreexisting(init, slots) {
      var k :| 0 <= k < |init| && SpineMid in init[k].joints && init[k].trackingId in slots;
      assert bodies[k] == init[k];
    }
  }

  /** The last body's id is in the table reached after the earlier bodies iff it was in the starting table. */
  lemma LastIdUnchangedMembership(p: Pass, bodies: seq<Body>)
    requires ValidTable(p.tracker.slots) && NonZeroIds(bodies) && DistinctIds(bodies) && bodies != []
    ensures var n := |bodies| - 1;
      (bodies[n].trackingId in UpdatePass(p, bodies[..n]).tracker.slots) <==> (bodies[n].trackingId in p.tracker.slots)
  {
    var n := |bodies| - 1;
    var init, b := bodies[..n], bodies[n];
    assert NonZeroIds(init) by {
      forall i | 0 <= i < |init| ensures init[i] == bodies[i] { }
    }
    UpdatePassFacts(p, init);
    var q0 := UpdatePass(p, init);
    assert b.trackingId !in TrackedIds(init) by {
      forall i | 0 <= i < |init| ensures init[i].trackingId != b.trackingId {
        assert init[i] == bodies[i];
      }
    }
    OccupantMembership(q0.tracker.slots, b.trackingId);
    OccupantMembership(p.tracker.slots, b.trackingId);
  }

  /**
   * With distinct ids, the update pass sets anyBodyTracked exactly when some
   * body with a reference joint finds its id already in the table it started from.
   */
  lemma {:induction false} UpdatePassMatched(p: Pass, bodies: seq<Body>)
    requires ValidTable(p.tracker.slots) && NonZeroIds(bodies) && DistinctIds(bodies)
    ensures UpdatePass(p, bodies).anyBodyTracked <==> p.anyBodyTracked || AnyPreexisting(bodies, p.tracker.slots)
  {
    if bodies != [] {
      var n := |bodies| - 1;
      var init, b := bodies[..n], bodies[n];
      assert NonZeroIds(init) && DistinctIds(init) by {
        forall i | 0 <= i < |init| ensures init[i] == bodies[i] { }
      }
      UpdatePassMatched(p, init);
      var q0 := UpdatePass(p, init);
      assert UpdatePass(p, bodies) == Step(q0, b);
      LastIdUnchangedMembership(p, bodies);
      AnyPreexistingSplit(bodies, p.tracker.slots);
    }
  }

  /**
   * One run of DrawTrackedBodies: the table stays valid; a tracked occupant
   * keeps its slot; every occupant afterwards is tracked in the frame; a new
   * occupant is a body with a reference joint, and every such body holds a
   * slot afterwards unless the table is full; and the counter grows by
   * exactly the number of ids that hold a slot afterwards but held none before.
   */
  lemma DrawFrameFacts(t: Tracker, tracked: seq<Body>)
    requires ValidTable(t.slots) && NonZeroIds(tracked)
    ensures var r := DrawFrame(t, tracked).tracker;
      && ValidTable(r.slots)
      && (forall i :: 0 <= i < |t.slots| && t.slots[i] in TrackedIds(tracked) ==> r.slots[i] == t.slots[i])
      && Occupants(r.slots) <= TrackedIds(tracked)
      && Occupants(t.slots) * TrackedIds(tracked) <= Occupants(r.slots)
      && Occupants(r.slots) - Occupants(t.slots) <= ReferenceIds(tracked)
      && Placed(tracked, r.slots)
      && r.visits == t.visits + |Occupants(r.slots) - Occupants(t.slots)|
  {
    var ids := TrackedIds(tracked);
    var released := Released(t.slots, ids);
    ReleasedFacts(t.slots, ids);
    var p := Pass(Tracker(released, t.visits), false);
    UpdatePassFacts(p, tracked);
    var r := DrawFrame(t, tracked).tracker;
    assert Occupants(r.slots) - Occupants(released) == Occupants(r.slots) - Occupants(t.slots);
  }

  /**
   * The clear signal of DrawTrackedBodies: with distinct ids, visuals are
   * cleared exactly when no tracked body with a reference joint already held
   * a slot before the frame; a body that is only newly assigned does not
   * prevent the clearing.
   */
  lemma ClearedIffNoneMatched(t: Tracker, tracked: seq<Body>)
    requires ValidTable(t.slots) && NonZeroIds(tracked) && DistinctIds(tracked)
    ensures !DrawFrame(t, tracked).anyBodyTracked <==>
      forall k :: 0 <= k < |tracked| && SpineMid in tracked[k].joints ==> tracked[k].trackingId !in t.slots
  {
    var ids := TrackedIds(tracked);
    var released := Released(t.slots, ids);
    ReleasedFacts(t.slots, ids);
    UpdatePassMatched(Pass(Tracker(released, t.visits), false), tracked);
    forall k | 0 <= k < |tracked|
      ensures tracked[k].trackingId in released <==> tracked[k].trackingId in t.slots
    {
      OccupantMembership(released, tracked[k].trackingId);
      OccupantMembership(t.slots, tracked[k].trackingId);
    }
  }

  /**
   * One run of ProcessBodyFrame: the table stays valid, the counter never
   * decreases, an occupant that the frame lets keep its slot keeps it, and a
   * frame without tracked bodies changes nothing and clears the visuals.
   */
  lemma ProcessFrameFacts(t: Tracker, frame: seq<Body>)
    requires ValidTable(t.slots) && NonZeroIds(TrackedBodies(frame))
    ensures var r := ProcessFrame(t, frame);
      && ValidTable(r.tracker.slots)
      && r.tracker.visits >= t.visits
      && (forall i :: 0 <= i < |t.slots| && t.slots[i] != 0 && KeepsSlot(t.slots[i], frame) ==> r.tracker.slots[i] == t.slots[i])
      && (TrackedBodies(frame) == [] ==> r.tracker == t && !r.anyBodyTracked)
  {
    if TrackedBodies(frame) != [] {
      DrawFrameFacts(t, TrackedBodies(frame));
    }
  }

  /**
   * Over any sequence of frames the table stays valid, the counter never
   * decreases, and an occupant that every frame lets keep its slot stays in
   * the same slot throughout.
   */
  lemma {:induction false} RunFramesFacts(t: Tracker, frames: seq<seq<Body>>, i: nat)
    requires ValidTable(t.slots) && i < MAX_BODIES
    requires forall f :: 0 <= f < |frames| ==> NonZeroIds(TrackedBodies(frames[f]))
    ensures var r := RunFrames(t, frames);
      && ValidTable(r.slots)
      && r.visits >= t.visits
      && (t.slots[i] != 0 && (forall f :: 0 <= f < |frames| ==> KeepsSlot(t.slots[i], frames[f])) ==> r.slots[i] == t.slots[i])
  {
    if frames != [] {
      var n := |frames| - 1;
      var init := frames[..n];
      assert forall f :: 0 <= f < |init| ==> init[f] == frames[f];
      RunFramesFacts(t, init, i);
      ProcessFrameFacts(RunFrames(t, init), frames[n]);
    }
  }

  /**
   * A frame, of any number of records, whose only tracked body has its
   * reference joint and an id that holds no slot: that id takes slot 0 and
   * counts one visit.
   */
  lemma LoneBodyTakesFirstSlot(t: Tracker, frame: seq<Body>, b: Body)
    requires ValidTable(t.slots) && b.trackingId !in t.slots
    requires TrackedBodies(frame) == [b] && b.trackingId != 0 && SpineMid in b.joints
    ensures var r := ProcessFrame(t, frame).tracker;
      |r.slots| == MAX_BODIES && r.slots[0] == b.trackingId && r.visits == t.visits + 1
  {
    assert TrackedIds([b]) == {b.trackingId};
    var released := Released(t.slots, {b.trackingId});
    assert forall i :: 0 <= i < |released| ==> released[i] == 0;
    assert IndexOf(released, 0) == 0;
    var p := Pass(Tracker(released, t.visits), false);
    assert [b][..0] == [];
    assert UpdatePass(p, [b]) == Step(p, b);
  }

  /** An id that no frame tracks never gains a slot, whatever the frames do with the other ids. */
  lemma {:induction false} UntrackedIdGainsNoSlot(t: Tracker, frames: seq<seq<Body>>, id: u64)
    requires ValidTable(t.slots) && id != 0 && id !in t.slots
    requires forall f :: 0 <= f < |frames| ==> NonZeroIds(TrackedBodies(frames[f])) && id !in TrackedIds(TrackedBodies(frames[f]))
    ensures id !in RunFrames(t, frames).slots
  {
    if frames != [] {
      var n := |frames| - 1;
      var init := frames[..n];
      assert forall f :: 0 <= f < |init| ==> init[f] == frames[f];
      UntrackedIdGainsNoSlot(t, init, id);
      var mid := RunFrames(t, init);
      RunFramesFacts(t, init, 0);
      var tracked := TrackedBodies(frames[n]);
      if tracked != [] {
        DrawFrameFacts(mid, tracked);
        OccupantMembership(ProcessFrame(mid, frames[n]).tracker.slots, id);
      }
    }
  }

  /**
   * A body whose tracking id is absent from a frame in which other bodies are
   * tracked loses its slot; when it is tracked again, in any later frame and
   * as that frame's only tracked body, with its reference joint, it takes the
   * lowest slot and counts as a new visit.
   */
  lemma ReturnAfterGapIsNewVisit(t: Tracker, gap: seq<Body>, between: seq<seq<Body>>, frame: seq<Body>, b: Body)
    requires ValidTable(t.slots) && NonZeroIds(TrackedBodies(gap))
    requires TrackedBodies(gap) != [] && b.trackingId !in TrackedIds(TrackedBodies(gap))
    requires forall f :: 0 <= f < |between| ==>
      NonZeroIds(TrackedBodies(between[f])) && b.trackingId !in TrackedIds(TrackedBodies(between[f]))
    requires TrackedBodies(frame) == [b] && b.trackingId != 0 && SpineMid in b.joints
    ensures b.trackingId !in ProcessFrame(t, gap).tracker.slots
    ensures var later := RunFrames(ProcessFrame(t, gap).tracker, between);
      var r := ProcessFrame(later, frame).tracker;
      |r.slots| == MAX_BODIES && r.slots[0] == b.trackingId && r.visits == later.visits + 1
  {
    var mid := ProcessFrame(t, gap).tracker;
    DrawFrameFacts(t, TrackedBodies(gap));
    OccupantMembership(mid.slots, b.trackingId);
    UntrackedIdGainsNoSlot(mid, between, b.trackingId);
    var later := RunFrames(mid, between);
    RunFramesFacts(mid, between, 0);
    LoneBodyTakesFirstSlot(later, frame, b);
  }

  /**
   * From an all-empty table, bodies that all have reference joints and
   * distinct ids fill the slots in frame order; once all MAX_BODIES slots are taken the
   * remaining bodies are dropped without any change.
   */
  lemma {:induction false} UpdatePassFillsInOrder(v: nat, bodies: seq<Body>)
    requires NonZeroIds(bodies) && DistinctIds(bodies)
    requires forall k :: 0 <= k < |bodies| ==> SpineMid in bodies[k].joints
    ensures var q := UpdatePass(Pass(Tracker(EmptyTable(), v), false), bodies);
      var m := if |bodies| < MAX_BODIES then |bodies| else MAX_BODIES;
      && |q.tracker.slots| == MAX_BODIES
      && (forall i :: 0 <= i < m ==> q.tracker.slots[i] == bodies[i].trackingId)
      && (forall i :: m <= i < MAX_BODIES ==> q.tracker.slots[i] == 0)
      && q.tracker.visits == v + m
      && !q.anyBodyTracked
  {
    if bodies != [] {
      var n := |bodies| - 1;
      var init, b := bodies[..n], bodies[n];
      assert forall k :: 0 <= k < |init| ==> init[k] == bodies[k];
      UpdatePassFillsInOrder(v, init);
      var q0 := UpdatePass(Pass(Tracker(EmptyTable(), v), false), init);
      assert UpdatePass(Pass(Tracker(EmptyTable(), v), false), bodies) == Step(q0, b);
      var m0 := if n < MAX_BODIES then n else MAX_BODIES;
      assert b.trackingId !in q0.tracker.slots by {
        forall i | 0 <= i < MAX_BODIES ensures q0.tracker.slots[i] != b.trackingId {
          if i < m0 {
            assert q0.tracker.slots[i] == bodies[i].trackingId;
          }
        }
      }
      if n < MAX_BODIES {
        assert q0.tracker.slots[n] == 0;
        assert IndexOf(q0.tracker.slots, 0) == n;
      } else {
        assert 0 !in q0.tracker.slots;
      }
    }
  }

  /** The update pass does the same on the whole list as on its bodies with a reference joint: every other body is skipped. */
  lemma {:induction false} UpdatePassSkipsUnreferenced(p: Pass, bodies: seq<Body>)
    ensures UpdatePass(p, bodies) == UpdatePass(p, WithReference(bodies))
  {
    if bodies != [] {
      var n := |bodies| - 1;
      var init, b := bodies[..n], bodies[n];
      UpdatePassSkipsUnreferenced(p, init);
      var refs := WithReference(init);
      assert UpdatePass(p, bodies) == Step(UpdatePass(p, init), b);
      if SpineMid in b.joints {
        assert WithReference(bodies) == refs + [b];
        assert (refs + [b])[..|refs|] == refs;
        assert UpdatePass(p, refs + [b]) == Step(UpdatePass(p, refs), b);
      } else {
        assert WithReference(bodies) == refs;
      }
    }
  }

  /**
   * A frame on an empty table: the bodies with a reference joint take slots
   * 0, 1, ... in frame order, each counted once, and every other body is
   * skipped; once all MAX_BODIES slots are taken any further body (the
   * seventh of seven, say) is dropped silently; and the visuals are cleared.
   */
  lemma FreshTableFillsInOrder(v: nat, tracked: seq<Body>)
    requires NonZeroIds(tracked) && DistinctIds(WithReference(tracked))
    ensures var r := DrawFrame(Tracker(EmptyTable(), v), tracked);
      var refs := WithReference(tracked);
      var m := if |refs| < MAX_BODIES then |refs| else MAX_BODIES;
      && |r.tracker.slots| == MAX_BODIES
      && (forall i :: 0 <= i < m ==> r.tracker.slots[i] == refs[i].trackingId)
      && (forall i :: m <= i < MAX_BODIES ==> r.tracker.slots[i] == 0)
      && r.tracker.visits == v + m
      && !r.anyBodyTracked
  {
    var refs := WithReference(tracked);
    assert Released(EmptyTable(), TrackedIds(tracked)) == EmptyTable();
    UpdatePassSkipsUnreferenced(Pass(Tracker(EmptyTable(), v), false), tracked);
    assert NonZeroIds(refs) && forall k :: 0 <= k < |refs| ==> SpineMid in refs[k].joints by {
      forall k | 0 <= k < |refs| ensures refs[k].trackingId != 0 && SpineMid in refs[k].joints {
        assert refs[k] in tracked;
      }
    }
    UpdatePassFillsInOrder(v, refs);
  }
}
