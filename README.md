# kinectSpaces multi-body slot tracker, in Dafny

This project models the body-tracking core of the kinectSpaces window
(`kinectSpaces/MainWindow.xaml.cs`). A depth sensor delivers frames. Each
frame lists bodies with a hardware tracking id, an `IsTracked` flag and a
map of joints. The window keeps three pieces of state:

- `bodiesIds`: a table of six identity slots, where 0 marks an empty slot;
- `totalVisits`: a lifetime visit counter;
- `periodicDataStorage`: a buffer of skeleton records that is flushed to JSON
  from time to time.

For each frame, `DrawTrackedBodies` works in three steps:

1. It releases the slots whose id is no longer tracked.
2. It gives each tracked body that has a `SpineMid` joint its slot. A body
   that already holds a slot keeps it. Any other body gets the lowest empty
   slot, and that counts as one visit.
3. It clears the visuals when no body matched a slot it already held.

Modules (one file each):

- `Kinect` (`kinect.dfy`): the sensor's body data, the plan-view position
  (`CalculateBodyPosition`), the tracked-body filter and the tracked-id set.
- `Slots` (`slots.dfy`): the slot table as values. It holds the functions the
  methods are proved against (`IndexOf`, `Released`, `AssignNew`, `Step`,
  `UpdatePass`, `DrawFrame`, `ProcessFrame`, `RunFrames`) and the lemmas about
  one frame and about sequences of frames.
- `SkeletonStore` (`skeleton_store.dfy`): the snapshot records that one frame
  adds to the buffer.
- `Window` (`window.dfy`): class `MainWindow` with the three fields. Its
  methods change them in place, as the source does. Each method's `ensures`
  ties the new state to the functions of `Slots` and `SkeletonStore`.

Two behaviours of the code are easy to misread against the source's own
comments. The comment at `MainWindow.xaml.cs:523` says "Clear visuals if no
bodies are tracked", but the test at line 524 is `if (!anyBodyTracked)`. And
`ProcessBodyFrame` (lines 379-383) skips the tracker entirely when a frame
has no tracked body, so "Step 1: Reset untracked IDs" (line 496) never runs
on such a frame. The model follows the code in both cases:

- When a frame has no tracked body, `ProcessBodyFrame` clears the visuals and
  does not run the tracker. Slots are therefore kept, not released, across an
  empty frame. `ProcessFrameFacts` and `RunFramesFacts` state this through
  `KeepsSlot`.
- The clear signal is raised when no tracked body matched a slot it already
  held (`anyBodyTracked` stays false). It is not raised because the table is
  empty. A frame with only newly assigned bodies clears the visuals
  (`ClearedIffNoneMatched`, `FreshTableFillsInOrder`).

The source does not compile as written. The model takes its evident intent:

- a single `MAX_BODIES = 6` (it is declared twice, at lines 118 and 490);
- the call at line 387 goes to `DrawTrackedBodies`;
- `bodiesIds.Length` at line 538 means the list's element count;
- `createBody` at lines 577 and 588 means the method `CreateBody` declared at
  line 263 (rendering only, so the model is unaffected);
- `updateTable` writes only labels, so only its absence of slot effects is
  modelled.

`InitializeBodiesIds` is never called in the source. As written, the list
would stay empty and the first lookup would fail. The model's constructor
calls it, so the table always has six slots.

Sensor tracking ids are assumed non-zero (`NonZeroIds`). With an id of 0,
`FindExistingBodyIndex` would match an empty slot. The clear-signal
characterisation also assumes that ids are distinct within a frame
(`DistinctIds`), which the sensor guarantees.

## Model

| member | source | states |
|---|---|---|
| `Kinect.CalculateBodyPosition` | kinectSpaces/MainWindow.xaml.cs:547-563 | a position exists exactly when the body reports a SpineMid joint |
| `Kinect.FartherIsDrawnHigher` | kinectSpaces/MainWindow.xaml.cs:555-562 | on a canvas of positive height, the body farther from the camera is drawn nearer the top (mirrored depth axis) |
| `Kinect.CameraIsBottomEdge` | kinectSpaces/MainWindow.xaml.cs:557-560 | a body at depth 0 is drawn on the bottom edge of the canvas |
| `Kinect.TrackedBodies` | kinectSpaces/MainWindow.xaml.cs:377 | the filtered list holds exactly the tracked bodies of the frame and is no longer than it |
| `Kinect.TrackedBodiesAppend` | kinectSpaces/MainWindow.xaml.cs:377 | filtering keeps frame order: filtering a concatenation gives the concatenation of the filtered parts |
| `Kinect.TrackedIds` | kinectSpaces/MainWindow.xaml.cs:536 | the tracked-id set holds every body's id and nothing else |
| `Slots.EmptyTable` | kinectSpaces/MainWindow.xaml.cs:122-129 | the initial table has exactly 6 slots, all 0, and no occupants |
| `Slots.IndexOf` | kinectSpaces/MainWindow.xaml.cs:565-573 | the result is the lowest index holding the id, or -1 exactly when no slot holds it |
| `Slots.Released` | kinectSpaces/MainWindow.xaml.cs:534-545 | the length is unchanged; every non-zero slot afterwards holds a tracked id; slots with a tracked id are unchanged; empty and untracked slots are 0 |
| `Slots.AssignNew` | kinectSpaces/MainWindow.xaml.cs:581-594 | the table keeps its length; the counter grows by exactly 1 when an empty slot exists and is unchanged exactly when none does (slot-level effect in `AssignNewFacts`) |
| `Slots.Step` | kinectSpaces/MainWindow.xaml.cs:500-520 | one iteration of the per-body loop keeps the table's length, adds at most 1 to the counter, never resets anyBodyTracked, and skips a body without a SpineMid joint |
| `Slots.UpdatePass` | kinectSpaces/MainWindow.xaml.cs:500-521 | the per-body loop over the frame in order keeps the table's length, adds at most one visit per body, and never resets anyBodyTracked once set |
| `Slots.DrawFrame` | kinectSpaces/MainWindow.xaml.cs:492-532 | DrawTrackedBodies (release pass, then per-body loop) keeps the table's length and adds between 0 and one visit per tracked body |
| `Slots.ProcessFrame` | kinectSpaces/MainWindow.xaml.cs:367-389 | one frame keeps the table's length and adds at most one visit per body; a frame with no tracked body leaves the tracker as it was and clears the visuals |
| `Slots.RunFrames` | kinectSpaces/MainWindow.xaml.cs:321-389 | a sequence of frames, each handled by ProcessBodyFrame in arrival order, keeps the table's length and never decreases the counter |
| `Slots.OccupantsBounded` | kinectSpaces/MainWindow.xaml.cs:118-119 | a table never has more distinct occupants than slots, so never more than 6 occupants |
| `Slots.ReleasedFacts` | kinectSpaces/MainWindow.xaml.cs:534-545 | the release pass keeps the table valid, and the occupants afterwards are exactly the old occupants that are tracked |
| `Slots.AssignNewFacts` | kinectSpaces/MainWindow.xaml.cs:581-594 | for an id with no slot: it is written into the lowest empty slot, every other slot is unchanged, the counter grows by exactly 1 and the table stays valid; with no empty slot, table and counter are unchanged |
| `Slots.StepFacts` | kinectSpaces/MainWindow.xaml.cs:500-520 | one body's iteration never overwrites an occupant, adds at most that body's id and only when it has a SpineMid joint, keeps ids distinct, and counts each added id once |
| `Slots.StepKeepsPlaced` | kinectSpaces/MainWindow.xaml.cs:505-520 | one more iteration keeps every earlier body with a reference joint placed (occupants stay, a full table stays full) and places the new body unless the table is full |
| `Slots.UpdatePassShape` | kinectSpaces/MainWindow.xaml.cs:500-521 | over the per-body loop: occupants keep their slots, new occupants are ids of bodies with a SpineMid joint, the table stays valid, and the counter grows by the number of new occupants |
| `Slots.UpdatePassPlaces` | kinectSpaces/MainWindow.xaml.cs:500-521 | after the per-body loop, every body with a SpineMid joint holds a slot unless no slot is free |
| `Slots.UpdatePassFacts` | kinectSpaces/MainWindow.xaml.cs:500-521 | over the per-body loop: occupants keep their slots; new occupants are ids of bodies with a SpineMid joint, so a body without one gains no slot; every body with a SpineMid joint holds a slot unless the table is full; the table stays valid; the counter grows by the number of new occupants |
| `Slots.UpdatePassMatched` | kinectSpaces/MainWindow.xaml.cs:494-520 | with distinct ids, anyBodyTracked ends true exactly when some body with a reference joint finds its id in the table the loop started from |
| `Slots.DrawFrameFacts` | kinectSpaces/MainWindow.xaml.cs:492-545 | one frame keeps the table valid; a tracked occupant (with or without a SpineMid joint) keeps its slot; every occupant afterwards is tracked; every new occupant has a SpineMid joint; every tracked body with a SpineMid joint holds a slot afterwards unless the table is full; the counter grows by the number of ids that hold a slot afterwards and held none before |
| `Slots.ClearedIffNoneMatched` | kinectSpaces/MainWindow.xaml.cs:494-528 | with distinct ids, the visuals are cleared exactly when no tracked body with a reference joint held a slot before the frame |
| `Slots.ProcessFrameFacts` | kinectSpaces/MainWindow.xaml.cs:367-389 | one frame keeps the table valid and never decreases the counter; a frame with no tracked body changes neither table nor counter and clears the visuals |
| `Slots.RunFramesFacts` | kinectSpaces/MainWindow.xaml.cs:321-389 | over any sequence of frames the table stays valid and the counter never decreases; an occupant that stays tracked (or sees only empty frames) stays in the same slot |
| `Slots.LoneBodyTakesFirstSlot` | kinectSpaces/MainWindow.xaml.cs:367-389 | a frame of any number of records whose only tracked body has a SpineMid joint and an id holding no slot puts that id into slot 0 and counts one visit |
| `Slots.UntrackedIdGainsNoSlot` | kinectSpaces/MainWindow.xaml.cs:534-594 | an id that holds no slot and that no frame of a sequence tracks still holds no slot after all of them |
| `Slots.ReturnAfterGapIsNewVisit` | kinectSpaces/MainWindow.xaml.cs:534-594 | an id missing from a non-empty frame loses its slot; when it comes back in any later frame (other frames in between not tracking it) as that frame's only tracked body, it takes slot 0 and counts as another visit |
| `Slots.UpdatePassFillsInOrder` | kinectSpaces/MainWindow.xaml.cs:500-594 | from an empty table, n bodies that each have a SpineMid joint and a distinct id fill slots 0, 1, ... in frame order; bodies beyond 6 are dropped; the counter grows by min(n, 6); no body counts as matched |
| `Slots.WithReference` | kinectSpaces/MainWindow.xaml.cs:504-507 | the bodies the loop does not skip: exactly the frame's bodies with a SpineMid joint, no more of them than the frame has |
| `Slots.WithReferenceAppend` | kinectSpaces/MainWindow.xaml.cs:500-507 | selecting the bodies with a SpineMid joint keeps frame order: it distributes over concatenation |
| `Slots.ReferenceIdsOfSelection` | kinectSpaces/MainWindow.xaml.cs:500-507 | the set of ids of bodies with a SpineMid joint is exactly the set of ids of the selected bodies |
| `Slots.UpdatePassSkipsUnreferenced` | kinectSpaces/MainWindow.xaml.cs:504-507 | the per-body loop gives the same table, counter and flag on the whole frame as on its bodies with a SpineMid joint alone, so every other body is skipped |
| `Slots.FreshTableFillsInOrder` | kinectSpaces/MainWindow.xaml.cs:492-594 | a frame on an empty table whose n bodies with a SpineMid joint have distinct ids: those bodies take slots 0, 1, ... in frame order, every other body is skipped, exactly min(n, 6) slots fill (a seventh such body is dropped without error), the counter grows by min(n, 6), and the visuals are cleared |
| `SkeletonStore.Snapshots` | kinectSpaces/MainWindow.xaml.cs:919-934 | a frame yields exactly one record per tracked body, in frame order, with that body's id and joints and the frame's camera id and timestamp |
| `SkeletonStore.NoTrackedNoSnapshots` | kinectSpaces/MainWindow.xaml.cs:922 | a frame without tracked bodies adds no record |
| `Window.MainWindow.constructor` | kinectSpaces/MainWindow.xaml.cs:132-157 | a new window has the empty 6-slot table, zero visits and an empty buffer |
| `Window.MainWindow.InitializeBodiesIds` | kinectSpaces/MainWindow.xaml.cs:122-129 | afterwards the table is exactly 6 zeros; nothing else changes |
| `Window.MainWindow.ResetUntrackedBodies` | kinectSpaces/MainWindow.xaml.cs:534-545 | the table becomes the release of the old table by the frame's tracked ids and stays valid; nothing else changes |
| `Window.MainWindow.FindExistingBodyIndex` | kinectSpaces/MainWindow.xaml.cs:565-573 | returns the lowest slot holding the id, or -1 exactly when none does; nothing changes |
| `Window.MainWindow.AssignNewBody` | kinectSpaces/MainWindow.xaml.cs:581-594 | writes the id into the lowest empty slot and adds 1 to totalVisits; with no empty slot changes nothing; the buffer is untouched |
| `Window.MainWindow.DrawTrackedBodies` | kinectSpaces/MainWindow.xaml.cs:492-532 | the new table and counter are those of DrawFrame on the old ones, the table stays valid, and the returned clear flag is the negation of anyBodyTracked |
| `Window.MainWindow.StoreSkeletonData` | kinectSpaces/MainWindow.xaml.cs:919-937 | the buffer becomes its old contents followed by the frame's records |
| `Window.MainWindow.SaveSkeletonData` | kinectSpaces/MainWindow.xaml.cs:939-959 | a non-empty buffer is returned as what is written and is then emptied; an empty buffer writes nothing and stays empty |
| `Window.MainWindow.ProcessBodyFrame` | kinectSpaces/MainWindow.xaml.cs:367-389 | the frame's records are appended to the buffer; table and counter follow ProcessFrame, so a frame with no tracked body clears the visuals and leaves the tracker alone |

## Left out

- Window.MainWindow.constructor: calls `InitializeBodiesIds`, which the source's constructor (lines 132-157) never does. As written, the list created at line 119 stays empty and the lookup at line 569 would throw; the model does not capture that failure and starts from six empty slots instead.
- Sensor acquisition, frame readers, availability events, `RestartKinectSensor` and `DisplayCameraId` are calls into the sensor SDK. The frame's bodies, the camera id and the timestamp are parameters.
- Rendering is left out: `ShowBodyFrame`, `ShowColorFrame`, `DrawBody`, `DrawBone`, `DrawHand`, `DrawClippedEdges`, `createBody`, `drawVisionArea`, `ClearTriangle`, `ClearTable`, `updateTable` and the button and window handlers are WPF drawing. The clear signal is a returned flag. The canvas height is a parameter.
- `UpdateTrackedBody` only redraws a slot's marker and rewrites its table row. It changes neither slots nor counter, so the matched branch of the per-body loop leaves the tracker state unchanged.
- `getBodyOrientation` and `coordinatesFieldofView` are floating-point trigonometry and string formatting.
- `CalculateBodyPosition` does its scaling on reals, not IEEE doubles. Its contract states only whether a position exists. The two lemmas beside it cover the mirrored depth axis.
- `Window.MainWindow.StoreSkeletonData` and `Window.MainWindow.SaveSkeletonData` leave out the JSON serialisation, the directory creation, the file write and its failure modes. A flush returns the records it would write.
- The 28-minute `System.Timers.Timer`, the dispatcher marshalling of the flush and the final flush in `Window_Closed` are scheduling and concurrency. Frames and flushes are modelled as calls that run one at a time.
- Body hand states and clipped-edge flags are not used by the tracker, so the model leaves them out.
- `Window.MainWindow.totalVisits` is an unbounded natural. The C# `int` would wrap after 2^31 - 1 increments, and the model does not capture that.
- `Slots.ClearedIffNoneMatched` and `Slots.UpdatePassMatched` assume that tracking ids are distinct within a frame. With a repeated id, the second copy would find the slot just given to the first and set `anyBodyTracked`.
- The files under `socially_occupied_detection/` (coordinate transforms, CSV and dataframe glue) are not part of this model. They are floating-point numerics and calls into modules that are not available.
