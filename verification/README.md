# Gesture-to-action interaction engine, modelled in Dafny

This project models the core of a browser app in which hand gestures act on
3D shapes. The app's webcam feeds a hand tracker. Each tracker result is a
frame of 0-2 hands with 21 landmarks each. The modelled core is the logic in
`main.js` that turns those frames into actions on the shapes:

- **Gesture classification.** Pinch (thumb tip to index tip), snap (thumb tip
  to middle tip) and index-tip proximity between two hands, each a strict
  distance threshold.
- **The shape registry.** Round-robin neon colours, shape creation and the
  nearest-shape search used to pick a shape to drag.
- **The per-frame state machine.** Snap first, then the two-hand pinch that
  creates and scales a shape, and otherwise the single-hand drag.
- **Disintegration bookkeeping.** A snap drains every shape into a run of
  per-shape tasks. A busy flag blocks a second snap until every task of the
  run has finished.

The module-level variables of the source become one immutable `State`. The
frame callback becomes the pure function `Interaction.OnResults`. The
disintegration tasks' timers become explicit events (`Traces.Event`):
`Timed(Fires(i))` when task i's start delay runs out, and `Timed(Ends(i))` when its
particle animation ends. The join over the tasks is a counter of unfinished
tasks (`Disintegration.Engine`).

Modules, one per component, in dependency order:

| file | module | models |
|---|---|---|
| wrappers.dfy | Wrappers | `Option`, standing in for the source's `null` |
| geometry.dfy | Geometry | points, squared distances, `get3DCoords` |
| gestures.dfy | Gestures | `isPinch`, `isSnap`, `areIndexFingersClose` |
| palette.dfy | Palette | `neonColors`, `colorIndex`, `getNextNeonColor` |
| registry.dfy | ShapeRegistry | shapes, `createRandomShape`, `findNearestShape` |
| disintegration.dfy | Disintegration | `snapDisintegration` and the per-shape task lifecycle |
| interaction.dfy | Interaction | the frame callback, lines 327-389 |
| frame_properties.dfy | FrameProperties | properties of one frame |
| traces.dfy | Traces | runs over frames and task events |

Modelling choices:

- **Coordinates are reals.** Every distance test compares a squared distance
  with a squared threshold (0.0036, 0.0009, 0.0144, 2.25), so no square root
  is needed. `Geometry.SquareLess` and the `...Threshold` lemmas show that
  this gives the same answer as the source's `Math.hypot` comparisons.
- **The index gap comes with the frame.** The scale ratio
  `distance / originalDistance` needs the actual Euclidean distance between
  the two index tips, which reals here cannot compute. The caller passes it
  in as `Frame.indexGap`. `Interaction.Measured` states that it is the true
  root.
- **Other inputs come with the frame too.** `Date.now()` and the random
  geometry kind are fields of the frame.
- **Shapes have ids.** The source tracks shapes by object reference. The
  model gives each shape an `id` from a counter. `currentShape` and
  `selectedShape` hold ids, and a write through them
  (`Interaction.EditState`) reaches the shape wherever it lives: in the live
  collection or inside a disintegration task. This matches the source, where
  a drained shape can still be dragged or scaled through a kept reference.
  The invariant `Interaction.Valid` keeps ids distinct across the collection
  and the tasks, so a shape has exactly one owner.
- **A removed shape can stay selected.** A selection that points at a shape
  whose task has finished stays selected, as the source's object reference
  stays truthy. While the hand keeps pinching, no new shape is selected.
- **A zero reference gap skips scaling.** An `originalDistance` of exactly 0
  is falsy in the source, so no rescale happens. The model keeps this
  (`TwoHandPinch`, `FrameProperties.ScaleFollowsGap`).

Two behaviours of the code are worth noting:

- Any frame that is not "exactly two hands, both pinching" resets the
  per-gesture creation lock (main.js:366-369). That includes a frame where
  only one hand lets go (`FrameProperties.ResetUnlessBothPinch`).
- One hand can snap and pinch at the same time. The snap check runs first
  (main.js:327-334), and a snapping hand can still pinch or drag in the
  same frame.

## Model

| member | source | states |
|---|---|---|
| Geometry.SqDist3 | main.js:91 | squared 3D distance is non-negative and zero for equal points |
| Geometry.SqDist2 | main.js:107 | planar distance is the 3D distance of the points' z = 0 projections and never exceeds the 3D distance |
| Geometry.SquareLess | main.js:92 | for non-negative lengths, `d < t` holds exactly when `d*d < t*t`, so squared tests decide the source's distance tests |
| Geometry.ToView | main.js:84-88 | `get3DCoords` lands on z = 0, is inverted by `FromView`, and sends the image centre's left/upper half to negative x / positive y |
| Geometry.ViewRoundTrip | main.js:84-88 | every z = 0 view point is the projection of the normalised pair `FromView` gives back |
| Geometry.ToViewMidpoint | main.js:343-352 | the projection of the index-tip midpoint is the midpoint of the two projections |
| Gestures.PinchThreshold | main.js:90-93 | a hand pinches iff its thumb-index 3D distance is strictly below 0.06 |
| Gestures.SnapThreshold | main.js:95-104 | a hand snaps iff its thumb-middle 3D distance is strictly below 0.03 |
| Gestures.IndexCloseThreshold | main.js:106-109 | two hands' index tips are close iff their planar distance is strictly below 0.12 |
| Gestures.IndexCloseIgnoresDepth | main.js:106-109 | changing either index tip's z never changes the proximity verdict |
| Palette.NextColor | main.js:43-47 | one call returns the colour under the cursor and moves the cursor one step, wrapping from the last entry to 0, staying in range |
| Palette.NextNeonColor | main.js:40-47 | `getNextNeonColor` returns `neonColors[colorIndex]` and keeps the cursor in [0, 8) |
| Palette.DrawsWithoutWrap | main.js:43-47 | calls that stay below the palette end hand out the matching contiguous slice |
| Palette.DrawsToEnd | main.js:43-47 | calls up to the palette end hand out its suffix and wrap the cursor to 0 |
| Palette.DrawsSplit | main.js:43-47 | a + b calls are a calls followed by b calls from where the first left the cursor |
| Palette.FullRoundIsRotation | main.js:43-47 | a full round of calls hands out the palette rotated to the cursor and restores the cursor |
| Palette.EightCallsCoverPalette | main.js:40-47 | any 8 consecutive calls return all 8 neon colours once each and restore `colorIndex` |
| Palette.ConsecutiveColorsDiffer | main.js:40-47 | two consecutive calls never return the same colour |
| ShapeRegistry.CreateRandomShape | main.js:49-82 | appends exactly one shape (fresh id, given kind, palette colour under the cursor, given position, unit scale), advances the cursor, keeps ids fresh |
| ShapeRegistry.EditShapes | main.js:381 | a write through a reference changes only the shapes with that id, keeps order and ids |
| ShapeRegistry.Nearest | main.js:111-122 | None iff no shape is strictly within 1.5; otherwise a shape within 1.5, strictly nearer than every earlier shape and no farther than every later one |
| ShapeRegistry.NearestByDistance | main.js:111-122 | the same characterisation in terms of the Euclidean distances the source compares |
| ShapeRegistry.NearestAppend | main.js:111-122 | appending a shape that is not strictly nearer leaves the result unchanged (earliest wins ties) |
| Disintegration.Snap | main.js:229-242 | when busy or with no shapes nothing changes; otherwise busy, the collection emptied, one scheduled task per drained shape in order, pending = number drained |
| Disintegration.Fire | main.js:124-180 | a waiting task, and only that task, becomes animating with its shape hidden; any other event leaves the engine as it was; busy, pending and the task ids are unchanged |
| Disintegration.EditTasks | main.js:381 | a write to a drained shape changes only that shape, never a phase or the pending count |
| Disintegration.Finish | main.js:211-246 | an animating task's end lowers pending by exactly one and marks that task finished, or, if it was the last, idles the engine and clears the run; any other event changes nothing; the join invariant is kept |
| Disintegration.UnfinishedUpdate | main.js:239-244 | replacing one task adjusts the unfinished count by that task's change |
| Disintegration.BusyClearsOnlyAtJoin | main.js:244-246 | busy drops only when the last animating task finishes, all others already finished |
| Disintegration.SnapIdempotent | main.js:229-237 | a second snap right after a first changes neither the collection nor the engine |
| Disintegration.Tick | main.js:124-226 | one timer event keeps the invariant; while the run is not joined, each task's phase is what that event makes of it on its own |
| Disintegration.RunMirrorsTasks | main.js:239-244 | in any interleaving of timer events, while the run is not joined, every task's phase is the one its own events produce, independently of the other tasks |
| Disintegration.IdleStaysIdle | main.js:230-246 | timer events never make an idle engine busy or change it |
| Disintegration.JoinCompletes | main.js:244-246 | once every task's own events have taken it to finished, in whatever order, the engine is idle |
| Disintegration.FireThenEndFinishes | main.js:124-226 | a task whose start delay elapses and whose animation later ends is finished |
| Disintegration.EveryTaskRunCompletes | main.js:239-246 | if every drained task fires and later ends, in any interleaving, the engine is idle again |
| Interaction.InitialValid | main.js:5-13 | the page-load state satisfies the invariant |
| Interaction.EditState | main.js:357-381 | a write through an id edits that shape wherever it lives, moves no task's phase, and preserves the invariant |
| Interaction.FirstSnap | main.js:327-334 | the snap loop stops at the first snapping hand; None iff no hand snaps |
| Interaction.SnapPhase | main.js:327-334 | the snap phase keeps every shape (only moving them into the run), keeps the invariant, and is a no-op without a snapping hand |
| Interaction.TwoHandPinch | main.js:336-363 | the two-hand branch leaves isPinching set, keeps the selection, busy, pending and every task's phase, and preserves the invariant; a first frame whose gate stays shut only sets isPinching; a later frame keeps the current shape, reference gap, creation flag, colour cursor, next id and stamp |
| Interaction.ResetGesture | main.js:366-369 | clears isPinching, shapeCreatedThisPinch, originalDistance and currentShape, and keeps the registry, the engine, the selection and the creation stamp |
| Interaction.DragHand | main.js:373-385 | a non-pinching hand drops the selection; a pinching one keeps an existing selection or takes the nearest shape, and that shape moves to the projected index tip |
| Interaction.DragHands | main.js:371-386 | the drag loop keeps the invariant, the shape ids, busy, every task's phase, the colour cursor, and the gesture fields isPinching, shapeCreatedThisPinch, currentShape, originalDistance and the creation stamp |
| Interaction.Drag | main.js:371-389 | with no hands the selection is dropped and no shape changes |
| Interaction.OnResults | main.js:327-389 | every frame preserves the invariant (created-this-pinch implies pinching, ownership, join counter); while a run is in progress it keeps busy, pending and every task's phase |
| FrameProperties.CreationGate | main.js:342-356 | a frame creates iff both of two hands pinch, isPinching was false, index tips are close and now - last > 1000 strictly |
| FrameProperties.CreationEffects | main.js:349-356 | creation stamps now, records the index gap as originalDistance, makes the new shape current, appends it with the next colour, leaves selection and run alone |
| FrameProperties.CreatedAtIndexMidpoint | main.js:343-352 | the new shape sits at the midpoint of the two projected index tips |
| FrameProperties.SnapDrainsBeforeCreation | main.js:327-356 | a snap with shapes present and not busy drains all old shapes into the run first; a shape created in the same frame is alone in the fresh collection |
| FrameProperties.FrameKeepsIds | main.js:327-389 | apart from a created shape, a frame neither adds nor removes shapes |
| FrameProperties.SnapIgnoredWhenBusyOrEmpty | main.js:230 | with a run in progress or no shapes, the snap phase changes nothing |
| FrameProperties.OneSnapPerFrame | main.js:327-334 | however many hands snap, the snap phase is the same, and a second snap in the same frame would change nothing |
| FrameProperties.ScaleFollowsGap | main.js:357-361 | on a later both-pinch frame the current shape's scale becomes indexGap / originalDistance, with no clamp; the gesture fields, selection, stamp and the union of all shapes change only by the rescale; a zero reference skips it |
| FrameProperties.CreateThenScale | main.js:349-359 | after a creating frame, a both-pinch frame keeps the new shape in existence and scales it by the ratio of the new gap to the creation gap |
| FrameProperties.ResetUnlessBothPinch | main.js:366-369 | any other frame clears the gesture state and creates nothing |
| FrameProperties.GatedFirstFrame | main.js:349-361 | the first both-pinch frame whose creation gate stays shut changes nothing beyond the snap phase except setting isPinching |
| FrameProperties.CurrentShapeOrigin | main.js:349-369 | after a frame, the shape being scaled is the one the ongoing pinch already had, or the shape that frame created |
| FrameProperties.NoCreationKeepsCursor | main.js:43-57 | a frame that creates nothing leaves the colour cursor where it was |
| FrameProperties.SnapFrameWithoutCreation | main.js:327-369 | a snapping frame that creates nothing, with shapes present and no run, leaves every old shape in the new run and the collection empty |
| FrameProperties.BothPinchKeepsSelection | main.js:361-362 | a both-pinch frame returns before the drag logic, leaving the selection unchanged |
| FrameProperties.NoHandsClearSelection | main.js:387-389 | zero hands drop the selection and change no shape |
| FrameProperties.LastHandWins | main.js:371-386 | the last hand decides: not pinching drops the selection; pinching puts the selected shape exactly at its projected index tip |
| FrameProperties.SingleHandSelection | main.js:376-382 | a lone pinching hand selects `findNearestShape` of its index tip when nothing is selected and keeps an existing selection otherwise |
| Traces.Step | main.js:229-246 | each event preserves the invariant, only a task finish can clear busy, and a timer event changes nothing but the engine |
| Traces.Trace | main.js:312-389 | the states of a run: start state, then each event's step, all satisfying the invariant |
| Traces.StepCreationTime | main.js:350-353 | a creating step stamps now, more than 1000 ms after the previous stamp; other steps keep the stamp |
| Traces.StampMonotone | main.js:353 | the creation stamp never decreases along a run |
| Traces.CreationsSpacedOut | main.js:351-353 | any two creations in a run are stamped more than 1000 ms apart |
| Traces.PinchPersists | main.js:361 | within one two-hand gesture, isPinching once set stays set |
| Traces.AtMostOneCreationPerGesture | main.js:349-356 | a run of both-pinch frames creates at most one shape |
| Traces.BusyReleasedOnlyAtJoin | main.js:244-246 | busy is released only by finishing the last unfinished task of the run |
| Traces.TraceMirrors | main.js:312-389 | with hand frames interleaved, while the run stays unjoined, each task's phase is what its own timer events made of it |
| Traces.TraceJoins | main.js:244-246 | once every task's own timer events take it to finished, some state of the run, frames included, is idle |
| Traces.EveryTaskJoins | main.js:239-246 | if every drained task fires and later ends, in any interleaving with each other and with hand frames, the run is joined at some point |
| Traces.CursorKept | main.js:43-47 | along a stretch of a run without creations, the colour cursor does not move |
| Traces.SuccessiveCreationsDiffer | main.js:49-57 | two successive creations in a run, with frames and timer events between, get different colours |

## Left out

- DOM and canvas drawing of the fingertip markers (main.js:1-3, 313-325). This is output only and feeds nothing back.
- The Three.js scene, renderer, materials and meshes (main.js:17-38, 50-78). These are calls into a rendering library. The ambient rotation of every shape except the selected one (main.js:31-36) is rendering-only and is not modelled.
- Hand-tracker setup and camera acquisition (main.js:309-310, 392-406). These are external inference and I/O.
- The particle simulation inside `disintegrate` (main.js:127-224): 100 particles, colour jitter, velocities, gravity, rotation, opacity fade and the two scale curves. This is float animation driven by `Math.random` and the wall clock. Only each task's start (`Fires`) and end (`Ends`) are modelled.
- The random start delay in [0, 500) ms and the 2000 ms animation length. Tasks fire and finish through explicit events, so the bound "every task is done 2500 ms after the snap" is not stated. `Disintegration.EveryTaskRunCompletes` and, with hand frames interleaved, `Traces.EveryTaskJoins` state the untimed version: once every task has fired and later ended, in any order, the run is joined.
- The snap flash and camera shake (main.js:249-307). These are cosmetic, random and timed, and independent of the join.
- `setTimeout`, `requestAnimationFrame` and promise scheduling. These are replaced by the explicit events of `Traces.Event`. The microtask gap between the last promise resolving and `isDisintegrating = false` is treated as atomic, because no frame can run inside it.
- The write-only global `shapeScale` (main.js:8, 358). Its value goes straight into the current shape's scale, which is modelled.
- IEEE-754 rounding. Coordinates and distances are exact reals.
- `Math.hypot` of the index tips. It is supplied as `Frame.indexGap` (see `Interaction.Measured`) rather than computed.
- `Math.random` for the geometry kind. It is supplied as `Frame.kind`.
- Geometry.SqDist3: states only that equal points are at distance zero, not the converse.
