/**
 The per-frame interaction state machine (main.js, the body of the
 hand-tracker results callback, lines 327-389). Each frame first checks
 every hand for a snap and triggers at most one disintegration; then, if
 both of exactly two hands pinch, it runs the two-hand create/scale
 branch and stops; otherwise it resets the gesture state and lets each
 hand, in order, drag the selected shape.

 The source's module-level variables become one immutable `State`; the
 wall clock, the random geometry choice and `Math.hypot` of the two index
 tips arrive with the frame.
 */
module Interaction {
  import opened Wrappers
  import opened Geometry
  import opened Gestures
  import opened Palette
  import opened ShapeRegistry
  import opened Disintegration

  /** Minimum time, in milliseconds, strictly exceeded between creations. */
  const SHAPE_CREATION_COOLDOWN: int := 1000

  /** One tracker result: the detected hands in tracker order, the
      `Date.now()` reading the frame would take, the geometry kind the
      random pick would give, and `Math.hypot` of the two index tips'
      (x, y) offsets, which the caller computes because reals here have
      no square root (see `Measured`). */
  datatype Frame = Frame(hands: seq<Hand>, now: int, kind: GeometryKind, indexGap: real)

  /** The frame's `indexGap` is the true planar distance of the index tips. */
  predicate Measured(f: Frame)
  {
    |f.hands| == 2 ==> IsRoot(f.indexGap, SqDist2(f.hands[0][INDEX_TIP], f.hands[1][INDEX_TIP]))
  }

  /** Everything the callback reads and writes. Shape references are
      identities; `engine` holds `isDisintegrating` and the drained shapes. */
  datatype State = State(
    registry: Registry,
    engine: Engine,
    isPinching: bool,
    shapeCreatedThisPinch: bool,
    originalDistance: Option<real>,
    currentShape: Option<nat>,
    selectedShape: Option<nat>,
    lastShapeCreationTime: int)

  /** The state at page load. */
  const Initial: State :=
    State(Registry([], 0, 0), Disintegration.Idle, false, false, None, None, None, 0)

  /** Every shape not yet released by the join: the live collection, then
      the drained shapes of the current run (including those whose task has
      finished and whose mesh is already out of the scene). */
  function AllShapes(s: State): seq<Shape>
  {
    s.registry.shapes + TaskShapes(s.engine.tasks)
  }

  /** The state invariant. A shape is owned by the live collection or by a
      disintegration task, never both (identities are distinct across the
      two); the join bookkeeping is consistent; and the gesture flags agree:
      a shape created during this pinch implies the pinch is in progress,
      and exactly then are the created shape and its reference distance
      recorded. */
  predicate Valid(s: State)
  {
    && s.registry.colorIndex < |NeonColors|
    && Disintegration.Valid(s.engine)
    && FreshIds(Ids(AllShapes(s)), s.registry.nextId)
    && (s.shapeCreatedThisPinch ==> s.isPinching)
    && (s.shapeCreatedThisPinch <==> s.currentShape.Some?)
    && (s.shapeCreatedThisPinch <==> s.originalDistance.Some?)
  }

  lemma InitialValid()
    ensures Valid(Initial)
  {
  }

  /** A write through the reference `id`: it reaches the shape wherever it
      lives, in the collection or inside a disintegration task. */
  function EditState(s: State, id: nat, e: Edit): (r: State)
    ensures AllShapes(r) == EditShapes(AllShapes(s), id, e)
    ensures |r.registry.shapes| == |s.registry.shapes|
    ensures r.registry.nextId == s.registry.nextId && r.engine.busy == s.engine.busy
    ensures r.engine.pending == s.engine.pending
    ensures r.registry.colorIndex == s.registry.colorIndex
    ensures SamePhases(r.engine.tasks, s.engine.tasks)
    ensures Valid(s) ==> Valid(r)
  {
    var shapes := EditShapes(s.registry.shapes, id, e);
    var tasks := EditTasks(s.engine.tasks, id, e);
    var r := s.(registry := s.registry.(shapes := shapes), engine := s.engine.(tasks := tasks));
    EditConcat(s.registry.shapes, TaskShapes(s.engine.tasks), id, e);
    r
  }

  /** Editing a concatenation edits each part. */
  lemma EditConcat(a: seq<Shape>, b: seq<Shape>, id: nat, e: Edit)
    ensures EditShapes(a + b, id, e) == EditShapes(a, id, e) + EditShapes(b, id, e)
  {
  }

  /** The snap loop with its `break`: the first snapping hand, if any. */
  function FirstSnap(hands: seq<Hand>): (r: Option<nat>)
    ensures r.None? <==> forall i :: 0 <= i < |hands| ==> !IsSnap(hands[i])
    ensures r.Some? ==> r.value < |hands| && IsSnap(hands[r.value])
    ensures r.Some? ==> forall i :: 0 <= i < r.value ==> !IsSnap(hands[i])
    decreases |hands|
  {
    if |hands| == 0 then None
    else if IsSnap(hands[0]) then Some(0)
    else match FirstSnap(hands[1..])
      case None => None
      case Some(k) => Some(k + 1)
  }

  /** The snap phase of a frame: one `snapDisintegration` call if some hand
      snaps, run up to its `await` (the drain is synchronous). */
  function SnapPhase(s: State, hands: seq<Hand>): (r: State)
    requires Valid(s)
    ensures Valid(r)
    ensures AllShapes(r) == AllShapes(s)
    ensures r.registry.nextId == s.registry.nextId
    ensures FirstSnap(hands).None? ==> r == s
    ensures s.engine.busy ==> r == s
    ensures r.registry.colorIndex == s.registry.colorIndex
  {
    if FirstSnap(hands).Some? then
      var d := Snap(s.registry.shapes, s.engine);
      var r := s.(registry := s.registry.(shapes := d.shapes), engine := d.engine);
      assert AllShapes(r) == AllShapes(s) by {
        if !s.engine.busy && |s.registry.shapes| > 0 {
          assert TaskShapes(s.engine.tasks) == [];
        }
      }
      r
    else s
  }

  /** Both of exactly two hands pinch: the two-hand branch runs. */
  predicate BothPinch(hands: seq<Hand>)
  {
    |hands| == 2 && IsPinch(hands[0]) && IsPinch(hands[1])
  }

  /** The creation gate, checked on the first frame of a two-hand pinch. */
  predicate MayCreate(s: State, f: Frame)
    requires |f.hands| == 2
  {
    && !s.shapeCreatedThisPinch
    && IndexFingersClose(f.hands[0], f.hands[1])
    && f.now - s.lastShapeCreationTime > SHAPE_CREATION_COOLDOWN
  }

  /** View-space point between the two index tips. */
  function IndexMidpoint(f: Frame): (p: Vec3)
    requires |f.hands| == 2
    ensures p.z == 0.0
  {
    var left, right := f.hands[0][INDEX_TIP], f.hands[1][INDEX_TIP];
    ToView((left.x + right.x) / 2.0, (left.y + right.y) / 2.0)
  }

  /** The two-hand branch (lines 336-363): on the first frame of the pinch,
      create a shape if the gate allows; on later frames, rescale the shape
      created in this pinch to the current index gap over the gap at
      creation (a zero reference gap is falsy in the source and skips the
      rescale). The drag logic is not reached. */
  function TwoHandPinch(s: State, f: Frame): (r: State)
    requires Valid(s) && |f.hands| == 2
    ensures Valid(r)
    ensures r.isPinching && r.selectedShape == s.selectedShape
    ensures r.engine.busy == s.engine.busy && r.engine.pending == s.engine.pending
    ensures SamePhases(r.engine.tasks, s.engine.tasks)
    ensures !s.isPinching && !MayCreate(s, f) ==> r == s.(isPinching := true)
    ensures s.isPinching ==>
      && r.registry.colorIndex == s.registry.colorIndex && r.registry.nextId == s.registry.nextId
      && r.currentShape == s.currentShape && r.originalDistance == s.originalDistance
      && r.shapeCreatedThisPinch == s.shapeCreatedThisPinch
      && r.lastShapeCreationTime == s.lastShapeCreationTime
  {
    if !s.isPinching then
      if MayCreate(s, f) then
        var c := CreateRandomShape(s.registry, f.kind, IndexMidpoint(f));
        var r := s.(registry := c.registry, currentShape := Some(c.shape.id),
                    lastShapeCreationTime := f.now, shapeCreatedThisPinch := true,
                    originalDistance := Some(f.indexGap), isPinching := true);
        CreationKeepsIdsFresh(s, c);
        r
      else s.(isPinching := true)
    else if s.currentShape.Some? && s.originalDistance.Some? && s.originalDistance.value != 0.0 then
      EditState(s, s.currentShape.value, ScaleTo(f.indexGap / s.originalDistance.value)).(isPinching := true)
    else s.(isPinching := true)
  }

  lemma CreationKeepsIdsFresh(s: State, c: Created)
    requires Valid(s)
    requires c.registry.shapes == s.registry.shapes + [c.shape]
    requires c.shape.id == s.registry.nextId && c.registry.nextId == s.registry.nextId + 1
    ensures FreshIds(Ids(c.registry.shapes + TaskShapes(s.engine.tasks)), c.registry.nextId)
  {
    var a, b := Ids(s.registry.shapes), Ids(TaskShapes(s.engine.tasks));
    IdsConcat(s.registry.shapes, TaskShapes(s.engine.tasks));
    FreshInsert(a, b, s.registry.nextId);
    IdsConcat(s.registry.shapes, [c.shape]);
    IdsConcat(c.registry.shapes, TaskShapes(s.engine.tasks));
    assert Ids([c.shape]) == [s.registry.nextId];
  }

  /** Lines 366-369: a frame that does not run the two-hand branch ends the
      pinch gesture. */
  function ResetGesture(s: State): (r: State)
    ensures !r.isPinching && !r.shapeCreatedThisPinch
    ensures r.originalDistance.None? && r.currentShape.None?
    ensures r.registry == s.registry && r.engine == s.engine
    ensures r.selectedShape == s.selectedShape && r.lastShapeCreationTime == s.lastShapeCreationTime
    ensures Valid(s) ==> Valid(r)
  {
    s.(isPinching := false, shapeCreatedThisPinch := false, originalDistance := None, currentShape := None)
  }

  /** The identity of the live shape `findNearestShape` returns, if any. */
  function NearestId(shapes: seq<Shape>, p: Vec3): (r: Option<nat>)
    ensures r.None? <==> Nearest(shapes, p).None?
    ensures r.Some? ==> r.value == shapes[Nearest(shapes, p).value].id
  {
    match Nearest(shapes, p)
    case None => None
    case Some(k) => Some(shapes[k].id)
  }

  /** One hand of the drag loop (lines 373-385). A pinching hand selects the
      nearest shape when nothing is selected, and then moves the selection
      to its projected index tip; any other hand drops the selection. */
  function DragHand(s: State, h: Hand): (r: State)
    requires Valid(s)
    ensures Valid(r)
    ensures !IsPinch(h) ==> r.selectedShape.None?
    ensures IsPinch(h) && s.selectedShape.Some? ==> r.selectedShape == s.selectedShape
    ensures IsPinch(h) && s.selectedShape.None?
            ==> r.selectedShape == NearestId(s.registry.shapes, ToView(h[INDEX_TIP].x, h[INDEX_TIP].y))
    ensures r.selectedShape.Some? ==>
            AllShapes(r) == EditShapes(AllShapes(s), r.selectedShape.value, MoveTo(ToView(h[INDEX_TIP].x, h[INDEX_TIP].y)))
    ensures r.selectedShape.None? ==> AllShapes(r) == AllShapes(s)
    ensures |r.registry.shapes| == |s.registry.shapes|
    ensures r.registry.nextId == s.registry.nextId && r.engine.busy == s.engine.busy
    ensures r.engine.pending == s.engine.pending
    ensures r.isPinching == s.isPinching && r.lastShapeCreationTime == s.lastShapeCreationTime
    ensures r.shapeCreatedThisPinch == s.shapeCreatedThisPinch && r.currentShape == s.currentShape
    ensures r.originalDistance == s.originalDistance
    ensures SamePhases(r.engine.tasks, s.engine.tasks)
    ensures r.registry.colorIndex == s.registry.colorIndex
  {
    var position := ToView(h[INDEX_TIP].x, h[INDEX_TIP].y);
    if IsPinch(h) then
      var selected := if s.selectedShape.Some? then s.selectedShape else NearestId(s.registry.shapes, position);
      match selected
      case None => s.(selectedShape := None)
      case Some(id) => EditState(s, id, MoveTo(position)).(selectedShape := Some(id))
    else s.(selectedShape := None)
  }

  /** The drag loop over the hands in tracker order. */
  function DragHands(s: State, hands: seq<Hand>): (r: State)
    requires Valid(s)
    ensures Valid(r)
    ensures |r.registry.shapes| == |s.registry.shapes|
    ensures r.registry.nextId == s.registry.nextId && r.engine.busy == s.engine.busy
    ensures r.engine.pending == s.engine.pending
    ensures r.isPinching == s.isPinching && r.lastShapeCreationTime == s.lastShapeCreationTime
    ensures r.shapeCreatedThisPinch == s.shapeCreatedThisPinch && r.currentShape == s.currentShape
    ensures r.originalDistance == s.originalDistance
    ensures SamePhases(r.engine.tasks, s.engine.tasks)
    ensures r.registry.colorIndex == s.registry.colorIndex
    ensures Ids(AllShapes(r)) == Ids(AllShapes(s))
    decreases |hands|
  {
    if |hands| == 0 then s
    else
      var before := DragHands(s, hands[..|hands| - 1]);
      var r := DragHand(before, hands[|hands| - 1]);
      r
  }

  /** Lines 371-389: with no hands the selection is dropped. */
  function Drag(s: State, hands: seq<Hand>): (r: State)
    requires Valid(s)
    ensures Valid(r)
    ensures |hands| == 0 ==> r.selectedShape.None? && AllShapes(r) == AllShapes(s)
    ensures |r.registry.shapes| == |s.registry.shapes|
    ensures r.registry.nextId == s.registry.nextId && r.engine.busy == s.engine.busy
    ensures r.engine.pending == s.engine.pending
    ensures r.isPinching == s.isPinching && r.lastShapeCreationTime == s.lastShapeCreationTime
    ensures r.shapeCreatedThisPinch == s.shapeCreatedThisPinch && r.currentShape == s.currentShape
    ensures r.originalDistance == s.originalDistance
    ensures SamePhases(r.engine.tasks, s.engine.tasks)
    ensures r.registry.colorIndex == s.registry.colorIndex
  {
    if |hands| > 0 then DragHands(s, hands) else s.(selectedShape := None)
  }

  /** The whole results callback for one frame. */
  function OnResults(s: State, f: Frame): (r: State)
    requires Valid(s)
    ensures Valid(r)
    ensures s.engine.busy ==> r.engine.busy && r.engine.pending == s.engine.pending
    ensures s.engine.busy ==> SamePhases(r.engine.tasks, s.engine.tasks)
  {
    var s1 := SnapPhase(s, f.hands);
    if BothPinch(f.hands) then TwoHandPinch(s1, f)
    else Drag(ResetGesture(s1), f.hands)
  }
}
