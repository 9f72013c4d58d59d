/**
 What one run of the results callback does, stated over `OnResults`:
 snap ordering, the creation gate and what creation records, rescaling,
 the gesture reset, and single-hand dragging.
 */
module FrameProperties {
  import opened Wrappers
  import opened Geometry
  import opened Gestures
  import opened Palette
  import opened ShapeRegistry
  import opened Disintegration
  import opened Interaction

  /** A shape was created between `s` and `r`. */
  predicate Creates(s: State, r: State)
  {
    r.registry.nextId > s.registry.nextId
  }

  /** The creation gate: a frame creates a shape exactly when both of two
      hands pinch, the previous frame was not already in the two-hand pinch,
      the index tips are close, and strictly more than 1000 ms have passed
      since the last creation. */
  lemma CreationGate(s: State, f: Frame)
    requires Interaction.Valid(s)
    ensures Creates(s, OnResults(s, f)) <==>
      && BothPinch(f.hands)
      && !s.isPinching
      && IndexFingersClose(f.hands[0], f.hands[1])
      && f.now - s.lastShapeCreationTime > SHAPE_CREATION_COOLDOWN
  {
    var s1 := SnapPhase(s, f.hands);
    if !BothPinch(f.hands) {
      assert OnResults(s, f) == Drag(ResetGesture(s1), f.hands);
    }
  }

  /** What a creating frame records: the creation time, the index gap at
      creation as the reference distance, the new shape as the one being
      scaled, and the new shape itself -- appended after whatever the snap
      phase left in the collection, at the projected midpoint of the index
      tips, with the next palette colour and unit scale. The selection is
      untouched. */
  lemma CreationEffects(s: State, f: Frame)
    requires Interaction.Valid(s) && Creates(s, OnResults(s, f))
    ensures |f.hands| == 2
    ensures var r := OnResults(s, f);
      && r.lastShapeCreationTime == f.now
      && r.originalDistance == Some(f.indexGap)
      && r.currentShape == Some(s.registry.nextId)
      && r.registry.shapes == SnapPhase(s, f.hands).registry.shapes
           + [Shape(s.registry.nextId, f.kind, NeonColors[s.registry.colorIndex], IndexMidpoint(f), 1.0, true)]
      && r.registry.colorIndex == NextNeonColor(s.registry.colorIndex).next
      && r.isPinching && r.shapeCreatedThisPinch
      && r.selectedShape == s.selectedShape
      && r.engine == SnapPhase(s, f.hands).engine
    ensures Measured(f) ==>
      IsRoot(OnResults(s, f).originalDistance.value, SqDist2(f.hands[0][INDEX_TIP], f.hands[1][INDEX_TIP]))
  {
    CreationGate(s, f);
  }

  /** The created shape sits at the midpoint of the index tips' projections. */
  lemma CreatedAtIndexMidpoint(s: State, f: Frame)
    requires Interaction.Valid(s) && Creates(s, OnResults(s, f))
    ensures |f.hands| == 2
    ensures var r := OnResults(s, f);
      var left, right := ToView(f.hands[0][INDEX_TIP].x, f.hands[0][INDEX_TIP].y),
                         ToView(f.hands[1][INDEX_TIP].x, f.hands[1][INDEX_TIP].y);
      && |r.registry.shapes| > 0
      && r.registry.shapes[|r.registry.shapes| - 1].position
         == Vec3((left.x + right.x) / 2.0, (left.y + right.y) / 2.0, 0.0)
  {
    CreationEffects(s, f);
    var l, rt := f.hands[0][INDEX_TIP], f.hands[1][INDEX_TIP];
    ToViewMidpoint(l.x, l.y, rt.x, rt.y);
  }

  /** Snap comes first: when a hand snaps with shapes present and no
      disintegration running, every existing shape is handed to the new
      run before the two-hand logic runs, so a shape created in the same
      frame lands alone in the fresh collection. */
  lemma SnapDrainsBeforeCreation(s: State, f: Frame)
    requires Interaction.Valid(s) && FirstSnap(f.hands).Some?
    requires !s.engine.busy && |s.registry.shapes| > 0
    ensures var r := OnResults(s, f);
      && r.engine.busy
      && r.engine.pending == |s.registry.shapes|
      && Ids(TaskShapes(r.engine.tasks)) == Ids(s.registry.shapes)
      && |r.registry.shapes| == (if Creates(s, r) then 1 else 0)
      && (Creates(s, r) ==> r.registry.shapes[0].id == s.registry.nextId)
  {
    var r := OnResults(s, f);
    CreationGate(s, f);
    if Creates(s, r) {
      CreationEffects(s, f);
      assert TaskShapes(SnapPhase(s, f.hands).engine.tasks) == s.registry.shapes;
    } else {
      SnapFrameWithoutCreation(s, f);
    }
  }

  /** The non-creating case of `SnapDrainsBeforeCreation`. */
  lemma SnapFrameWithoutCreation(s: State, f: Frame)
    requires Interaction.Valid(s) && FirstSnap(f.hands).Some?
    requires !s.engine.busy && |s.registry.shapes| > 0
    requires !Creates(s, OnResults(s, f))
    ensures var r := OnResults(s, f);
      && r.engine.busy
      && r.engine.pending == |s.registry.shapes|
      && r.registry.shapes == []
      && Ids(TaskShapes(r.engine.tasks)) == Ids(s.registry.shapes)
  {
    var s1 := SnapPhase(s, f.hands);
    var r := OnResults(s, f);
    assert s1.registry.shapes == [];
    assert TaskShapes(s1.engine.tasks) == s.registry.shapes;
    NonCreatingFrameAfterSnap(s, f);
    FrameKeepsIds(s, f);
    IdsConcat(r.registry.shapes, TaskShapes(r.engine.tasks));
    assert AllShapes(r) == TaskShapes(r.engine.tasks);
    assert s.engine.tasks == [];
    assert AllShapes(s) == s.registry.shapes;
  }

  /** A frame that creates nothing keeps, after its snap phase, the length
      of the collection, the busy flag and the pending count. */
  lemma NonCreatingFrameAfterSnap(s: State, f: Frame)
    requires Interaction.Valid(s) && !Creates(s, OnResults(s, f))
    ensures var s1, r := SnapPhase(s, f.hands), OnResults(s, f);
      && |r.registry.shapes| == |s1.registry.shapes|
      && r.engine.busy == s1.engine.busy && r.engine.pending == s1.engine.pending
  {
    var s1 := SnapPhase(s, f.hands);
    if BothPinch(f.hands) {
      CreationGate(s, f);
      assert OnResults(s, f) == TwoHandPinch(s1, f);
    } else {
      assert OnResults(s, f) == Drag(ResetGesture(s1), f.hands);
    }
  }

  /** Apart from a newly created shape, a frame never adds or removes a
      shape: it only moves shapes between the collection and a run. */
  lemma FrameKeepsIds(s: State, f: Frame)
    requires Interaction.Valid(s)
    ensures var r := OnResults(s, f);
      Creates(s, r) ==> Ids(AllShapes(r)) == Ids(SnapPhase(s, f.hands).registry.shapes) + [s.registry.nextId]
                                              + Ids(TaskShapes(r.engine.tasks))
    ensures var r := OnResults(s, f);
      !Creates(s, r) ==> Ids(AllShapes(r)) == Ids(AllShapes(s))
  {
    var s1 := SnapPhase(s, f.hands);
    var r := OnResults(s, f);
    CreationGate(s, f);
    if Creates(s, r) {
      CreationEffects(s, f);
      IdsConcat(r.registry.shapes, TaskShapes(r.engine.tasks));
      IdsConcat(s1.registry.shapes, [r.registry.shapes[|r.registry.shapes| - 1]]);
    } else if BothPinch(f.hands) {
      assert Ids(AllShapes(r)) == Ids(AllShapes(s1));
    } else {
      var s2 := ResetGesture(s1);
      assert AllShapes(s2) == AllShapes(s1);
    }
  }

  /** While a run is in progress, or when there is nothing to destroy, the
      snap phase of a frame changes nothing. */
  lemma SnapIgnoredWhenBusyOrEmpty(s: State, hands: seq<Hand>)
    requires Interaction.Valid(s) && (s.engine.busy || |s.registry.shapes| == 0)
    ensures SnapPhase(s, hands) == s
  {
  }

  /** Snap is triggered at most once per frame, however many hands snap:
      any two hand sets with a snapping hand give the same snap phase, and
      a second `snapDisintegration` call in the same frame would change
      nothing (the first either was ignored or left no shapes). */
  lemma OneSnapPerFrame(s: State, hands: seq<Hand>, others: seq<Hand>)
    requires Interaction.Valid(s) && FirstSnap(hands).Some? && FirstSnap(others).Some?
    ensures SnapPhase(s, hands) == SnapPhase(s, others)
    ensures SnapPhase(SnapPhase(s, hands), others) == SnapPhase(s, hands)
  {
    SnapIdempotent(s.registry.shapes, s.engine);
  }

  /** On a later frame of the same two-hand pinch, the shape created in
      this pinch (wherever it now lives) takes the current index gap over
      the gap at creation as its scale, with no clamp; everything else about
      the shapes, the reference gap and the selection stays as it was. A
      reference gap of exactly zero skips the rescale, as `null`-or-zero is
      falsy in the source. */
  lemma ScaleFollowsGap(s: State, f: Frame)
    requires Interaction.Valid(s) && BothPinch(f.hands) && s.isPinching
    ensures var r := OnResults(s, f);
      && r.isPinching
      && r.originalDistance == s.originalDistance
      && r.currentShape == s.currentShape
      && r.selectedShape == s.selectedShape
      && r.lastShapeCreationTime == s.lastShapeCreationTime
      && r.registry.nextId == s.registry.nextId
      && AllShapes(r) ==
           (if s.currentShape.Some? && s.originalDistance.value != 0.0
            then EditShapes(AllShapes(s), s.currentShape.value, ScaleTo(f.indexGap / s.originalDistance.value))
            else AllShapes(s))
  {
  }

  /** Scenario: a creating frame followed by a both-pinch frame leaves the
      new shape in existence, scaled by the ratio of the second gap to the
      first. */
  lemma CreateThenScale(s: State, f1: Frame, f2: Frame)
    requires Interaction.Valid(s) && Creates(s, OnResults(s, f1))
    requires f1.indexGap != 0.0 && BothPinch(f2.hands)
    ensures var r := OnResults(OnResults(s, f1), f2);
      && (exists x :: x in AllShapes(r) && x.id == s.registry.nextId)
      && (forall x :: x in AllShapes(r) && x.id == s.registry.nextId ==> x.scale == f2.indexGap / f1.indexGap)
  {
    var r1 := OnResults(s, f1);
    CreationEffects(s, f1);
    ScaleFollowsGap(r1, f2);
    var k := |r1.registry.shapes| - 1;
    assert AllShapes(r1)[k].id == s.registry.nextId;
    ScaledShape(AllShapes(r1), s.registry.nextId, f2.indexGap / f1.indexGap, k);
  }

  /** Rescaling the shape with identity `id` keeps it present and gives
      every shape with that identity the new scale. */
  lemma ScaledShape(shapes: seq<Shape>, id: nat, factor: real, k: nat)
    requires k < |shapes| && shapes[k].id == id
    ensures var r := EditShapes(shapes, id, ScaleTo(factor));
      && (exists x :: x in r && x.id == id)
      && (forall x :: x in r && x.id == id ==> x.scale == factor)
  {
    var r := EditShapes(shapes, id, ScaleTo(factor));
    assert r[k] in r && r[k].id == id;
    forall x | x in r && x.id == id
      ensures x.scale == factor
    {
      var i :| 0 <= i < |r| && r[i] == x;
      assert r[i] == Apply(shapes[i], ScaleTo(factor));
    }
  }

  /** The first frame of a two-hand pinch whose creation gate stays shut
      only starts the pinch: apart from the snap phase, nothing changes. */
  lemma GatedFirstFrame(s: State, f: Frame)
    requires Interaction.Valid(s) && BothPinch(f.hands) && !s.isPinching
    requires !Creates(s, OnResults(s, f))
    ensures OnResults(s, f) == SnapPhase(s, f.hands).(isPinching := true)
  {
    CreationGate(s, f);
  }

  /** The shape being scaled is either the one the ongoing pinch already
      had, or the one this frame has just created. */
  lemma CurrentShapeOrigin(s: State, f: Frame)
    requires Interaction.Valid(s)
    ensures var r := OnResults(s, f);
      r.currentShape.Some? ==>
        (r.currentShape == s.currentShape && s.isPinching)
        || (Creates(s, r) && r.currentShape == Some(s.registry.nextId))
  {
    var r := OnResults(s, f);
    CreationGate(s, f);
    if Creates(s, r) {
      CreationEffects(s, f);
    }
  }

  /** Only a creating frame moves the colour cursor. */
  lemma NoCreationKeepsCursor(s: State, f: Frame)
    requires Interaction.Valid(s) && !Creates(s, OnResults(s, f))
    ensures OnResults(s, f).registry.colorIndex == s.registry.colorIndex
  {
    CreationGate(s, f);
  }

  /** Any frame that does not run the two-hand branch ends the gesture:
      the pinch flags, the reference gap and the scaled shape are cleared,
      and no shape is created. */
  lemma ResetUnlessBothPinch(s: State, f: Frame)
    requires Interaction.Valid(s) && !BothPinch(f.hands)
    ensures var r := OnResults(s, f);
      && !r.isPinching && !r.shapeCreatedThisPinch
      && r.originalDistance.None? && r.currentShape.None?
      && r.lastShapeCreationTime == s.lastShapeCreationTime
      && !Creates(s, r)
  {
  }

  /** A both-pinch frame returns before the drag logic: the selection is
      exactly what it was. */
  lemma BothPinchKeepsSelection(s: State, f: Frame)
    requires Interaction.Valid(s) && BothPinch(f.hands)
    ensures OnResults(s, f).selectedShape == s.selectedShape
  {
  }

  /** No hands: the selection is dropped and no shape changes. */
  lemma NoHandsClearSelection(s: State, f: Frame)
    requires Interaction.Valid(s) && |f.hands| == 0
    ensures OnResults(s, f).selectedShape.None?
    ensures AllShapes(OnResults(s, f)) == AllShapes(s)
  {
  }

  /** The last hand in tracker order decides the outcome of the drag loop:
      if it does not pinch the selection is dropped; if it pinches and a
      shape is selected, that shape -- wherever it lives -- sits exactly at
      the last hand's projected index tip, on the z = 0 plane. */
  lemma LastHandWins(s: State, f: Frame)
    requires Interaction.Valid(s) && !BothPinch(f.hands) && |f.hands| > 0
    ensures var h := f.hands[|f.hands| - 1];
      !IsPinch(h) ==> OnResults(s, f).selectedShape.None?
    ensures var h := f.hands[|f.hands| - 1];
      var r := OnResults(s, f);
      IsPinch(h) && r.selectedShape.Some? ==>
        forall x :: x in AllShapes(r) && x.id == r.selectedShape.value ==>
          x.position == ToView(h[INDEX_TIP].x, h[INDEX_TIP].y)
  {
    var h := f.hands[|f.hands| - 1];
    var s2 := ResetGesture(SnapPhase(s, f.hands));
    var before := DragHands(s2, f.hands[..|f.hands| - 1]);
    var r := OnResults(s, f);
    assert r == DragHand(before, h);
    if IsPinch(h) && r.selectedShape.Some? {
      var id := r.selectedShape.value;
      forall x | x in AllShapes(r) && x.id == id
        ensures x.position == ToView(h[INDEX_TIP].x, h[INDEX_TIP].y)
      {
        var i :| 0 <= i < |AllShapes(r)| && AllShapes(r)[i] == x;
        assert x == Apply(AllShapes(before)[i], MoveTo(ToView(h[INDEX_TIP].x, h[INDEX_TIP].y)));
      }
    }
  }

  /** A single pinching hand with nothing selected selects the shape
      `findNearestShape` returns for its projected index tip (or nothing);
      a pinching hand keeps an existing selection without searching. */
  lemma SingleHandSelection(s: State, f: Frame)
    requires Interaction.Valid(s) && |f.hands| == 1 && IsPinch(f.hands[0])
    ensures var p := ToView(f.hands[0][INDEX_TIP].x, f.hands[0][INDEX_TIP].y);
      s.selectedShape.None? ==>
        OnResults(s, f).selectedShape == NearestId(SnapPhase(s, f.hands).registry.shapes, p)
    ensures s.selectedShape.Some? ==> OnResults(s, f).selectedShape == s.selectedShape
  {
    var s2 := ResetGesture(SnapPhase(s, f.hands));
    assert f.hands[..0] == [];
    assert DragHands(s2, f.hands[..0]) == s2;
    assert OnResults(s, f) == DragHand(s2, f.hands[0]);
  }
}
