/**
 Runs of the interaction engine over a sequence of events: tracker
 frames and the two timer events of each disintegration task. The
 properties here relate several steps: spacing of creations, one
 creation per gesture, and the busy flag released only at the join.
 */
module Traces {
  import opened Wrappers
  import opened Palette
  import opened Gestures
  import opened ShapeRegistry
  import opened Disintegration
  import opened Interaction
  import opened FrameProperties

  /** Something the engine reacts to. */
  datatype Event =
    | Results(frame: Frame)      // the hand tracker delivers a frame
    | Timed(timer: Timer)        // a disintegration task's start delay or animation ends

  /** One event. */
  function Step(s: State, e: Event): (r: State)
    requires Interaction.Valid(s)
    ensures Interaction.Valid(r)
    ensures s.engine.busy && !r.engine.busy ==> e.Timed? && e.timer.Ends?
    ensures !e.Results? ==> r == s.(engine := r.engine)
  {
    match e
    case Results(f) => OnResults(s, f)
    case Timed(Fires(i)) =>
      var r := s.(engine := Fire(s.engine, i));
      IdsConcat(s.registry.shapes, TaskShapes(s.engine.tasks));
      IdsConcat(r.registry.shapes, TaskShapes(r.engine.tasks));
      r
    case Timed(Ends(i)) =>
      var r := s.(engine := Finish(s.engine, i));
      IdsConcat(s.registry.shapes, TaskShapes(s.engine.tasks));
      IdsConcat(r.registry.shapes, TaskShapes(r.engine.tasks));
      FreshPrefix(Ids(s.registry.shapes), Ids(TaskShapes(s.engine.tasks)), s.registry.nextId);
      assert Ids(s.registry.shapes) + [] == Ids(s.registry.shapes);
      assert r.engine.tasks == [] ==> Ids(AllShapes(r)) == Ids(s.registry.shapes) + [];
      r
  }

  /** Dropping a suffix keeps identities fresh. */
  lemma FreshPrefix(a: seq<nat>, b: seq<nat>, n: nat)
    requires FreshIds(a + b, n)
    ensures FreshIds(a, n)
  {
    assert forall i :: 0 <= i < |a| ==> (a + b)[i] == a[i];
  }

  /** The states visited by a run: the start state, then the state after
      each event in turn. */
  function Trace(s: State, evs: seq<Event>): (ss: seq<State>)
    requires Interaction.Valid(s)
    ensures |ss| == |evs| + 1 && ss[0] == s
    ensures forall i :: 0 <= i < |ss| ==> Interaction.Valid(ss[i])
    ensures forall i :: 0 <= i < |evs| ==> ss[i + 1] == Step(ss[i], evs[i])
    decreases |evs|
  {
    if |evs| == 0 then [s]
    else
      var rest := Trace(Step(s, evs[0]), evs[1..]);
      assert forall i :: 1 <= i < |evs| ==> evs[1..][i - 1] == evs[i];
      [s] + rest
  }

  /** A creation stamps the frame's time, which is strictly more than
      1000 ms after the previous stamp; any other step keeps the stamp. */
  lemma StepCreationTime(s: State, e: Event)
    requires Interaction.Valid(s)
    ensures Creates(s, Step(s, e)) ==>
      e.Results? && Step(s, e).lastShapeCreationTime == e.frame.now
      && e.frame.now > s.lastShapeCreationTime + SHAPE_CREATION_COOLDOWN
    ensures !Creates(s, Step(s, e)) ==> Step(s, e).lastShapeCreationTime == s.lastShapeCreationTime
  {
    if e.Results? {
      CreationGate(s, e.frame);
      if Creates(s, Step(s, e)) {
        CreationEffects(s, e.frame);
      } else if BothPinch(e.frame.hands) {
        assert !s.isPinching ==> !MayCreate(SnapPhase(s, e.frame.hands), e.frame);
      }
    }
  }

  /** The creation stamp never decreases along a run. */
  lemma {:induction false} StampMonotone(s: State, evs: seq<Event>, i: nat, j: nat)
    requires Interaction.Valid(s) && i <= j <= |evs|
    ensures Trace(s, evs)[i].lastShapeCreationTime <= Trace(s, evs)[j].lastShapeCreationTime
    decreases j - i
  {
    if i < j {
      var ss := Trace(s, evs);
      StepCreationTime(ss[j - 1], evs[j - 1]);
      StampMonotone(s, evs, i, j - 1);
    }
  }

  /** Successive creations in any run are stamped more than 1000 ms apart. */
  lemma CreationsSpacedOut(s: State, evs: seq<Event>, i: nat, j: nat)
    requires Interaction.Valid(s) && i < j < |evs|
    requires Creates(Trace(s, evs)[i], Trace(s, evs)[i + 1])
    requires Creates(Trace(s, evs)[j], Trace(s, evs)[j + 1])
    ensures Trace(s, evs)[j + 1].lastShapeCreationTime
          > Trace(s, evs)[i + 1].lastShapeCreationTime + SHAPE_CREATION_COOLDOWN
  {
    var ss := Trace(s, evs);
    StepCreationTime(ss[j], evs[j]);
    StampMonotone(s, evs, i + 1, j);
  }

  /** Every frame of the run keeps both hands pinching (timer events may
      interleave): the run is one two-hand gesture. */
  predicate OneGesture(evs: seq<Event>)
  {
    forall i :: 0 <= i < |evs| && evs[i].Results? ==> BothPinch(evs[i].frame.hands)
  }

  /** Once a gesture has created, it stays pinching to its end. */
  lemma {:induction false} PinchPersists(s: State, evs: seq<Event>, i: nat, j: nat)
    requires Interaction.Valid(s) && OneGesture(evs) && i <= j <= |evs|
    requires Trace(s, evs)[i].isPinching
    ensures Trace(s, evs)[j].isPinching
    decreases j - i
  {
    if i < j {
      PinchPersists(s, evs, i, j - 1);
      var ss := Trace(s, evs);
      if evs[j - 1].Results? {
        assert ss[j] == OnResults(ss[j - 1], evs[j - 1].frame);
      }
    }
  }

  /** At most one shape is created per two-hand gesture. */
  lemma AtMostOneCreationPerGesture(s: State, evs: seq<Event>, i: nat, j: nat)
    requires Interaction.Valid(s) && OneGesture(evs) && i < j < |evs|
    requires Creates(Trace(s, evs)[i], Trace(s, evs)[i + 1])
    ensures !Creates(Trace(s, evs)[j], Trace(s, evs)[j + 1])
  {
    var ss := Trace(s, evs);
    StepCreationTime(ss[i], evs[i]);
    CreationEffects(ss[i], evs[i].frame);
    PinchPersists(s, evs, i + 1, j);
    StepCreationTime(ss[j], evs[j]);
    if evs[j].Results? {
      CreationGate(ss[j], evs[j].frame);
    }
  }

  /** The busy flag is released only by the finish of the last unfinished
      task of the run; frames and start timers never release it. */
  lemma BusyReleasedOnlyAtJoin(s: State, e: Event)
    requires Interaction.Valid(s) && s.engine.busy && !Step(s, e).engine.busy
    ensures e.Timed? && e.timer.Ends?
    ensures e.timer.task < |s.engine.tasks| && s.engine.tasks[e.timer.task].phase == Animating
    ensures forall j :: 0 <= j < |s.engine.tasks| && j != e.timer.task ==> s.engine.tasks[j].phase == Finished
  {
    BusyClearsOnlyAtJoin(s.engine, e.timer.task);
  }

  /** The timer events of a run, in order, with the frames left out. */
  function Timers(evs: seq<Event>): seq<Timer>
    decreases |evs|
  {
    if |evs| == 0 then []
    else Timers(evs[..|evs| - 1]) + (match evs[|evs| - 1] case Timed(t) => [t] case Results(_) => [])
  }

  /** Following one more event. */
  lemma {:induction false} FollowSnoc(p: Phase, j: nat, ts: seq<Timer>, t: Timer)
    ensures Follow(p, j, ts + [t]) == Advance(Follow(p, j, ts), j, t)
    decreases |ts|
  {
    if |ts| > 0 {
      assert (ts + [t])[1..] == ts[1..] + [t];
      FollowSnoc(Advance(p, j, ts[0]), j, ts[1..], t);
    }
  }

  /** Frames interleaved with the timer events never move a task: while a
      run stays unjoined, each task's phase is what its own timer events
      made of it, whatever the hands do meanwhile. */
  lemma {:induction false} TraceMirrors(s: State, evs: seq<Event>, k: nat)
    requires Interaction.Valid(s) && k <= |evs|
    requires forall i :: 0 <= i <= k ==> Trace(s, evs)[i].engine.busy
    ensures |Trace(s, evs)[k].engine.tasks| == |s.engine.tasks|
    ensures forall j :: 0 <= j < |s.engine.tasks| ==>
              Trace(s, evs)[k].engine.tasks[j].phase == Follow(s.engine.tasks[j].phase, j, Timers(evs[..k]))
    decreases k
  {
    var ss := Trace(s, evs);
    if k == 0 {
      assert Timers(evs[..0]) == [];
    } else {
      TraceMirrors(s, evs, k - 1);
      var prev := ss[k - 1];
      assert evs[..k][..k - 1] == evs[..k - 1];
      match evs[k - 1]
      case Results(f) =>
        assert ss[k] == OnResults(prev, f);
        assert Timers(evs[..k]) == Timers(evs[..k - 1]);
      case Timed(t) =>
        assert ss[k].engine == Tick(prev.engine, t);
        assert Timers(evs[..k]) == Timers(evs[..k - 1]) + [t];
        forall j | 0 <= j < |s.engine.tasks|
          ensures ss[k].engine.tasks[j].phase == Follow(s.engine.tasks[j].phase, j, Timers(evs[..k]))
        {
          FollowSnoc(s.engine.tasks[j].phase, j, Timers(evs[..k - 1]), t);
        }
    }
  }

  /** The join completes with frames interleaved: once every task's own
      timer events take it to Finished, some state of the run is idle. */
  lemma TraceJoins(s: State, evs: seq<Event>)
    requires Interaction.Valid(s)
    requires forall j :: 0 <= j < |s.engine.tasks| ==> Follow(s.engine.tasks[j].phase, j, Timers(evs)) == Finished
    ensures exists k :: 0 <= k <= |evs| && !Trace(s, evs)[k].engine.busy
  {
    var ss := Trace(s, evs);
    if forall i :: 0 <= i <= |evs| ==> ss[i].engine.busy {
      TraceMirrors(s, evs, |evs|);
      assert evs[..|evs|] == evs;
      NoBusyWhenAllFinished(ss[|evs|].engine);
    }
  }

  /** Every drained task fires and later ends, in any interleaving with
      each other and with hand frames: the run is joined at some point. */
  lemma EveryTaskJoins(s: State, evs: seq<Event>)
    requires Interaction.Valid(s)
    requires forall j :: 0 <= j < |s.engine.tasks| ==>
               exists a, b :: 0 <= a < b < |Timers(evs)| && Timers(evs)[a] == Fires(j) && Timers(evs)[b] == Ends(j)
    ensures exists k :: 0 <= k <= |evs| && !Trace(s, evs)[k].engine.busy
  {
    var ts := Timers(evs);
    forall j | 0 <= j < |s.engine.tasks|
      ensures Follow(s.engine.tasks[j].phase, j, ts) == Finished
    {
      var a, b :| 0 <= a < b < |ts| && ts[a] == Fires(j) && ts[b] == Ends(j);
      FireThenEndFinishes(s.engine.tasks[j].phase, j, ts, a, b);
    }
    TraceJoins(s, evs);
  }

  /** No step from state `a` to state `b` of a run creates a shape. */
  predicate NoCreationBetween(ss: seq<State>, a: nat, b: nat)
    requires a <= b < |ss|
  {
    forall k :: a <= k < b ==> !Creates(ss[k], ss[k + 1])
  }

  /** Steps that create nothing leave the colour cursor where it was. */
  lemma CursorKept(s: State, evs: seq<Event>, a: nat, b: nat)
    requires Interaction.Valid(s) && a <= b <= |evs|
    requires NoCreationBetween(Trace(s, evs), a, b)
    ensures Trace(s, evs)[b].registry.colorIndex == Trace(s, evs)[a].registry.colorIndex
  {
    var ss := Trace(s, evs);
    var cursors := seq(|ss|, i requires 0 <= i < |ss| => ss[i].registry.colorIndex);
    forall k | a <= k < b
      ensures cursors[k + 1] == cursors[k]
    {
      assert !Creates(ss[k], ss[k + 1]);
      StepKeepsCursor(ss[k], evs[k], ss[k + 1]);
    }
    ConstantStretch(cursors, a, b);
  }

  /** A sequence whose neighbours agree over a stretch is constant on it. */
  lemma {:induction false} ConstantStretch(xs: seq<nat>, a: nat, b: nat)
    requires a <= b < |xs|
    requires forall k :: a <= k < b ==> xs[k + 1] == xs[k]
    ensures xs[b] == xs[a]
    decreases b - a
  {
    if a < b {
      ConstantStretch(xs, a, b - 1);
    }
  }

  /** One step that creates nothing leaves the colour cursor where it was. */
  lemma StepKeepsCursor(s: State, e: Event, r: State)
    requires Interaction.Valid(s) && r == Step(s, e) && !Creates(s, r)
    ensures r.registry.colorIndex == s.registry.colorIndex
  {
    if e.Results? {
      NoCreationKeepsCursor(s, e.frame);
    }
  }

  /** Two successive creations in a run give their shapes different colours:
      the palette cursor moves only when a shape is created. */
  lemma SuccessiveCreationsDiffer(s: State, evs: seq<Event>, i: nat, j: nat)
    requires Interaction.Valid(s) && i < j < |evs|
    requires Creates(Trace(s, evs)[i], Trace(s, evs)[i + 1])
    requires Creates(Trace(s, evs)[j], Trace(s, evs)[j + 1])
    requires NoCreationBetween(Trace(s, evs), i + 1, j)
    ensures var first, second := Trace(s, evs)[i + 1].registry.shapes, Trace(s, evs)[j + 1].registry.shapes;
      && |first| > 0 && |second| > 0
      && first[|first| - 1].color != second[|second| - 1].color
  {
    var ss := Trace(s, evs);
    StepCreationTime(ss[i], evs[i]);
    StepCreationTime(ss[j], evs[j]);
    assert ss[i + 1] == OnResults(ss[i], evs[i].frame);
    assert ss[j + 1] == OnResults(ss[j], evs[j].frame);
    CreationEffects(ss[i], evs[i].frame);
    CreationEffects(ss[j], evs[j].frame);
    CursorKept(s, evs, i + 1, j);
    ConsecutiveColorsDiffer(ss[i].registry.colorIndex);
  }
}
