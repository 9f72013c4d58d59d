/**
 The snap-triggered destruction of every shape (main.js,
 `snapDisintegration` and the lifetime of each `disintegrate` task).
 The source joins the per-shape promises with `Promise.all` and then
 clears `isDisintegrating`; the model makes the join explicit: an engine
 holds one task per drained shape, a count of unfinished tasks, and the
 busy flag, and two events move a task along -- its start timer firing
 and its particle animation ending.
 */
module Disintegration {
  import opened ShapeRegistry

  /** Where one per-shape task is: waiting for its start delay, animating
      its particles, or done (shape and particles removed, promise resolved). */
  datatype Phase = Scheduled | Animating | Finished

  datatype Task = Task(shape: Shape, phase: Phase)

  /** `busy` is `isDisintegrating`; `pending` counts unresolved promises. */
  datatype Engine = Engine(busy: bool, pending: nat, tasks: seq<Task>)

  /** The engine before any snap. */
  const Idle: Engine := Engine(false, 0, [])

  /** The shapes held by `tasks`, in task order. */
  function TaskShapes(tasks: seq<Task>): (shapes: seq<Shape>)
    ensures |shapes| == |tasks|
    ensures forall i :: 0 <= i < |tasks| ==> shapes[i] == tasks[i].shape
  {
    seq(|tasks|, i requires 0 <= i < |tasks| => tasks[i].shape)
  }

  /** Number of tasks not yet finished. */
  function Unfinished(tasks: seq<Task>): (n: nat)
    ensures n <= |tasks|
  {
    if |tasks| == 0 then 0
    else Unfinished(tasks[..|tasks| - 1]) + (if tasks[|tasks| - 1].phase == Finished then 0 else 1)
  }

  /** Two task lists of the same length whose tasks are in the same phases,
      task by task. */
  predicate SamePhases(a: seq<Task>, b: seq<Task>)
  {
    |a| == |b| && forall j :: 0 <= j < |a| ==> a[j].phase == b[j].phase
  }

  /** The join invariant: the counter is the number of unfinished tasks,
      the engine is busy exactly while one is unfinished, and an idle
      engine holds no tasks. */
  predicate Valid(e: Engine)
  {
    && e.pending == Unfinished(e.tasks)
    && (e.busy <==> e.pending > 0)
    && (!e.busy ==> e.tasks == [])
  }

  /** The engine and shape collection after a snap. */
  datatype Drain = Drain(shapes: seq<Shape>, engine: Engine)

  /** One scheduled task per shape, in collection order. */
  function Schedule(shapes: seq<Shape>): (tasks: seq<Task>)
    ensures TaskShapes(tasks) == shapes
    ensures forall i :: 0 <= i < |tasks| ==> tasks[i].phase == Scheduled
  {
    seq(|shapes|, i requires 0 <= i < |shapes| => Task(shapes[i], Scheduled))
  }

  /** `snapDisintegration`, up to its `await`: ignored while busy or when
      there is nothing to destroy; otherwise the engine turns busy, the
      collection is swapped for an empty one, and every drained shape, in
      order, gets exactly one scheduled task. */
  function Snap(shapes: seq<Shape>, e: Engine): (r: Drain)
    requires Valid(e)
    ensures e.busy || |shapes| == 0 ==> r == Drain(shapes, e)
    ensures !e.busy && |shapes| > 0 ==>
      && r.shapes == []
      && r.engine.busy
      && TaskShapes(r.engine.tasks) == shapes
      && (forall i :: 0 <= i < |r.engine.tasks| ==> r.engine.tasks[i].phase == Scheduled)
      && r.engine.pending == |shapes|
    ensures Valid(r.engine)
  {
    if e.busy || |shapes| == 0 then Drain(shapes, e)
    else
      var tasks := Schedule(shapes);
      AllUnfinished(tasks);
      Drain([], Engine(true, |shapes|, tasks))
  }

  /** A task's start delay elapses: it hides its shape and starts animating.
      A task that is not waiting, or does not exist, ignores the event. */
  function Fire(e: Engine, i: nat): (r: Engine)
    ensures r.busy == e.busy && r.pending == e.pending
    ensures Ids(TaskShapes(r.tasks)) == Ids(TaskShapes(e.tasks))
    ensures i < |e.tasks| && e.tasks[i].phase == Scheduled ==>
      r.tasks == e.tasks[i := Task(Apply(e.tasks[i].shape, Hide), Animating)]
    ensures !(i < |e.tasks| && e.tasks[i].phase == Scheduled) ==> r == e
    ensures Valid(e) ==> Valid(r)
  {
    if i < |e.tasks| && e.tasks[i].phase == Scheduled then
      var t := Task(Apply(e.tasks[i].shape, Hide), Animating);
      UnfinishedUpdate(e.tasks, i, t);
      assert TaskShapes(e.tasks[i := t]) == TaskShapes(e.tasks)[i := t.shape];
      e.(tasks := e.tasks[i := t])
    else e
  }

  /** A shape edit applied to a drained shape through a reference kept by
      the interaction logic; phases, and so the join, are unaffected. */
  function EditTasks(tasks: seq<Task>, id: nat, e: Edit): (r: seq<Task>)
    ensures |r| == |tasks|
    ensures TaskShapes(r) == EditShapes(TaskShapes(tasks), id, e)
    ensures forall i :: 0 <= i < |tasks| ==> r[i].phase == tasks[i].phase
    ensures Unfinished(r) == Unfinished(tasks)
  {
    var r := seq(|tasks|, i requires 0 <= i < |tasks| =>
      if tasks[i].shape.id == id then tasks[i].(shape := Apply(tasks[i].shape, e)) else tasks[i]);
    SamePhasesSameCount(r, tasks);
    r
  }

  /** The unfinished count depends only on the phases. */
  lemma {:induction false} SamePhasesSameCount(a: seq<Task>, b: seq<Task>)
    requires |a| == |b|
    requires forall i :: 0 <= i < |a| ==> a[i].phase == b[i].phase
    ensures Unfinished(a) == Unfinished(b)
    decreases |a|
  {
    if |a| > 0 {
      SamePhasesSameCount(a[..|a| - 1], b[..|b| - 1]);
    }
  }

  /** A task's animation ends: its promise resolves. When that was the last
      unresolved promise the join completes, the engine goes idle and the
      finished tasks are discarded. A task that is not animating ignores
      the event (a promise resolves once). */
  function Finish(e: Engine, i: nat): (r: Engine)
    requires Valid(e)
    ensures Valid(r)
    ensures r.pending <= e.pending
    ensures TaskShapes(r.tasks) == TaskShapes(e.tasks) || r.tasks == []
    ensures e.busy && !r.busy ==> r.tasks == []
    ensures !e.busy ==> r == e
    ensures i < |e.tasks| && e.tasks[i].phase == Animating ==>
      r.pending == e.pending - 1 && (r.busy ==> r.tasks == e.tasks[i := e.tasks[i].(phase := Finished)])
    ensures !(i < |e.tasks| && e.tasks[i].phase == Animating) ==> r == e
  {
    if i < |e.tasks| && e.tasks[i].phase == Animating then
      var t := e.tasks[i].(phase := Finished);
      UnfinishedUpdate(e.tasks, i, t);
      assert TaskShapes(e.tasks[i := t]) == TaskShapes(e.tasks);
      if e.pending == 1 then Idle
      else Engine(true, e.pending - 1, e.tasks[i := t])
    else e
  }

  /** Counting unfinished tasks after replacing one. */
  lemma {:induction false} UnfinishedUpdate(tasks: seq<Task>, i: nat, t: Task)
    requires i < |tasks|
    ensures Unfinished(tasks[i := t])
         == Unfinished(tasks) - (if tasks[i].phase == Finished then 0 else 1)
                              + (if t.phase == Finished then 0 else 1)
    decreases |tasks|
  {
    var last := |tasks| - 1;
    if i < last {
      UnfinishedUpdate(tasks[..last], i, t);
      assert tasks[i := t][..last] == tasks[..last][i := t];
    } else {
      assert tasks[i := t][..last] == tasks[..last];
    }
  }

  /** Tasks none of which is finished are all unfinished. */
  lemma {:induction false} AllUnfinished(tasks: seq<Task>)
    requires forall i :: 0 <= i < |tasks| ==> tasks[i].phase != Finished
    ensures Unfinished(tasks) == |tasks|
    decreases |tasks|
  {
    if |tasks| > 0 {
      AllUnfinished(tasks[..|tasks| - 1]);
    }
  }

  /** No unfinished task means every task is finished. */
  lemma {:induction false} NoneUnfinished(tasks: seq<Task>)
    requires Unfinished(tasks) == 0
    ensures forall i :: 0 <= i < |tasks| ==> tasks[i].phase == Finished
    decreases |tasks|
  {
    if |tasks| > 0 {
      NoneUnfinished(tasks[..|tasks| - 1]);
      assert forall i :: 0 <= i < |tasks| - 1 ==> tasks[..|tasks| - 1][i] == tasks[i];
    }
  }

  /** The busy flag is released only by the event that finishes the last
      unfinished task: at that moment every other drained task has already
      finished. */
  lemma BusyClearsOnlyAtJoin(e: Engine, i: nat)
    requires Valid(e) && e.busy && !Finish(e, i).busy
    ensures i < |e.tasks| && e.tasks[i].phase == Animating
    ensures forall j :: 0 <= j < |e.tasks| && j != i ==> e.tasks[j].phase == Finished
  {
    var t := e.tasks[i].(phase := Finished);
    UnfinishedUpdate(e.tasks, i, t);
    NoneUnfinished(e.tasks[i := t]);
    forall j | 0 <= j < |e.tasks| && j != i
      ensures e.tasks[j].phase == Finished
    {
      assert e.tasks[i := t][j] == e.tasks[j];
    }
  }

  /** A second snap right after a first changes nothing: either the first
      was ignored (and so is the second, for the same reason), or it left
      an empty collection. */
  lemma SnapIdempotent(shapes: seq<Shape>, e: Engine)
    requires Valid(e)
    ensures var d := Snap(shapes, e); Snap(d.shapes, d.engine) == d
  {
  }

  /** A timer event of one task: its start delay elapsing, or its particle
      animation ending. */
  datatype Timer = Fires(task: nat) | Ends(task: nat)

  /** The engine's reaction to one timer event. */
  function Tick(e: Engine, t: Timer): (r: Engine)
    requires Valid(e)
    ensures Valid(r)
    ensures r.busy ==> e.busy && |r.tasks| == |e.tasks|
    ensures r.busy ==> forall j :: 0 <= j < |e.tasks| ==> r.tasks[j].phase == Advance(e.tasks[j].phase, j, t)
  {
    match t
    case Fires(i) => Fire(e, i)
    case Ends(i) => Finish(e, i)
  }

  /** The same event seen from task `j` alone: a waiting task starts when
      its own delay elapses, an animating task finishes when its own
      animation ends, and every other event leaves it where it is. */
  function Advance(p: Phase, j: nat, t: Timer): Phase
  {
    match t
    case Fires(i) => if i == j && p == Scheduled then Animating else p
    case Ends(i) => if i == j && p == Animating then Finished else p
  }

  /** The engine after a sequence of timer events, in the order they occur. */
  function Run(e: Engine, ts: seq<Timer>): (r: Engine)
    requires Valid(e)
    ensures Valid(r)
    decreases |ts|
  {
    if |ts| == 0 then e else Run(Tick(e, ts[0]), ts[1..])
  }

  /** Task `j`'s phase after a sequence of events, seen from the task alone. */
  function Follow(p: Phase, j: nat, ts: seq<Timer>): Phase
    decreases |ts|
  {
    if |ts| == 0 then p else Follow(Advance(p, j, ts[0]), j, ts[1..])
  }

  /** An idle engine stays idle whatever timer events arrive. */
  lemma {:induction false} IdleStaysIdle(e: Engine, ts: seq<Timer>)
    requires Valid(e) && !e.busy
    ensures Run(e, ts) == e
    decreases |ts|
  {
    if |ts| > 0 {
      assert Tick(e, ts[0]) == e;
      IdleStaysIdle(e, ts[1..]);
    }
  }

  /** While the run is not joined, the engine is exactly the tasks' own
      phase machines side by side: each task's phase is what its own
      events made of it, whatever the interleaving. */
  lemma {:induction false} RunMirrorsTasks(e: Engine, ts: seq<Timer>)
    requires Valid(e)
    ensures Run(e, ts).busy ==> |Run(e, ts).tasks| == |e.tasks|
    ensures Run(e, ts).busy ==> forall j :: 0 <= j < |e.tasks| ==>
              Run(e, ts).tasks[j].phase == Follow(e.tasks[j].phase, j, ts)
    decreases |ts|
  {
    if |ts| > 0 {
      var e1 := Tick(e, ts[0]);
      RunMirrorsTasks(e1, ts[1..]);
      if !e1.busy {
        IdleStaysIdle(e1, ts[1..]);
      }
    }
  }

  /** The join completes in any order: once every task's own events have
      taken it to Finished, the engine is idle. */
  lemma JoinCompletes(e: Engine, ts: seq<Timer>)
    requires Valid(e)
    requires forall j :: 0 <= j < |e.tasks| ==> Follow(e.tasks[j].phase, j, ts) == Finished
    ensures !Run(e, ts).busy
  {
    RunMirrorsTasks(e, ts);
    if Run(e, ts).busy {
      NoBusyWhenAllFinished(Run(e, ts));
    }
  }

  /** A finished task stays finished. */
  lemma {:induction false} FinishedStays(j: nat, ts: seq<Timer>)
    ensures Follow(Finished, j, ts) == Finished
    decreases |ts|
  {
    if |ts| > 0 {
      FinishedStays(j, ts[1..]);
    }
  }

  /** A task that has started finishes once its animation end arrives. */
  lemma {:induction false} EndFinishes(p: Phase, j: nat, ts: seq<Timer>, b: nat)
    requires p != Scheduled && b < |ts| && ts[b] == Ends(j)
    ensures Follow(p, j, ts) == Finished
    decreases |ts|
  {
    if b == 0 {
      FinishedStays(j, ts[1..]);
    } else {
      EndFinishes(Advance(p, j, ts[0]), j, ts[1..], b - 1);
    }
  }

  /** Any task whose start delay elapses and whose animation later ends is
      finished, whatever phase it started in. */
  lemma {:induction false} FireThenEndFinishes(p: Phase, j: nat, ts: seq<Timer>, a: nat, b: nat)
    requires a < b < |ts| && ts[a] == Fires(j) && ts[b] == Ends(j)
    ensures Follow(p, j, ts) == Finished
    decreases |ts|
  {
    if a == 0 {
      EndFinishes(Advance(p, j, ts[0]), j, ts[1..], b - 1);
    } else {
      FireThenEndFinishes(Advance(p, j, ts[0]), j, ts[1..], a - 1, b - 1);
    }
  }

  /** Every drained shape's task fired and later finished, in any
      interleaving of the tasks: the engine is idle again. */
  lemma EveryTaskRunCompletes(e: Engine, ts: seq<Timer>)
    requires Valid(e)
    requires forall j :: 0 <= j < |e.tasks| ==>
               exists a, b :: 0 <= a < b < |ts| && ts[a] == Fires(j) && ts[b] == Ends(j)
    ensures !Run(e, ts).busy
  {
    forall j | 0 <= j < |e.tasks|
      ensures Follow(e.tasks[j].phase, j, ts) == Finished
    {
      var a, b :| 0 <= a < b < |ts| && ts[a] == Fires(j) && ts[b] == Ends(j);
      FireThenEndFinishes(e.tasks[j].phase, j, ts, a, b);
    }
    JoinCompletes(e, ts);
  }

  /** A valid engine whose tasks are all finished is idle. */
  lemma NoBusyWhenAllFinished(e: Engine)
    requires Valid(e)
    requires forall j :: 0 <= j < |e.tasks| ==> e.tasks[j].phase == Finished
    ensures !e.busy
  {
    AllFinishedNoneUnfinished(e.tasks);
  }

  lemma {:induction false} AllFinishedNoneUnfinished(tasks: seq<Task>)
    requires forall j :: 0 <= j < |tasks| ==> tasks[j].phase == Finished
    ensures Unfinished(tasks) == 0
    decreases |tasks|
  {
    if |tasks| > 0 {
      AllFinishedNoneUnfinished(tasks[..|tasks| - 1]);
    }
  }
}
