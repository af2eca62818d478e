/**
 The per-level fields the modified play layer adds, and the five hooks that
 read and write them: `destroyPlayer`, `showNewBest`, the delay task's
 listener callback, `resetLevel` and `delayedResetLevel`.

 Every hook is a pure transition from the fields before the call to the
 fields after it, together with the trace of calls it makes into its
 collaborators (the base play layer, the animation presets and the task
 runtime), in the order it makes them.
 */
module NewBestDelay {
  import opened Presets
  import opened DelayTask

  datatype Option<T> = None | Some(value: T)

  /** Tasks are told apart by the order in which `showNewBest` starts them. */
  type TaskId = nat

  /** A position in the level, as the engine reports it. */
  datatype Point = Point(x: real, y: real)

  /** The six arguments of `showNewBest`, captured for the delayed call. */
  datatype Reward = Reward(newReward: bool, orbs: int, diamonds: int, demonKey: bool, noRetry: bool, noTitle: bool)

  /** The two settings `showNewBest` reads: the preset name and the delay, already in milliseconds. */
  datatype Settings = Settings(animationType: string, delayMs: int)

  /** A call from a hook into a collaborator. */
  datatype Call =
    | StartAnimation(preset: Preset, at: Point)
    | RunDelayTask(task: TaskId, delayMs: int)
    | BaseShowNewBest(reward: Reward)
    | BaseDestroyPlayer
    | BaseResetLevel
    | BaseDelayedResetLevel

  /**
   The added fields. `listening` is the task the single listener is filtered
   on (`None` before the first `showNewBest`); `nextTask` is the identity the
   next started task will get.
   */
  datatype Fields = Fields(
    deathPosition: Point,
    delayActive: bool,
    showingDelayedBest: bool,
    reward: Reward,
    listening: Option<TaskId>,
    nextTask: TaskId)

  /** The fields after a hook, and the calls it made. */
  datatype Step = Step(fields: Fields, calls: seq<Call>)

  /** The fields of a freshly created play layer. */
  function Initial(): (f: Fields)
    ensures !f.delayActive && !f.showingDelayedBest && f.listening == None
    ensures Valid(f)
  {
    Fields(Point(0.0, 0.0), false, false, Reward(false, 0, 0, false, false, false), None, 0)
  }

  /** The invariant every hook preserves between two calls from the engine. */
  predicate Valid(f: Fields) {
    && !f.showingDelayedBest
    && (f.delayActive ==> f.listening.Some?)
    && (f.listening.Some? ==> f.listening.value + 1 == f.nextTask)
  }

  /** `destroyPlayer`: remember where the player died, then let the engine destroy it. */
  function DestroyPlayer(f: Fields, pos: Point): (r: Step)
    ensures r.fields.deathPosition == pos
    ensures r.fields.(deathPosition := f.deathPosition) == f
    ensures r.calls == [BaseDestroyPlayer]
  {
    Step(f.(deathPosition := pos), [BaseDestroyPlayer])
  }

  /**
   `showNewBest`. Re-entered from the listener, it forwards to the engine's
   reward screen. Otherwise it starts the selected animation at the last
   death position, captures the reward, marks the delay active, starts a
   fresh delay task and filters the single listener on it.
   */
  function ShowNewBest(f: Fields, w: Reward, cfg: Settings): (r: Step)
    ensures f.showingDelayedBest ==> r.fields == f && r.calls == [BaseShowNewBest(w)]
    ensures !f.showingDelayedBest ==>
              && r.fields.reward == w
              && r.fields.delayActive
              && r.fields.listening == Some(f.nextTask)
              && r.fields.nextTask == f.nextTask + 1
              && r.fields.(reward := f.reward, delayActive := f.delayActive,
                           listening := f.listening, nextTask := f.nextTask) == f
              && r.calls == [StartAnimation(SelectPreset(cfg.animationType), f.deathPosition),
                             RunDelayTask(f.nextTask, cfg.delayMs)]
    ensures !f.showingDelayedBest ==> forall c :: c in r.calls ==> !c.BaseShowNewBest?
  {
    if f.showingDelayedBest then
      Step(f, [BaseShowNewBest(w)])
    else
      var task := f.nextTask;
      var g := f.(reward := w, delayActive := true, listening := Some(task), nextTask := task + 1);
      Step(g, [StartAnimation(SelectPreset(cfg.animationType), f.deathPosition), RunDelayTask(task, cfg.delayMs)])
  }

  /**
   The listener callback, for an event the task runtime posts for `task`.
   Only events of the task the listener is filtered on reach it, and it acts
   only on an event that carries a value: it clears the delay, re-enters
   `showNewBest` with the captured reward under the re-entrancy guard, and
   drops the guard again. `cfg` is what the settings hold at that moment.
   */
  function OnTaskEvent(f: Fields, task: TaskId, ev: TaskEvent, cfg: Settings): (r: Step)
    ensures f.listening != Some(task) || !ev.Finished? ==> r == Step(f, [])
    ensures f.listening == Some(task) && ev.Finished? ==>
              && r.calls == [BaseShowNewBest(f.reward)]
              && r.fields == f.(delayActive := false, showingDelayedBest := false)
  {
    if f.listening == Some(task) && ev.Finished? then
      var entered := f.(delayActive := false, showingDelayedBest := true);
      var inner := ShowNewBest(entered, f.reward, cfg);
      Step(inner.fields.(showingDelayedBest := false), inner.calls)
    else
      Step(f, [])
  }

  /**
   `resetLevel`, flag part: clears the delay and calls the engine's reset.
   The listener stays filtered on its task and the captured reward is kept.
   */
  function ResetLevel(f: Fields): (r: Step)
    ensures !r.fields.delayActive
    ensures r.fields.(delayActive := f.delayActive) == f
    ensures r.calls == [BaseResetLevel]
  {
    var g := if f.delayActive then f.(delayActive := false) else f;
    Step(g, [BaseResetLevel])
  }

  /** `delayedResetLevel`: the engine's automatic respawn, blocked while a delay is active. */
  function DelayedResetLevel(f: Fields): (r: Step)
    ensures r.fields == f
    ensures r.calls == [BaseDelayedResetLevel] <==> !f.delayActive
    ensures r.calls == [] <==> f.delayActive
  {
    if f.delayActive then Step(f, []) else Step(f, [BaseDelayedResetLevel])
  }

  /** A call from the engine (or, for `TaskPosted`, the task runtime) into the play layer. */
  datatype Event =
    | PlayerDestroyed(pos: Point)
    | NewBest(reward: Reward)
    | TaskPosted(task: TaskId, ev: TaskEvent)
    | Reset
    | DelayedReset

  /** Dispatch one event to its hook. */
  function Apply(f: Fields, e: Event, cfg: Settings): Step {
    match e
    case PlayerDestroyed(pos) => DestroyPlayer(f, pos)
    case NewBest(w) => ShowNewBest(f, w, cfg)
    case TaskPosted(task, ev) => OnTaskEvent(f, task, ev, cfg)
    case Reset => ResetLevel(f)
    case DelayedReset => DelayedResetLevel(f)
  }

  /** Process the events in order; the trace is the concatenation of the hooks' traces. */
  function Run(f: Fields, evs: seq<Event>, cfg: Settings): Step
    decreases |evs|
  {
    if evs == [] then Step(f, [])
    else
      var first := Apply(f, evs[0], cfg);
      var rest := Run(first.fields, evs[1..], cfg);
      Step(rest.fields, first.calls + rest.calls)
  }

  /** The events the runtime delivers for `task`, wrapped as calls into the play layer. */
  function Deliver(task: TaskId, evs: seq<TaskEvent>): (es: seq<Event>)
    ensures |es| == |evs|
    ensures forall k :: 0 <= k < |evs| ==> es[k] == TaskPosted(task, evs[k])
  {
    if evs == [] then [] else [TaskPosted(task, evs[0])] + Deliver(task, evs[1..])
  }
}
