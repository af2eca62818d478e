/**
 Properties of the play layer's hooks that relate several calls: the
 invariant they keep, the single captured reward and watched task, what a
 reset does and does not undo, and what a whole run of the delay task does
 to the listener.
 */
module NewBestDelayProps {
  import opened Presets
  import opened DelayTask
  import opened NewBestDelay

  /** No event given to `NewBest`. */
  predicate NoNewBest(evs: seq<Event>) {
    forall i :: 0 <= i < |evs| ==> !evs[i].NewBest?
  }

  /** No event that can clear the delay: neither a reset nor a task result. */
  predicate NoRelease(evs: seq<Event>) {
    forall i :: 0 <= i < |evs| ==> !evs[i].Reset? && !(evs[i].TaskPosted? && evs[i].ev.Finished?)
  }

  /** Every hook keeps the invariant. */
  lemma ApplyKeepsValid(f: Fields, e: Event, cfg: Settings)
    requires Valid(f)
    ensures Valid(Apply(f, e, cfg).fields)
  {
  }

  /** Any sequence of engine calls keeps the invariant; in particular the guard is never left set. */
  lemma {:induction false} RunKeepsValid(f: Fields, evs: seq<Event>, cfg: Settings)
    requires Valid(f)
    ensures Valid(Run(f, evs, cfg).fields)
    ensures !Run(f, evs, cfg).fields.showingDelayedBest
    decreases |evs|
  {
    if evs != [] {
      ApplyKeepsValid(f, evs[0], cfg);
      RunKeepsValid(Apply(f, evs[0], cfg).fields, evs[1..], cfg);
    }
  }

  /** No call to `destroyPlayer`. */
  predicate NoDeath(evs: seq<Event>) {
    forall i :: 0 <= i < |evs| ==> !evs[i].PlayerDestroyed?
  }

  /** Replaying two sequences one after the other is replaying their concatenation. */
  lemma {:induction false} RunAppend(f: Fields, a: seq<Event>, b: seq<Event>, cfg: Settings)
    ensures Run(f, a + b, cfg).fields == Run(Run(f, a, cfg).fields, b, cfg).fields
    ensures Run(f, a + b, cfg).calls == Run(f, a, cfg).calls + Run(Run(f, a, cfg).fields, b, cfg).calls
    decreases |a|
  {
    if a == [] {
      assert a + b == b;
    } else {
      var ab := a + b;
      assert ab[0] == a[0];
      assert ab[1..] == a[1..] + b;
      var head := Apply(f, a[0], cfg);
      var restA := Run(head.fields, a[1..], cfg);
      var restAB := Run(head.fields, a[1..] + b, cfg);
      var second := Run(restA.fields, b, cfg);
      assert Run(f, a, cfg) == Step(restA.fields, head.calls + restA.calls);
      assert Run(f, ab, cfg) == Step(restAB.fields, head.calls + restAB.calls);
      RunAppend(head.fields, a[1..], b, cfg);
      assert restAB.calls == restA.calls + second.calls;
      assert head.calls + (restA.calls + second.calls) == (head.calls + restA.calls) + second.calls;
    }
  }

  /** Calls other than `destroyPlayer` never move the recorded death position. */
  lemma {:induction false} QuietRunKeepsPosition(f: Fields, evs: seq<Event>, cfg: Settings)
    requires NoDeath(evs)
    ensures Run(f, evs, cfg).fields.deathPosition == f.deathPosition
    decreases |evs|
  {
    if evs != [] {
      assert !evs[0].PlayerDestroyed?;
      assert NoDeath(evs[1..]) by {
        forall i | 0 <= i < |evs[1..]| ensures !evs[1..][i].PlayerDestroyed? {
          assert evs[1..][i] == evs[i + 1];
        }
      }
      QuietRunKeepsPosition(Apply(f, evs[0], cfg).fields, evs[1..], cfg);
    }
  }

  /**
   Last write wins: whatever calls come before and after, the animation of
   the next new best starts where the most recent `destroyPlayer` put the
   player.
   */
  lemma AnimationAtLastDeath(f: Fields, before: seq<Event>, p: Point, after: seq<Event>, w: Reward, cfg: Settings)
    requires Valid(f)
    requires NoDeath(after)
    ensures var m := Run(f, before + [PlayerDestroyed(p)] + after, cfg);
            ShowNewBest(m.fields, w, cfg).calls[0] == StartAnimation(SelectPreset(cfg.animationType), p)
  {
    var pre := Run(f, before, cfg);
    RunKeepsValid(f, before, cfg);
    var died := Run(pre.fields, [PlayerDestroyed(p)], cfg);
    assert [PlayerDestroyed(p)][1..] == [];
    var moved := Apply(pre.fields, PlayerDestroyed(p), cfg);
    assert moved.fields.deathPosition == p;
    assert Run(moved.fields, [], cfg).fields == moved.fields;
    assert died.fields.deathPosition == p;
    RunAppend(f, before, [PlayerDestroyed(p)], cfg);
    RunAppend(f, before + [PlayerDestroyed(p)], after, cfg);
    QuietRunKeepsPosition(died.fields, after, cfg);
    RunKeepsValid(f, before + [PlayerDestroyed(p)] + after, cfg);
  }

  /** Calls other than `showNewBest` never touch the captured reward or the watched task. */
  lemma {:induction false} QuietRunKeepsCapture(f: Fields, evs: seq<Event>, cfg: Settings)
    requires NoNewBest(evs)
    ensures Run(f, evs, cfg).fields.reward == f.reward
    ensures Run(f, evs, cfg).fields.listening == f.listening
    ensures Run(f, evs, cfg).fields.nextTask == f.nextTask
    decreases |evs|
  {
    if evs != [] {
      assert !evs[0].NewBest?;
      assert NoNewBest(evs[1..]) by {
        forall i | 0 <= i < |evs[1..]| ensures !evs[1..][i].NewBest? {
          assert evs[1..][i] == evs[i + 1];
        }
      }
      QuietRunKeepsCapture(Apply(f, evs[0], cfg).fields, evs[1..], cfg);
    }
  }

  /**
   A second new best overwrites the one captured reward and re-targets the
   one listener: the first task's result is ignored from then on, and the
   second task's result shows the second reward.
   */
  lemma SecondNewBestReplaces(f: Fields, w1: Reward, w2: Reward, cfg: Settings, b: bool)
    requires Valid(f)
    ensures var s1 := ShowNewBest(f, w1, cfg);
            var s2 := ShowNewBest(s1.fields, w2, cfg);
            && s2.fields.reward == w2
            && s2.fields.listening == Some(f.nextTask + 1)
            && OnTaskEvent(s2.fields, f.nextTask, Finished(b), cfg) == Step(s2.fields, [])
            && OnTaskEvent(s2.fields, f.nextTask + 1, Finished(b), cfg).calls == [BaseShowNewBest(w2)]
  {
  }

  /** Only the most recently started task is watched; results of any older task change nothing. */
  lemma StaleTaskIgnored(f: Fields, task: TaskId, ev: TaskEvent, cfg: Settings)
    requires Valid(f)
    requires f.listening.Some? && task < f.listening.value
    ensures OnTaskEvent(f, task, ev, cfg) == Step(f, [])
  {
  }

  /**
   A reset does not cancel a pending delay: after a new best, whatever
   resets, deaths and respawn attempts follow, the task's result still
   shows the reward captured by that new best.
   */
  lemma {:induction false} PendingDelayOutlivesReset(f: Fields, w: Reward, evs: seq<Event>, cfg: Settings, b: bool)
    requires Valid(f)
    requires NoNewBest(evs)
    ensures var s := ShowNewBest(f, w, cfg);
            var mid := Run(s.fields, evs, cfg);
            OnTaskEvent(mid.fields, f.nextTask, Finished(b), cfg).calls == [BaseShowNewBest(w)]
  {
    var s := ShowNewBest(f, w, cfg);
    QuietRunKeepsCapture(s.fields, evs, cfg);
  }

  /** The concrete case: new best, level reset, then the delay completes. */
  lemma ResetThenDelayCompletes(f: Fields, w: Reward, cfg: Settings)
    requires Valid(f)
    ensures var s1 := ShowNewBest(f, w, cfg);
            var s2 := ResetLevel(s1.fields);
            var s3 := OnTaskEvent(s2.fields, f.nextTask, Finished(true), cfg);
            && !s2.fields.delayActive
            && s3.calls == [BaseShowNewBest(w)]
            && !s3.fields.showingDelayedBest
  {
  }

  /** Resetting twice is resetting once. */
  lemma ResetIdempotent(f: Fields)
    ensures ResetLevel(ResetLevel(f).fields).fields == ResetLevel(f).fields
  {
  }

  /**
   While the delay is active, nothing but a reset or a task result releases
   it: the engine's automatic respawn stays suppressed throughout.
   */
  lemma {:induction false} RespawnBlockedUntilRelease(f: Fields, evs: seq<Event>, cfg: Settings)
    requires f.delayActive && !f.showingDelayedBest
    requires NoRelease(evs)
    ensures Run(f, evs, cfg).fields.delayActive
    ensures BaseDelayedResetLevel !in Run(f, evs, cfg).calls
    decreases |evs|
  {
    if evs != [] {
      assert NoRelease(evs[1..]) by {
        forall i | 0 <= i < |evs[1..]|
          ensures !evs[1..][i].Reset? && !(evs[1..][i].TaskPosted? && evs[1..][i].ev.Finished?)
        {
          assert evs[1..][i] == evs[i + 1];
        }
      }
      var first := Apply(f, evs[0], cfg);
      assert first.fields.delayActive && !first.fields.showingDelayedBest;
      assert BaseDelayedResetLevel !in first.calls;
      RespawnBlockedUntilRelease(first.fields, evs[1..], cfg);
    }
  }

  /** Any number of progress events reach the listener but change nothing; a cancellation event is covered by `OnTaskEvent`'s contract. */
  lemma {:induction false} ProgressEventsInert(f: Fields, task: TaskId, reports: seq<int>, cfg: Settings)
    ensures Run(f, Deliver(task, seq(|reports|, k requires 0 <= k < |reports| => Progress(reports[k]))), cfg) == Step(f, [])
    decreases |reports|
  {
    var evs := seq(|reports|, k requires 0 <= k < |reports| => Progress(reports[k]));
    if reports != [] {
      var tail := seq(|reports[1..]|, k requires 0 <= k < |reports[1..]| => Progress(reports[1..][k]));
      assert Deliver(task, evs)[1..] == Deliver(task, tail);
      ProgressEventsInert(f, task, reports[1..], cfg);
    }
  }

  /**
   A whole run of the watched delay task, as the runtime posts it, shows the
   captured reward exactly once if the task completed and not at all if it
   was cancelled; progress reports change nothing.
   */
  lemma {:induction false} TaskRunShowsOnce(f: Fields, outcome: Outcome, reports: seq<int>, cfg: Settings)
    requires Valid(f) && f.listening.Some?
    ensures var r := Run(f, Deliver(f.listening.value, Posted(outcome, reports)), cfg);
            r == if outcome == Done then Step(f.(delayActive := false), [BaseShowNewBest(f.reward)])
                 else Step(f, [])
    decreases |reports|
  {
    var task := f.listening.value;
    var evs := Deliver(task, Posted(outcome, reports));
    if reports == [] {
      assert evs == [TaskPosted(task, if outcome == Done then Finished(true) else Cancelled)];
    } else {
      assert evs[0] == TaskPosted(task, Progress(reports[0]));
      assert evs[1..] == Deliver(task, Posted(outcome, reports[1..]));
      TaskRunShowsOnce(f, outcome, reports[1..], cfg);
    }
  }
}
