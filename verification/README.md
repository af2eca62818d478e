# Tombstone: delayed new-best screen, in Dafny

Tombstone is a Geometry Dash mod. When the player dies with a new personal
best, it plays a cosmetic death animation. It holds back the game's
"new best" reward screen until a configurable delay has passed. While that
delay is active it also blocks the automatic respawn.

This project models the logic behind that delay. The rest of the mod is
sprite and tween choreography and is not modelled.

- `delay_task.dfy` (module `DelayTask`) models the "New Best Delay Task".
  It polls a cancellation flag every 100 ms until `elapsed` reaches
  `delayMs`, and reports an integer percentage after each check. The thread
  and the sleep are abstracted away. The cancellation flag becomes an
  oracle: `cancelled[k]` is what the k-th check sees. `Posted` lists the
  events the task runtime delivers for one run: one progress event per
  report, then either the value `true` or a cancellation.
- `presets.dfy` (module `Presets`) maps the "animation-type" setting to a
  preset. Only `"ascension"` selects Ascension; anything else selects
  Explosion.
- `play_layer.dfy` (module `NewBestDelay`) models the fields the mod adds
  to the play layer. These are the death position, `delayActive`, the
  re-entrancy guard `showingDelayedBest`, one captured reward and the one
  task the listener is filtered on. Five hooks act on them: `destroyPlayer`,
  `showNewBest`, the listener callback, `resetLevel` and
  `delayedResetLevel`. Each hook is a pure function. It returns the new
  fields and the calls it made, in order, to the base play layer, the
  animation and the task runtime. `Run` replays a sequence of such calls.
- `play_layer_props.dfy` (module `NewBestDelayProps`) holds the lemmas that
  relate several calls.

`resetLevel` only clears `delayActive`. It neither cancels the task nor
unbinds the listener, so a delay that is pending when the level resets
still completes and still shows the reward screen
(`PendingDelayOutlivesReset`). A delay of at most 0 is not rejected: it
completes at once with no checks.

A second unguarded `showNewBest` does not cancel the earlier task explicitly.
It overwrites the captured reward and re-filters the single listener on the
new task, so the older task's result no longer reaches the callback
(`SecondNewBestReplaces`, `StaleTaskIgnored`).

## Model

| member | source | states |
|---|---|---|
| DelayTask.Wait | src/main.cpp:49-65 | Completes iff none of the first ceil(delayMs/100) checks sees cancellation. When it completes it has made exactly that many checks and reports. When cancelled, the last check is the first one that saw cancellation and no report follows it. Each report comes after a check that was false and equals elapsed*100/delayMs. Reports lie in [0, 100) and never decrease. A delay of at most 0 completes at once with no reports. The last value `elapsed` takes, `|reports|*100`, stays within the 32-bit int range. |
| DelayTask.Steps | src/main.cpp:50-53 | The number of checks is the least n with n*100 >= delayMs, and 0 for a delay of at most 0. |
| DelayTask.StepsExact | src/main.cpp:53 | Check k happens in an uncancelled run iff k*100 < delayMs. So every check happens at a multiple of 100 below delayMs. |
| DelayTask.ProgressInRange | src/main.cpp:58 | Every percentage an uncancelled run can report is in [0, 100). |
| DelayTask.ProgressMonotone | src/main.cpp:58 | A later check never reports a smaller percentage. |
| DelayTask.ReportsWellFormed | src/main.cpp:53-61 | Any prefix of a run's reports is in range and non-decreasing. |
| DelayTask.CancelledRun | src/main.cpp:53-56 | A run stopped at the check after its last report did not see every check false; its reports so far are in range and non-decreasing. |
| DelayTask.CompletedRun | src/main.cpp:53-64 | A run that made all ceil(delayMs/100) checks saw every one of them false; its reports are in range and non-decreasing. |
| DelayTask.Posted | src/main.cpp:54-64 | A run posts one progress event per report, then the value true if it completed or a cancellation otherwise. |
| Presets.SelectPreset | src/DeathAnimations.cpp:480-488 | Ascension iff the setting is exactly "ascension"; Explosion for every other string. |
| NewBestDelay.Initial | src/main.cpp:11-22 | A new play layer has no active delay, the guard off, no watched task, and satisfies the invariant. |
| NewBestDelay.DestroyPlayer | src/main.cpp:118-124 | Records the death position and changes no other field. Then calls the engine's destroyPlayer. |
| NewBestDelay.ShowNewBest | src/main.cpp:24-87 | With the guard on, forwards the six arguments unchanged to the base reward screen and changes no field. With the guard off it does several things and does not call the base screen: it starts exactly one animation, of the selected preset, at the recorded death position; it captures all six arguments; it sets delayActive; it starts one fresh delay task and filters the listener on it. No other field changes. |
| NewBestDelay.OnTaskEvent | src/main.cpp:67-84 | Progress events, cancellation events and events of any task other than the watched one change nothing and call nothing. A result of the watched task clears delayActive. It shows the captured reward exactly once through the guarded path, and leaves the guard off. |
| NewBestDelay.ResetLevel | src/main.cpp:89-115 | Always ends with delayActive false and calls the engine's reset. Changes no other field, so the reward, watched task and death position are kept. |
| NewBestDelay.DelayedResetLevel | src/main.cpp:126-133 | Calls the engine's automatic respawn iff no delay is active. Otherwise it calls nothing. Never changes a field. |
| NewBestDelayProps.ApplyKeepsValid | src/main.cpp:24-133 | Every hook keeps the invariant: the guard is off, an active delay has a watched task, and the watched task is the latest one started. |
| NewBestDelayProps.RunKeepsValid | src/main.cpp:24-133 | Any sequence of engine calls keeps that invariant. In particular the guard is never left set between calls. |
| NewBestDelayProps.AnimationAtLastDeath | src/main.cpp:35 | After any sequence of calls, the animation of the next new best starts at the position passed to the most recent destroyPlayer (last write wins). |
| NewBestDelayProps.RunAppend | src/main.cpp:24-133 | Replaying two call sequences one after the other gives the same fields and the concatenated trace as replaying them joined. |
| NewBestDelayProps.QuietRunKeepsPosition | src/main.cpp:121 | No call other than destroyPlayer moves the recorded death position. |
| NewBestDelayProps.QuietRunKeepsCapture | src/main.cpp:37-44 | No call other than showNewBest changes the captured reward or the watched task. |
| NewBestDelayProps.SecondNewBestReplaces | src/main.cpp:37-86 | A second new best overwrites the one captured reward and re-targets the one listener. The first task's result is then ignored and the second one shows the second reward. |
| NewBestDelayProps.StaleTaskIgnored | src/main.cpp:86 | Results of any task older than the watched one change nothing. |
| NewBestDelayProps.PendingDelayOutlivesReset | src/main.cpp:89-92 | After a new best, any mix of resets, deaths, respawn attempts and task events may follow. The watched task's result still shows the reward that new best captured. |
| NewBestDelayProps.ResetThenDelayCompletes | src/main.cpp:67-92 | New best, then reset, then the task completes: the reset cleared the delay, and the reward is still shown exactly once. |
| NewBestDelayProps.ResetIdempotent | src/main.cpp:89-92 | Resetting twice leaves the same fields as resetting once. |
| NewBestDelayProps.RespawnBlockedUntilRelease | src/main.cpp:126-130 | While a delay is active and no reset or task result arrives, the delay stays active and the automatic respawn is never called. |
| NewBestDelayProps.ProgressEventsInert | src/main.cpp:68 | Any number of progress events reaching the listener change nothing and call nothing. |
| NewBestDelayProps.TaskRunShowsOnce | src/main.cpp:49-84 | The events of one whole run of the watched task show the captured reward exactly once if the task completed, and not at all if it was cancelled. Only delayActive changes. |

## Left out

- Player visual reset in `resetLevel` (`src/main.cpp:94-113`): these are engine setter calls with no state the model tracks.
- The animations themselves (`src/DeathAnimations.cpp` apart from the preset choice): sprite and tween construction, float trigonometry and `rand()`. `createSlaughterhouseAnimation` is declared but never dispatched.
- The Geode task runtime, the thread, the 100 ms sleep and the event-listener machinery. The cancellation flag becomes an oracle, and the runtime's deliveries become the `TaskPosted` events. Whether the runtime cancels a task whose last handle is dropped is not modelled; the model only states that such a task's events no longer reach the listener.
- Settings reads (`src/main.cpp:32`, `src/DeathAnimations.cpp:481`) and the seconds-to-milliseconds conversion (`src/main.cpp:46-47`). They become the `Settings` parameter, with the delay already in milliseconds.
- DelayTask.Wait: requires `delayMs <= 2147483600` so that `elapsed += 100` never overflows a 32-bit `int`. The source computes `delayMs` as whole seconds times 1000. For every `delaySeconds` whose product with 1000 fits in an `int`, that value never lands in the excluded range 2147483601..2147483647. A larger `delaySeconds` overflows that product (`src/main.cpp:47`), which is undefined behaviour and can land in the excluded range; the model does not cover it.
- DelayTask.Wait: progress is computed as `elapsed*100/delayMs` in integer division. The source's float expression is not modelled. The two can differ by one: at `delayMs = 10000` and `elapsed = 5300` the float expression gives 52 where the model gives 53. For some delays from 1073742 s on, the float expression can report 100 at the last check, outside the [0, 100) the model proves.
- Logging.
- The engine's own `showNewBest`, `destroyPlayer`, `resetLevel` and `delayedResetLevel`. They appear only as calls in the trace.
- The reward fields are kept as unbounded integers: they are copied, never computed.
- NewBestDelay.Initial: the C++ leaves the captured reward fields without an initializer. The model starts them at false/0; no listener is bound before the first capture, so that value never reaches the reward screen.
