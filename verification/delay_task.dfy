/**
 The "New Best Delay Task": a background task that waits `delayMs`
 milliseconds in steps of `CheckInterval`, checking for cancellation before
 every step and reporting an integer percentage after each check.

 The thread and the sleep are abstracted away: the task runtime's
 cancellation flag is an oracle `cancelled`, where `cancelled[k]` is what the
 k-th check observes (a check past the end of the oracle observes `false`).
 */
module DelayTask {

  /** Milliseconds slept between two cancellation checks. */
  const CheckInterval: int := 100

  /** Largest value of a 32-bit signed `int`, the type of `elapsed` and `delayMs`. */
  const Int32Max: int := 0x7FFF_FFFF

  /** The longest delay for which `elapsed += CheckInterval` stays within `int`. */
  const MaxDelayMs: int := (Int32Max / CheckInterval) * CheckInterval

  /** How the task ends: with the value `true`, or by being cancelled. */
  datatype Outcome = Done | Cancel

  /** What the task runtime posts to a listener filtered on the task. */
  datatype TaskEvent =
    | Progress(percent: int)
    | Finished(value: bool)
    | Cancelled

  /** What the k-th cancellation check observes. */
  predicate IsCancelled(cancelled: seq<bool>, k: nat) {
    k < |cancelled| && cancelled[k]
  }

  /** The number of checks an uncancelled run performs: ceil(delayMs / CheckInterval), or 0. */
  function Steps(delayMs: int): (n: nat)
    ensures delayMs > 0 ==> (n - 1) * CheckInterval < delayMs <= n * CheckInterval
    ensures delayMs <= 0 ==> n == 0
  {
    if delayMs <= 0 then 0 else (delayMs + CheckInterval - 1) / CheckInterval
  }

  /** The percentage the task reports after a check at `elapsed`, in integer arithmetic. */
  function Percent(elapsed: int, delayMs: int): int
    requires delayMs > 0
  {
    elapsed * 100 / delayMs
  }

  /** The percentage reported at check k, when `elapsed` is k * CheckInterval. */
  function ProgressAt(delayMs: int, k: nat): int
    requires delayMs > 0
  {
    Percent(k * CheckInterval, delayMs)
  }

  /** Check k happens in an uncancelled run exactly when its `elapsed` is below `delayMs`. */
  lemma StepsExact(delayMs: int, k: nat)
    ensures k < Steps(delayMs) <==> k * CheckInterval < delayMs
  {
  }

  /** Integer division by a positive divisor is monotone in the dividend. */
  lemma DivMonotone(a: int, b: int, d: int)
    requires 0 <= a <= b && d > 0
    ensures a / d <= b / d
  {
    var qa, ra := a / d, a % d;
    var qb, rb := b / d, b % d;
    assert a == d * qa + ra && 0 <= ra < d;
    assert b == d * qb + rb && 0 <= rb < d;
    if qb < qa {
      assert d * qb + d <= d * qa by {
        assert qb + 1 <= qa;
        MulMonotone(d, qb + 1, qa);
      }
      assert false;
    }
  }

  /** Multiplying by a positive factor preserves order. */
  lemma MulMonotone(d: int, x: int, y: int)
    requires d > 0 && x <= y
    ensures d * x <= d * y
  {
  }

  /** Every percentage an uncancelled run can report lies in [0, 100). */
  lemma ProgressInRange(delayMs: int, k: nat)
    requires k < Steps(delayMs)
    ensures delayMs > 0
    ensures 0 <= ProgressAt(delayMs, k) < 100
  {
    StepsExact(delayMs, k);
  }

  /** Later checks never report a smaller percentage. */
  lemma ProgressMonotone(delayMs: int, i: nat, j: nat)
    requires delayMs > 0 && i <= j
    ensures ProgressAt(delayMs, i) <= ProgressAt(delayMs, j)
  {
    DivMonotone(i * CheckInterval * 100, j * CheckInterval * 100, delayMs);
  }

  /**
   The task body. `reports` are the percentages passed to `progress`,
   `checks` counts the calls of the cancellation check.
   */
  method Wait(delayMs: int, cancelled: seq<bool>) returns (outcome: Outcome, reports: seq<int>, checks: nat)
    requires delayMs <= MaxDelayMs
    ensures delayMs <= 0 ==> outcome == Done && reports == [] && checks == 0
    ensures outcome == Done <==> forall k :: 0 <= k < Steps(delayMs) ==> !IsCancelled(cancelled, k)
    ensures outcome == Done ==> |reports| == Steps(delayMs) && checks == Steps(delayMs)
    ensures outcome == Cancel ==>
              |reports| < Steps(delayMs) && IsCancelled(cancelled, |reports|) && checks == |reports| + 1
    ensures forall k :: 0 <= k < |reports| ==> !IsCancelled(cancelled, k)
    ensures forall k :: 0 <= k < |reports| ==> reports[k] == ProgressAt(delayMs, k)
    ensures forall k :: 0 <= k < |reports| ==> 0 <= reports[k] < 100
    ensures forall i, j :: 0 <= i <= j < |reports| ==> reports[i] <= reports[j]
    // the final value of `elapsed` fits in a 32-bit `int`
    ensures |reports| * CheckInterval <= Int32Max
  {
    var elapsed := 0;
    reports := [];
    checks := 0;
    while elapsed < delayMs
      invariant elapsed == |reports| * CheckInterval
      invariant checks == |reports|
      invariant 0 <= elapsed <= Int32Max
      invariant |reports| <= Steps(delayMs)
      invariant UncancelledPrefix(delayMs, cancelled, reports)
      decreases delayMs - elapsed
    {
      StepsExact(delayMs, |reports|);
      checks := checks + 1;
      if IsCancelled(cancelled, |reports|) {
        outcome := Cancel;
        CancelledRun(delayMs, cancelled, reports);
        return;
      }
      reports := reports + [Percent(elapsed, delayMs)];
      elapsed := elapsed + CheckInterval;
    }
    StepsExact(delayMs, |reports|);
    outcome := Done;
    CompletedRun(delayMs, cancelled, reports);
  }

  /** Every check before the last report was false, and each report is the percentage at its check. */
  predicate UncancelledPrefix(delayMs: int, cancelled: seq<bool>, reports: seq<int>) {
    forall k :: 0 <= k < |reports| ==>
      delayMs > 0 && !IsCancelled(cancelled, k) && reports[k] == ProgressAt(delayMs, k)
  }

  /** A run stopped by the check after its last report: not every check was false. */
  lemma CancelledRun(delayMs: int, cancelled: seq<bool>, reports: seq<int>)
    requires |reports| < Steps(delayMs)
    requires IsCancelled(cancelled, |reports|)
    requires UncancelledPrefix(delayMs, cancelled, reports)
    ensures !(forall k :: 0 <= k < Steps(delayMs) ==> !IsCancelled(cancelled, k))
    ensures forall k :: 0 <= k < |reports| ==> 0 <= reports[k] < 100
    ensures forall i, j :: 0 <= i <= j < |reports| ==> reports[i] <= reports[j]
  {
    ReportsWellFormed(delayMs, reports);
  }

  /** A run that made all its checks: every one of them was false. */
  lemma CompletedRun(delayMs: int, cancelled: seq<bool>, reports: seq<int>)
    requires |reports| == Steps(delayMs)
    requires UncancelledPrefix(delayMs, cancelled, reports)
    ensures forall k :: 0 <= k < Steps(delayMs) ==> !IsCancelled(cancelled, k)
    ensures forall k :: 0 <= k < |reports| ==> 0 <= reports[k] < 100
    ensures forall i, j :: 0 <= i <= j < |reports| ==> reports[i] <= reports[j]
  {
    ReportsWellFormed(delayMs, reports);
  }

  /** The reports of any run prefix are in range and non-decreasing. */
  lemma ReportsWellFormed(delayMs: int, reports: seq<int>)
    requires |reports| <= Steps(delayMs)
    requires forall k :: 0 <= k < |reports| ==> delayMs > 0 && reports[k] == ProgressAt(delayMs, k)
    ensures forall k :: 0 <= k < |reports| ==> 0 <= reports[k] < 100
    ensures forall i, j :: 0 <= i <= j < |reports| ==> reports[i] <= reports[j]
  {
    forall k | 0 <= k < |reports|
      ensures 0 <= reports[k] < 100
    {
      ProgressInRange(delayMs, k);
    }
    forall i, j | 0 <= i <= j < |reports|
      ensures reports[i] <= reports[j]
    {
      ProgressMonotone(delayMs, i, j);
    }
  }

  /** The events a run posts to its listener: one per report, then its result. */
  function Posted(outcome: Outcome, reports: seq<int>): (evs: seq<TaskEvent>)
    ensures |evs| == |reports| + 1
    ensures forall k :: 0 <= k < |reports| ==> evs[k] == Progress(reports[k])
    ensures evs[|reports|] == (if outcome == Done then Finished(true) else Cancelled)
  {
    if reports == [] then [if outcome == Done then Finished(true) else Cancelled]
    else [Progress(reports[0])] + Posted(outcome, reports[1..])
  }
}
