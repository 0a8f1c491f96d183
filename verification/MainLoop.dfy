/**
 * The runner's main loop: when it stops, how many workers it calls, which disposition an iteration's
 * outcome gets, and the one-record-per-iteration latch of `wasted_iter`. What the outside world
 * answers in one turn of the loop is a `Turn`.
 */
module MainLoop {
  import opened Wrappers

  datatype Completion = TaskCompleted | ReviewClean | GoOn | Errored | Inactive
  datatype Outcome = Outcome(completion: Completion, timedOut: bool, rateLimited: bool)
  datatype ExitType = Success | ErrorExit | InactiveExit | ApiLimit | TimeoutExit
  datatype StallCategory = WorkerTimeout | ExternalBlocker

  type Reason = string

  /** Answers of the mode handlers: no commit, a failed measurement, or a classified one. */
  datatype MetricAnswer = NoCommit(exit: Option<Reason>) | MeasureFailed(reason: Reason) | Classified(exit: Option<Reason>)

  datatype Turn = Turn(stateReadable: bool, active: bool, remainingSeconds: Option<int>, outcome: Outcome,
                       rateLimitExit: Option<Reason>, rotationCapped: bool, relaunch: bool,
                       workerExit: Option<Reason>, metric: MetricAnswer)

  datatype Step = Continue | Pause | Exit(reason: Reason)

  function ClassifyIterationExit(o: Outcome): ExitType {
    match o.completion
    case Inactive => InactiveExit
    case Errored => ErrorExit
    case TaskCompleted => Success
    case ReviewClean => Success
    case GoOn => if o.rateLimited then ApiLimit else if o.timedOut then TimeoutExit else Success
  }

  /** The stall classifier, on the two exit types it is asked about. */
  function ClassifyStall(o: Outcome): Option<StallCategory> {
    var exit := ClassifyIterationExit(o);
    if !exit.TimeoutExit? && !exit.ErrorExit? then None
    else if o.timedOut || exit.TimeoutExit? then Some(WorkerTimeout)
    else Some(ExternalBlocker)
  }

  datatype Disposition = WaitOutLimit | Halt | RotateSubsystem | RelaunchManager | Stop | RunMode

  /** What `handleIterationOutcome` does with an outcome, in the order of its guards. */
  function Dispose(o: Outcome, workerMode: bool): Disposition {
    var exit := ClassifyIterationExit(o);
    if exit.ApiLimit? then WaitOutLimit
    else if exit.TimeoutExit? && !o.completion.Errored? then Halt
    else if ClassifyStall(o) == Some(ExternalBlocker) then Halt
    else if o.completion.Errored? && workerMode then RotateSubsystem
    else if o.completion.Errored? then RelaunchManager
    else if o.completion.Inactive? then Stop
    else RunMode
  }

  function ExitOr(exit: Option<Reason>, otherwise: Step): Step {
    if exit.Some? then Exit(exit.value) else otherwise
  }

  /** Where each disposition leaves the loop. */
  function StepFor(t: Turn, workerMode: bool): Step {
    match Dispose(t.outcome, workerMode)
    case WaitOutLimit => ExitOr(t.rateLimitExit, Continue)
    case Halt => Exit("error")
    case RotateSubsystem => if t.rotationCapped then Exit("error") else Continue
    case RelaunchManager => if t.relaunch then Continue else Exit("error")
    case Stop => Exit("stopped")
    case RunMode =>
      if workerMode then ExitOr(t.workerExit, Continue)
      else match t.metric
        case NoCommit(exit) => ExitOr(exit, Continue)
        case MeasureFailed(reason) => Exit(reason)
        case Classified(exit) => ExitOr(exit, Pause)
  }

  /** Worker errors rotate only when they timed out; every other error halts as an external blocker. */
  lemma ErrorReachesRotationIffTimedOut(o: Outcome, workerMode: bool)
    ensures Dispose(o, workerMode).RotateSubsystem? <==> workerMode && o.completion.Errored? && o.timedOut
    ensures Dispose(o, workerMode).RelaunchManager? <==> !workerMode && o.completion.Errored? && o.timedOut
    ensures o.completion.Errored? && !o.timedOut ==> Dispose(o, workerMode).Halt?
  {
  }

  /** The mode handlers, which record on their own, run exactly after a successful exit. */
  lemma ModeRunsIffSuccess(o: Outcome, workerMode: bool)
    ensures Dispose(o, workerMode).RunMode? <==> ClassifyIterationExit(o).Success?
  {
  }

  /** The strictly increasing run of numbers `from + 1, ..., to`. */
  function Numbers(from: nat, to: nat): (s: seq<nat>)
    requires from <= to
    ensures |s| == to - from
    ensures forall i :: 0 <= i < |s| ==> s[i] == from + 1 + i
  {
    seq(to - from, i requires 0 <= i < to - from => from + 1 + i)
  }

  predicate GapAnalysisFails(o: Outcome) {
    o.completion.Errored? || o.completion.Inactive?
  }

  /** The exit check before iteration `iteration + 1`, in the order of its guards. */
  function LoopExit(t: Turn, iteration: nat, maxIterations: int): (exit: Option<Reason>)
    ensures maxIterations > 0 && iteration >= maxIterations ==> exit.Some?
  {
    if !t.stateReadable then Some("error")
    else if !t.active then Some("stopped")
    else if maxIterations > 0 && iteration >= maxIterations then Some("iteration_budget_exhausted")
    else if t.remainingSeconds.Some? && t.remainingSeconds.value <= 0 then Some("time_budget_exhausted")
    else None
  }

  /** Turn `k` ends a loop that started after `first` iterations: with this reason, having called a worker or not. */
  function EndsWith(turns: seq<Turn>, k: nat, first: nat, maxIterations: int, workerMode: bool): Option<(Reason, bool)>
    requires k < |turns|
  {
    var before := LoopExit(turns[k], first + k, maxIterations);
    if before.Some? then Some((before.value, false))
    else match StepFor(turns[k], workerMode)
      case Exit(reason) => Some((reason, true))
      case _ => None
  }

  /** The loop left at the first turn that ends it, with that turn's reason and worker calls, or at no turn. */
  ghost predicate LeftAt(turns: seq<Turn>, first: nat, maxIterations: int, workerMode: bool,
                         exit: Option<Reason>, calls: nat) {
    if exit.None? then
      && calls == first + |turns|
      && forall k :: 0 <= k < |turns| ==> EndsWith(turns, k, first, maxIterations, workerMode).None?
    else
      exists k :: 0 <= k < |turns|
        && EndsWith(turns, k, first, maxIterations, workerMode).Some?
        && EndsWith(turns, k, first, maxIterations, workerMode).value.0 == exit.value
        && calls == first + k + (if EndsWith(turns, k, first, maxIterations, workerMode).value.1 then 1 else 0)
        && forall j :: 0 <= j < k ==> EndsWith(turns, j, first, maxIterations, workerMode).None?
  }

  /** The call is not made, with this reason, exactly when an exit check meets its condition and none before it did. */
  lemma ExitBeforeCallIff(turns: seq<Turn>, k: nat, first: nat, maxIterations: int, workerMode: bool, reason: Reason)
    requires k < |turns|
    ensures var t := turns[k];
            var spent := maxIterations > 0 && first + k >= maxIterations;
            var overtime := t.remainingSeconds.Some? && t.remainingSeconds.value <= 0;
            EndsWith(turns, k, first, maxIterations, workerMode) == Some((reason, false)) <==>
            || (!t.stateReadable && reason == "error")
            || (t.stateReadable && !t.active && reason == "stopped")
            || (t.stateReadable && t.active && spent && reason == "iteration_budget_exhausted")
            || (t.stateReadable && t.active && !spent && overtime && reason == "time_budget_exhausted")
  {
  }

  /** An iteration that came to its regular end, so that its mode has the last word. */
  ghost predicate Regular(o: Outcome) {
    o.completion.TaskCompleted? || o.completion.ReviewClean? || (o.completion.GoOn? && !o.timedOut && !o.rateLimited)
  }

  /** The loop is left after the call, with this reason, exactly in one of these cases. */
  lemma ExitAfterCallIff(turns: seq<Turn>, k: nat, first: nat, maxIterations: int, workerMode: bool, reason: Reason)
    requires k < |turns|
    ensures var t := turns[k];
            var o := t.outcome;
            EndsWith(turns, k, first, maxIterations, workerMode) == Some((reason, true)) <==>
            && t.stateReadable && t.active && !(maxIterations > 0 && first + k >= maxIterations)
            && !(t.remainingSeconds.Some? && t.remainingSeconds.value <= 0)
            && (|| (o.completion.Inactive? && reason == "stopped")
                || (o.completion.Errored? && !o.timedOut && reason == "error")
                || (o.completion.Errored? && workerMode && t.rotationCapped && reason == "error")
                || (o.completion.Errored? && !workerMode && !t.relaunch && reason == "error")
                || (o.completion.GoOn? && o.timedOut && !o.rateLimited && reason == "error")
                || (o.completion.GoOn? && o.rateLimited && t.rateLimitExit == Some(reason))
                || (Regular(o) && workerMode && t.workerExit == Some(reason))
                || (Regular(o) && !workerMode && t.metric == NoCommit(Some(reason)))
                || (Regular(o) && !workerMode && t.metric == MeasureFailed(reason))
                || (Regular(o) && !workerMode && t.metric == Classified(Some(reason))))
  {
  }

  /** The loop pauses only after a classified measurement that gives no exit. */
  lemma PausesIff(t: Turn, workerMode: bool)
    ensures StepFor(t, workerMode) == Pause <==> Regular(t.outcome) && !workerMode && t.metric == Classified(None)
  {
  }

  /** A loop still running has met a readable, active state with time and iterations left at every turn, and no inactive worker. */
  lemma StillRunningMeans(turns: seq<Turn>, first: nat, maxIterations: int, workerMode: bool, calls: nat, k: nat)
    requires LeftAt(turns, first, maxIterations, workerMode, None, calls) && k < |turns|
    ensures calls == first + |turns|
    ensures turns[k].stateReadable && turns[k].active && (maxIterations > 0 ==> first + k < maxIterations)
    ensures turns[k].remainingSeconds.Some? ==> turns[k].remainingSeconds.value > 0
    ensures !turns[k].outcome.completion.Inactive?
    ensures turns[k].outcome.completion.Errored? ==>
              turns[k].outcome.timedOut && if workerMode then !turns[k].rotationCapped else turns[k].relaunch
  {
    assert EndsWith(turns, k, first, maxIterations, workerMode).None?;
  }

  class Runner {
    var iteration: nat
    /** Iteration numbers passed to the worker, in call order. */
    var workerCalls: seq<nat>
    var wastedIterEmittedFor: Option<nat>
    /** Iteration numbers of the `wasted_iter` records, in order. */
    var wastedIter: seq<nat>
    var suppressed: nat

    constructor ()
      ensures iteration == 0 && workerCalls == [] && wastedIter == [] && wastedIterEmittedFor.None? && suppressed == 0
    {
      iteration, workerCalls, wastedIterEmittedFor, wastedIter, suppressed := 0, [], None, [], 0;
    }

    /** Every call so far has its own number, and every iteration from `first + 1` on has one record. */
    ghost predicate Accounted(first: nat)
      reads this
    {
      && first <= iteration
      && workerCalls == Numbers(0, iteration)
      && wastedIter == Numbers(first, iteration)
      && suppressed == 0
      && wastedIterEmittedFor == (if iteration == first then None else Some(iteration))
    }

    method EmitWastedIter()
      modifies this`wastedIterEmittedFor, this`wastedIter, this`suppressed
      ensures wastedIterEmittedFor == Some(iteration)
      ensures old(wastedIterEmittedFor) == Some(iteration)
              ==> wastedIter == old(wastedIter) && suppressed == old(suppressed) + 1
      ensures old(wastedIterEmittedFor) != Some(iteration)
              ==> wastedIter == old(wastedIter) + [iteration] && suppressed == old(suppressed)
    {
      if wastedIterEmittedFor == Some(iteration) {
        suppressed := suppressed + 1;
        return;
      }
      wastedIterEmittedFor := Some(iteration);
      wastedIter := wastedIter + [iteration];
    }

    method ReadLoopExit(t: Turn, maxIterations: int) returns (exit: Option<Reason>)
      ensures exit == LoopExit(t, iteration, maxIterations)
    {
      if !t.stateReadable {
        return Some("error");
      }
      if !t.active {
        return Some("stopped");
      }
      if maxIterations > 0 && iteration >= maxIterations {
        return Some("iteration_budget_exhausted");
      }
      if t.remainingSeconds.Some? && t.remainingSeconds.value <= 0 {
        return Some("time_budget_exhausted");
      }
      return None;
    }

    /** Bumps the iteration number and hands it to the worker. */
    method CallWorker()
      modifies this`iteration, this`workerCalls
      ensures iteration == old(iteration) + 1 && workerCalls == old(workerCalls) + [iteration]
    {
      iteration := iteration + 1;
      workerCalls := workerCalls + [iteration];
    }

    method HandleWorkerMode(t: Turn) returns (step: Step)
      requires wastedIterEmittedFor != Some(iteration)
      modifies this`wastedIterEmittedFor, this`wastedIter, this`suppressed
      ensures wastedIterEmittedFor == Some(iteration)
      ensures wastedIter == old(wastedIter) + [iteration] && suppressed == old(suppressed)
      ensures step == ExitOr(t.workerExit, Continue)
    {
      EmitWastedIter();
      step := if t.workerExit.Some? then Exit(t.workerExit.value) else Continue;
    }

    method HandleMetricMode(t: Turn) returns (step: Step)
      requires wastedIterEmittedFor != Some(iteration)
      modifies this`wastedIterEmittedFor, this`wastedIter, this`suppressed
      ensures wastedIterEmittedFor == Some(iteration)
      ensures wastedIter == old(wastedIter) + [iteration] && suppressed == old(suppressed)
      ensures step == match t.metric
              case NoCommit(exit) => ExitOr(exit, Continue)
              case MeasureFailed(reason) => Exit(reason)
              case Classified(exit) => ExitOr(exit, Pause)
    {
      EmitWastedIter();
      match t.metric
      case NoCommit(exit) =>
        step := if exit.Some? then Exit(exit.value) else Continue;
      case MeasureFailed(reason) =>
        step := Exit(reason);
      case Classified(exit) =>
        step := if exit.Some? then Exit(exit.value) else Pause;
    }

    /** Exactly one record, whatever the outcome: the latch has nothing to suppress. */
    method HandleIterationOutcome(t: Turn, workerMode: bool) returns (step: Step)
      requires wastedIterEmittedFor != Some(iteration)
      modifies this`wastedIterEmittedFor, this`wastedIter, this`suppressed
      ensures wastedIterEmittedFor == Some(iteration)
      ensures wastedIter == old(wastedIter) + [iteration] && suppressed == old(suppressed)
      ensures step == StepFor(t, workerMode)
    {
      var o := t.outcome;
      var exitType := ClassifyIterationExit(o);
      if !exitType.Success? {
        EmitWastedIter();
      }
      var stall := ClassifyStall(o);
      if exitType.ApiLimit? {
        return if t.rateLimitExit.Some? then Exit(t.rateLimitExit.value) else Continue;
      }
      if exitType.TimeoutExit? && !o.completion.Errored? {
        return Exit("error");
      }
      if stall == Some(ExternalBlocker) {
        return Exit("error");
      }
      if o.completion.Errored? && workerMode {
        return if t.rotationCapped then Exit("error") else Continue;
      }
      if o.completion.Errored? {
        return if t.relaunch then Continue else Exit("error");
      }
      if o.completion.Inactive? {
        return Exit("stopped");
      }
      if workerMode {
        step := HandleWorkerMode(t);
      } else {
        step := HandleMetricMode(t);
      }
    }

    /**
     * The loop over the turns the world supplies; no exit means it is still running after the last of
     * them. A run in status `gap_analysis` calls one worker before the first exit check.
     */
    method ExecuteMainLoop(turns: seq<Turn>, maxIterations: int, workerMode: bool, gapAnalysis: Option<Outcome>)
      returns (exit: Option<Reason>)
      requires iteration == 0 && workerCalls == [] && wastedIter == [] && wastedIterEmittedFor.None? && suppressed == 0
      modifies this
      ensures Accounted(if gapAnalysis.Some? then 1 else 0)
      ensures maxIterations > 0 ==> |workerCalls| <= Max(maxIterations, 1)
      ensures |workerCalls| <= |turns| + 1
      ensures maxIterations > 0 && |turns| > maxIterations ==> exit.Some?
      ensures gapAnalysis.Some? && (gapAnalysis.value.completion.Errored? || gapAnalysis.value.completion.Inactive?) ==>
                exit == Some("error") && iteration == 1
      ensures gapAnalysis.None? ==> LeftAt(turns, 0, maxIterations, workerMode, exit, iteration)
      ensures gapAnalysis.Some? && !gapAnalysis.value.completion.Errored? && !gapAnalysis.value.completion.Inactive? ==>
                LeftAt(turns, 1, maxIterations, workerMode, exit, iteration)
    {
      hide StepFor, LoopExit;
      ghost var first: nat := 0;
      if gapAnalysis.Some? {
        CallWorker();
        first := 1;
        if GapAnalysisFails(gapAnalysis.value) {
          return Some("error");
        }
      }
      var k := 0;
      while k < |turns|
        invariant k <= |turns|
        invariant Accounted(first) && iteration == first + k
        invariant maxIterations > 0 ==> iteration <= Max(maxIterations, 1)
        invariant maxIterations > 0 ==> k <= maxIterations
        invariant forall j :: 0 <= j < k ==> EndsWith(turns, j, first, maxIterations, workerMode).None?
      {
        ghost var ends := EndsWith(turns, k, first, maxIterations, workerMode);
        var loopExit := ReadLoopExit(turns[k], maxIterations);
        if loopExit.Some? {
          assert ends == Some((loopExit.value, false));
          return loopExit;
        }
        CallWorker();
        var step := HandleIterationOutcome(turns[k], workerMode);
        if step.Exit? {
          assert ends == Some((step.reason, true));
          return Some(step.reason);
        }
        k := k + 1;
      }
      return None;
    }
  }
}
