# Verified model of pickle-rick's convergence core

A Dafny model of the parts of pickle-rick that decide when an unattended run may stop and what it may
claim when it does, with proofs about every input and every run. Check it with `dafny verify dfyconfig.toml`.

Code that updates state in the source is a class or a method with loops here (the deferral context, the judge
retry loop, the two process waits, the stall rotation, the main loop, the diff cursor, the prompt cut, the jar
batch, the installer, the folds over rows and records). Each is proved against a specification on values, and
the properties are proved about that specification for all runs. Git, processes, clocks, files, the judge and
the operator are inputs: each iteration, attempt, turn or call takes what they answer as an argument.

| module | models |
|---|---|
| `PostConvergence` | withholding "converged": two counters, a latch and a refusal count keyed on HEAD |
| `WorkerManaged` | the per-iteration gate, the interface-change sweep and whole worker-managed runs |
| `JudgeBackoff` | rounds, parks and the failure ladder of the judge retry loop |
| `Settlement` | timers racing a process's close and error events, for jar managers and metric commands |
| `StallRotation` | errors rotating over subsystems |
| `MainLoop` | dispositions, iteration numbers and `wasted_iter` records |
| `UnifiedDiff` | the cursor parser of unified diffs, a printer for them and the finding filter |
| `PromptBound` | the byte-bounded cut of a remediation brief |
| `PartialProgress` | the upgrade of a held pass by fallen ledger figures |
| `JarBatch` | the night-shift batch over queued tasks |
| `PrdScope` | headings, definitions and ownership advisories of a PRD |
| `Versions`, `Updates` | version order, upgrades, downgrades and their audit |
| `FlakeBudget` | repeated test runs with an early exit |
| `WeekBuckets` | weekly metrics |
| `ScopeFence` | the staged-path fence |
| `Text`, `JsCollections`, `Wrappers` | strings, insertion-ordered maps, sorting and options as the source uses them |

## What the proofs found

- The bound on withholding is keyed on HEAD. With a self-introduced red open and HEAD moving at every iteration
  the protocol withholds a run for ever, leaving it to the iteration and time budgets
  (`PostConvergence.WithheldWhileHeadMoves`, `WorkerManaged.BreakingRunNeverExits`); with HEAD standing still it ends by the
  fifth withheld iteration, or by the seventh when reads of HEAD fail in between.
- The comment at `extension/bin/microverse-runner.js:2926-2927` says every exit of the judge loop clears the park
  file. A missing CLI or a rejected startup after a park leaves it; the contract of `RunJudgeBackoffLoop` says
  exactly when. The model follows the code.
- The diagram at `extension/bin/microverse-runner.js:5452-5462` sends worker errors to rotation. The stall
  classification comes first, so only an error that timed out gets there
  (`MainLoop.ErrorReachesRotationIffTimedOut`). The model follows the code.
- The stall rotation never recovers from an index outside the subsystem list (`StallRotation.StuckWithoutCurrent`,
  `StallRotation.ChargedIffIndexInRange`).
- A task id jarred on two days can stop a batch with no codex task left (`JarBatch.DuplicateIdStopsEarly`);
  `JarBatch.NightStopIsJustifiedIff` says from the queue's names alone when no night can be stopped wrongly, and
  `JarBatch.StopIsJustifiedIff` says it for one state of the queue.
- An unreadable `package.json` reads as 0.0.0, so a check can then install an older version;
  `Updates.CheckIsSafeIff` gives the exact condition. A readable one with an unparseable version blocks every
  later update (`Updates.UnparseableIsNeverReplaced`).
- A release whose payload differs from its tag is reported as installed at the tag's version
  (`Updates.UpToDateCanBeUntrue`); `Updates.UpToDateIsTrueIff` says exactly when the answer is true.
- Prerelease identifiers made of digits alone are compared as text, against section 11 of Semantic Versioning
  2.0.0 (`Versions.NumericIdentsAreText`, `Versions.SafeIdentIff`).

## Model

| member | source | states |
|---|---|---|
| `PostConvergence.DeferralContext.constructor` | extension/bin/microverse-runner.js:4750-4805 | A run starts with no deferral, no open self-red, no refusal and nothing disclosed. |
| `PostConvergence.DeferralContext.RecordSelfRedRefusal` | extension/bin/microverse-runner.js:4694-4710 | A refusal under a newly read HEAD restarts the count at one; any other refusal, an unreadable HEAD included, adds one. No other counter changes. |
| `PostConvergence.DeferralContext.RunCapGate` | extension/bin/microverse-runner.js:4669-4690 | A gate that threw counts as leaving typecheck and lint unmeasured, not as red and not as green. |
| `PostConvergence.DeferralContext.HandleSelfRedRefusalBound` | extension/bin/microverse-runner.js:4715-4729 | Red gives no_progress; green and unmeasured give converged; unmeasured checks are disclosed. |
| `PostConvergence.DeferralContext.HandlePostConvergenceGateDeferral` | extension/bin/microverse-runner.js:4750-4805 | One call is one step of the protocol machine: the new counters, latch, refusal head and disclosures, and the exit asked for. |
| `PostConvergence.Unique` | extension/bin/microverse-runner.js:510-512 | The de-duplication of disclosures keeps every member and repeats none. |
| `PostConvergence.CountersRefineHistory` | extension/bin/microverse-runner.js:4694-4805 | What the counters mean, read off the history of iterations alone: the deferral count is the current streak, the latch is "a self-red was seen in this streak", the refusal count is how far back HEAD has not moved. |
| `PostConvergence.ExitRefinesHistory` | extension/bin/microverse-runner.js:4750-4805 | After every history the counter machine asks for the same exit as a reading of the protocol that keeps no counters. |
| `PostConvergence.ConvergedIsGated` | extension/bin/microverse-runner.js:4715-4805 | This path answers converged only in a withheld iteration whose own cap gate is not red, after three withheld in a row or with a self-red in view; with a self-red in view, only after three refusals over a settled HEAD. |
| `PostConvergence.RedNeverConverges` | extension/bin/microverse-runner.js:4715-4790 | A red verdict never converges: it waits, or gives no_progress (self-red in view) or error (none). |
| `PostConvergence.DiscloseAdds` | extension/bin/microverse-runner.js:510-512 | Disclosing adds exactly the new checks behind the known ones, without repeats. |
| `PostConvergence.StepDiscloses` | extension/bin/microverse-runner.js:4715-4805 | One step discloses the checks of an unmeasured verdict it converges on, and nothing otherwise. |
| `PostConvergence.DisclosureGrows` | extension/bin/microverse-runner.js:510-512 | Over any run disclosures only accumulate, never twice, and only from unmeasured verdicts that converge. |
| `PostConvergence.ThrownGateDisclosesBoth` | extension/bin/microverse-runner.js:4669-4805 | Over every history: a step whose cap gate threw gives neither no_progress nor error, and if it converges, typecheck and lint are both disclosed afterwards. |
| `PostConvergence.ConvergedSilentlyIff` | extension/bin/microverse-runner.js:4669-4805 | A converging step leaves the disclosures as they were if and only if its gate answered green, or every check it left unmeasured (typecheck and lint, when it threw) was already known. |
| `PostConvergence.LatchStaysOpen` | extension/bin/microverse-runner.js:4750-4775 | Once a self-introduced red opened in a streak of withheld iterations, the latch stays open to its end. |
| `PostConvergence.PlainRunExitsAtThird` | extension/bin/microverse-runner.js:4777-4805 | Without a self-red the third withheld iteration ends the run, and neither of the first two does. |
| `PostConvergence.WithholdingEndsByFifth` | extension/bin/microverse-runner.js:4750-4805 | With HEAD readable and unchanged, any mix of plain and self-red withholds reaches a terminal exit by the fifth in a row, whatever happened before. |
| `PostConvergence.WithholdingEndsBySeventh` | extension/bin/microverse-runner.js:4694-4805 | With HEAD unchanged but reads of it failing at any iterations, the bound is seven. |
| `PostConvergence.MovingHeadsNeverExit` | extension/bin/microverse-runner.js:4694-4805 | Finding, concretely: a self-red under a new HEAD every time and a gate that is always green is withheld for any number of iterations. |
| `PostConvergence.WithheldWhileHeadMoves` | extension/bin/microverse-runner.js:4694-4710 | Finding: the bound is keyed on HEAD. With a self-red open and HEAD read anew at every iteration, no number of withholds ends the run. |
| `WorkerManaged.ConvergedIffEvidence` | extension/bin/microverse-runner.js:1197-1226 | A worker-managed iteration converges if and only if the worker signalled, its gate left no regression, an armed sweep was measured without a self-introduced break, and (for a metric phase) history is long enough with a scored entry. |
| `WorkerManaged.WithheldIffBlocked` | extension/bin/microverse-runner.js:1122-1196 | It is withheld if and only if the worker signalled and the gate or the sweep stood in the way, and it opens the self-red latch exactly for an uncertifiable baseline or a break the sweep found. |
| `WorkerManaged.ReasonIs` | extension/bin/microverse-runner.js:1122-1226 | The reason is the worker's own only with evidence on every axis; a missing signal, a block and a short or unscored history each have theirs. |
| `WorkerManaged.HistoryFindings` | extension/bin/microverse-runner.js:807-834 | The history guard passes exactly with as many present entries as asked for, at least one, and a score among them. |
| `WorkerManaged.GateFindings` | extension/bin/microverse-runner.js:528-637 | The gate adds one regression exactly when its own findings, read off its inputs, forbid shipping; the uncertifiable-baseline sink fires exactly for a baseline that inspected no project with nothing newly measured. |
| `WorkerManaged.HookFindings` | extension/bin/microverse-runner.js:767-806 | The same for the whole hook, which does nothing when disabled or without commits. |
| `WorkerManaged.UndisclosedIs` | extension/bin/microverse-runner.js:515-524 | The checks whose findings are set aside are those measured now and recorded as unmeasured in the baseline. |
| `WorkerManaged.RegressionStep` | extension/bin/microverse-runner.js:1122-1226 | One iteration moves the regression counter by one or not at all, and exactly when its gate regressed or its sweep found a break. |
| `WorkerManaged.StallStep` | extension/bin/microverse-runner.js:591-637 | One iteration adds one stall exactly when its gate regressed with no baseline on disk and none captured anew, and raises the warning exactly above its threshold. |
| `WorkerManaged.SweepFindings` | extension/bin/microverse-runner.js:944-968 | The sweep reports a break exactly when it is armed, both enumerations completed, symbols changed in files it could replay and typecheck, and an error is self-introduced. |
| `WorkerManaged.WorkerRun.constructor` | extension/bin/microverse-runner.js:1197-1226 | A run starts from the given state with fresh deferral counters. |
| `WorkerManaged.WorkerRun.Iterate` | extension/bin/microverse-runner.js:5106-5163 | One worker iteration with its exits in the order of the guards: judge unreachable, converged, deferral, stall limit, non-convergence. |
| `WorkerManaged.RunFollowsEvents` | extension/bin/microverse-runner.js:4750-4805 | Over a whole run the counters are those of the deferral protocol fed with what blocked each iteration, whatever the state went through. |
| `WorkerManaged.GoingOnMeansNoProtocolExit` | extension/bin/microverse-runner.js:5106-5163 | A run that goes on is one in which the deferral protocol asked for no exit. |
| `WorkerManaged.ProtocolExitFromInputs` | extension/bin/microverse-runner.js:4750-4805 | The exit the deferral protocol asks for in an iteration is the counter-free reading of what blocked the run so far. |
| `WorkerManaged.RunExitIsFromInputs` | extension/bin/microverse-runner.js:5106-5163 | Over any run the exit of the last iteration, each reason and going on alike, is a reading of the inputs alone: unscored history, evidence, the history of blocks, counted strict-mode stalls, non-convergence, in that order. |
| `WorkerManaged.RunEndsWithoutConverging` | extension/bin/microverse-runner.js:5106-5163 | From the inputs: a run ends no_progress exactly on a red cap gate at the bound with a self-red in view, error exactly on a red one without, or at the stall limit, and anatomy_non_convergent exactly when nothing before it ended the run. |
| `WorkerManaged.StallsCountStrictRegressions` | extension/bin/microverse-runner.js:591-637 | Over any run the stall counter is its start plus the number of iterations whose gate regressed in strict mode. |
| `WorkerManaged.BlockedRunEndsByFifth` | extension/bin/microverse-runner.js:4750-4805 | End to end: a run blocked by gate or sweep under one readable HEAD ends by the fifth blocked iteration in a row. |
| `WorkerManaged.BlockedRunGoesOnWhileHeadMoves` | extension/bin/microverse-runner.js:4694-4805 | Finding, end to end: with a self-red opened at once, HEAD read anew at every iteration and no other reason to stop, a blocked run goes on for ever. |
| `WorkerManaged.BreakingRunNeverExits` | extension/bin/microverse-runner.js:5106-5163 | Finding, concretely: a worker that commits a break and signals done in every iteration is never stopped by worker mode, for any number of iterations. |
| `WorkerManaged.RunKeepsDisclosed` | extension/bin/microverse-runner.js:510-546 | Over any run everything disclosed at its start stays disclosed, in its place, and no repeat is added, whether the gate or the deferral protocol discloses. |
| `WorkerManaged.GateDisclosesExactly` | extension/bin/microverse-runner.js:510-591 | The gate discloses exactly the checks newly measured against its baseline, or those an uncertifiable baseline did not run. |
| `WorkerManaged.RunDisclosesExactly` | extension/bin/microverse-runner.js:510-591 | Over any run a check is disclosed exactly when it was at the start, some iteration's gate disclosed it, or a cap gate that ended the run left it unmeasured. |
| `WorkerManaged.ThrownCapGateIsDisclosed` | extension/bin/microverse-runner.js:4669-4805 | End to end: a run that converges in a blocked iteration whose cap gate threw has typecheck and lint disclosed. |
| `WorkerManaged.RunConvergesOnlyOverEvidence` | extension/bin/microverse-runner.js:1122-1226 | A run ends converged only over full evidence in its last iteration, or over a cap gate of that iteration that was not red, after the protocol's own bounds. |
| `WorkerManaged.RegressionsCountIterations` | extension/bin/microverse-runner.js:591-637 | Over any run the regression counter is its start plus the number of iterations that regressed, so it never falls. |
| `JudgeBackoff.JudgeBackoffState.constructor` | extension/bin/microverse-runner.js:2865-2873 | A call starts with no attempt, no fallback and no message; a failed probe starts it at kind failed. |
| `JudgeBackoff.JudgeBackoffState.RunJudgeBackoffRound` | extension/bin/microverse-runner.js:2878-2925 | A round makes one to four attempts, stops at the first that settles the call, and leaves the tally those attempts amount to; it clears the park file only on a score after a park. |
| `JudgeBackoff.JudgeBackoffState.RunJudgeBackoffLoop` | extension/bin/microverse-runner.js:2928-2948 | The loop stops at the first attempt at which the rules let it stop, reports the outcome of that tally, parks one wait per spent round up to the ceiling, and leaves the park file behind exactly for a terminal failure after a park. |
| `JudgeBackoff.AttemptsBounded` | extension/bin/microverse-runner.js:2928-2948 | At most 4 x (1 + ceil(parkMax / parkWait)) attempts, and never more than parkMax parked. |
| `JudgeBackoff.KindIsJoin` | extension/bin/microverse-runner.js:2819-2827 | The reported kind is the least upper bound of the initial kind and every attempt's, in rate_limited < timeout < failed. |
| `JudgeBackoff.MessageFollowsKind` | extension/bin/microverse-runner.js:2900-2925 | The kept message is that of the last attempt of the reported kind; with none such, the first message; there is one as soon as there is an attempt. |
| `JudgeBackoff.FallbackRemembered` | extension/bin/microverse-runner.js:2885-2899 | A fallback is remembered exactly when some attempt took one. |
| `JudgeBackoff.TransientIff` | extension/bin/microverse-runner.js:3585-3609 | "Transient" is reported if and only if the probe did not fail, every attempt was rate limited, no fallback fired and the whole ceiling was parked. |
| `JudgeBackoff.StopsIff` | extension/bin/microverse-runner.js:2878-2948 | The loop stops exactly at a score, a missing CLI or a rejected start, or at the fourth attempt of a round once the probe or an attempt failed other than by rate limiting or the whole ceiling has been parked. |
| `JudgeBackoff.ResultIs` | extension/bin/microverse-runner.js:2838-2925 | What the loop answers, by its last attempt: the score, judge_cli_missing or judge_unreachable with that attempt's message, or all_judge_backends_exhausted exactly after a fallback and judge_timeout else; every attempt is counted. |
| `JudgeBackoff.PhaseExitIff` | extension/bin/microverse-runner.js:3585-3609 | Each phase exit if and only if the attempts call for it: missing CLI, exhausted backends, timeout, and unrecoverable for a rejected start or any plain failure without a fallback. |
| `Settlement.JarWait.constructor` | extension/bin/jar-runner.js:168-200 | The wait starts with the task timeout and the hang guard armed. |
| `Settlement.JarWait.Settle` | extension/bin/jar-runner.js:168-200 | The first settlement cancels all three timers and resolves; any later one does nothing. |
| `Settlement.JarWait.Handle` | extension/bin/jar-runner.js:168-232 | Each close, error or timer event takes the wait to exactly the next state of the machine. |
| `Settlement.JarInvariant` | extension/bin/jar-runner.js:168-232 | Under every possible interleaving: settled means nothing pending and one resolution; signals are at most a SIGTERM after the deadline and a SIGKILL at least the grace period later. |
| `Settlement.JarResolvesOnce` | extension/bin/jar-runner.js:168-232 | The wait resolves at most once, with the first settling event, whatever the interleaving. |
| `Settlement.JarOutcomeIff` | extension/bin/jar-runner.js:168-232 | The wait resolves ok if and only if its first settling event is a clean close, with a missing CLI if and only if it is that error, and not at all while there is none. |
| `Settlement.JarSendsExactly` | extension/bin/jar-runner.js:178-186 | Exactly one SIGTERM per timeout and one SIGKILL per escalation is sent, at the time it fired. |
| `Settlement.JarResolvesInTime` | extension/bin/jar-runner.js:168-232 | From timeout + 30 s on the wait has resolved, or its hang guard is due and resolves it at once; with timers that fire on time it has resolved once the clock is past that. |
| `Settlement.JarQuietOnceSettled` | extension/bin/jar-runner.js:168-232 | After it resolved no timer is pending and no event ever signals the process or resolves again. |
| `Settlement.JarKillArmedIff` | extension/bin/jar-runner.js:168-232 | The SIGKILL of a timed-out task is armed exactly from its timeout until it fires or the wait settles. |
| `Settlement.JarOverdueIsKilled` | extension/bin/jar-runner.js:178-186 | A task that neither ends nor answers SIGTERM has been sent both signals once the 2 s grace period is over. |
| `Settlement.MetricWait.constructor` | extension/bin/microverse-runner.js:2240-2278 | The metric wait starts with its deadline armed. |
| `Settlement.MetricWait.Finish` | extension/bin/microverse-runner.js:2164-2213 | The first verdict stands; later ones are ignored. |
| `Settlement.MetricWait.ClearTimers` | extension/bin/microverse-runner.js:2164-2213 | Both timers are cancelled. |
| `Settlement.MetricWait.Handle` | extension/bin/microverse-runner.js:2248-2277 | Each event takes the metric wait to exactly the next state of the machine. |
| `Settlement.MetricInvariant` | extension/bin/microverse-runner.js:2248-2277 | Under every possible interleaving the state is determined by the first verdict, whether the deadline is overdue and whether the process ended. |
| `Settlement.MetricResolvesOnce` | extension/bin/microverse-runner.js:2164-2277 | The first verdict wins, so a timeout is never overwritten, and there is a verdict by the deadline. |
| `Settlement.MetricVerdictIff` | extension/bin/microverse-runner.js:2164-2277 | Timed out if and only if the deadline fires before the process ends; otherwise the verdict of the first end. |
| `Settlement.MetricSendsExactly` | extension/bin/microverse-runner.js:2164-2213 | One SIGTERM per timeout and one SIGKILL per escalation, at the time it fired. |
| `Settlement.KillArmedWhileOverdue` | extension/bin/microverse-runner.js:2248-2277 | The SIGKILL of a timed-out command is armed exactly from the timeout until the process ends or the timer fires. |
| `Settlement.OverdueIsKilled` | extension/bin/microverse-runner.js:2248-2277 | A command that neither ends nor answers SIGTERM has been killed once the grace period is over. |
| `Settlement.MetricQuietOnceEnded` | extension/bin/microverse-runner.js:2248-2277 | Once the process ended, no signal is sent to it and no timer is armed again. |
| `StallRotation.WorkerRotation.MarkWorkerSubsystemStalled` | extension/bin/microverse-runner.js:5362-5392 | The charged subsystem's count grows by one and the index moves past it; with none to charge nothing changes. |
| `StallRotation.WorkerRotation.HandleWorkerSubprocessError` | extension/bin/microverse-runner.js:5393-5414 | One more consecutive error, a stall marked, the current subsystem re-read; it exits exactly from the third consecutive error on. |
| `StallRotation.WorkerRotation.HandleSuccess` | extension/bin/microverse-runner.js:5494-5499 | A success clears the consecutive errors and nothing else. |
| `StallRotation.OneError` | extension/bin/microverse-runner.js:5362-5414 | Whatever the file holds: an error charges the first place of the current subsystem's name, or else of the one at the index, goes one place past it and takes over what is there. |
| `StallRotation.OneErrorUncharged` | extension/bin/microverse-runner.js:5362-5414 | With nothing to charge, an error is only counted and the current subsystem read again. |
| `StallRotation.OneTurn` | extension/bin/microverse-runner.js:5362-5414 | From a state in step with the file, one error charges exactly the current subsystem and moves on by one place. |
| `StallRotation.RotationPlace` | extension/bin/microverse-runner.js:5362-5414 | After any errors and successes the state is still in step with the file, at the place the errors rotated it to. |
| `StallRotation.IndexAdvances` | extension/bin/microverse-runner.js:5362-5414 | After k handled errors the index has advanced by k modulo the number of subsystems. |
| `StallRotation.RotationIsRoundRobin` | extension/bin/microverse-runner.js:5362-5414 | Each subsystem is charged exactly its turns of a round robin; nothing else is charged. |
| `StallRotation.TurnsCounted` | extension/bin/microverse-runner.js:5362-5392 | The turns of one place among k: the full rounds, and one more if its place came up in the last. |
| `StallRotation.FairGrowth` | extension/bin/microverse-runner.js:5362-5414 | Any two subsystems' stall counts grow alike, give or take one. |
| `StallRotation.TotalGrowth` | extension/bin/microverse-runner.js:5362-5414 | Stall counts grow by exactly one per handled error, in total. |
| `StallRotation.ExitsAtCap` | extension/bin/microverse-runner.js:5393-5414 | The error counter is the number of errors since the last success. |
| `StallRotation.ExitsAtThirdInARow` | extension/bin/microverse-runner.js:5393-5414 | From no errors, the exit is asked for exactly when the last three calls are errors. |
| `StallRotation.ChargedIffIndexInRange` | extension/bin/microverse-runner.js:5193-5220 | From a state synced with the file, an error is charged to a subsystem if and only if the index lies in the list. |
| `StallRotation.StuckWithoutCurrent` | extension/bin/microverse-runner.js:5193-5220 | Finding: with no current subsystem and an index outside the list, errors are counted but no subsystem is ever charged or rotated. |
| `MainLoop.ErrorReachesRotationIffTimedOut` | extension/bin/microverse-runner.js:5470-5516 | Finding: a worker error reaches rotation (or a manager relaunch) if and only if it timed out; every other error halts as an external blocker. |
| `MainLoop.ModeRunsIffSuccess` | extension/bin/microverse-runner.js:5470-5516 | The worker and metric mode handlers run exactly after a successful exit. |
| `MainLoop.ExitBeforeCallIff` | extension/bin/microverse-runner.js:5164-5192 | The loop ends before a worker call, with each of the four reasons, if and only if the turn meets that reason's condition and none before it. |
| `MainLoop.ExitAfterCallIff` | extension/bin/microverse-runner.js:5470-5516 | It ends after the call, with a given reason, exactly in the cases read off completion, timeout, rate limit and the answers of rotation, relaunch and modes. |
| `MainLoop.PausesIff` | extension/bin/microverse-runner.js:5307-5342 | It pauses only after a classified measurement that asks for no exit. |
| `MainLoop.StillRunningMeans` | extension/bin/microverse-runner.js:5517-5553 | A loop still running met, at every turn, a readable, active state with time and iterations left, and no error but a rotated or relaunched timeout. |
| `MainLoop.Runner.constructor` | extension/bin/microverse-runner.js:5517-5553 | A run starts at iteration 0 with no record. |
| `MainLoop.Runner.EmitWastedIter` | extension/bin/microverse-runner.js:3984-4001 | At most one record per iteration number: a second call for the same number is suppressed. |
| `MainLoop.Runner.ReadLoopExit` | extension/bin/microverse-runner.js:5164-5192 | The exit check in the order of its guards: unreadable state, inactive, iteration budget spent, time budget spent, none. |
| `MainLoop.Runner.CallWorker` | extension/bin/microverse-runner.js:5221-5241 | Each worker call gets the next iteration number. |
| `MainLoop.Runner.HandleWorkerMode` | extension/bin/microverse-runner.js:5106-5163 | Worker mode records the iteration once and passes on the worker's exit. |
| `MainLoop.Runner.HandleMetricMode` | extension/bin/microverse-runner.js:5307-5342 | Metric mode records the iteration once, whichever of its three ways it takes. |
| `MainLoop.Runner.HandleIterationOutcome` | extension/bin/microverse-runner.js:5470-5516 | Every outcome leaves exactly one record for its iteration and the loop step its disposition calls for. |
| `MainLoop.Runner.ExecuteMainLoop` | extension/bin/microverse-runner.js:5517-5553 | Whatever the outcomes, rate-limit retries included: worker calls are numbered 1, 2, ..., at most max(M, 1) of them when M is positive; every main-loop iteration has exactly one wasted_iter record; and the loop leaves at the first turn that ends it, with that turn's reason, or at none. |
| `UnifiedDiff.ParseChangedLineNumbers` | extension/bin/microverse-runner.js:3405-3447 | For every document the cursor loop computes the specified parse, and gives up if and only if some header line inside a file header names neither /dev/null nor b/... |
| `UnifiedDiff.HeaderFlag` | extension/bin/microverse-runner.js:3410-3430 | The header flag means "between a file's diff --git line and its first hunk", and only a bad header name stops the parser. |
| `UnifiedDiff.HunkHeaderRoundTrip` | extension/bin/microverse-runner.js:3431-3435 | A printed hunk header is matched, and yields its new-side start. |
| `UnifiedDiff.MatchesIffHunkText` | extension/bin/microverse-runner.js:3431-3435 | The hunk pattern matches exactly the texts with two ranges of digits, each with a comma and more digits or not, and yields the value of the new-side start. |
| `UnifiedDiff.HeaderNameTest` | extension/bin/microverse-runner.js:3416-3425 | A header name is the null device or lies under b/ exactly when the raw line says so, with or without git's trailing tab. |
| `UnifiedDiff.BodyLineStep` | extension/bin/microverse-runner.js:3436-3445 | A body line is never read as a header or a hunk, whatever its text (an added line that looks like a +++ header included). |
| `UnifiedDiff.ParseInvertsPrint` | extension/bin/microverse-runner.js:3405-3447 | Parsing the printed text of any list of files and hunks maps each surviving file to exactly the new-side numbers of its added lines, and is null exactly when some file's name was quoted. |
| `UnifiedDiff.AddedNumbersIndexNewFile` | extension/bin/microverse-runner.js:3405-3447 | Those numbers index the new file: in a file that holds the hunk's context and added texts from its new-side start on, each number is where one of its added texts stands. |
| `UnifiedDiff.AddedLinesAreNumbered` | extension/bin/microverse-runner.js:3436-3445 | And every added line has its number: the new-side start plus the texts before it. |
| `UnifiedDiff.DropOutOfSurfaceViolations` | extension/bin/microverse-runner.js:3497-3518 | Kept plus dropped is the input; without a derived base, a completed diff or a parse, everything is kept; otherwise the missing positions are exactly the findings with a non-empty path and a line from 1 on that is not among the touched ones, the dropped count is their number, and the rest keeps its order. |
| `UnifiedDiff.KeepIsSubsequence` | extension/bin/microverse-runner.js:3497-3518 | The kept findings are an order-preserving subsequence, holding exactly the positions not provably untouched. |
| `UnifiedDiff.DroppedIffUntouched` | extension/bin/microverse-runner.js:3480-3518 | End to end: a finding is dropped if and only if it names a non-empty path p and a line n from 1 on, and no file of the printed diff adds n in p. |
| `UnifiedDiff.KeptOverPrintedDiff` | extension/bin/microverse-runner.js:3480-3518 | The same for whole lists of findings, by position, in order. |
| `PromptBound.BoundRemediationPrompt` | extension/bin/microverse-runner.js:132-166 | A brief within the budget is returned as it is; otherwise the result is the alternating cut around the notice, which is the path's sentence whenever that fits the budget and a newline if not; never more than max(maxBytes, 1) bytes. |
| `PromptBound.RemediationPrompt` | extension/bin/microverse-runner.js:217-232 | The brief handed to the agent is at most 98304 bytes and fits one Linux process argument, whatever the brief and its path; up to that size it is handed over as it is, beyond it as the alternating cut. |
| `PromptBound.CutKeepsBothEnds` | extension/bin/microverse-runner.js:148-165 | The cut's two texts are a prefix and a suffix of the brief that do not overlap. |
| `PromptBound.CutReplacesTheMiddle` | extension/bin/microverse-runner.js:132-166 | A cut prompt is the brief with one stretch replaced by the notice. |
| `PromptBound.ByteLengthIsUtf8` | extension/bin/microverse-runner.js:133-147 | The bytes counted are those of the UTF-8 encoding, one to four per character. |
| `PromptBound.Utf8TextIsInjective` | extension/bin/microverse-runner.js:133-147 | That encoding reads back: no two texts share one. |
| `PromptBound.CutIsLargest` | extension/bin/microverse-runner.js:148-164 | No longer alternating selection of lines fits the budget. |
| `PromptBound.CutIsUnique` | extension/bin/microverse-runner.js:132-166 | What the contract says of a cut determines the text. |
| `PromptBound.NotEverythingFits` | extension/bin/microverse-runner.js:151-164 | Taking every line would cost more than the bytes of the brief, so a truncation really omits a line. |
| `PromptBound.AroundLength` | extension/bin/microverse-runner.js:165-166 | Joining never costs more bytes than the loop charged for the lines it took. |
| `PartialProgress.FoldFigures` | extension/bin/microverse-runner.js:4244-4246 | Folding one entry's figures keeps, per kind, the larger of what was there and what the entry says, new kinds at the end. |
| `PartialProgress.LargestLedgerFiguresByPath` | extension/bin/microverse-runner.js:4239-4250 | The map holds, for each path and kind, the largest figure of the path's entries and nothing else, in order of first occurrence. |
| `PartialProgress.ApplyLedgerPartialProgress` | extension/bin/microverse-runner.js:4263-4284 | Only "held" with two lists can change: it becomes "improved" if and only if some committed path's largest figure strictly fell, and what it reports is the first such fall in the order of the ledger; committedPaths is asked exactly when something fell. |
| `PartialProgress.LargestIs` | extension/bin/microverse-runner.js:4239-4250 | "Largest" is the maximum: some entry of the path carries it and none carries more. |
| `PartialProgress.OrderAndRepetitionDoNotMatter` | extension/bin/microverse-runner.js:4239-4250 | The same entries in any order and any number give the same maxima. |
| `PartialProgress.SplittingDoesNotMatter` | extension/bin/microverse-runner.js:4239-4250 | Replacing an entry by parts with the same per-path maximum changes no maximum. |
| `PartialProgress.MaximaDecide` | extension/bin/microverse-runner.js:4263-4284 | Ledgers with the same maxima are classified alike and ask for the commits in the same cases. |
| `PartialProgress.NoChangeNoProgress` | extension/bin/microverse-runner.js:4263-4284 | A reshuffled ledger claims no progress, whatever was committed. |
| `JarBatch.FirstWithId` | extension/bin/jar-runner.js:376-379 | The index of the first task answering for an id, or the queue's length. |
| `JarBatch.HandleTaskEnoent` | extension/bin/jar-runner.js:374-400 | Outside a missing codex CLI, or with no task answering for the id, nothing is listed; otherwise exactly the ids, in queue order, of the marinating tasks after the first one answering for it that look like codex tasks. |
| `JarBatch.CountRemainingQueuedCodexTasks` | extension/bin/jar-runner.js:363-373 | The number of later marinating tasks whose session resolves to codex. |
| `JarBatch.ProcessJarTask` | extension/bin/jar-runner.js:420-462 | One task changes status, its own, to what its turn calls for; the tallies say which; the batch stops exactly for a missing codex CLI with codex seen ahead. |
| `JarBatch.RunBatch` | extension/bin/jar-runner.js:463-491 | After the loop every reached task has the status of its turn and every later one is untouched; the tallies count the turns whose manager ended ok and those that were unrunnable, threw or did not end ok; the loop stopped at the first task that calls for it and nowhere else. |
| `JarBatch.NoTaskIsLost` | extension/bin/jar-runner.js:463-491 | Consumed, failed and still marinating add up to the queue. |
| `JarBatch.MarinatingIffMissingOrUnreached` | extension/bin/jar-runner.js:420-462 | A task is still marinating if and only if its turn never came or its CLI was missing. |
| `JarBatch.ConsumedIff` | extension/bin/jar-runner.js:420-462 | A task is consumed if and only if its turn came and its manager ran, found its CLI and ended ok. |
| `JarBatch.FailedIff` | extension/bin/jar-runner.js:420-462 | It has failed, with each reason, if and only if its turn came and it had no session, no repository path or a bad PRD, threw, or ran with its CLI there and did not end ok. |
| `JarBatch.StopsIff` | extension/bin/jar-runner.js:363-450 | The batch stops after a turn if and only if its manager missed the codex CLI and a waiting task behind the first that answers for the directory is queued for codex under its id, or a later task's session reads codex. |
| `JarBatch.CountsMove` | extension/bin/jar-runner.js:480-487 | A marinating task that changes status moves exactly its new status's count by one. |
| `JarBatch.StopIsJustifiedIff` | extension/bin/jar-runner.js:374-400 | For a task that could not start codex (so its session reads codex) and every choice of the other backends, the rule sees codex only where a later task is queued for codex, if and only if it counts no passed task or a later marinating task shares the directory or answers for its name. |
| `JarBatch.NightStopIsJustifiedIff` | extension/bin/jar-runner.js:363-487 | Over whole nights in which each run starts on the backend its session names: every night that a given task stops has a codex task left, whatever the backends and turns, if and only if the names in the queue cannot mislead. |
| `JarBatch.LastCopyMisleads` | extension/bin/jar-runner.js:374-400 | Among tasks that answer for their own directory, the names mislead exactly at the last of several copies of one directory. |
| `JarBatch.OwnIdsStopExactly` | extension/bin/jar-runner.js:436-450 | When every task answers for its own directory name, the batch stops if and only if codex is missing and a later task needs it. |
| `JarBatch.DuplicateIdStopsEarly` | extension/bin/jar-runner.js:374-400 | Finding: with one id jarred twice on a codex session, the first copy skipped for a changed PRD, the second stops a night in which no codex task is left. |
| `PrdScope.PrdDefinitions` | extension/bin/check-readiness.js:654-672 | The one-integer loop yields, line by line, every id with its section and whether an open "not in scope" heading encloses it. |
| `PrdScope.SectionIsLastHeading` | extension/bin/check-readiness.js:654-672 | The section of a definition is the title of the last heading before it. |
| `PrdScope.LevelStep` | extension/bin/check-readiness.js:661-666 | After each line the integer is the level of the outermost open flagged heading, or 0, and is positive exactly under a flagged heading. |
| `PrdScope.StackIsEnclosing` | extension/bin/check-readiness.js:654-672 | A full stack of headings holds exactly the headings that enclose the line. |
| `PrdScope.FlagIsStackFlag` | extension/bin/check-readiness.js:654-672 | The flag is the stack's: some heading on it says "not in scope". |
| `PrdScope.RequirementsFromPrd` | extension/bin/check-readiness.js:673-680 | An id is owed a ticket if and only if some definition of it lies outside every "not in scope" heading. |
| `PrdScope.OwedPiecewise` | extension/bin/check-readiness.js:673-680 | What is owed is owed piece by piece, so order and number of the definitions in scope are kept. |
| `PrdScope.InScopeById` | extension/bin/check-readiness.js:819-822 | The map holds exactly the defined ids, true exactly for those with a definition in scope. |
| `PrdScope.FindOwnershipAdvisories` | extension/bin/check-readiness.js:809-836 | Exactly the defined ids that no ticket owns and prd_map does not cover are advised, once each and in order: "unmapped" if some definition is in scope, "not-in-scope-only" if all lie under such headings. |
| `PrdScope.CoveredPrdLeavesOnlyOutOfScope` | extension/bin/check-readiness.js:804-836 | When prd_map covers what the PRD owes, every advisory left is of an id defined only under "not in scope" headings. |
| `Versions.ParsesIff` | extension/bin/check-update.js:36-47 | The parser accepts exactly the texts X.Y.Z and X.Y.Z-ident.N of digits, dots and one identifier without dots. |
| `Versions.PiecesParse` | extension/bin/check-update.js:36-47 | An accepted text denotes the values of its pieces. |
| `Versions.TagIff` | extension/bin/check-update.js:48-55 | A tag stands for a version text exactly when it is that text, with or without one v in front, and the text parses. |
| `Versions.VersionRoundTrip` | extension/bin/check-update.js:36-55 | Every release and prerelease version is read back from its text, with or without the leading v. |
| `Versions.CompareSemverIsTotal` | extension/bin/check-update.js:69-86 | It throws exactly when one side is no version; otherwise it is antisymmetric and 0 exactly for the same version. |
| `Versions.CompareSemverIsTransitive` | extension/bin/check-update.js:69-86 | It is transitive. |
| `Versions.OlderIff` | extension/bin/check-update.js:56-86 | Older means a smaller triple, or under the same triple a prerelease below the release, then its identifier as text, then its number. |
| `Versions.AgreesWithSemVer` | extension/bin/check-update.js:56-86 | Section 11 of Semantic Versioning 2.0.0 gives the same order whenever the two prerelease identifiers each have a non-digit. |
| `Versions.SafeIdentIff` | extension/bin/check-update.js:56-68 | One identifier is ordered as section 11 says against every alphanumeric identifier if and only if it has a non-digit itself. |
| `Versions.NumericIdentsAreText` | extension/bin/check-update.js:63-64 | Finding: numeric identifiers are compared as text, so 1.0.0-10.1 counts as older than 1.0.0-9.1. |
| `Updates.Installer.EvaluateDowngradeUx` | extension/bin/check-update.js:550-562 | Refused exactly for a live session without override or closer context; aborted exactly without one in the way, when the operator did not confirm and no option waives it; otherwise an audit row, which records the answer, is logged exactly when it can be written. |
| `Updates.Installer.InspectReleaseForUpgrade` | extension/bin/check-update.js:563-589 | A payload is installed exactly when it is not lower than the version read, or lower with consent and an audit row; a lower one without allowDowngrade is blocked. |
| `Updates.Installer.PerformUpgrade` | extension/bin/check-update.js:597-630 | The installed version, the log and the cache after an upgrade, and exactly when it reports upgraded, aborted, refused, failed or a blocked downgrade. |
| `Updates.EndsFromInputs` | extension/bin/check-update.js:550-630 | Upgraded, blocked, refused and aborted each if and only if the inputs call for it; everything else is a failure. |
| `Updates.UpgradeFromInputs` | extension/bin/check-update.js:550-630 | An upgrade logs its audit row, starts the install and publishes exactly for a payload not below the version read, or a downgrade asked for, confirmed or waived, with no session in the way and its audit row written. |
| `Updates.UnconfirmedChangesNothing` | extension/bin/check-update.js:557-559 | A downgrade the operator did not confirm, with no option that waives it, changes nothing, and is aborted exactly when it was asked for and no session is in the way. |
| `Updates.Installer.CheckForUpdate` | extension/bin/check-update.js:667-691 | When a check attempts an upgrade, what it leaves installed, logged and cached, and the status it answers in every case. |
| `Updates.CheckInstallsIff` | extension/bin/check-update.js:631-691 | A check installs if and only if it may ask, got a newer tag and unpacked a payload not below what the inspection reads; it never audits a downgrade. |
| `Updates.CheckAnswers` | extension/bin/check-update.js:631-691 | What a check answers and remembers in every case, read off the inputs. |
| `Updates.CheckStep` | extension/bin/check-update.js:655-691 | One check whose inspection can read package.json never lowers the installed version. |
| `Updates.NeverGoesBackwards` | extension/bin/check-update.js:597-691 | Over any run of checks whose inspections can read package.json the installed version never goes down. |
| `Updates.CheckIsSafeIff` | extension/bin/check-update.js:248-258 | One check cannot lower the installed version, whatever the release, if and only if its inspection reads package.json or the installed version is not above 0.0.0. |
| `Updates.UnparseableIsNeverReplaced` | extension/bin/check-update.js:563-589 | A readable package.json whose version does not parse is never replaced, by any call. |
| `Updates.UpToDateIsTrueIff` | extension/bin/check-update.js:631-691 | An up-to-date answer names the version installed afterwards if and only if an attempted upgrade unpacked the version its tag names, or, with none attempted, package.json could be read or says 0.0.0. |
| `Updates.UpToDateCanBeUntrue` | extension/bin/check-update.js:655-666 | Finding: a newer tag whose payload is an intermediate version is answered up to date at the tag with the payload installed. |
| `Updates.FreshCacheAgrees` | extension/bin/check-update.js:631-666 | After a fetched tag was written down, the next check over the fresh cache weighs what is now installed against that tag. |
| `Updates.MislabelledIsOfferedAgain` | extension/bin/check-update.js:631-666 | So a mislabelled release is offered again by the very next check. |
| `Updates.OutcomeTells` | extension/bin/check-update.js:550-630 | Refused, aborted and blocked upgrades leave no trace; upgraded means the candidate is installed; a failure changed the version only when a failing script had published it. |
| `Updates.EveryDowngradeIsAudited` | extension/bin/check-update.js:504-589 | Over any mixture of calls, every install below the version seen directly follows its audit row, which shows that a downgrade was asked for, that the operator confirmed it or the options waive that, and that no live session was in the way unless overridden. |
| `Updates.SilenceMeansNotLower` | extension/bin/check-update.js:563-630 | With every inspection readable, a lower version is on disk only after a logged downgrade. |
| `FlakeBudget.Names` | extension/bin/check-flake-budget.js:160-166 | The names of a run's failures, each once. |
| `FlakeBudget.NamesInOrder` | extension/bin/check-flake-budget.js:160-166 | The names come in the order in which they are first met. |
| `FlakeBudget.DedupeFailureDetails` | extension/bin/check-flake-budget.js:129-138 | One entry per failing test in order of first occurrence: the first with a duration, or the first at all when none has one. |
| `FlakeBudget.CountFailures` | extension/bin/check-flake-budget.js:160-166 | The map counts, for each test, the records it fails in. |
| `FlakeBudget.FindRepeatedFailures` | extension/bin/check-flake-budget.js:160-171 | The repeated list is the strictly sorted list of exactly the tests that fail in two different records. |
| `FlakeBudget.TwoAppearances` | extension/bin/check-flake-budget.js:160-171 | A count of two means two different records. |
| `FlakeBudget.RunHalves` | extension/bin/check-flake-budget.js:225-243 | Every half runs unless one cannot be spawned; the first failed and the first silent half and the total of measured tests. |
| `FlakeBudget.TestsAddUp` | extension/bin/check-flake-budget.js:258-258 | The tests of a run are those of its halves together. |
| `FlakeBudget.RunIterations` | extension/bin/check-flake-budget.js:244-293 | The early-exit loop throws exactly when it reaches a harness fault within budget; otherwise its failure count is that of the runs it completed, at most budget + 1, with one record per failing run, and the fewest tests measured. |
| `FlakeBudget.FailuresAreRuns` | extension/bin/check-flake-budget.js:264-290 | The failures counted are the runs in which some half ended with anything but status 0, each once. |
| `FlakeBudget.CheckFlakeBudgetMain` | extension/bin/check-flake-budget.js:294-321 | The verdict is 0 if and only if no run at all was a harness fault and the failing runs, all counted, are within budget. |
| `WeekBuckets.MondayIsUnique` | extension/bin/metrics.js:208-215 | The computed day is the one Monday with Monday <= date < Monday + 7. |
| `WeekBuckets.WeekdaysFollow` | extension/bin/metrics.js:208-215 | Days of the week follow each other, and day 0 is a Thursday. |
| `WeekBuckets.AggregateRow` | extension/bin/metrics.js:192-207 | A row's totals are the sums over its projects and its line counts. |
| `WeekBuckets.FiguresOfOne` | extension/bin/metrics.js:192-207 | A row of one project and one repository has exactly their figures, each in its own place. |
| `WeekBuckets.AddBackends` | extension/bin/metrics.js:127-135 | Adding per backend adds each backend's own figure, 0 where absent, for all seven backends. |
| `WeekBuckets.AggregateRowBackendOutputs` | extension/bin/metrics.js:127-135 | Each backend's output is its sum over the row's projects. |
| `WeekBuckets.AddProjects` | extension/bin/metrics.js:253-255 | Each project's output grows by that project's tokens, and all of them together by the row's output. |
| `WeekBuckets.AddRow` | extension/bin/metrics.js:246-255 | A bucket that holds some rows holds one more row after it is added. |
| `WeekBuckets.FoldRows` | extension/bin/metrics.js:229-257 | One bucket per week that has a row, holding exactly that week's rows. |
| `WeekBuckets.BuildWeekBuckets` | extension/bin/metrics.js:229-262 | The buckets come out in strictly increasing order of weeks, none empty and none missing, each with the figures of exactly its week's rows, its project outputs adding up to its output. |
| `WeekBuckets.WeeksTile` | extension/bin/metrics.js:229-262 | Any row figure summed week by week is its sum over the report: every row lies in exactly one week. |
| `WeekBuckets.WeeksConserve` | extension/bin/metrics.js:229-262 | Turns, output, added, removed, each backend's output and each project's output, summed over the buckets, are the sums over the rows. |
| `WeekBuckets.RowFallsInItsWeek` | extension/bin/metrics.js:229-262 | Each row lies in exactly the buckets whose Monday is on or before its date and less than a week earlier, and there is one. |
| `ScopeFence.PrefixIsComponentPrefix` | extension/bin/check-scope-diff.js:24-30 | Equality or a "/"-terminated string prefix is a prefix of '/'-split component lists, for all strings. |
| `ScopeFence.InScopeIffComponentPrefix` | extension/bin/check-scope-diff.js:21-30 | A path is in scope if and only if some allowed path's components are a prefix of its own. |
| `ScopeFence.TrailingSlashIsNoComponent` | extension/bin/check-scope-diff.js:21-30 | A path's components are its pieces between slashes, but for one slash at its end. |
| `ScopeFence.CatalogIffLastComponent` | extension/bin/check-scope-diff.js:40-43 | A catalog path is exactly one whose last component is CLAUDE.md. |
| `ScopeFence.StagedRoundTrip` | extension/bin/check-scope-diff.js:96-119 | Every NUL-terminated listing of file names is read back as it was, whatever else the names contain. |
| `ScopeFence.OkIffEverythingFenced` | extension/bin/check-scope-diff.js:159-193 | "ok" is answered if and only if the scope is readable, the enumeration completed and every staged path is fenced by components; otherwise exactly the paths outside are listed. |
| `ScopeFence.StatusIff` | extension/bin/check-scope-diff.js:134-193 | Each status if and only if its case: no scope, a malformed one, an enumeration that did not complete, paths outside, or ok with the number staged. |
| `ScopeFence.OutsideInOrder` | extension/bin/check-scope-diff.js:180-193 | The paths reported are the unfenced ones, in order and as often as staged. |
| `ScopeFence.EnlargingNeverExcludes` | extension/bin/check-scope-diff.js:24-30 | Enlarging allowed_paths never puts a path outside. |
| `ScopeFence.ScopeIsClosedDownwards` | extension/bin/check-scope-diff.js:24-30 | What lies under a path in scope is in scope. |
| `Text.JoinSplit` | extension/bin/microverse-runner.js:148-165 | Joining what was split at a separator gives the text back. |
| `Text.CompareTextIs` | extension/bin/check-update.js:63-64 | One text is below another exactly when it is a proper prefix of it or smaller at the first difference. |
| `JsCollections.SortByKey` | extension/bin/metrics.js:259-261 | Sorting a map's entries by key keeps them all and puts distinct keys in order. |

## Left out

- Processes, signals, git, tmux, `gh`, `npm`, files and notifications: events, answers or records only.
- Prompts, handoffs, reports and log text: text assembly without a deep invariant.
- Regular expressions for tickets, figures, headings, requirement ids, failing tests and commit shas: headings, figures, ids and details are inputs, already read.
- `isConverged`, `compareMetricWithBasis`, `runGate`, `runBaselineAwareGate`, `filterByScope`, `resolveBackend` and `mux-runner`'s park folding: answers given as inputs, with no assumption on them. `recordStall` of a strict-mode regression adds one to the stall counter, as it does there; its other effects are not part of this model.
- The rate-limit probe, the environment pruning, settings loading and command-line parsing: plumbing.
- A throw in the middle of a main-loop iteration, and a failing baseline measurement of a gap analysis (it throws out of the loop).
- Sleeps between judge attempts: they only pass time.
- Two processes writing the convergence file at once: the rotation is modelled with the runner as its only writer.
- JavaScript number precision: counts and line numbers are integers, ledger figures are reals.
- Strings are sequences of Unicode scalar values: unpaired surrogates, and the difference between sorting by code point and by UTF-16 unit above U+FFFF, are not modelled.
- The locale's order of ids is any total preorder given as an input; week keys are day numbers, which order as their `YYYY-MM-DD` texts do for years 0000 to 9999.
- Time zones and invalid dates: a row's date is a day number, and a bucket's label is its Monday.
- The map of week buckets holds values, not shared mutable objects: aliasing between buckets is not captured.
- Staleness of the update cache and its recovery on reading: whether the cache is stale is an input.
- A release whose install script publishes a version other than the inspected one: the script publishes the inspected payload or nothing.
- Bare empty context lines (git's `diff.suppressBlankEmpty`): the printer prefixes every context line with a space, as the parser expects.
- Combined diffs of merges: the printer produces two-way hunks.
- `council-publish`, `lock-scope`, `debate`, watchers, audit and pattern scripts: only easier versions of the properties proved here.
- WorkerManaged.ReasonIs: the judge-unreachable reason is its first words; the source appends the counts it compared.
- Settlement.JarResolvesInTime: timers may fire late by any bound `late`; the claim that it has resolved then carries that slack, because a late hang guard resolves late.
- JarBatch.NightStopIsJustifiedIff: supposes that no run rewrites the backend in a session's state file; `JarBatch.StopIsJustifiedIff` does not.
- Updates.NeverGoesBackwards: requires that inspections can read `package.json`, because without it the property is false; `CheckIsSafeIff` states the exact condition.
- Versions.AgreesWithSemVer: covers identifiers with a non-digit only, because for all-digit ones it is false; `SafeIdentIff` states the exact condition.
