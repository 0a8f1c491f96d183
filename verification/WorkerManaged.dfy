/**
 * One worker-managed iteration: the per-iteration gate, the interface-change sweep and the
 * history guard that stand between a worker's "converged" and the runner's. The gate, the git
 * enumerations, the remediator and the typecheck are inputs of each iteration.
 */
module WorkerManaged {
  import opened JsCollections
  import opened Text
  import opened Wrappers
  import P = PostConvergence

  const GATE_CHECKS := ["typecheck", "lint", "tests"]
  const WITHHELD_REASON := "per-iteration gate left unresolved regressions"

  datatype CheckStatus = Ran | Skipped | NotRun
  type StatusMap = Option<map<string, CheckStatus>>

  datatype Failure = Failure(check: string)
  datatype GateResult = GateResult(red: bool, failures: seq<Failure>, status: StatusMap)
  datatype Baseline = Baseline(projectType: Option<string>, status: StatusMap)

  /** `baseline` is what reading the baseline file yields, when the gate ran against it. */
  datatype GateInput = GateInput(enabled: bool, commits: bool, baselineFile: bool, recaptured: bool,
                                 result: GateResult, baseline: Option<Baseline>, remediated: bool)

  /** Counts of changed exported symbols and changed files; `None` when git could not enumerate them. */
  datatype SweepInput = SweepInput(symbols: Option<nat>, files: Option<nat>, replayed: bool, typechecked: bool,
                                   selfIntroduced: nat)

  datatype HistoryEntry = HistoryEntry(score: Option<int>)

  datatype Input = Input(signal: Option<string>, gate: GateInput, startCommit: Option<string>, sweep: SweepInput,
                         metric: string, history: seq<Option<HistoryEntry>>, minIterations: Option<int>,
                         warnAbove: nat, stallLimit: Option<nat>, nonConvergent: bool,
                         head: P.HeadRead, capGate: P.GateAnswer)

  datatype Microverse = Microverse(regressions: nat, stalls: nat, warned: bool, capUnmeasured: seq<string>)

  datatype WorkerResult = WorkerResult(mv: Microverse, converged: bool, reason: string, selfRedOpen: bool,
                                       judgeUnreachable: bool)

  // ---- The per-iteration gate ----

  predicate IsCheckUnmeasured(status: StatusMap, check: string) {
    status.Some? && !(check in status.value && status.value[check].Ran?)
  }

  function Filter<T(!new)>(s: seq<T>, keep: T -> bool): (r: seq<T>)
    ensures forall x :: x in r <==> x in s && keep(x)
  {
    if s == [] then []
    else
      var rest := Filter(s[1..], keep);
      assert s == [s[0]] + s[1..];
      if keep(s[0]) then [s[0]] + rest else rest
  }

  function BaselineUnmeasured(current: StatusMap, baseline: StatusMap): seq<string> {
    if current.None? then []
    else Filter(GATE_CHECKS, c => !IsCheckUnmeasured(current, c) && IsCheckUnmeasured(baseline, c))
  }

  predicate StrictMode(g: GateInput) {
    !g.baselineFile && !g.recaptured
  }

  function UsedBaseline(g: GateInput): Option<Baseline> {
    if StrictMode(g) then None else g.baseline
  }

  function Undisclosed(g: GateInput): seq<string> {
    var b := UsedBaseline(g);
    BaselineUnmeasured(g.result.status, if b.Some? then b.value.status else None)
  }

  /** The checks an uncertifiable baseline did not run; a skipped one is "not applicable". */
  function NotRunChecks(b: Baseline): seq<string> {
    if b.status.None? then []
    else Filter(GATE_CHECKS, c => c in b.status.value && b.status.value[c].NotRun?)
  }

  function RecordRegression(mv: Microverse, g: GateInput): Microverse {
    mv.(regressions := mv.regressions + 1, stalls := if StrictMode(g) then mv.stalls + 1 else mv.stalls)
  }

  /** The gate over the iteration's changes: the next state and whether the uncertifiable-baseline sink fired. */
  function RunChangedGate(mv: Microverse, g: GateInput): (Microverse, bool) {
    var b := UsedBaseline(g);
    var unmeasured := Undisclosed(g);
    if unmeasured == [] && b.Some? && b.value.projectType.None? then
      var disclosed := if NotRunChecks(b.value) == [] then mv
                       else mv.(capUnmeasured := P.Disclose(mv.capUnmeasured, NotRunChecks(b.value)));
      (disclosed.(regressions := mv.regressions + 1), true)
    else
      var mv' := if unmeasured == [] then mv
                 else mv.(capUnmeasured := P.Disclose(mv.capUnmeasured, unmeasured));
      var failures := Filter(g.result.failures, (f: Failure) => f.check !in unmeasured);
      if !g.result.red || failures == [] then (mv', false)
      else if g.remediated then (mv', false)
      else (RecordRegression(mv', g), false)
  }

  function RunGateHook(mv: Microverse, i: Input): (Microverse, bool) {
    var (gated, fired) := if i.gate.enabled && i.gate.commits then RunChangedGate(mv, i.gate) else (mv, false);
    if gated.regressions <= i.warnAbove || gated.warned then (gated, fired)
    else (gated.(warned := true), fired)
  }

  // ---- The interface-change sweep ----

  datatype Sweep = NotMeasured | NothingExported | Measured(selfIntroduced: nat)

  function RunInterfaceChangeSweep(s: SweepInput): Sweep {
    if s.symbols.None? || s.files.None? then NotMeasured
    else if s.symbols.value > 0 && s.files.value == 0 then NotMeasured
    else if s.symbols.value == 0 then NothingExported
    else if !s.replayed then NotMeasured
    else if !s.typechecked then NotMeasured
    else Measured(s.selfIntroduced)
  }

  /** What `trim` removes: ECMAScript white space and line terminators. */
  predicate IsSpace(c: char) {
    var code := c as int;
    || 9 <= code <= 13 || code in {32, 0xA0, 0x1680, 0x2028, 0x2029, 0x202F, 0x205F, 0x3000, 0xFEFF}
    || 0x2000 <= code <= 0x200A
  }

  predicate Blank(s: string) {
    forall i :: 0 <= i < |s| ==> IsSpace(s[i])
  }

  predicate Armed(startCommit: Option<string>) {
    startCommit.Some? && !Blank(startCommit.value)
  }

  // ---- The iteration ----

  predicate EnoughHistory(history: seq<Option<HistoryEntry>>, minIterations: Option<int>) {
    var kept := Filter(history, (e: Option<HistoryEntry>) => e.Some?);
    |kept| >= Max(1, minIterations.GetOr(1)) &&
    exists k :: 0 <= k < |kept| && kept[k].Some? && kept[k].value.score.Some?
  }

  function HandleWorkerManagedIteration(mv: Microverse, i: Input): WorkerResult {
    var (gated, fired) := RunGateHook(mv, i);
    if i.signal.None? then WorkerResult(gated, false, "no reason", false, false)
    else if gated.regressions > mv.regressions then WorkerResult(gated, false, WITHHELD_REASON, fired, false)
    else
      var sweep := if Armed(i.startCommit) then RunInterfaceChangeSweep(i.sweep) else NothingExported;
      if sweep.NotMeasured? then WorkerResult(gated, false, WITHHELD_REASON, false, false)
      else if sweep.Measured? && sweep.selfIntroduced > 0 then
        WorkerResult(gated.(regressions := gated.regressions + 1), false, WITHHELD_REASON, true, false)
      else if i.metric == "none" || EnoughHistory(i.history, i.minIterations) then
        WorkerResult(gated, true, i.signal.value, false, false)
      else WorkerResult(gated, false, "judge unreachable", false, true)
  }

  // ---- What the gate and the sweep found, read off the inputs ----

  ghost predicate GateCheck(check: string) {
    check == "typecheck" || check == "lint" || check == "tests"
  }

  ghost predicate RanIn(status: StatusMap, check: string) {
    status.Some? && check in status.value && status.value[check] == Ran
  }

  /** The gate compared with a baseline: one that was on disk, or was captured anew for this iteration. */
  ghost predicate AgainstBaseline(g: GateInput) {
    (g.baselineFile || g.recaptured) && g.baseline.Some?
  }

  /** Measured now, and the baseline gate ran against has a record that it was not measured then. */
  ghost predicate NewlyMeasured(g: GateInput, check: string) {
    && AgainstBaseline(g)
    && RanIn(g.result.status, check)
    && g.baseline.value.status.Some? && !RanIn(g.baseline.value.status, check)
  }

  /** The gate ran against a baseline that inspected no project, with nothing else to disclose. */
  ghost predicate Uncertifiable(g: GateInput) {
    && AgainstBaseline(g) && g.baseline.value.projectType.None?
    && forall c :: GateCheck(c) ==> !NewlyMeasured(g, c)
  }

  /** The iteration's own gate left something it may not ship. */
  ghost predicate GateRegressed(g: GateInput) {
    && g.enabled && g.commits
    && if Uncertifiable(g) then true
       else
         && g.result.red && !g.remediated
         && exists f :: f in g.result.failures && (GateCheck(f.check) ==> !NewlyMeasured(g, f.check))
  }

  /** What the gate itself discloses: newly measured checks, or what an uncertifiable baseline did not run. */
  ghost predicate GateDiscloses(g: GateInput, check: string) {
    && g.enabled && g.commits && GateCheck(check)
    && (|| NewlyMeasured(g, check)
        || (&& Uncertifiable(g) && g.baseline.value.status.Some?
            && check in g.baseline.value.status.value && g.baseline.value.status.value[check] == NotRun))
  }

  /** Between and beyond ECMAScript's white space and line terminators. */
  ghost predicate Visible(c: char) {
    var code := c as int;
    || code < 9 || 13 < code < 32 || 32 < code < 0xA0 || 0xA0 < code < 0x1680 || 0x1680 < code < 0x2000
    || 0x200A < code < 0x2028 || 0x2029 < code < 0x202F || 0x202F < code < 0x205F || 0x205F < code < 0x3000
    || 0x3000 < code < 0xFEFF || 0xFEFF < code
  }

  /** The start commit is some text that is not all white space. */
  ghost predicate HasStartCommit(i: Input) {
    i.startCommit.Some? && exists k :: 0 <= k < |i.startCommit.value| && Visible(i.startCommit.value[k])
  }

  ghost predicate SweepClean(i: Input) {
    HasStartCommit(i) ==>
      && i.sweep.symbols.Some? && i.sweep.files.Some?
      && (i.sweep.symbols.value == 0 ||
          (i.sweep.files.value > 0 && i.sweep.replayed && i.sweep.typechecked && i.sweep.selfIntroduced == 0))
  }

  ghost predicate SweepFoundBreak(i: Input) {
    && HasStartCommit(i)
    && i.sweep.symbols.Some? && i.sweep.files.Some? && i.sweep.symbols.value > 0 && i.sweep.files.value > 0
    && i.sweep.replayed && i.sweep.typechecked && i.sweep.selfIntroduced > 0
  }

  /** Entries of the history that are not empty. */
  ghost function Present(history: seq<Option<HistoryEntry>>): nat {
    if history == [] then 0 else (if history[0].Some? then 1 else 0) + Present(history[1..])
  }

  /** As many entries as asked for, and at least one, with a score among them. */
  ghost predicate ScoredHistory(i: Input) {
    && Present(i.history) >= 1
    && (i.minIterations.Some? ==> Present(i.history) >= i.minIterations.value)
    && exists k :: 0 <= k < |i.history| && i.history[k].Some? && i.history[k].value.score.Some?
  }

  ghost predicate Evidence(i: Input) {
    && i.signal.Some?
    && !GateRegressed(i.gate)
    && SweepClean(i)
    && (i.metric == "none" || ScoredHistory(i))
  }

  /** Everything but a long enough, scored history. */
  ghost predicate Unscored(i: Input) {
    i.signal.Some? && !GateRegressed(i.gate) && SweepClean(i) && i.metric != "none" && !ScoredHistory(i)
  }

  lemma GateChecksAre(check: string)
    ensures check in GATE_CHECKS <==> GateCheck(check)
  {
    assert GATE_CHECKS[0] == "typecheck" && GATE_CHECKS[1] == "lint" && GATE_CHECKS[2] == "tests";
  }

  lemma UndisclosedIs(g: GateInput)
    ensures forall c :: c in Undisclosed(g) <==> GateCheck(c) && NewlyMeasured(g, c)
  {
    forall c ensures c in Undisclosed(g) <==> GateCheck(c) && NewlyMeasured(g, c) {
      GateChecksAre(c);
    }
  }

  lemma {:induction false} PresentIsKept(history: seq<Option<HistoryEntry>>)
    ensures |Filter(history, (e: Option<HistoryEntry>) => e.Some?)| == Present(history)
  {
    if history != [] {
      PresentIsKept(history[1..]);
    }
  }

  lemma HistoryFindings(i: Input)
    ensures EnoughHistory(i.history, i.minIterations) <==> ScoredHistory(i)
  {
    PresentIsKept(i.history);
    var kept := Filter(i.history, (e: Option<HistoryEntry>) => e.Some?);
    if k :| 0 <= k < |i.history| && i.history[k].Some? && i.history[k].value.score.Some? {
      assert i.history[k] in kept;
    }
    if k :| 0 <= k < |kept| && kept[k].Some? && kept[k].value.score.Some? {
      assert kept[k] in i.history;
    }
  }

  lemma GateFindings(mv: Microverse, g: GateInput)
    requires g.enabled && g.commits
    ensures RunChangedGate(mv, g).0.regressions == mv.regressions + if GateRegressed(g) then 1 else 0
    ensures RunChangedGate(mv, g).1 == Uncertifiable(g)
    ensures RunChangedGate(mv, g).0.stalls ==
            mv.stalls + if GateRegressed(g) && !g.baselineFile && !g.recaptured then 1 else 0
    ensures RunChangedGate(mv, g).0.warned == mv.warned
  {
    UndisclosedIs(g);
    var unmeasured := Undisclosed(g);
    var failures := Filter(g.result.failures, (f: Failure) => f.check !in unmeasured);
    assert unmeasured == [] <==> forall c :: GateCheck(c) ==> !NewlyMeasured(g, c) by {
      if unmeasured != [] {
        assert unmeasured[0] in unmeasured;
      }
    }
    if failures != [] {
      assert failures[0] in failures;
    }
    if f :| f in g.result.failures && (GateCheck(f.check) ==> !NewlyMeasured(g, f.check)) {
      assert f in failures;
    }
  }

  lemma HookFindings(mv: Microverse, i: Input)
    ensures RunGateHook(mv, i).0.regressions == mv.regressions + if GateRegressed(i.gate) then 1 else 0
    ensures RunGateHook(mv, i).1 == (i.gate.enabled && i.gate.commits && Uncertifiable(i.gate))
    ensures RunGateHook(mv, i).0.stalls ==
            mv.stalls + if GateRegressed(i.gate) && !i.gate.baselineFile && !i.gate.recaptured then 1 else 0
    ensures RunGateHook(mv, i).0.warned <==>
            mv.warned || mv.regressions + (if GateRegressed(i.gate) then 1 else 0) > i.warnAbove
  {
    if i.gate.enabled && i.gate.commits {
      GateFindings(mv, i.gate);
    }
  }

  /** Converged exactly when there is positive evidence on every axis. */
  lemma ConvergedIffEvidence(mv: Microverse, i: Input)
    ensures HandleWorkerManagedIteration(mv, i).converged <==> Evidence(i)
    ensures HandleWorkerManagedIteration(mv, i).judgeUnreachable <==> Unscored(i)
  {
    HookFindings(mv, i);
    SweepArmed(i);
    HistoryFindings(i);
    hide RunGateHook, GateRegressed, EnoughHistory, ScoredHistory, Armed, HasStartCommit;
  }

  lemma SweepArmed(i: Input)
    ensures Armed(i.startCommit) <==> HasStartCommit(i)
  {
  }

  /** Withheld exactly when the worker signalled and the gate or the sweep stood in the way. */
  lemma WithheldIffBlocked(mv: Microverse, i: Input)
    ensures var r := HandleWorkerManagedIteration(mv, i);
            && ((r.reason == WITHHELD_REASON && !r.converged)
                <==> i.signal.Some? && (GateRegressed(i.gate) || !SweepClean(i)))
            && (r.selfRedOpen <==>
                i.signal.Some? && if GateRegressed(i.gate) then Uncertifiable(i.gate) else SweepFoundBreak(i))
  {
    HookFindings(mv, i);
    SweepArmed(i);
    hide RunGateHook, EnoughHistory, Armed, HasStartCommit;
  }

  /** What the iteration answers for: the worker's own words only with evidence on every axis. */
  lemma ReasonIs(mv: Microverse, i: Input)
    ensures HandleWorkerManagedIteration(mv, i).reason ==
            if i.signal.None? then "no reason"
            else if GateRegressed(i.gate) || !SweepClean(i) then "per-iteration gate left unresolved regressions"
            else if i.metric != "none" && !ScoredHistory(i) then "judge unreachable"
            else i.signal.value
  {
    HookFindings(mv, i);
    SweepArmed(i);
    HistoryFindings(i);
    hide RunGateHook, GateRegressed, EnoughHistory, ScoredHistory, Armed, HasStartCommit;
  }

  ghost predicate Regressed(i: Input) {
    GateRegressed(i.gate) || (i.signal.Some? && SweepFoundBreak(i))
  }

  /** One iteration moves the regression counter by one or not at all, and says which. */
  lemma RegressionStep(mv: Microverse, i: Input)
    ensures HandleWorkerManagedIteration(mv, i).mv.regressions == mv.regressions + if Regressed(i) then 1 else 0
  {
    HookFindings(mv, i);
    SweepFindings(i);
    hide RunGateHook, GateRegressed, EnoughHistory, Armed, SweepFoundBreak;
  }

  /** Strict mode alone charges a stall: a gate that regressed with no baseline on disk and none captured anew. */
  ghost predicate Stalled(i: Input) {
    GateRegressed(i.gate) && !i.gate.baselineFile && !i.gate.recaptured
  }

  /** One iteration moves the stall counter by one or not at all, and raises the warning above its threshold. */
  lemma StallStep(mv: Microverse, i: Input)
    ensures HandleWorkerManagedIteration(mv, i).mv.stalls == mv.stalls + if Stalled(i) then 1 else 0
    ensures HandleWorkerManagedIteration(mv, i).mv.warned <==>
            mv.warned || mv.regressions + (if GateRegressed(i.gate) then 1 else 0) > i.warnAbove
  {
    HookFindings(mv, i);
    hide RunGateHook, GateRegressed, EnoughHistory, Armed;
  }

  lemma SweepFindings(i: Input)
    ensures var sweep := RunInterfaceChangeSweep(i.sweep);
            Armed(i.startCommit) && sweep.Measured? && sweep.selfIntroduced > 0 <==> SweepFoundBreak(i)
  {
    SweepArmed(i);
  }

  // ---- Runs of worker-managed iterations ----

  datatype ExitReason = Converged | NoProgress | Error | JudgeUnreachable | AnatomyNonConvergent
  datatype RunState = RunState(mv: Microverse, counters: P.Counters)

  function EventOf(r: WorkerResult, i: Input): P.Event {
    if r.reason == WITHHELD_REASON then P.Withheld(r.selfRedOpen, i.head, i.capGate) else P.NotWithheld
  }

  function ExitOf(e: P.Exit): ExitReason {
    match e
    case Converged => Converged
    case NoProgress => NoProgress
    case Error => Error
  }

  function HandleWorkerMode(st: RunState, i: Input): (RunState, Option<ExitReason>) {
    var r := HandleWorkerManagedIteration(st.mv, i);
    if r.judgeUnreachable then (st.(mv := r.mv), Some(JudgeUnreachable))
    else if r.converged then (st.(mv := r.mv), Some(Converged))
    else
      var (counters, exit) := P.Step(st.counters.(capUnmeasured := r.mv.capUnmeasured), EventOf(r, i));
      var st' := RunState(r.mv.(capUnmeasured := counters.capUnmeasured), counters);
      if exit.Some? then (st', Some(ExitOf(exit.value)))
      else if i.stallLimit.Some? && r.mv.stalls >= i.stallLimit.value then (st', Some(Error))
      else if i.nonConvergent then (st', Some(AnatomyNonConvergent))
      else (st', None)
  }

  /** The run's state object, rewritten in place, and its deferral context. */
  class WorkerRun {
    var mv: Microverse
    const deferral: P.DeferralContext

    ghost function View(): RunState
      reads this, deferral
    {
      RunState(mv, deferral.View())
    }

    constructor (mv: Microverse)
      ensures View().mv == mv && View().counters == P.INITIAL && fresh(deferral)
    {
      this.mv := mv;
      this.deferral := new P.DeferralContext();
    }

    method Iterate(i: Input) returns (exit: Option<ExitReason>)
      modifies this, deferral
      ensures (View(), exit) == HandleWorkerMode(old(View()), i)
    {
      var r := HandleWorkerManagedIteration(mv, i);
      mv := r.mv;
      if r.judgeUnreachable {
        return Some(JudgeUnreachable);
      }
      if r.converged {
        return Some(Converged);
      }
      deferral.capUnmeasured := mv.capUnmeasured;
      var deferralExit := deferral.HandlePostConvergenceGateDeferral(EventOf(r, i));
      mv := mv.(capUnmeasured := deferral.capUnmeasured);
      if deferralExit.Some? {
        return Some(ExitOf(deferralExit.value));
      }
      if i.stallLimit.Some? && r.mv.stalls >= i.stallLimit.value {
        return Some(Error);
      }
      if i.nonConvergent {
        return Some(AnatomyNonConvergent);
      }
      return None;
    }
  }

  function RunOf(start: Microverse, inputs: seq<Input>): RunState {
    if inputs == [] then RunState(start, P.INITIAL)
    else HandleWorkerMode(RunOf(start, inputs[..|inputs| - 1]), inputs[|inputs| - 1]).0
  }

  function ExitAt(start: Microverse, inputs: seq<Input>): Option<ExitReason>
    requires inputs != []
  {
    HandleWorkerMode(RunOf(start, inputs[..|inputs| - 1]), inputs[|inputs| - 1]).1
  }

  /** No iteration but possibly the last ended the run. */
  ghost predicate Live(start: Microverse, inputs: seq<Input>) {
    forall k :: 0 < k < |inputs| ==> ExitAt(start, inputs[..k]).None?
  }

  /** What the deferral protocol sees of a run: a function of the inputs, not of the state. */
  ghost function Blocked(i: Input): P.Event {
    if i.signal.Some? && (GateRegressed(i.gate) || !SweepClean(i))
    then P.Withheld(if GateRegressed(i.gate) then Uncertifiable(i.gate) else SweepFoundBreak(i), i.head, i.capGate)
    else P.NotWithheld
  }

  ghost function Events(inputs: seq<Input>): (h: seq<P.Event>)
    ensures |h| == |inputs|
    ensures forall k :: 0 <= k < |h| ==> h[k] == Blocked(inputs[k])
  {
    seq(|inputs|, k requires 0 <= k < |inputs| => Blocked(inputs[k]))
  }

  /** The counters without the disclosures, which the gate also adds to between steps. */
  function Core(c: P.Counters): P.Counters {
    c.(capUnmeasured := [])
  }

  lemma StepOnCore(c: P.Counters, d: P.Counters, e: P.Event)
    requires Core(c) == Core(d)
    ensures Core(P.Step(c, e).0) == Core(P.Step(d, e).0) && P.Step(c, e).1 == P.Step(d, e).1
  {
  }

  lemma IterationEvent(mv: Microverse, i: Input)
    requires !HandleWorkerManagedIteration(mv, i).converged
    ensures EventOf(HandleWorkerManagedIteration(mv, i), i) == Blocked(i)
  {
    WithheldIffBlocked(mv, i);
  }

  lemma {:induction false} RunFollowsEvents(start: Microverse, inputs: seq<Input>)
    requires Live(start, inputs) && (inputs != [] ==> ExitAt(start, inputs).None?)
    ensures Core(RunOf(start, inputs).counters) == Core(P.Run(Events(inputs)))
  {
    if inputs != [] {
      var prior, i := inputs[..|inputs| - 1], inputs[|inputs| - 1];
      LivePrefix(start, inputs);
      RunFollowsEvents(start, prior);
      var st := RunOf(start, prior);
      var r := HandleWorkerManagedIteration(st.mv, i);
      assert !r.converged;
      IterationEvent(st.mv, i);
      StepOnCore(st.counters.(capUnmeasured := r.mv.capUnmeasured), P.Run(Events(prior)), Blocked(i));
      assert Events(inputs)[..|inputs| - 1] == Events(prior);
    }
  }

  /** A run that goes on is one in which the deferral protocol asked for no exit. */
  lemma GoingOnMeansNoProtocolExit(start: Microverse, inputs: seq<Input>)
    requires inputs != [] && Live(start, inputs) && ExitAt(start, inputs).None?
    ensures P.ExitAt(Events(inputs)).None?
  {
    var prior, i := inputs[..|inputs| - 1], inputs[|inputs| - 1];
    LivePrefix(start, inputs);
    RunFollowsEvents(start, prior);
    var st := RunOf(start, prior);
    var r := HandleWorkerManagedIteration(st.mv, i);
    IterationEvent(st.mv, i);
    assert Events(inputs)[..|inputs| - 1] == Events(prior);
    StepOnCore(st.counters.(capUnmeasured := r.mv.capUnmeasured), P.Run(Events(prior)), Blocked(i));
  }

  // ---- The exit of every iteration, read off the inputs ----

  ghost function StalledCount(inputs: seq<Input>): nat {
    if inputs == [] then 0
    else StalledCount(inputs[..|inputs| - 1]) + if Stalled(inputs[|inputs| - 1]) then 1 else 0
  }

  /** Over any run the stall counter is its start plus the iterations whose gate regressed in strict mode. */
  lemma {:induction false} StallsCountStrictRegressions(start: Microverse, inputs: seq<Input>)
    ensures RunOf(start, inputs).mv.stalls == start.stalls + StalledCount(inputs)
  {
    hide HandleWorkerManagedIteration, Stalled, P.Step;
    if inputs != [] {
      StallsCountStrictRegressions(start, inputs[..|inputs| - 1]);
      StallStep(RunOf(start, inputs[..|inputs| - 1]).mv, inputs[|inputs| - 1]);
    }
  }

  /** What the last iteration of a run ends it with, by the order of the runner's guards. */
  ghost function ExitFromInputs(start: Microverse, inputs: seq<Input>): Option<ExitReason>
    requires inputs != []
  {
    var last, withheld := inputs[|inputs| - 1], P.HistoryExit(Events(inputs));
    if Evidence(last) then Some(Converged)
    else if Unscored(last) then Some(JudgeUnreachable)
    else if withheld == Some(P.Converged) then Some(Converged)
    else if withheld == Some(P.NoProgress) then Some(NoProgress)
    else if withheld == Some(P.Error) then Some(Error)
    else if last.stallLimit.Some? && start.stalls + StalledCount(inputs) >= last.stallLimit.value then Some(Error)
    else if last.nonConvergent then Some(AnatomyNonConvergent)
    else None
  }

  lemma ProtocolExitFromInputs(start: Microverse, inputs: seq<Input>)
    requires inputs != [] && Live(start, inputs)
    ensures var i, st := inputs[|inputs| - 1], RunOf(start, inputs[..|inputs| - 1]);
            var r := HandleWorkerManagedIteration(st.mv, i);
            !r.converged ==>
              P.Step(st.counters.(capUnmeasured := r.mv.capUnmeasured), EventOf(r, i)).1 == P.HistoryExit(Events(inputs))
  {
    var prior, i := inputs[..|inputs| - 1], inputs[|inputs| - 1];
    LivePrefix(start, inputs);
    RunFollowsEvents(start, prior);
    var st := RunOf(start, prior);
    var r := HandleWorkerManagedIteration(st.mv, i);
    if !r.converged {
      IterationEvent(st.mv, i);
      assert Events(inputs)[..|inputs| - 1] == Events(prior);
      StepOnCore(st.counters.(capUnmeasured := r.mv.capUnmeasured), P.Run(Events(prior)), Blocked(i));
      P.ExitRefinesHistory(Events(inputs));
    }
  }

  /** The exits of one step, in terms of the worker's result and of the protocol's exit. */
  lemma ModeExits(st: RunState, i: Input, r: WorkerResult, protocol: Option<P.Exit>)
    requires r == HandleWorkerManagedIteration(st.mv, i)
    requires !r.converged ==> P.Step(st.counters.(capUnmeasured := r.mv.capUnmeasured), EventOf(r, i)).1 == protocol
    ensures HandleWorkerMode(st, i).1 ==
            if r.judgeUnreachable then Some(JudgeUnreachable)
            else if r.converged then Some(Converged)
            else if protocol == Some(P.Converged) then Some(Converged)
            else if protocol == Some(P.NoProgress) then Some(NoProgress)
            else if protocol == Some(P.Error) then Some(Error)
            else if i.stallLimit.Some? && r.mv.stalls >= i.stallLimit.value then Some(Error)
            else if i.nonConvergent then Some(AnatomyNonConvergent)
            else None
  {
    hide HandleWorkerManagedIteration, P.Step;
  }

  /** When a run ends, and with what, is a function of the inputs of its iterations. */
  lemma RunExitIsFromInputs(start: Microverse, inputs: seq<Input>)
    requires inputs != [] && Live(start, inputs)
    ensures ExitAt(start, inputs) == ExitFromInputs(start, inputs)
  {
    hide HandleWorkerManagedIteration, HandleWorkerMode, P.Step, P.HistoryExit, EventOf, Evidence, Unscored, Stalled, Live;
    var prior, i := inputs[..|inputs| - 1], inputs[|inputs| - 1];
    var st := RunOf(start, prior);
    ProtocolExitFromInputs(start, inputs);
    ConvergedIffEvidence(st.mv, i);
    EvidenceIsNotUnscored(i);
    StallsCountStrictRegressions(start, prior);
    StallStep(st.mv, i);
    ModeExits(st, i, HandleWorkerManagedIteration(st.mv, i), P.HistoryExit(Events(inputs)));
  }

  lemma EvidenceIsNotUnscored(i: Input)
    ensures !(Evidence(i) && Unscored(i))
  {
    hide GateRegressed, SweepClean, ScoredHistory;
  }

  /** The three ends that are not convergence, each from the inputs. */
  lemma RunEndsWithoutConverging(start: Microverse, inputs: seq<Input>)
    requires inputs != [] && Live(start, inputs)
    ensures var last, h, exit := inputs[|inputs| - 1], Events(inputs), ExitAt(start, inputs);
            && (exit == Some(NoProgress) <==>
                  h[|h| - 1].Withheld? && last.capGate == P.Answered(P.Red)
                  && P.SelfRedSeen(h) && P.SettledFor(P.RefusalReads(h), 3))
            && (exit == Some(Error) <==>
                  || (h[|h| - 1].Withheld? && last.capGate == P.Answered(P.Red) && !P.SelfRedSeen(h) && P.Streak(h) >= 3)
                  || (&& !Evidence(last) && !Unscored(last) && P.HistoryExit(h).None?
                      && last.stallLimit.Some? && start.stalls + StalledCount(inputs) >= last.stallLimit.value))
            && (exit == Some(AnatomyNonConvergent) <==>
                  && !Evidence(last) && !Unscored(last) && P.HistoryExit(h).None? && last.nonConvergent
                  && (last.stallLimit.Some? ==> start.stalls + StalledCount(inputs) < last.stallLimit.value))
  {
    hide ExitAt, Evidence, Unscored, Live, Blocked, P.SelfRedSeen, P.SettledFor, P.RefusalReads, P.Streak, StalledCount;
    RunExitIsFromInputs(start, inputs);
    EvidenceIsNotBlocked(inputs[|inputs| - 1]);
    BlockedSeesGate(inputs[|inputs| - 1]);
  }

  lemma BlockedSeesGate(i: Input)
    ensures Blocked(i).Withheld? ==> Blocked(i).gate == i.capGate && Blocked(i).head == i.head
  {
  }

  lemma EvidenceIsNotBlocked(i: Input)
    ensures Evidence(i) || Unscored(i) ==> Blocked(i).NotWithheld?
  {
  }

  /** Whatever blocks it, a run whose readable HEAD stands still ends by the fifth blocked iteration in a row. */
  lemma BlockedRunEndsByFifth(start: Microverse, h: seq<Input>, w: seq<Input>, sha: P.Sha)
    requires Live(start, h) && (h != [] ==> ExitAt(start, h).None? && Blocked(h[|h| - 1]).NotWithheld?)
    requires |w| >= 5
    requires forall i :: 0 <= i < |w| ==> Blocked(w[i]).Withheld? && w[i].head == P.Read(sha)
    ensures exists k :: 0 < k <= 5 && ExitAt(start, h + w[..k]).Some?
  {
    P.WithholdingEndsByFifth(Events(h), Events(w), sha);
    var j :| 0 < j <= 5 && j <= |Events(w)| && P.ExitAt(Events(h) + Events(w)[..j]).Some?;
    EventsConcat(h, w, j);
    if k :| 0 < k <= j && ExitAt(start, h + w[..k]).Some? {
    } else {
      LiveThrough(start, h, w, j);
      GoingOnMeansNoProtocolExit(start, h + w[..j]);
    }
  }

  /** Nothing but the deferral protocol would end the run in its last iteration. */
  ghost predicate NoOtherExit(start: Microverse, inputs: seq<Input>)
    requires inputs != []
  {
    var i := inputs[|inputs| - 1];
    && !i.nonConvergent
    && (i.stallLimit.Some? ==> start.stalls + StalledCount(inputs) < i.stallLimit.value)
  }

  lemma WithheldGoesOn(start: Microverse, inputs: seq<Input>)
    requires inputs != [] && Live(start, inputs)
    requires Blocked(inputs[|inputs| - 1]).Withheld? && NoOtherExit(start, inputs)
    requires P.ExitAt(Events(inputs)).None?
    ensures ExitAt(start, inputs).None?
  {
    hide ExitAt, Evidence, Unscored, Blocked, Live, P.HistoryExit, P.ExitAt, StalledCount;
    P.ExitRefinesHistory(Events(inputs));
    RunExitIsFromInputs(start, inputs);
    EvidenceIsNotBlocked(inputs[|inputs| - 1]);
  }

  /** Blocked iterations, the first opening a self-introduced red, each over a HEAD newly read. */
  ghost predicate MovesOn(h: seq<Input>, w: seq<Input>) {
    && (forall i :: 0 <= i < |w| ==> Blocked(w[i]).Withheld? && w[i].head.Read?)
    && (forall i :: 0 < i < |w| ==> w[i].head != w[i - 1].head)
    && (w != [] ==> Blocked(w[0]).Withheld? && Blocked(w[0]).selfRed
                    && P.LastReadable(P.RefusalReads(Events(h))) != Some(w[0].head.sha))
  }

  lemma ProtocolGoesOn(h: seq<Input>, w: seq<Input>, k: nat)
    requires h != [] ==> Blocked(h[|h| - 1]).NotWithheld?
    requires 0 < k <= |w| && MovesOn(h, w)
    ensures P.ExitAt(Events(h + w[..k])).None?
  {
    P.WithheldWhileHeadMoves(Events(h), Events(w), k);
    EventsConcat(h, w, k);
  }

  /**
   * The bound is keyed on HEAD here too: with a self-introduced red opened at once, HEAD read anew at every
   * iteration and no other reason to stop, a blocked run goes on for ever.
   */
  lemma {:induction false} BlockedRunGoesOnWhileHeadMoves(start: Microverse, h: seq<Input>, w: seq<Input>, k: nat)
    requires Live(start, h) && (h != [] ==> ExitAt(start, h).None? && Blocked(h[|h| - 1]).NotWithheld?)
    requires k <= |w| && MovesOn(h, w)
    requires forall j :: 0 < j <= k ==> NoOtherExit(start, h + w[..j])
    ensures forall j :: 0 < j <= k ==> ExitAt(start, h + w[..j]).None?
  {
    hide ExitAt, NoOtherExit, Live, Blocked;
    if k > 0 {
      BlockedRunGoesOnWhileHeadMoves(start, h, w, k - 1);
      LiveThrough(start, h, w, k);
      ProtocolGoesOn(h, w, k);
      var inputs := h + w[..k];
      assert inputs[|inputs| - 1] == w[k - 1];
      WithheldGoesOn(start, inputs);
    }
  }

  /** Live up to the last of `k` further iterations, when none before it exits. */
  lemma LiveThrough(start: Microverse, h: seq<Input>, w: seq<Input>, k: nat)
    requires 0 < k <= |w| && Live(start, h) && (h != [] ==> ExitAt(start, h).None?)
    requires forall j :: 0 < j < k ==> ExitAt(start, h + w[..j]).None?
    ensures Live(start, h + w[..k])
  {
    var inputs := h + w[..k];
    forall j | 0 < j < |inputs| ensures ExitAt(start, inputs[..j]).None? {
      if j <= |h| {
        assert inputs[..j] == h[..j];
        assert h[..|h|] == h;
      } else {
        assert inputs[..j] == h + w[..j - |h|];
      }
    }
  }

  /** An iteration whose sweep finds a break of its own making, over a HEAD never seen before; the cap gate is green. */
  function BreakingInput(n: nat): Input {
    Input(Some("done"),
          GateInput(false, true, true, false, GateResult(false, [], None), None, false),
          Some("abc"), SweepInput(Some(1), Some(1), true, true, 1),
          "none", [], None, 3, Some(5), false,
          P.Read(Decimal(n)), P.Answered(P.Green))
  }

  function BreakingRun(n: nat): (w: seq<Input>)
    ensures |w| == n && forall i :: 0 <= i < n ==> w[i] == BreakingInput(i)
  {
    seq(n, i requires 0 <= i < n => BreakingInput(i))
  }

  lemma BreakingIsBlocked(n: nat)
    ensures Blocked(BreakingInput(n)) == P.Withheld(true, P.Read(Decimal(n)), P.Answered(P.Green))
  {
    assert !Blank("abc") by {
      assert "abc"[0] == 'a';
    }
  }

  lemma {:induction false} BreakingNeverStalls(n: nat)
    ensures StalledCount(BreakingRun(n)) == 0
  {
    if n > 0 {
      assert BreakingRun(n)[..n - 1] == BreakingRun(n - 1);
      BreakingNeverStalls(n - 1);
    }
  }

  /** A worker that keeps committing breaks and signalling "done" is never stopped by the runner's own bounds. */
  lemma BreakingRunNeverExits(start: Microverse, n: nat)
    requires n > 0 && start.stalls < 5
    ensures ExitAt(start, BreakingRun(n)).None?
  {
    var w := BreakingRun(n);
    forall i | 0 < i < n ensures w[i].head != w[i - 1].head {
      P.NumeralsDiffer(i);
    }
    forall i: nat | i < n ensures Blocked(w[i]) == P.Withheld(true, P.Read(Decimal(i)), P.Answered(P.Green)) {
      BreakingIsBlocked(i);
    }
    forall j | 0 < j <= n ensures NoOtherExit(start, [] + w[..j]) {
      assert [] + w[..j] == BreakingRun(j);
      BreakingNeverStalls(j);
    }
    assert P.RefusalReads(Events([])) == [];
    BlockedRunGoesOnWhileHeadMoves(start, [], w, n);
    assert [] + w[..n] == w;
  }

  lemma EventsConcat(h: seq<Input>, w: seq<Input>, j: nat)
    requires j <= |w|
    ensures Events(h + w[..j]) == Events(h) + Events(w)[..j]
  {
  }

  lemma LivePrefix(start: Microverse, inputs: seq<Input>)
    requires inputs != [] && Live(start, inputs)
    ensures Live(start, inputs[..|inputs| - 1])
    ensures |inputs| > 1 ==> ExitAt(start, inputs[..|inputs| - 1]).None?
  {
    var prior := inputs[..|inputs| - 1];
    forall k | 0 < k < |prior| ensures ExitAt(start, prior[..k]).None? {
      assert prior[..k] == inputs[..k];
    }
  }

  /**
   * A run of worker iterations ends "converged" only over evidence in its last iteration, or over a
   * withheld signal in it that a cap gate of that same iteration did not find red; and then, if a
   * self-introduced red is in view, only after three refusals with HEAD settled.
   */
  lemma RunConvergesOnlyOverEvidence(start: Microverse, inputs: seq<Input>)
    requires inputs != [] && Live(start, inputs) && ExitAt(start, inputs) == Some(Converged)
    ensures var last, h := inputs[|inputs| - 1], Events(inputs);
            && last.signal.Some?
            && (Evidence(last) ||
                (&& h[|h| - 1].Withheld?
                 && last.capGate != P.Answered(P.Red)
                 && (P.SelfRedSeen(h) || P.Streak(h) >= 3)
                 && (P.SelfRedSeen(h) ==> P.SettledFor(P.RefusalReads(h), 3))))
  {
    var prior, i := inputs[..|inputs| - 1], inputs[|inputs| - 1];
    var st := RunOf(start, prior);
    var r := HandleWorkerManagedIteration(st.mv, i);
    ConvergedIffEvidence(st.mv, i);
    if !r.converged {
      LivePrefix(start, inputs);
      RunFollowsEvents(start, prior);
      IterationEvent(st.mv, i);
      var h := Events(inputs);
      assert h[..|h| - 1] == Events(prior);
      StepOnCore(st.counters.(capUnmeasured := r.mv.capUnmeasured), P.Run(Events(prior)), Blocked(i));
      assert P.ExitAt(h) == Some(P.Converged);
      P.ConvergedIsGated(h);
    }
  }

  // ---- Disclosures over a run ----

  /** Nothing disclosed is taken back, and no repeat is added. */
  ghost predicate KeepsDisclosed(before: seq<string>, after: seq<string>) {
    && (forall x :: x in before ==> x in after)
    && (Distinct(before) ==> Distinct(after) && before <= after)
  }

  lemma DiscloseKeeps(known: seq<string>, checks: seq<string>)
    ensures KeepsDisclosed(known, P.Disclose(known, checks))
  {
    if Distinct(known) {
      P.DiscloseAdds(known, checks);
    }
    assert forall x :: x in known ==> x in known + checks;
  }

  lemma ChangedGateKeepsDisclosed(mv: Microverse, g: GateInput)
    ensures KeepsDisclosed(mv.capUnmeasured, RunChangedGate(mv, g).0.capUnmeasured)
  {
    var b := UsedBaseline(g);
    if b.Some? {
      DiscloseKeeps(mv.capUnmeasured, NotRunChecks(b.value));
    }
    DiscloseKeeps(mv.capUnmeasured, Undisclosed(g));
    hide P.Disclose, Undisclosed, NotRunChecks, KeepsDisclosed;
    assert KeepsDisclosed(mv.capUnmeasured, mv.capUnmeasured) by {
      NothingDisclosed(mv.capUnmeasured);
    }
  }

  lemma NothingDisclosed(known: seq<string>)
    ensures KeepsDisclosed(known, known)
  {
  }

  lemma GateKeepsDisclosed(mv: Microverse, i: Input)
    ensures KeepsDisclosed(mv.capUnmeasured, HandleWorkerManagedIteration(mv, i).mv.capUnmeasured)
  {
    ChangedGateKeepsDisclosed(mv, i.gate);
    NothingDisclosed(mv.capUnmeasured);
    hide RunChangedGate, KeepsDisclosed;
  }

  lemma StepKeepsDisclosed(c: P.Counters, e: P.Event)
    ensures KeepsDisclosed(c.capUnmeasured, P.Step(c, e).0.capUnmeasured)
  {
    if e.Withheld? && P.CapGateVerdict(e.gate).Unmeasured? {
      DiscloseKeeps(c.capUnmeasured, P.CapGateVerdict(e.gate).checks);
    }
  }

  lemma IterationKeepsDisclosed(st: RunState, i: Input)
    ensures KeepsDisclosed(st.mv.capUnmeasured, HandleWorkerMode(st, i).0.mv.capUnmeasured)
  {
    var r := HandleWorkerManagedIteration(st.mv, i);
    GateKeepsDisclosed(st.mv, i);
    StepKeepsDisclosed(st.counters.(capUnmeasured := r.mv.capUnmeasured), EventOf(r, i));
  }

  /** Over any run everything disclosed at its start stays disclosed, in its place and without repeats. */
  lemma {:induction false} RunKeepsDisclosed(start: Microverse, inputs: seq<Input>)
    ensures KeepsDisclosed(start.capUnmeasured, RunOf(start, inputs).mv.capUnmeasured)
  {
    if inputs != [] {
      RunKeepsDisclosed(start, inputs[..|inputs| - 1]);
      IterationKeepsDisclosed(RunOf(start, inputs[..|inputs| - 1]), inputs[|inputs| - 1]);
    }
  }

  lemma DiscloseMembers(known: seq<string>, checks: seq<string>)
    ensures forall x :: x in P.Disclose(known, checks) <==> x in known || x in checks
  {
    assert forall x :: x in known + checks <==> x in known || x in checks;
    if P.Unique(known + checks) == [] {
      assert forall x :: x in known + checks <==> x in P.Unique(known + checks);
    }
  }

  lemma NotRunAre(b: Baseline)
    ensures forall c :: c in NotRunChecks(b) <==>
              GateCheck(c) && b.status.Some? && c in b.status.value && b.status.value[c] == NotRun
  {
    forall c ensures c in NotRunChecks(b) <==>
                     GateCheck(c) && b.status.Some? && c in b.status.value && b.status.value[c] == NotRun
    {
      GateChecksAre(c);
    }
  }

  lemma ChangedGateDiscloses(mv: Microverse, g: GateInput)
    requires g.enabled && g.commits
    ensures forall x :: x in RunChangedGate(mv, g).0.capUnmeasured <==> x in mv.capUnmeasured || GateDiscloses(g, x)
  {
    hide Undisclosed, NotRunChecks, P.Disclose, NewlyMeasured, GateCheck;
    var b := UsedBaseline(g);
    UndisclosedIs(g);
    DiscloseMembers(mv.capUnmeasured, Undisclosed(g));
    if b.Some? {
      NotRunAre(b.value);
      DiscloseMembers(mv.capUnmeasured, NotRunChecks(b.value));
    }
    if Undisclosed(g) != [] {
      assert Undisclosed(g)[0] in Undisclosed(g);
    }
  }

  lemma GateDisclosesExactly(mv: Microverse, i: Input)
    ensures forall x :: x in HandleWorkerManagedIteration(mv, i).mv.capUnmeasured <==>
                        x in mv.capUnmeasured || GateDiscloses(i.gate, x)
  {
    hide RunChangedGate, Armed, EnoughHistory, RunInterfaceChangeSweep;
    if i.gate.enabled && i.gate.commits {
      ChangedGateDiscloses(mv, i.gate);
    }
    assert HandleWorkerManagedIteration(mv, i).mv.capUnmeasured == RunGateHook(mv, i).0.capUnmeasured;
  }

  lemma CapGateDiscloses(c: P.Counters, e: P.Event)
    requires e.Withheld?
    ensures forall x :: x in P.Step(c, e).0.capUnmeasured <==>
              x in c.capUnmeasured || (P.Step(c, e).1 == Some(P.Converged) && P.LeavesUnmeasured(e.gate, x))
  {
    if P.CapGateVerdict(e.gate).Unmeasured? {
      DiscloseMembers(c.capUnmeasured, P.CapGateVerdict(e.gate).checks);
    }
  }

  /** The last iteration converges over a withheld signal, not over evidence. */
  ghost predicate ForceConverges(start: Microverse, inputs: seq<Input>)
    requires inputs != []
  {
    ExitAt(start, inputs) == Some(Converged) && !Evidence(inputs[|inputs| - 1])
  }

  /**
   * An iteration discloses exactly what its own gate discloses and, when it converges over a withheld signal,
   * what its cap gate left unmeasured.
   */
  lemma RunDisclosesExactly(start: Microverse, inputs: seq<Input>)
    requires inputs != []
    ensures var before, last := RunOf(start, inputs[..|inputs| - 1]).mv.capUnmeasured, inputs[|inputs| - 1];
            forall x :: x in RunOf(start, inputs).mv.capUnmeasured <==>
              || x in before || GateDiscloses(last.gate, x)
              || (ForceConverges(start, inputs) && P.LeavesUnmeasured(last.capGate, x))
  {
    var st, i := RunOf(start, inputs[..|inputs| - 1]), inputs[|inputs| - 1];
    var r := HandleWorkerManagedIteration(st.mv, i);
    ConvergedIffEvidence(st.mv, i);
    GateDisclosesExactly(st.mv, i);
    var c, e := st.counters.(capUnmeasured := r.mv.capUnmeasured), EventOf(r, i);
    if e.Withheld? {
      CapGateDiscloses(c, e);
    } else {
      assert P.Step(c, e).0.capUnmeasured == c.capUnmeasured && P.Step(c, e).1.None?;
    }
    hide HandleWorkerManagedIteration, P.Step, Evidence, Unscored, GateDiscloses, P.LeavesUnmeasured;
  }

  /** A run that converges over a withheld signal and a cap gate that threw has typecheck and lint disclosed. */
  lemma ThrownCapGateIsDisclosed(start: Microverse, inputs: seq<Input>)
    requires inputs != [] && Live(start, inputs) && inputs[|inputs| - 1].capGate == P.Threw
    ensures ExitAt(start, inputs) != Some(NoProgress)
    ensures ExitAt(start, inputs) == Some(Error) ==>
              inputs[|inputs| - 1].stallLimit.Some? &&
              start.stalls + StalledCount(inputs) >= inputs[|inputs| - 1].stallLimit.value
    ensures ForceConverges(start, inputs) ==>
              "typecheck" in RunOf(start, inputs).mv.capUnmeasured && "lint" in RunOf(start, inputs).mv.capUnmeasured
  {
    hide ExitAt, RunOf, Live, StalledCount, ForceConverges, P.HistoryExit, P.SelfRedSeen, P.SettledFor, P.RefusalReads, P.Streak;
    RunEndsWithoutConverging(start, inputs);
    RunDisclosesExactly(start, inputs);
    assert P.LeavesUnmeasured(P.Threw, "typecheck") && P.LeavesUnmeasured(P.Threw, "lint");
  }

  // ---- Regressions over a run ----

  ghost function RegressedCount(inputs: seq<Input>): nat {
    if inputs == [] then 0
    else RegressedCount(inputs[..|inputs| - 1]) + if Regressed(inputs[|inputs| - 1]) then 1 else 0
  }

  /** Over any run the regression counter is its start plus the iterations that regressed: it never falls. */
  lemma {:induction false} RegressionsCountIterations(start: Microverse, inputs: seq<Input>)
    ensures RunOf(start, inputs).mv.regressions == start.regressions + RegressedCount(inputs)
  {
    if inputs != [] {
      RegressionsCountIterations(start, inputs[..|inputs| - 1]);
      RegressionStep(RunOf(start, inputs[..|inputs| - 1]).mv, inputs[|inputs| - 1]);
    }
  }
}
