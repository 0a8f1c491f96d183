/**
 * Two waits on a spawned process, each racing timers against the process's `close` and `error`
 * events. Time is in milliseconds. Events may come in any order; a timer fires only while armed,
 * not before its deadline, and time does not pass a deadline by more than `late` unfired.
 */
module Settlement {
  import opened Wrappers

  datatype Signal = Sigterm | Sigkill
  type Timer = Option<nat>

  predicate Due(t: Timer, now: nat) {
    t.Some? && t.value <= now
  }

  predicate MayPass(t: Timer, now: nat, late: nat) {
    t.Some? ==> now <= t.value + late
  }

  /** SIGTERM at or after the deadline, then at most one SIGKILL, a grace period later. */
  predicate Escalation(signals: seq<(Signal, nat)>, killAt: Timer, now: nat, timeoutMs: nat, graceMs: nat) {
    && |signals| <= 2
    && (|signals| >= 1 ==> signals[0].0 == Sigterm && timeoutMs <= signals[0].1 <= now)
    && (|signals| == 2 ==> signals[1].0 == Sigkill && signals[0].1 + graceMs <= signals[1].1 <= now)
    && (killAt.Some? ==> |signals| == 1 && killAt.value == signals[0].1 + graceMs)
  }

  // ---- The jar manager's wait: task timeout, kill escalation and hang guard ----

  const JAR_KILL_GRACE_MS: nat := 2000
  const HANG_GUARD_MS: nat := 30_000

  datatype JarOutcome = JarOutcome(ok: bool, enoent: bool)

  datatype Jar = Jar(now: nat, timeoutAt: Timer, killAt: Timer, hangAt: Timer,
                     settled: bool, resolutions: seq<JarOutcome>, signals: seq<(Signal, nat)>)

  datatype JarEvent = JarTick(to: nat) | JarTimeout | JarKill | JarHang | JarClose(ok: bool) | JarError(enoent: bool)

  function JarStart(timeoutMs: nat): Jar {
    Jar(0, Some(timeoutMs), None, Some(timeoutMs + HANG_GUARD_MS), false, [], [])
  }

  predicate JarEnabled(s: Jar, e: JarEvent, late: nat) {
    match e
    case JarTick(to) =>
      s.now <= to && MayPass(s.timeoutAt, to, late) && MayPass(s.killAt, to, late) && MayPass(s.hangAt, to, late)
    case JarTimeout => Due(s.timeoutAt, s.now)
    case JarKill => Due(s.killAt, s.now)
    case JarHang => Due(s.hangAt, s.now)
    case _ => true
  }

  /** The outcome an event would settle the wait with. */
  function Settling(e: JarEvent): Option<JarOutcome> {
    match e
    case JarHang => Some(JarOutcome(false, false))
    case JarClose(ok) => Some(JarOutcome(ok, false))
    case JarError(enoent) => Some(JarOutcome(false, enoent))
    case _ => None
  }

  function JarSettle(s: Jar, o: JarOutcome): Jar {
    if s.settled then s
    else s.(settled := true, timeoutAt := None, killAt := None, hangAt := None, resolutions := s.resolutions + [o])
  }

  function JarStep(s: Jar, e: JarEvent): Jar {
    match e
    case JarTick(to) => s.(now := to)
    case JarTimeout => s.(timeoutAt := None, killAt := Some(s.now + JAR_KILL_GRACE_MS), signals := s.signals + [(Sigterm, s.now)])
    case JarKill => s.(killAt := None, signals := s.signals + [(Sigkill, s.now)])
    case JarHang => JarSettle(s.(hangAt := None), Settling(e).value)
    case _ => JarSettle(s, Settling(e).value)
  }

  /** The promise's closure: its timers, its `settled` flag and what it did to the process. */
  class JarWait {
    var now: nat
    var timeoutAt: Timer
    var killAt: Timer
    var hangAt: Timer
    var settled: bool
    var resolutions: seq<JarOutcome>
    var signals: seq<(Signal, nat)>

    ghost function View(): Jar
      reads this
    {
      Jar(now, timeoutAt, killAt, hangAt, settled, resolutions, signals)
    }

    constructor (timeoutMs: nat)
      ensures View() == JarStart(timeoutMs)
    {
      now, settled, resolutions, signals := 0, false, [], [];
      timeoutAt, killAt, hangAt := Some(timeoutMs), None, Some(timeoutMs + HANG_GUARD_MS);
    }

    method Settle(outcome: JarOutcome)
      modifies this
      ensures View() == JarSettle(old(View()), outcome)
    {
      if settled {
        return;
      }
      settled := true;
      timeoutAt, killAt, hangAt := None, None, None;
      resolutions := resolutions + [outcome];
    }

    method Handle(e: JarEvent)
      modifies this
      ensures View() == JarStep(old(View()), e)
    {
      match e
      case JarTick(to) =>
        now := to;
      case JarTimeout =>
        timeoutAt := None;
        signals := signals + [(Sigterm, now)];
        killAt := Some(now + JAR_KILL_GRACE_MS);
      case JarKill =>
        killAt := None;
        signals := signals + [(Sigkill, now)];
      case JarHang =>
        hangAt := None;
        Settle(JarOutcome(false, false));
      case JarClose(ok) =>
        Settle(JarOutcome(ok, false));
      case JarError(enoent) =>
        Settle(JarOutcome(false, enoent));
    }
  }

  function JarRun(timeoutMs: nat, es: seq<JarEvent>): Jar {
    if es == [] then JarStart(timeoutMs) else JarStep(JarRun(timeoutMs, es[..|es| - 1]), es[|es| - 1])
  }

  /** Every event of the run could happen when it did. */
  predicate JarPossible(timeoutMs: nat, es: seq<JarEvent>, late: nat) {
    es != [] ==>
      var prior := es[..|es| - 1];
      JarPossible(timeoutMs, prior, late) && JarEnabled(JarRun(timeoutMs, prior), es[|es| - 1], late)
  }

  /** The first event of the run that settles it, if any did. */
  function FirstSettling(es: seq<JarEvent>): Option<JarOutcome> {
    if es == [] then None
    else
      var earlier := FirstSettling(es[..|es| - 1]);
      if earlier.Some? then earlier else Settling(es[|es| - 1])
  }

  predicate JarInv(s: Jar, timeoutMs: nat, late: nat) {
    && (s.settled ==> s.timeoutAt.None? && s.killAt.None? && s.hangAt.None? && |s.resolutions| == 1)
    && (!s.settled ==> s.resolutions == [] && s.hangAt == Some(timeoutMs + 30_000)
                       && s.now <= timeoutMs + 30_000 + late)
    && (s.timeoutAt.Some? ==> s.timeoutAt == Some(timeoutMs) && s.killAt.None? && s.signals == [])
    && Escalation(s.signals, s.killAt, s.now, timeoutMs, 2000)
  }

  lemma JarInvStep(s: Jar, e: JarEvent, timeoutMs: nat, late: nat)
    requires JarInv(s, timeoutMs, late) && JarEnabled(s, e, late)
    ensures JarInv(JarStep(s, e), timeoutMs, late)
  {
  }

  lemma {:induction false} JarInvariant(timeoutMs: nat, es: seq<JarEvent>, late: nat)
    requires JarPossible(timeoutMs, es, late)
    ensures JarInv(JarRun(timeoutMs, es), timeoutMs, late)
  {
    if es != [] {
      var prior, e := es[..|es| - 1], es[|es| - 1];
      JarInvariant(timeoutMs, prior, late);
      JarInvStep(JarRun(timeoutMs, prior), e, timeoutMs, late);
    }
  }

  /** The wait resolves at most once, with the first settling event of the run, whatever the interleaving. */
  lemma {:induction false} JarResolvesOnce(timeoutMs: nat, es: seq<JarEvent>)
    ensures var s := JarRun(timeoutMs, es);
            && s.settled == FirstSettling(es).Some?
            && s.resolutions == if FirstSettling(es).Some? then [FirstSettling(es).value] else []
  {
    if es != [] {
      JarResolvesOnce(timeoutMs, es[..|es| - 1]);
    }
  }

  /**
   * From timeout + 30 s on it has resolved, or the hang guard is due and resolves it at once; so it has
   * resolved, give or take the timers' lateness, which is none when timers fire on time.
   */
  lemma JarResolvesInTime(timeoutMs: nat, es: seq<JarEvent>, late: nat)
    requires JarPossible(timeoutMs, es, late)
    ensures var s := JarRun(timeoutMs, es);
            && (s.now >= timeoutMs + 30_000 && !s.settled ==>
                  JarEnabled(s, JarHang, late) && JarStep(s, JarHang).resolutions == [JarOutcome(false, false)])
            && (s.now > timeoutMs + 30_000 + late ==> FirstSettling(es).Some? && |s.resolutions| == 1)
  {
    JarInvariant(timeoutMs, es, late);
    JarResolvesOnce(timeoutMs, es);
  }

  /** After it resolved nothing is pending, and no later event arms a timer or signals the process. */
  lemma {:induction false} JarQuietOnceSettled(timeoutMs: nat, es: seq<JarEvent>, late: nat, k: nat)
    requires JarPossible(timeoutMs, es, late) && k <= |es|
    requires JarRun(timeoutMs, es[..k]).settled
    ensures var s := JarRun(timeoutMs, es);
            && s.settled && s.timeoutAt.None? && s.killAt.None? && s.hangAt.None?
            && s.signals == JarRun(timeoutMs, es[..k]).signals
            && s.resolutions == JarRun(timeoutMs, es[..k]).resolutions
  {
    JarInvariant(timeoutMs, es, late);
    if k == |es| {
      assert es[..k] == es;
    } else {
      var prior := es[..|es| - 1];
      assert prior[..k] == es[..k];
      JarQuietOnceSettled(timeoutMs, prior, late, k);
    }
  }

  /** No settling event so far: the process neither closed nor failed to start, and the hang guard is quiet. */
  ghost predicate JarOpen(es: seq<JarEvent>) {
    forall j :: 0 <= j < |es| ==> es[j].JarTick? || es[j].JarTimeout? || es[j].JarKill?
  }

  /** Event `k` is the first of its kind: the hang guard, the process's end or a spawn error. */
  ghost predicate SettlesAt(es: seq<JarEvent>, k: nat) {
    && k < |es| && (es[k].JarHang? || es[k].JarClose? || es[k].JarError?)
    && forall j :: 0 <= j < k ==> es[j].JarTick? || es[j].JarTimeout? || es[j].JarKill?
  }

  /** The wait resolves with `o` exactly when its first settling event says so: ok on a clean close only, enoent on that error only. */
  lemma {:induction false} JarOutcomeIff(timeoutMs: nat, es: seq<JarEvent>, o: JarOutcome)
    ensures JarRun(timeoutMs, es).resolutions == [o] <==>
            exists k: nat :: SettlesAt(es, k) &&
              (|| (es[k] == JarClose(true) && o.ok && !o.enoent)
               || (es[k] == JarClose(false) && !o.ok && !o.enoent)
               || (es[k] == JarError(true) && !o.ok && o.enoent)
               || (es[k] == JarError(false) && !o.ok && !o.enoent)
               || (es[k] == JarHang && !o.ok && !o.enoent))
    ensures JarRun(timeoutMs, es).resolutions == [] <==> JarOpen(es)
  {
    JarResolvesOnce(timeoutMs, es);
    if es != [] {
      var prior := es[..|es| - 1];
      JarOutcomeIff(timeoutMs, prior, o);
      JarResolvesOnce(timeoutMs, prior);
      forall k: nat ensures SettlesAt(es, k) <==> SettlesAt(prior, k) || (SettlesAt(es, k) && k == |prior|) {
        assert forall j :: 0 <= j < |prior| ==> prior[j] == es[j];
      }
      assert JarOpen(es) <==> JarOpen(prior) && (es[|prior|].JarTick? || es[|prior|].JarTimeout? || es[|prior|].JarKill?);
      assert forall k: nat :: SettlesAt(prior, k) ==> !JarOpen(prior);
      assert SettlesAt(es, |prior|) <==>
             JarOpen(prior) && (es[|prior|].JarHang? || es[|prior|].JarClose? || es[|prior|].JarError?) by {
        assert forall j :: 0 <= j < |prior| ==> prior[j] == es[j];
      }
    }
  }

  /** The time of the last tick. */
  ghost function JarClock(es: seq<JarEvent>): nat {
    if es == [] then 0
    else if es[|es| - 1].JarTick? then es[|es| - 1].to
    else JarClock(es[..|es| - 1])
  }

  /** A SIGTERM for every timeout and a SIGKILL for every kill, at the time it came. */
  ghost function JarSent(es: seq<JarEvent>): seq<(Signal, nat)> {
    if es == [] then []
    else
      JarSent(es[..|es| - 1]) +
      if es[|es| - 1].JarTimeout? then [(Sigterm, JarClock(es))]
      else if es[|es| - 1].JarKill? then [(Sigkill, JarClock(es))]
      else []
  }

  lemma {:induction false} JarSendsExactly(timeoutMs: nat, es: seq<JarEvent>)
    ensures JarRun(timeoutMs, es).signals == JarSent(es) && JarRun(timeoutMs, es).now == JarClock(es)
  {
    if es != [] {
      JarSendsExactly(timeoutMs, es[..|es| - 1]);
    }
  }

  ghost predicate JarTimedOut(es: seq<JarEvent>) {
    exists k :: 0 <= k < |es| && es[k].JarTimeout?
  }

  ghost predicate JarKilled(es: seq<JarEvent>) {
    exists k :: 0 <= k < |es| && es[k].JarKill?
  }

  /** The timers of a wait that is still open, given what has fired. */
  predicate JarTimers(s: Jar, timedOut: bool, killed: bool, timeoutMs: nat, late: nat) {
    !s.settled ==>
      && (if timedOut then s.timeoutAt.None? else s.timeoutAt == Some(timeoutMs) && s.now <= timeoutMs + late)
      && (s.killAt.Some? <==> timedOut && !killed)
      && (s.killAt.Some? ==> s.killAt.value <= timeoutMs + late + 2000 && s.now <= s.killAt.value + late)
      && (killed ==> timedOut)
  }

  lemma JarTimersStep(s: Jar, e: JarEvent, timedOut: bool, killed: bool, timeoutMs: nat, late: nat)
    requires JarInv(s, timeoutMs, late) && JarTimers(s, timedOut, killed, timeoutMs, late) && JarEnabled(s, e, late)
    ensures JarTimers(JarStep(s, e), timedOut || e.JarTimeout?, killed || e.JarKill?, timeoutMs, late)
  {
  }

  lemma JarFired(es: seq<JarEvent>)
    requires es != []
    ensures JarTimedOut(es) <==> JarTimedOut(es[..|es| - 1]) || es[|es| - 1].JarTimeout?
    ensures JarKilled(es) <==> JarKilled(es[..|es| - 1]) || es[|es| - 1].JarKill?
  {
    var prior := es[..|es| - 1];
    if k :| 0 <= k < |prior| && prior[k].JarTimeout? {
      assert es[k].JarTimeout?;
    }
    if k :| 0 <= k < |prior| && prior[k].JarKill? {
      assert es[k].JarKill?;
    }
    if k :| 0 <= k < |es| && es[k].JarTimeout? && k < |prior| {
      assert prior[k].JarTimeout?;
    }
    if k :| 0 <= k < |es| && es[k].JarKill? && k < |prior| {
      assert prior[k].JarKill?;
    }
  }

  lemma {:induction false} JarTimersInvariant(timeoutMs: nat, es: seq<JarEvent>, late: nat)
    requires JarPossible(timeoutMs, es, late)
    ensures JarTimers(JarRun(timeoutMs, es), JarTimedOut(es), JarKilled(es), timeoutMs, late)
  {
    if es != [] {
      var prior, e := es[..|es| - 1], es[|es| - 1];
      JarInvariant(timeoutMs, prior, late);
      JarTimersInvariant(timeoutMs, prior, late);
      JarTimersStep(JarRun(timeoutMs, prior), e, JarTimedOut(prior), JarKilled(prior), timeoutMs, late);
      JarFired(es);
    }
  }

  /** The SIGKILL of a timed-out task is armed exactly from its timeout until it fires or the wait settles. */
  lemma JarKillArmedIff(timeoutMs: nat, es: seq<JarEvent>, late: nat)
    requires JarPossible(timeoutMs, es, late)
    ensures JarRun(timeoutMs, es).killAt.Some? <==> JarTimedOut(es) && !JarKilled(es) && JarOpen(es)
  {
    JarInvariant(timeoutMs, es, late);
    JarTimersInvariant(timeoutMs, es, late);
    JarOutcomeIff(timeoutMs, es, JarOutcome(false, false));
  }

  /** A task that neither ends nor answers SIGTERM has been sent both signals once the 2 s grace period is over. */
  lemma JarOverdueIsKilled(timeoutMs: nat, es: seq<JarEvent>, late: nat)
    requires JarPossible(timeoutMs, es, late) && JarOpen(es)
    requires JarClock(es) > timeoutMs + 2000 + 2 * late
    ensures JarTimedOut(es) && JarKilled(es)
    ensures |JarSent(es)| == 2 && JarSent(es)[0].0 == Sigterm && JarSent(es)[1].0 == Sigkill
  {
    JarInvariant(timeoutMs, es, late);
    JarTimersInvariant(timeoutMs, es, late);
    JarOutcomeIff(timeoutMs, es, JarOutcome(false, false));
    JarSendsExactly(timeoutMs, es);
    var t :| 0 <= t < |es| && es[t].JarTimeout?;
    var k :| 0 <= k < |es| && es[k].JarKill?;
    JarKeepsSent(es, t);
    JarKeepsSent(es, k);
    assert JarSent(es)[|JarSent(es[..t])|].0 == Sigterm;
    assert JarSent(es)[|JarSent(es[..k])|].0 == Sigkill;
  }

  lemma {:induction false} JarKeepsSent(es: seq<JarEvent>, k: nat)
    requires k < |es| && (es[k].JarTimeout? || es[k].JarKill?)
    ensures |JarSent(es[..k])| < |JarSent(es)|
    ensures JarSent(es)[|JarSent(es[..k])|].0 == if es[k].JarTimeout? then Sigterm else Sigkill
    decreases |es|
  {
    var prior := es[..|es| - 1];
    if k < |prior| {
      assert prior[..k] == es[..k];
      JarKeepsSent(prior, k);
    }
  }

  // ---- The metric command's wait: deadline and kill grace ----

  const METRIC_KILL_GRACE_MS: nat := 1000

  datatype Verdict = TimedOut | Measured(score: real) | Failed | CliMissing | SpawnFailure

  datatype Metric = Metric(now: nat, timeoutAt: Timer, killAt: Timer, settled: bool,
                           resolutions: seq<Verdict>, signals: seq<(Signal, nat)>)

  /** `MetricEnd` is `close` or `error`, with the verdict read off the exit. */
  datatype MetricEvent = MetricTick(to: nat) | MetricTimeout | MetricKill | MetricEnd(verdict: Verdict)

  function MetricStart(timeoutMs: nat): Metric {
    Metric(0, Some(timeoutMs), None, false, [], [])
  }

  predicate MetricEnabled(s: Metric, e: MetricEvent, late: nat) {
    match e
    case MetricTick(to) => s.now <= to && MayPass(s.timeoutAt, to, late) && MayPass(s.killAt, to, late)
    case MetricTimeout => Due(s.timeoutAt, s.now)
    case MetricKill => Due(s.killAt, s.now)
    case MetricEnd(verdict) => !verdict.TimedOut?
  }

  function MetricFinish(s: Metric, v: Verdict): Metric {
    if s.settled then s else s.(settled := true, resolutions := s.resolutions + [v])
  }

  function MetricStep(s: Metric, e: MetricEvent): Metric {
    match e
    case MetricTick(to) => s.(now := to)
    case MetricTimeout =>
      MetricFinish(s.(timeoutAt := None, killAt := Some(s.now + METRIC_KILL_GRACE_MS),
                      signals := s.signals + [(Sigterm, s.now)]), TimedOut)
    case MetricKill => s.(killAt := None, signals := s.signals + [(Sigkill, s.now)])
    case MetricEnd(verdict) => MetricFinish(s.(timeoutAt := None, killAt := None), verdict)
  }

  class MetricWait {
    var now: nat
    var timeoutHandle: Timer
    var killTimer: Timer
    var settled: bool
    var resolutions: seq<Verdict>
    var signals: seq<(Signal, nat)>

    ghost function View(): Metric
      reads this
    {
      Metric(now, timeoutHandle, killTimer, settled, resolutions, signals)
    }

    constructor (timeoutMs: nat)
      ensures View() == MetricStart(timeoutMs)
    {
      now, settled, resolutions, signals := 0, false, [], [];
      timeoutHandle, killTimer := Some(timeoutMs), None;
    }

    method Finish(verdict: Verdict)
      modifies this
      ensures View() == MetricFinish(old(View()), verdict)
    {
      if settled {
        return;
      }
      settled := true;
      resolutions := resolutions + [verdict];
    }

    method ClearTimers()
      modifies this`timeoutHandle, this`killTimer
      ensures timeoutHandle.None? && killTimer.None?
    {
      timeoutHandle := None;
      killTimer := None;
    }

    method Handle(e: MetricEvent)
      modifies this
      ensures View() == MetricStep(old(View()), e)
    {
      match e
      case MetricTick(to) =>
        now := to;
      case MetricTimeout =>
        timeoutHandle := None;
        signals := signals + [(Sigterm, now)];
        killTimer := Some(now + METRIC_KILL_GRACE_MS);
        Finish(TimedOut);
      case MetricKill =>
        killTimer := None;
        signals := signals + [(Sigkill, now)];
      case MetricEnd(verdict) =>
        ClearTimers();
        Finish(verdict);
    }
  }

  function MetricRun(timeoutMs: nat, es: seq<MetricEvent>): Metric {
    if es == [] then MetricStart(timeoutMs) else MetricStep(MetricRun(timeoutMs, es[..|es| - 1]), es[|es| - 1])
  }

  predicate MetricPossible(timeoutMs: nat, es: seq<MetricEvent>, late: nat) {
    es != [] ==>
      var prior := es[..|es| - 1];
      MetricPossible(timeoutMs, prior, late) && MetricEnabled(MetricRun(timeoutMs, prior), es[|es| - 1], late)
  }

  function MetricVerdict(e: MetricEvent): Option<Verdict> {
    match e
    case MetricTimeout => Some(TimedOut)
    case MetricEnd(verdict) => Some(verdict)
    case _ => None
  }

  function FirstVerdict(es: seq<MetricEvent>): Option<Verdict> {
    if es == [] then None
    else
      var earlier := FirstVerdict(es[..|es| - 1]);
      if earlier.Some? then earlier else MetricVerdict(es[|es| - 1])
  }

  /** The deadline passed at event `k` and since then the process neither ended nor was killed. */
  ghost predicate Overdue(es: seq<MetricEvent>, k: nat) {
    k < |es| && es[k].MetricTimeout? && forall j :: k < j < |es| ==> !es[j].MetricEnd? && !es[j].MetricKill?
  }

  ghost predicate Ended(es: seq<MetricEvent>) {
    exists k :: 0 <= k < |es| && es[k].MetricEnd?
  }

  /** The machine's state, given what happened: the first verdict, whether overdue, whether ended. */
  predicate MetricInv(s: Metric, first: Option<Verdict>, overdue: bool, ended: bool, timeoutMs: nat, late: nat) {
    && s.settled == first.Some?
    && s.resolutions == (if first.Some? then [first.value] else [])
    && (s.timeoutAt.Some? <==> first.None?)
    && (s.timeoutAt.Some? ==> s.timeoutAt == Some(timeoutMs) && s.now <= timeoutMs + late && s.signals == [])
    && s.killAt.Some? == overdue
    && (ended ==> s.killAt.None? && first.Some?)
    && (s.killAt.Some? ==> s.killAt.value <= timeoutMs + late + 1000
                           && s.now <= s.killAt.value + late)
    && Escalation(s.signals, s.killAt, s.now, timeoutMs, 1000)
  }

  lemma MetricInvStep(s: Metric, e: MetricEvent, first: Option<Verdict>, overdue: bool, ended: bool,
                      timeoutMs: nat, late: nat)
    requires MetricInv(s, first, overdue, ended, timeoutMs, late) && MetricEnabled(s, e, late)
    ensures MetricInv(MetricStep(s, e), if first.Some? then first else MetricVerdict(e),
                      e.MetricTimeout? || (overdue && !e.MetricEnd? && !e.MetricKill?), e.MetricEnd? || ended,
                      timeoutMs, late)
  {
  }

  ghost predicate AnyOverdue(es: seq<MetricEvent>) {
    exists k :: Overdue(es, k)
  }

  lemma OverdueStep(es: seq<MetricEvent>)
    requires es != []
    ensures var prior, e := es[..|es| - 1], es[|es| - 1];
            && (AnyOverdue(es) <==> e.MetricTimeout? || (AnyOverdue(prior) && !e.MetricEnd? && !e.MetricKill?))
            && (Ended(es) <==> e.MetricEnd? || Ended(prior))
  {
    var prior, e := es[..|es| - 1], es[|es| - 1];
    if e.MetricTimeout? {
      assert Overdue(es, |es| - 1);
    }
    if k :| Overdue(prior, k) && !e.MetricEnd? && !e.MetricKill? {
      assert Overdue(es, k);
    }
    if k :| Overdue(es, k) && !e.MetricTimeout? {
      assert Overdue(prior, k);
    }
    if k :| 0 <= k < |prior| && prior[k].MetricEnd? {
      assert es[k].MetricEnd?;
    }
    if k :| 0 <= k < |es| && es[k].MetricEnd? && !e.MetricEnd? {
      assert prior[k].MetricEnd?;
    }
  }

  lemma {:induction false} MetricInvariant(timeoutMs: nat, es: seq<MetricEvent>, late: nat)
    requires MetricPossible(timeoutMs, es, late)
    ensures MetricInv(MetricRun(timeoutMs, es), FirstVerdict(es), AnyOverdue(es), Ended(es), timeoutMs, late)
  {
    if es != [] {
      var prior, e := es[..|es| - 1], es[|es| - 1];
      MetricInvariant(timeoutMs, prior, late);
      MetricInvStep(MetricRun(timeoutMs, prior), e, FirstVerdict(prior), AnyOverdue(prior), Ended(prior), timeoutMs, late);
      OverdueStep(es);
    }
  }

  /** First verdict wins, so a timeout is never overwritten; and there is one by the deadline. */
  lemma MetricResolvesOnce(timeoutMs: nat, es: seq<MetricEvent>, late: nat)
    requires MetricPossible(timeoutMs, es, late)
    ensures var s := MetricRun(timeoutMs, es);
            && s.resolutions == (if FirstVerdict(es).Some? then [FirstVerdict(es).value] else [])
            && (s.now > timeoutMs + late ==> FirstVerdict(es).Some?)
  {
    MetricInvariant(timeoutMs, es, late);
  }

  /** Event `k` is the first that gives a verdict. */
  ghost predicate DecidesAt(es: seq<MetricEvent>, k: nat) {
    && k < |es| && (es[k].MetricTimeout? || es[k].MetricEnd?)
    && forall j :: 0 <= j < k ==> es[j].MetricTick? || es[j].MetricKill?
  }

  ghost predicate Undecided(es: seq<MetricEvent>) {
    forall j :: 0 <= j < |es| ==> es[j].MetricTick? || es[j].MetricKill?
  }

  /** Timed out exactly when the deadline fires before the process ends; otherwise the first end's own verdict. */
  lemma MetricVerdictIff(timeoutMs: nat, es: seq<MetricEvent>, late: nat, v: Verdict)
    requires MetricPossible(timeoutMs, es, late)
    ensures MetricRun(timeoutMs, es).resolutions == [v] <==>
            exists k: nat :: DecidesAt(es, k) && if v.TimedOut? then es[k].MetricTimeout? else es[k] == MetricEnd(v)
  {
    MetricInvariant(timeoutMs, es, late);
    FirstVerdictIff(es, v);
    EndsAreNotTimeouts(timeoutMs, es, late);
  }

  lemma {:induction false} FirstVerdictIff(es: seq<MetricEvent>, v: Verdict)
    ensures FirstVerdict(es) == Some(v) <==> exists k: nat :: DecidesAt(es, k) && MetricVerdict(es[k]) == Some(v)
  {
    if es != [] {
      var prior := es[..|es| - 1];
      FirstVerdictIff(prior, v);
      MetricUndecided(prior);
      forall k: nat ensures DecidesAt(es, k) <==> DecidesAt(prior, k) || (DecidesAt(es, k) && k == |prior|) {
        assert forall j :: 0 <= j < |prior| ==> prior[j] == es[j];
      }
      assert forall k: nat :: DecidesAt(prior, k) ==> !Undecided(prior);
      assert DecidesAt(es, |prior|) <==> Undecided(prior) && (es[|prior|].MetricTimeout? || es[|prior|].MetricEnd?) by {
        assert forall j :: 0 <= j < |prior| ==> prior[j] == es[j];
      }
    }
  }

  lemma {:induction false} EndsAreNotTimeouts(timeoutMs: nat, es: seq<MetricEvent>, late: nat)
    requires MetricPossible(timeoutMs, es, late)
    ensures forall k :: 0 <= k < |es| ==> es[k] != MetricEnd(TimedOut)
  {
    if es != [] {
      EndsAreNotTimeouts(timeoutMs, es[..|es| - 1], late);
    }
  }

  lemma {:induction false} MetricUndecided(es: seq<MetricEvent>)
    ensures FirstVerdict(es).None? <==> Undecided(es)
  {
    if es != [] {
      MetricUndecided(es[..|es| - 1]);
    }
  }

  ghost function MetricClock(es: seq<MetricEvent>): nat {
    if es == [] then 0
    else if es[|es| - 1].MetricTick? then es[|es| - 1].to
    else MetricClock(es[..|es| - 1])
  }

  ghost function MetricSent(es: seq<MetricEvent>): seq<(Signal, nat)> {
    if es == [] then []
    else
      MetricSent(es[..|es| - 1]) +
      if es[|es| - 1].MetricTimeout? then [(Sigterm, MetricClock(es))]
      else if es[|es| - 1].MetricKill? then [(Sigkill, MetricClock(es))]
      else []
  }

  lemma {:induction false} MetricSendsExactly(timeoutMs: nat, es: seq<MetricEvent>)
    ensures MetricRun(timeoutMs, es).signals == MetricSent(es) && MetricRun(timeoutMs, es).now == MetricClock(es)
  {
    if es != [] {
      MetricSendsExactly(timeoutMs, es[..|es| - 1]);
    }
  }

  /** The SIGKILL of a timed-out command stays armed until the process ends or the timer itself fires. */
  lemma KillArmedWhileOverdue(timeoutMs: nat, es: seq<MetricEvent>, late: nat)
    requires MetricPossible(timeoutMs, es, late)
    ensures MetricRun(timeoutMs, es).killAt.Some? <==> AnyOverdue(es)
  {
    MetricInvariant(timeoutMs, es, late);
  }

  /** A command that neither ends nor answers SIGTERM has been killed once the grace period is over. */
  lemma OverdueIsKilled(timeoutMs: nat, es: seq<MetricEvent>, late: nat)
    requires MetricPossible(timeoutMs, es, late) && !Ended(es)
    requires MetricRun(timeoutMs, es).now > timeoutMs + 1000 + 2 * late
    ensures exists k :: 0 <= k < |es| && es[k].MetricKill?
  {
    MetricInvariant(timeoutMs, es, late);
    TimeoutHappened(timeoutMs, es, late);
    var t :| 0 <= t < |es| && es[t].MetricTimeout?;
    if forall k :: 0 <= k < |es| ==> !es[k].MetricKill? {
      assert Overdue(es, t);
    }
  }

  lemma {:induction false} TimeoutHappened(timeoutMs: nat, es: seq<MetricEvent>, late: nat)
    requires MetricPossible(timeoutMs, es, late) && !Ended(es) && FirstVerdict(es).Some?
    ensures exists t :: 0 <= t < |es| && es[t].MetricTimeout?
  {
    var prior := es[..|es| - 1];
    if FirstVerdict(prior).Some? {
      assert !Ended(prior) by {
        OverdueStep(es);
      }
      TimeoutHappened(timeoutMs, prior, late);
      var t :| 0 <= t < |prior| && prior[t].MetricTimeout?;
      assert es[t].MetricTimeout?;
    } else {
      assert !es[|es| - 1].MetricEnd?;
      assert es[|es| - 1].MetricTimeout?;
    }
  }

  /** Once the process ended, no signal is ever sent to it and no timer is armed again. */
  lemma {:induction false} MetricQuietOnceEnded(timeoutMs: nat, es: seq<MetricEvent>, late: nat, k: nat)
    requires MetricPossible(timeoutMs, es, late) && k < |es| && es[k].MetricEnd?
    ensures var s := MetricRun(timeoutMs, es);
            && s.timeoutAt.None? && s.killAt.None?
            && s.signals == MetricRun(timeoutMs, es[..k]).signals
  {
    var prior := es[..|es| - 1];
    if k < |prior| {
      assert prior[..k] == es[..k] && prior[k] == es[k];
      MetricQuietOnceEnded(timeoutMs, prior, late, k);
      QuietStep(MetricRun(timeoutMs, prior), es[|es| - 1], late);
    } else {
      assert es[..k] == prior;
    }
  }

  lemma QuietStep(s: Metric, e: MetricEvent, late: nat)
    requires s.timeoutAt.None? && s.killAt.None? && MetricEnabled(s, e, late)
    ensures MetricStep(s, e).timeoutAt.None? && MetricStep(s, e).killAt.None?
    ensures MetricStep(s, e).signals == s.signals
  {
  }
}
