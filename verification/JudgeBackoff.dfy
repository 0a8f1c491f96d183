/**
 * The judge retry loop: rounds of attempts with backoff sleeps, parks between rounds while the
 * judge is rate limited, and a ladder that decides which failure a spent loop reports. What attempt
 * number `n` of a call yields is the input `judge(n)`.
 */
module JudgeBackoff {
  import opened Wrappers

  const BACKOFFS_MS := [10_000, 30_000, 60_000]
  const ATTEMPTS_PER_ROUND := |BACKOFFS_MS| + 1

  datatype Kind = RateLimited | Timeout | Failed | CliMissing | StartupRejected {
    predicate Terminal() { CliMissing? || StartupRejected? }
  }

  /** `fallback`: another worker backend would be taken over this failure, were none taken yet. */
  datatype Attempt = Scored(score: real) | Unscored(kind: Kind, message: string, fallback: bool)

  datatype JudgeExit = JudgeCliMissing | JudgeUnreachable | AllBackendsExhausted | JudgeTimeout

  datatype Result = Metric(score: real, attempts: nat)
                  | NoMetric(exit: JudgeExit, attempts: nat, lastError: Option<string>, kind: Kind)

  datatype Tally = Tally(attempts: nat, fallback: bool, kind: Kind, lastError: Option<string>)

  /** The precedence ladder, written as the source's three guards. */
  function ResolveExhaustedFailureKind(current: Kind, kind: Kind): Kind {
    if kind.Failed? then Failed
    else if kind.Timeout? && !current.Failed? then Timeout
    else if kind.RateLimited? && !current.Failed? && !current.Timeout? then RateLimited
    else current
  }

  function Initial(probeFailed: bool): Tally {
    Tally(0, false, if probeFailed then Failed else RateLimited, None)
  }

  function After(t: Tally, a: Attempt): Tally {
    var counted := t.(attempts := t.attempts + 1);
    if a.Scored? then counted
    else
      var tried := counted.(fallback := t.fallback || a.fallback);
      if a.kind.Terminal() then tried
      else
        var kind := ResolveExhaustedFailureKind(t.kind, a.kind);
        tried.(kind := kind,
               lastError := if kind == a.kind || t.lastError.None? then Some(a.message) else t.lastError)
  }

  function TallyAfter(start: Tally, judge: nat -> Attempt, n: nat): Tally {
    if n == 0 then start else After(TallyAfter(start, judge, n - 1), judge(n))
  }

  predicate GoesOn(a: Attempt) {
    a.Unscored? && !a.kind.Terminal()
  }

  /** Milliseconds parked before attempt `n`: one wait per spent round, up to the ceiling. */
  function ParkedBefore(n: nat, parkMax: nat, parkWait: nat): nat
    requires n > 0
  {
    Min(parkMax, (n - 1) / ATTEMPTS_PER_ROUND * parkWait)
  }

  /** The loop ends with attempt `n`: it settles the call, or it spends a round that may not be followed. */
  predicate Stops(start: Tally, judge: nat -> Attempt, n: nat, parkMax: nat, parkWait: nat)
    requires n > 0
  {
    !GoesOn(judge(n)) ||
    (n % ATTEMPTS_PER_ROUND == 0 &&
     (!TallyAfter(start, judge, n).kind.RateLimited? || ParkedBefore(n, parkMax, parkWait) == parkMax))
  }

  function Outcome(t: Tally, last: Attempt): Result {
    if last.Scored? then Metric(last.score, t.attempts)
    else if last.kind.CliMissing? then NoMetric(JudgeCliMissing, t.attempts, Some(last.message), Failed)
    else if last.kind.StartupRejected? then NoMetric(JudgeUnreachable, t.attempts, Some(last.message), Failed)
    else NoMetric(if t.fallback then AllBackendsExhausted else JudgeTimeout, t.attempts, t.lastError, t.kind)
  }

  class JudgeBackoffState {
    var attempts: nat
    var workerFallbackActivated: bool
    var exhaustedFailureKind: Kind
    var lastError: Option<string>
    /** The park-wait file of the session. */
    var parkFile: bool

    ghost function View(): Tally
      reads this
    {
      Tally(attempts, workerFallbackActivated, exhaustedFailureKind, lastError)
    }

    constructor (probeFailed: bool)
      ensures View() == Initial(probeFailed) && !parkFile
    {
      attempts, workerFallbackActivated, lastError, parkFile := 0, false, None, false;
      exhaustedFailureKind := if probeFailed then Failed else RateLimited;
    }

    /** One round: at most four attempts, cut short by the first that settles the call. */
    method RunJudgeBackoffRound(judge: nat -> Attempt, cumulativeParkedMs: nat, ghost start: Tally)
      returns (terminal: Option<Result>)
      requires start.attempts == 0 && View() == TallyAfter(start, judge, attempts)
      modifies this
      ensures View() == TallyAfter(start, judge, attempts)
      ensures old(attempts) < attempts <= old(attempts) + 4
      ensures forall k :: old(attempts) < k < attempts ==> GoesOn(judge(k))
      ensures terminal.None? ==> GoesOn(judge(attempts)) && attempts == old(attempts) + 4
      ensures terminal.Some? ==> !GoesOn(judge(attempts)) && terminal.value == Outcome(View(), judge(attempts))
      ensures parkFile == (old(parkFile) && !(terminal.Some? && terminal.value.Metric? && cumulativeParkedMs > 0))
    {
      var attempt := 0;
      while attempt <= |BACKOFFS_MS|
        invariant 0 <= attempt <= ATTEMPTS_PER_ROUND
        invariant attempts == old(attempts) + attempt
        invariant View() == TallyAfter(start, judge, attempts)
        invariant forall k :: old(attempts) < k <= attempts ==> GoesOn(judge(k))
        invariant parkFile == old(parkFile)
      {
        ghost var before := View();
        attempts := attempts + 1;
        var result := judge(attempts);
        assert TallyAfter(start, judge, attempts) == After(before, result);
        if result.Scored? {
          if cumulativeParkedMs > 0 {
            parkFile := false;
          }
          return Some(Metric(result.score, attempts));
        }
        if !workerFallbackActivated && result.fallback {
          workerFallbackActivated := true;
        }
        if result.kind.CliMissing? {
          return Some(NoMetric(JudgeCliMissing, attempts, Some(result.message), Failed));
        }
        if result.kind.StartupRejected? {
          return Some(NoMetric(JudgeUnreachable, attempts, Some(result.message), Failed));
        }
        var kind := ResolveExhaustedFailureKind(exhaustedFailureKind, result.kind);
        if kind == result.kind || lastError.None? {
          lastError := Some(result.message);
        }
        exhaustedFailureKind := kind;
        attempt := attempt + 1;
      }
      return None;
    }

    /** Rounds separated by parks. The park wait is a positive constant of the runner. */
    method RunJudgeBackoffLoop(judge: nat -> Attempt, parkMax: nat, parkWait: nat)
      returns (result: Result, cumulativeParkedMs: nat)
      requires attempts == 0 && !parkFile && parkWait > 0
      modifies this
      ensures attempts > 0 && View() == TallyAfter(old(View()), judge, attempts)
      ensures Stops(old(View()), judge, attempts, parkMax, parkWait)
      ensures forall k :: 0 < k < attempts ==> !Stops(old(View()), judge, k, parkMax, parkWait)
      ensures result == Outcome(View(), judge(attempts))
      ensures cumulativeParkedMs == Min(parkMax, (attempts - 1) / 4 * parkWait)
      ensures parkFile == (&& cumulativeParkedMs > 0 && judge(attempts).Unscored?
                           && (judge(attempts).kind.CliMissing? || judge(attempts).kind.StartupRejected?))
    {
      hide After, ResolveExhaustedFailureKind;
      ghost var start := View();
      ghost var rounds := 0;
      cumulativeParkedMs := 0;
      while true
        invariant attempts == rounds * ATTEMPTS_PER_ROUND
        invariant View() == TallyAfter(start, judge, attempts)
        invariant cumulativeParkedMs == Min(parkMax, rounds * parkWait)
        invariant forall k :: 0 < k <= attempts ==> !Stops(start, judge, k, parkMax, parkWait)
        invariant parkFile == (cumulativeParkedMs > 0)
        decreases parkMax - cumulativeParkedMs, if rounds == 0 then 1 else 0
      {
        var terminal := RunJudgeBackoffRound(judge, cumulativeParkedMs, start);
        RoundNumbers(rounds, attempts);
        assert ParkedBefore(attempts, parkMax, parkWait) == cumulativeParkedMs;
        forall k | rounds * ATTEMPTS_PER_ROUND < k < attempts
          ensures !Stops(start, judge, k, parkMax, parkWait)
        {
          RoundNumbers(rounds, k);
        }
        if terminal.Some? {
          result := terminal.value;
          return;
        }
        if !exhaustedFailureKind.RateLimited? {
          break;
        }
        var remainingMs := parkMax - cumulativeParkedMs;
        if remainingMs <= 0 {
          break;
        }
        var parkMs := Min(parkWait, remainingMs);
        parkFile := true;
        cumulativeParkedMs := cumulativeParkedMs + parkMs;
        rounds := rounds + 1;
      }
      if cumulativeParkedMs > 0 {
        parkFile := false;
      }
      result := NoMetric(if workerFallbackActivated then AllBackendsExhausted else JudgeTimeout,
                         attempts, lastError, exhaustedFailureKind);
    }
  }

  lemma RoundNumbers(rounds: nat, n: nat)
    requires rounds * ATTEMPTS_PER_ROUND < n <= (rounds + 1) * ATTEMPTS_PER_ROUND
    ensures (n - 1) / ATTEMPTS_PER_ROUND == rounds
    ensures n % ATTEMPTS_PER_ROUND == 0 <==> n == (rounds + 1) * ATTEMPTS_PER_ROUND
  {
  }

  // ---- Bounds ----

  /** At most four attempts for the first round and for every park the ceiling has room for. */
  lemma AttemptsBounded(start: Tally, judge: nat -> Attempt, n: nat, parkMax: nat, parkWait: nat)
    requires n > 0 && parkWait > 0
    requires forall k :: 0 < k < n ==> !Stops(start, judge, k, parkMax, parkWait)
    ensures n <= 4 * (1 + (parkMax + parkWait - 1) / parkWait)
  {
    var parks := (parkMax + parkWait - 1) / parkWait;
    var full := ATTEMPTS_PER_ROUND * (1 + parks);
    if full < n {
      assert parks * parkWait >= parkMax by {
        DivisionCovers(parkMax + parkWait - 1, parkWait);
      }
      RoundNumbers(parks, full);
      assert Stops(start, judge, full, parkMax, parkWait);
    }
  }

  lemma DivisionCovers(a: nat, b: nat)
    requires b > 0
    ensures a / b * b + b > a
  {
    assert a == a / b * b + a % b;
  }

  // ---- What a spent loop reports ----

  function Rank(k: Kind): nat {
    match k
    case RateLimited => 0
    case Timeout => 1
    case Failed => 2
    case _ => 0
  }

  predicate OnLadder(k: Kind) {
    !k.Terminal()
  }

  ghost predicate AllGoOn(judge: nat -> Attempt, n: nat) {
    forall k :: 0 < k <= n ==> GoesOn(judge(k))
  }

  /** The reported kind is the least upper bound of the initial kind and of every attempt's. */
  lemma {:induction false} KindIsJoin(start: Tally, judge: nat -> Attempt, n: nat)
    requires AllGoOn(judge, n) && OnLadder(start.kind)
    ensures var kind := TallyAfter(start, judge, n).kind;
            && OnLadder(kind)
            && Rank(start.kind) <= Rank(kind)
            && (forall k :: 0 < k <= n ==> Rank(judge(k).kind) <= Rank(kind))
            && (kind == start.kind || exists k :: 0 < k <= n && judge(k).kind == kind)
  {
    if n > 0 {
      KindIsJoin(start, judge, n - 1);
      assert GoesOn(judge(n));
    }
  }

  /** The reported message is the last one said under the reported kind; with none such, the first said. */
  lemma {:induction false} MessageFollowsKind(start: Tally, judge: nat -> Attempt, n: nat)
    requires AllGoOn(judge, n) && OnLadder(start.kind) && start.lastError.None?
    ensures var t := TallyAfter(start, judge, n);
            && (forall k :: 0 < k <= n && judge(k).kind == t.kind
                            && (forall j :: k < j <= n ==> judge(j).kind != t.kind)
                            ==> t.lastError == Some(judge(k).message))
            && ((forall k :: 0 < k <= n ==> judge(k).kind != t.kind) && n > 0
                ==> t.lastError == Some(judge(1).message))
            && (t.lastError.None? <==> n == 0)
  {
    if n > 0 {
      MessageFollowsKind(start, judge, n - 1);
      KindIsJoin(start, judge, n - 1);
      assert GoesOn(judge(n));
      var before, t := TallyAfter(start, judge, n - 1), TallyAfter(start, judge, n);
      if judge(n).kind != t.kind {
        assert t.kind == before.kind;
      }
    }
  }

  lemma {:induction false} FallbackRemembered(start: Tally, judge: nat -> Attempt, n: nat)
    requires AllGoOn(judge, n)
    ensures TallyAfter(start, judge, n).fallback <==>
            start.fallback || exists k :: 0 < k <= n && judge(k).fallback
  {
    if n > 0 {
      FallbackRemembered(start, judge, n - 1);
      assert GoesOn(judge(n));
    }
  }

  datatype PhaseExit = CliMissingExit | BackendsExhausted | TimedOut | Transient | Unrecoverable

  function MapJudgeMeasurementFailure(r: Result): PhaseExit
    requires r.NoMetric?
  {
    match r.exit
    case JudgeCliMissing => CliMissingExit
    case AllBackendsExhausted => BackendsExhausted
    case JudgeUnreachable => Unrecoverable
    case JudgeTimeout =>
      if r.kind.Timeout? then TimedOut else if r.kind.RateLimited? then Transient else Unrecoverable
  }

  /**
   * A loop that ends with attempt `n` reports "transient" exactly when the probe did not fail, every
   * attempt was rate limited, no fallback fired, and the whole ceiling was parked.
   */
  lemma TransientIff(probeFailed: bool, judge: nat -> Attempt, n: nat, parkMax: nat, parkWait: nat)
    requires n > 0 && parkWait > 0
    requires Stops(Initial(probeFailed), judge, n, parkMax, parkWait)
    requires forall k :: 0 < k < n ==> !Stops(Initial(probeFailed), judge, k, parkMax, parkWait)
    ensures var r := Outcome(TallyAfter(Initial(probeFailed), judge, n), judge(n));
            (r.NoMetric? && MapJudgeMeasurementFailure(r).Transient?) <==>
            (&& !probeFailed
             && (forall k :: 0 < k <= n ==> judge(k).Unscored? && judge(k).kind.RateLimited? && !judge(k).fallback)
             && (n - 1) / 4 * parkWait >= parkMax)
  {
    var start := Initial(probeFailed);
    if GoesOn(judge(n)) {
      forall k | 0 < k <= n ensures GoesOn(judge(k)) {
        assert k == n || !Stops(start, judge, k, parkMax, parkWait);
      }
      KindIsJoin(start, judge, n);
      FallbackRemembered(start, judge, n);
      forall k | 0 < k <= n ensures judge(k).kind.RateLimited? <==> Rank(judge(k).kind) == 0 {
        assert GoesOn(judge(k));
      }
    }
  }

  // ---- The whole loop, read off the attempts ----

  /** The loop that starts after the probe makes attempt `n`, and no other after it. */
  ghost predicate EndsWithAttempt(probeFailed: bool, judge: nat -> Attempt, n: nat, parkMax: nat, parkWait: nat) {
    && n > 0 && Stops(Initial(probeFailed), judge, n, parkMax, parkWait)
    && forall k :: 0 < k < n ==> !Stops(Initial(probeFailed), judge, k, parkMax, parkWait)
  }

  /** Attempt `k` was unscored with one of the three kinds that are tried again. */
  ghost predicate Retried(judge: nat -> Attempt, k: nat) {
    judge(k).Unscored? && (judge(k).kind.RateLimited? || judge(k).kind.Timeout? || judge(k).kind.Failed?)
  }

  lemma AllRetried(start: Tally, judge: nat -> Attempt, n: nat, parkMax: nat, parkWait: nat)
    requires forall k :: 0 < k < n ==> !Stops(start, judge, k, parkMax, parkWait)
    ensures forall k :: 0 < k < n ==> Retried(judge, k)
    ensures n > 0 ==> (Retried(judge, n) <==> AllGoOn(judge, n))
  {
    forall k | 0 < k < n ensures Retried(judge, k) && GoesOn(judge(k)) {
      assert !Stops(start, judge, k, parkMax, parkWait);
    }
  }

  lemma {:induction false} AttemptsCounted(start: Tally, judge: nat -> Attempt, n: nat)
    ensures TallyAfter(start, judge, n).attempts == start.attempts + n
  {
    if n > 0 {
      AttemptsCounted(start, judge, n - 1);
    }
  }

  /** The kind of a loop that only retried, read off its attempts. */
  lemma RetriedKind(probeFailed: bool, judge: nat -> Attempt, n: nat)
    requires forall k :: 0 < k <= n ==> Retried(judge, k)
    ensures var kind := TallyAfter(Initial(probeFailed), judge, n).kind;
            && (kind.Failed? <==> probeFailed || exists k :: 0 < k <= n && judge(k).Unscored? && judge(k).kind.Failed?)
            && (kind.RateLimited? <==> !probeFailed && forall k :: 0 < k <= n ==> judge(k).Unscored? && judge(k).kind.RateLimited?)
            && (kind.Failed? || kind.RateLimited? || kind.Timeout?)
  {
    forall k | 0 < k <= n ensures GoesOn(judge(k)) {
      assert Retried(judge, k);
    }
    KindIsJoin(Initial(probeFailed), judge, n);
    var kind := TallyAfter(Initial(probeFailed), judge, n).kind;
    forall k | 0 < k <= n ensures judge(k).kind.Failed? ==> kind.Failed? {
      assert Rank(judge(k).kind) <= Rank(kind);
    }
    forall k | 0 < k <= n ensures kind.RateLimited? ==> judge(k).kind.RateLimited? {
      assert Rank(judge(k).kind) <= Rank(kind) && Retried(judge, k);
    }
  }

  /**
   * The loop stops exactly at a score, a missing CLI or a rejected start, or with the fourth attempt of a round
   * once a probe or attempt failed other than by rate limiting, or the whole ceiling has been parked.
   */
  lemma StopsIff(probeFailed: bool, judge: nat -> Attempt, n: nat, parkMax: nat, parkWait: nat)
    requires n > 0
    requires forall k :: 0 < k < n ==> !Stops(Initial(probeFailed), judge, k, parkMax, parkWait)
    ensures Stops(Initial(probeFailed), judge, n, parkMax, parkWait) <==>
            || judge(n).Scored? || judge(n).kind.CliMissing? || judge(n).kind.StartupRejected?
            || (n % 4 == 0 && (|| probeFailed || (n - 1) / 4 * parkWait >= parkMax
                               || exists k :: 0 < k <= n && judge(k).Unscored? && !judge(k).kind.RateLimited?))
  {
    AllRetried(Initial(probeFailed), judge, n, parkMax, parkWait);
    if Retried(judge, n) {
      RetriedKind(probeFailed, judge, n);
      assert forall k :: 0 < k <= n ==> judge(k).Unscored?;
    }
  }

  /** What the loop answers, by its last attempt; it counts every attempt. */
  lemma ResultIs(probeFailed: bool, judge: nat -> Attempt, n: nat, parkMax: nat, parkWait: nat)
    requires EndsWithAttempt(probeFailed, judge, n, parkMax, parkWait)
    ensures var r := Outcome(TallyAfter(Initial(probeFailed), judge, n), judge(n));
            && r.attempts == n
            && (r.Metric? <==> judge(n).Scored?)
            && (r.Metric? ==> r.score == judge(n).score)
            && (judge(n).Unscored? && judge(n).kind.CliMissing? ==>
                  r == NoMetric(JudgeCliMissing, n, Some(judge(n).message), Failed))
            && (judge(n).Unscored? && judge(n).kind.StartupRejected? ==>
                  r == NoMetric(JudgeUnreachable, n, Some(judge(n).message), Failed))
            && (Retried(judge, n) ==>
                  r.exit == if exists k :: 0 < k <= n && judge(k).Unscored? && judge(k).fallback then AllBackendsExhausted else JudgeTimeout)
  {
    var start := Initial(probeFailed);
    AttemptsCounted(start, judge, n);
    AllRetried(start, judge, n, parkMax, parkWait);
    if Retried(judge, n) {
      FallbackRemembered(start, judge, n);
    }
  }

  /** The phase exit of a loop without a score, read off its attempts; `TransientIff` is the remaining one. */
  lemma PhaseExitIff(probeFailed: bool, judge: nat -> Attempt, n: nat, parkMax: nat, parkWait: nat)
    requires EndsWithAttempt(probeFailed, judge, n, parkMax, parkWait) && judge(n).Unscored?
    ensures var exit := MapJudgeMeasurementFailure(Outcome(TallyAfter(Initial(probeFailed), judge, n), judge(n)));
            var fellBack := exists k :: 0 < k <= n && judge(k).Unscored? && judge(k).fallback;
            var failed := probeFailed || exists k :: 0 < k <= n && judge(k).Unscored? && judge(k).kind.Failed?;
            && (exit.CliMissingExit? <==> judge(n).kind.CliMissing?)
            && (exit.BackendsExhausted? <==> Retried(judge, n) && fellBack)
            && (exit.TimedOut? <==>
                  Retried(judge, n) && !fellBack && !failed && exists k :: 0 < k <= n && judge(k).Unscored? && judge(k).kind.Timeout?)
            && (exit.Unrecoverable? <==>
                  judge(n).kind.StartupRejected? || (Retried(judge, n) && !fellBack && failed))
  {
    hide Stops, After;
    ResultIs(probeFailed, judge, n, parkMax, parkWait);
    AllRetried(Initial(probeFailed), judge, n, parkMax, parkWait);
    if Retried(judge, n) {
      RetriedKind(probeFailed, judge, n);
      if forall k :: 0 < k <= n ==> !judge(k).kind.Failed? && !judge(k).kind.Timeout? {
        assert forall k :: 0 < k <= n ==> Retried(judge, k);
      }
    }
  }
}
