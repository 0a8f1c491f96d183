/**
 * The post-convergence deferral protocol: what happens when the worker says "converged" and the
 * per-iteration gate withholds it. Two counters, a latch and a HEAD-keyed refusal count decide
 * when withholding ends. `Step` is the protocol on values, `DeferralContext` the run's mutable
 * context, and `History...` an independent reading of the same protocol that keeps no counters.
 */
module PostConvergence {
  import opened JsCollections
  import opened Text
  import opened Wrappers

  const DEFERRAL_LIMIT: nat := 3
  const CAP_GATE_CHECKS := ["typecheck", "lint"]

  type Sha = string

  datatype HeadRead = Unreadable | Read(sha: Sha)
  datatype CapVerdict = Green | Red | Unmeasured(checks: seq<string>)
  datatype GateAnswer = Threw | Answered(verdict: CapVerdict)
  datatype Exit = Converged | NoProgress | Error

  /** One worker iteration as this protocol sees it; `gate` is what a cap gate would answer in it. */
  datatype Event = NotWithheld | Withheld(selfRed: bool, head: HeadRead, gate: GateAnswer)

  datatype Counters = Counters(deferrals: nat, selfRedOpen: bool, refusalHead: Option<Sha>, refusals: nat,
                               capUnmeasured: seq<string>)

  const INITIAL := Counters(0, false, None, 0, [])

  /** A gate that threw measured nothing: no verdict on the tree. */
  function CapGateVerdict(answer: GateAnswer): CapVerdict {
    match answer
    case Threw => Unmeasured(CAP_GATE_CHECKS)
    case Answered(verdict) => verdict
  }

  /** `[...new Set(s)]`: first occurrences, in order. */
  function Unique(s: seq<string>): (u: seq<string>)
    ensures forall x :: x in u <==> x in s
    ensures Distinct(u)
  {
    if s == [] then []
    else
      var u := Unique(s[..|s| - 1]);
      var x := s[|s| - 1];
      assert s == s[..|s| - 1] + [x];
      if x in u then u else u + [x]
  }

  function Disclose(known: seq<string>, checks: seq<string>): (r: seq<string>) {
    var unique := Unique(known + checks);
    if unique == [] then known else unique
  }

  function Refuse(c: Counters, head: HeadRead): Counters {
    if head.Read? && c.refusalHead != Some(head.sha)
    then c.(refusalHead := Some(head.sha), refusals := 1)
    else c.(refusals := c.refusals + 1)
  }

  /** The exit a cap gate ends the run with; `onRed` differs between the two bounds. */
  function Verdict(c: Counters, answer: GateAnswer, onRed: Exit): (Counters, Option<Exit>) {
    match CapGateVerdict(answer)
    case Red => (c, Some(onRed))
    case Unmeasured(checks) => (c.(capUnmeasured := Disclose(c.capUnmeasured, checks)), Some(Converged))
    case Green => (c, Some(Converged))
  }

  function Step(c: Counters, e: Event): (Counters, Option<Exit>) {
    match e
    case NotWithheld => (c.(deferrals := 0, selfRedOpen := false), None)
    case Withheld(selfRed, head, gate) =>
      var open := selfRed || c.selfRedOpen;
      var c' := c.(selfRedOpen := open, deferrals := c.deferrals + 1);
      if open then
        var r := Refuse(c', head);
        if r.refusals >= DEFERRAL_LIMIT then Verdict(r, gate, NoProgress) else (r, None)
      else if c'.deferrals >= DEFERRAL_LIMIT then Verdict(c', gate, Error)
      else (c', None)
  }

  /** The run's context object and the disclosed checks of the state object it rewrites. */
  class DeferralContext {
    var deferrals: nat
    var selfRedOpen: bool
    var refusalHead: Option<Sha>
    var refusals: nat
    var capUnmeasured: seq<string>

    ghost function View(): Counters
      reads this
    {
      Counters(deferrals, selfRedOpen, refusalHead, refusals, capUnmeasured)
    }

    constructor ()
      ensures View() == INITIAL
    {
      deferrals, selfRedOpen, refusalHead, refusals, capUnmeasured := 0, false, None, 0, [];
    }

    method RecordSelfRedRefusal(head: HeadRead) returns (count: nat)
      modifies this
      ensures View() == Refuse(old(View()), head)
      ensures count == refusals
    {
      if head.Read? && Some(head.sha) != refusalHead {
        refusalHead := Some(head.sha);
        refusals := 1;
      } else {
        refusals := refusals + 1;
      }
      count := refusals;
    }

    method RunCapGate(answer: GateAnswer) returns (verdict: CapVerdict)
      ensures verdict == CapGateVerdict(answer)
    {
      if answer.Threw? {
        return Unmeasured(CAP_GATE_CHECKS);
      }
      return answer.verdict;
    }

    method HandleSelfRedRefusalBound(gate: GateAnswer) returns (exit: Exit)
      modifies this`capUnmeasured
      ensures (View(), Some(exit)) == Verdict(old(View()), gate, NoProgress)
    {
      var verdict := RunCapGate(gate);
      if verdict.Red? {
        return NoProgress;
      }
      if verdict.Unmeasured? {
        capUnmeasured := Disclose(capUnmeasured, verdict.checks);
      }
      return Converged;
    }

    method HandlePostConvergenceGateDeferral(e: Event) returns (exit: Option<Exit>)
      modifies this
      ensures (View(), exit) == Step(old(View()), e)
    {
      if e.NotWithheld? {
        deferrals := 0;
        selfRedOpen := false;
        return None;
      }
      selfRedOpen := e.selfRed || selfRedOpen;
      deferrals := deferrals + 1;
      if selfRedOpen {
        var refusalCount := RecordSelfRedRefusal(e.head);
        if refusalCount >= DEFERRAL_LIMIT {
          var bound := HandleSelfRedRefusalBound(e.gate);
          return Some(bound);
        }
        return None;
      }
      if deferrals >= DEFERRAL_LIMIT {
        var verdict := RunCapGate(e.gate);
        if verdict.Red? {
          return Some(Error);
        }
        if verdict.Unmeasured? {
          capUnmeasured := Disclose(capUnmeasured, verdict.checks);
        }
        return Some(Converged);
      }
      return None;
    }
  }

  /** The counters after a whole history of iterations, and the exit its last iteration asks for. */
  function Run(h: seq<Event>): Counters {
    if h == [] then INITIAL else Step(Run(h[..|h| - 1]), h[|h| - 1]).0
  }

  function ExitAt(h: seq<Event>): Option<Exit>
    requires h != []
  {
    Step(Run(h[..|h| - 1]), h[|h| - 1]).1
  }

  // ---- The same protocol without counters ----

  /** How many iterations at the end of the history withheld convergence, with none in between. */
  function Streak(h: seq<Event>): (n: nat)
    ensures n <= |h|
    ensures forall i :: |h| - n <= i < |h| ==> h[i].Withheld?
    ensures n < |h| ==> h[|h| - n - 1].NotWithheld?
  {
    if h == [] || h[|h| - 1].NotWithheld? then 0 else Streak(h[..|h| - 1]) + 1
  }

  /** A self-introduced red was observed since the last iteration that was not withheld. */
  ghost predicate SelfRedSeen(h: seq<Event>) {
    exists i :: |h| - Streak(h) <= i < |h| && h[i].selfRed
  }

  /** HEAD as read at every refusal: every withheld iteration with a self-introduced red in view. */
  ghost function RefusalReads(h: seq<Event>): seq<HeadRead> {
    if h == [] then []
    else
      var before := RefusalReads(h[..|h| - 1]);
      if h[|h| - 1].Withheld? && SelfRedSeen(h) then before + [h[|h| - 1].head] else before
  }

  function LastReadable(heads: seq<HeadRead>): Option<Sha> {
    if heads == [] then None
    else if heads[|heads| - 1].Read? then Some(heads[|heads| - 1].sha)
    else LastReadable(heads[..|heads| - 1])
  }

  /** Read `i` showed a HEAD other than the last one that could be read before it. */
  predicate Moved(heads: seq<HeadRead>, i: nat)
    requires i < |heads|
  {
    heads[i].Read? && LastReadable(heads[..i]) != Some(heads[i].sha)
  }

  /** There are `m` latest refusals, and HEAD did not move after the first of them. */
  predicate SettledFor(heads: seq<HeadRead>, m: nat) {
    m <= |heads| && forall i :: |heads| - m < i < |heads| ==> !Moved(heads, i)
  }

  ghost function HistoryExit(h: seq<Event>): Option<Exit>
    requires h != []
  {
    var e := h[|h| - 1];
    if e.NotWithheld? then None
    else if SelfRedSeen(h) then
      if !SettledFor(RefusalReads(h), 3) then None
      else if e.gate == Answered(Red) then Some(NoProgress) else Some(Converged)
    else if Streak(h) < 3 then None
    else if e.gate == Answered(Red) then Some(Error) else Some(Converged)
  }

  lemma SelfRedSeenStep(h: seq<Event>)
    requires h != []
    ensures SelfRedSeen(h) <==>
            h[|h| - 1].Withheld? && (h[|h| - 1].selfRed || SelfRedSeen(h[..|h| - 1]))
  {
    var prior, last := h[..|h| - 1], h[|h| - 1];
    if last.Withheld? {
      if SelfRedSeen(prior) {
        var i :| |prior| - Streak(prior) <= i < |prior| && prior[i].selfRed;
        assert h[i].selfRed;
      }
      if SelfRedSeen(h) && !last.selfRed {
        var i :| |h| - Streak(h) <= i < |h| && h[i].selfRed;
        assert prior[i].selfRed;
      }
    }
  }

  /** Whether the refusals are settled for `m` only depends on the counter the code keeps. */
  ghost predicate CountsSettled(heads: seq<HeadRead>, refusals: nat) {
    forall m: nat :: SettledFor(heads, m) <==> m <= refusals
  }

  lemma SettledExtend(heads: seq<HeadRead>, refusals: nat, head: HeadRead)
    requires CountsSettled(heads, refusals)
    ensures var moved := head.Read? && LastReadable(heads) != Some(head.sha);
            CountsSettled(heads + [head], if moved then 1 else refusals + 1)
  {
    var all := heads + [head];
    var n := |heads|;
    assert all[..n] == heads;
    var moved := head.Read? && LastReadable(heads) != Some(head.sha);
    assert Moved(all, n) == moved;
    forall i | 0 <= i < n ensures Moved(all, i) == Moved(heads, i) {
      assert all[..i] == heads[..i];
    }
    forall m: nat ensures SettledFor(all, m) <==> m <= (if moved then 1 else refusals + 1) {
      if m >= 1 && !moved {
        assert SettledFor(all, m) <==> SettledFor(heads, m - 1);
      }
    }
  }

  lemma {:induction false} LatchRefinesHistory(h: seq<Event>)
    ensures Run(h).deferrals == Streak(h)
    ensures Run(h).selfRedOpen == SelfRedSeen(h)
  {
    if h != [] {
      LatchRefinesHistory(h[..|h| - 1]);
      SelfRedSeenStep(h);
    }
  }

  lemma StepRefuses(c: Counters, e: Event)
    ensures var c', refused := Step(c, e).0, e.Withheld? && (e.selfRed || c.selfRedOpen);
            && c'.refusalHead == (if refused && e.head.Read? then Some(e.head.sha) else c.refusalHead)
            && c'.refusals == (if !refused then c.refusals
                               else if e.head.Read? && c.refusalHead != Some(e.head.sha) then 1
                               else c.refusals + 1)
  {
  }

  /** What the counters mean: each is determined by the history alone. */
  lemma {:induction false} CountersRefineHistory(h: seq<Event>)
    ensures Run(h).deferrals == Streak(h)
    ensures Run(h).selfRedOpen == SelfRedSeen(h)
    ensures Run(h).refusalHead == LastReadable(RefusalReads(h))
    ensures CountsSettled(RefusalReads(h), Run(h).refusals)
  {
    LatchRefinesHistory(h);
    if h == [] {
      assert CountsSettled([], 0);
    } else {
      var prior, e := h[..|h| - 1], h[|h| - 1];
      CountersRefineHistory(prior);
      SelfRedSeenStep(h);
      StepRefuses(Run(prior), e);
      assert Run(h) == Step(Run(prior), e).0;
      if e.Withheld? && SelfRedSeen(h) {
        SettledExtend(RefusalReads(prior), Run(prior).refusals, e.head);
        assert RefusalReads(h)[..|RefusalReads(h)| - 1] == RefusalReads(prior);
      }
    }
  }

  /** The counter machine and the counter-free reading ask for the same exit after every history. */
  lemma ExitRefinesHistory(h: seq<Event>)
    requires h != []
    ensures ExitAt(h) == HistoryExit(h)
  {
    var prior, e := h[..|h| - 1], h[|h| - 1];
    CountersRefineHistory(h);
    if e.Withheld? {
      assert Run(h) == Step(Run(prior), e).0;
      VerdictKeepsCounters(Run(prior), e);
      assert SettledFor(RefusalReads(h), 3) <==> 3 <= Run(h).refusals;
    }
  }

  /** The exit of a withheld step read off the counters it leaves behind. */
  lemma VerdictKeepsCounters(c: Counters, e: Event)
    requires e.Withheld?
    ensures var (c', exit) := Step(c, e);
            exit == if !(if c'.selfRedOpen then c'.refusals >= 3 else c'.deferrals >= 3) then None
                    else if e.gate != Answered(Red) then Some(Converged)
                    else if c'.selfRedOpen then Some(NoProgress) else Some(Error)
  {
  }

  // ---- Safety ----

  /** "Converged" needs a verdict that is not red, and three settled refusals if a self-red is in view. */
  lemma ConvergedIsGated(h: seq<Event>)
    requires h != [] && ExitAt(h) == Some(Converged)
    ensures h[|h| - 1].Withheld? && h[|h| - 1].gate != Answered(Red)
    ensures Streak(h) >= 3 || SelfRedSeen(h)
    ensures SelfRedSeen(h) ==> SettledFor(RefusalReads(h), 3)
  {
    ExitRefinesHistory(h);
  }

  lemma RedNeverConverges(h: seq<Event>)
    requires h != [] && h[|h| - 1].Withheld? && h[|h| - 1].gate == Answered(Red)
    ensures ExitAt(h) in {None, Some(NoProgress), Some(Error)}
    ensures ExitAt(h) == Some(NoProgress) ==> SelfRedSeen(h)
    ensures ExitAt(h) == Some(Error) ==> !SelfRedSeen(h)
  {
    ExitRefinesHistory(h);
  }

  lemma {:induction false} UniqueExtends(a: seq<string>, b: seq<string>)
    ensures Unique(a) <= Unique(a + b)
  {
    if b == [] {
      assert a + b == a;
    } else {
      UniqueExtends(a, b[..|b| - 1]);
      assert (a + b)[..|a + b| - 1] == a + b[..|b| - 1];
    }
  }

  lemma DiscloseAdds(known: seq<string>, checks: seq<string>)
    requires Distinct(known)
    ensures Distinct(Disclose(known, checks)) && known <= Disclose(known, checks)
    ensures forall x :: x in Disclose(known, checks) <==> x in known || x in checks
  {
    UniqueOfDistinct(known);
    UniqueExtends(known, checks);
    assert forall x :: x in known + checks <==> x in known || x in checks;
    if Unique(known + checks) == [] {
      assert forall x :: x !in known + checks;
    }
  }

  /** The checks a cap gate says, or shows by throwing, that it did not measure. */
  ghost predicate LeavesUnmeasured(gate: GateAnswer, check: string) {
    match gate
    case Threw => check == "typecheck" || check == "lint"
    case Answered(Unmeasured(checks)) => check in checks
    case Answered(_) => false
  }

  /** What one step discloses, from a list with no repeats: the unmeasured checks, when it converges. */
  ghost predicate DisclosesExactly(before: seq<string>, after: seq<string>, e: Event, exit: Option<Exit>)
    requires e.Withheld?
  {
    && Distinct(after)
    && before <= after
    && (forall x :: x in after <==> x in before || (exit == Some(Converged) && LeavesUnmeasured(e.gate, x)))
    && (exit != Some(Converged) ==> after == before)
  }

  lemma StepDiscloses(c: Counters, e: Event)
    requires Distinct(c.capUnmeasured) && e.Withheld?
    ensures DisclosesExactly(c.capUnmeasured, Step(c, e).0.capUnmeasured, e, Step(c, e).1)
  {
    if CapGateVerdict(e.gate).Unmeasured? {
      DiscloseAdds(c.capUnmeasured, CapGateVerdict(e.gate).checks);
    }
  }

  lemma {:induction false} DisclosedDistinct(h: seq<Event>)
    ensures Distinct(Run(h).capUnmeasured)
  {
    if h != [] {
      DisclosedDistinct(h[..|h| - 1]);
      if h[|h| - 1].Withheld? {
        StepDiscloses(Run(h[..|h| - 1]), h[|h| - 1]);
      }
    }
  }

  /** Disclosures only accumulate, never twice, and exactly those of an unmeasured verdict are added. */
  lemma DisclosureGrows(h: seq<Event>)
    requires h != [] && h[|h| - 1].Withheld?
    ensures DisclosesExactly(Run(h[..|h| - 1]).capUnmeasured, Run(h).capUnmeasured, h[|h| - 1], ExitAt(h))
  {
    DisclosedDistinct(h[..|h| - 1]);
    StepDiscloses(Run(h[..|h| - 1]), h[|h| - 1]);
  }

  /** A gate that threw refuses nothing, and a run that converges over it has both its checks disclosed. */
  lemma ThrownGateDisclosesBoth(h: seq<Event>)
    requires h != [] && h[|h| - 1].Withheld? && h[|h| - 1].gate == Threw
    ensures ExitAt(h) == None || ExitAt(h) == Some(Converged)
    ensures ExitAt(h) == Some(Converged) ==> "typecheck" in Run(h).capUnmeasured && "lint" in Run(h).capUnmeasured
  {
    ExitRefinesHistory(h);
    DisclosureGrows(h);
    assert LeavesUnmeasured(Threw, "typecheck") && LeavesUnmeasured(Threw, "lint");
  }

  /** A run converges with its disclosures unchanged exactly over a green gate, or when all it names is known. */
  lemma ConvergedSilentlyIff(h: seq<Event>)
    requires h != [] && ExitAt(h) == Some(Converged)
    ensures Run(h).capUnmeasured == Run(h[..|h| - 1]).capUnmeasured <==>
            || h[|h| - 1].gate == Answered(Green)
            || (h[|h| - 1].gate == Threw && "typecheck" in Run(h[..|h| - 1]).capUnmeasured
                                         && "lint" in Run(h[..|h| - 1]).capUnmeasured)
            || (exists checks :: h[|h| - 1].gate == Answered(Unmeasured(checks))
                                 && forall x :: x in checks ==> x in Run(h[..|h| - 1]).capUnmeasured)
  {
    ConvergedIsGated(h);
    DisclosureGrows(h);
    hide Run, ExitAt, Streak, SelfRedSeen, SettledFor, RefusalReads;
    SilentIffKnown(Run(h[..|h| - 1]).capUnmeasured, Run(h).capUnmeasured, h[|h| - 1].gate);
  }

  lemma SilentIffKnown(before: seq<string>, after: seq<string>, gate: GateAnswer)
    requires Distinct(after) && before <= after && gate != Answered(Red)
    requires forall x :: x in after <==> x in before || LeavesUnmeasured(gate, x)
    ensures after == before <==>
            || gate == Answered(Green)
            || (gate == Threw && "typecheck" in before && "lint" in before)
            || (exists checks :: gate == Answered(Unmeasured(checks)) && forall x :: x in checks ==> x in before)
  {
    PrefixOfDistinct(before, after);
    assert after == before <==> forall x :: LeavesUnmeasured(gate, x) ==> x in before;
    match gate
    case Threw =>
      assert LeavesUnmeasured(gate, "typecheck") && LeavesUnmeasured(gate, "lint");
    case Answered(Unmeasured(checks)) =>
      assert forall x :: LeavesUnmeasured(gate, x) <==> x in checks;
    case Answered(_) =>
  }

  lemma PrefixOfDistinct(before: seq<string>, after: seq<string>)
    requires Distinct(after) && before <= after
    ensures before == after <==> forall x :: x in after ==> x in before
  {
    if |before| < |after| {
      forall i | 0 <= i < |before| ensures before[i] != after[|before|] {
        assert before[i] == after[i];
      }
      assert after[|before|] in after;
    }
  }

  lemma {:induction false} UniqueOfDistinct(s: seq<string>)
    requires Distinct(s)
    ensures Unique(s) == s
  {
    if s != [] {
      UniqueOfDistinct(s[..|s| - 1]);
      assert s == s[..|s| - 1] + [s[|s| - 1]];
    }
  }

  // ---- Bounded withholding ----

  ghost predicate AllWithheld(w: seq<Event>) {
    forall i :: 0 <= i < |w| ==> w[i].Withheld?
  }

  /** `h` may be followed by a fresh run of withheld iterations. */
  predicate Fresh(h: seq<Event>) {
    h == [] || h[|h| - 1].NotWithheld?
  }

  ghost predicate ExitsWithin(h: seq<Event>, w: seq<Event>, k: nat) {
    exists j :: 0 < j <= k && j <= |w| && ExitAt(h + w[..j]).Some?
  }

  lemma {:induction false} StreakOfRun(h: seq<Event>, w: seq<Event>)
    requires Fresh(h) && AllWithheld(w)
    ensures Streak(h + w) == |w|
  {
    if w == [] {
      assert h + w == h;
    } else {
      StreakOfRun(h, w[..|w| - 1]);
      assert (h + w)[..|h + w| - 1] == h + w[..|w| - 1];
    }
  }

  lemma SeenInRun(h: seq<Event>, w: seq<Event>)
    requires Fresh(h) && AllWithheld(w)
    ensures SelfRedSeen(h + w) <==> exists i :: 0 <= i < |w| && w[i].selfRed
  {
    StreakOfRun(h, w);
    if SelfRedSeen(h + w) {
      var i :| |h| <= i < |h + w| && (h + w)[i].selfRed;
      assert w[i - |h|].selfRed;
    }
    if i :| 0 <= i < |w| && w[i].selfRed {
      assert (h + w)[|h| + i].selfRed;
    }
  }

  /** Once a self-introduced red opened in a run of withheld iterations, the latch stays open in it. */
  lemma LatchStaysOpen(h: seq<Event>, w: seq<Event>, i: nat, k: nat)
    requires Fresh(h) && AllWithheld(w) && i < k <= |w| && w[i].selfRed
    ensures Run(h + w[..k]).selfRedOpen
  {
    SeenInRun(h, w[..k]);
    assert w[..k][i].selfRed;
    CountersRefineHistory(h + w[..k]);
  }

  /** The heads read from iteration `first` of the run on. */
  function HeadsFrom(w: seq<Event>, first: nat): (heads: seq<HeadRead>)
    requires AllWithheld(w) && first <= |w|
    ensures |heads| == |w| - first
    ensures forall i :: 0 <= i < |heads| ==> heads[i] == w[first + i].head
  {
    seq(|w| - first, i requires 0 <= i < |w| - first => w[first + i].head)
  }

  lemma RefusalAdded(h: seq<Event>, v: seq<Event>, e: Event)
    requires e.Withheld?
    ensures RefusalReads(h + (v + [e])) ==
            if SelfRedSeen(h + (v + [e])) then RefusalReads(h + v) + [e.head] else RefusalReads(h + v)
  {
    var all := h + (v + [e]);
    assert all[..|all| - 1] == h + v;
  }

  /** From the first self-red on, every iteration of the run is a refusal. */
  lemma {:induction false} ReadsOfRun(h: seq<Event>, w: seq<Event>, first: nat)
    requires Fresh(h) && AllWithheld(w) && first <= |w| && (first < |w| ==> w[first].selfRed)
    requires forall i :: 0 <= i < first ==> !w[i].selfRed
    ensures RefusalReads(h + w) == RefusalReads(h) + HeadsFrom(w, first)
  {
    hide RefusalReads, SelfRedSeen;
    if first == |w| {
      assert HeadsFrom(w, first) == [];
      ReadsBeforeSelfRed(h, w);
    } else {
      var v, e := w[..|w| - 1], w[|w| - 1];
      ReadsOfRun(h, v, first);
      SeenInRun(h, w);
      assert w == v + [e];
      RefusalAdded(h, v, e);
      assert HeadsFrom(w, first) == HeadsFrom(v, first) + [e.head];
    }
  }

  lemma {:induction false} ReadsBeforeSelfRed(h: seq<Event>, w: seq<Event>)
    requires Fresh(h) && AllWithheld(w)
    requires forall i :: 0 <= i < |w| ==> !w[i].selfRed
    ensures RefusalReads(h + w) == RefusalReads(h)
  {
    if w == [] {
      assert h + w == h;
    } else {
      ReadsBeforeSelfRed(h, w[..|w| - 1]);
      assert (h + w)[..|h + w| - 1] == h + w[..|w| - 1];
      SeenInRun(h, w);
    }
  }

  /** Without a self-introduced red the third withheld iteration ends the run, and none before it does. */
  lemma PlainRunExitsAtThird(h: seq<Event>, w: seq<Event>)
    requires Fresh(h) && AllWithheld(w)
    requires forall i :: 0 <= i < |w| ==> !w[i].selfRed
    ensures forall k :: 0 < k <= |w| && k < 3 ==> ExitAt(h + w[..k]).None?
    ensures |w| >= 3 ==> ExitAt(h + w[..3]).Some?
  {
    forall k | 0 < k <= |w| && k <= 3
      ensures ExitAt(h + w[..k]).Some? <==> k == 3
    {
      StreakOfRun(h, w[..k]);
      SeenInRun(h, w[..k]);
      ExitRefinesHistory(h + w[..k]);
    }
  }

  lemma ExitWhenSettled(h: seq<Event>, w: seq<Event>, first: nat, k: nat)
    requires Fresh(h) && AllWithheld(w) && first < |w| && w[first].selfRed
    requires forall i :: 0 <= i < first ==> !w[i].selfRed
    requires first < k <= |w|
    requires SettledFor(RefusalReads(h) + HeadsFrom(w[..k], first), 3)
    ensures ExitAt(h + w[..k]).Some?
  {
    ReadsOfRun(h, w[..k], first);
    SeenInRun(h, w[..k]);
    assert w[..k][first].selfRed;
    ExitRefinesHistory(h + w[..k]);
  }

  /** HEAD is `sha` whenever it can be read. */
  ghost predicate HeadStays(w: seq<Event>, sha: Sha) {
    forall i :: 0 <= i < |w| ==> w[i].Withheld? && (w[i].head.Read? ==> w[i].head.sha == sha)
  }

  lemma {:induction false} ReadableAfter(before: seq<HeadRead>, heads: seq<HeadRead>, sha: Sha)
    requires forall i :: 0 <= i < |heads| ==> heads[i].Read? ==> heads[i].sha == sha
    requires exists i :: 0 <= i < |heads| && heads[i].Read?
    ensures LastReadable(before + heads) == Some(sha)
  {
    var all := before + heads;
    assert all[|all| - 1] == heads[|heads| - 1];
    if !heads[|heads| - 1].Read? {
      var i :| 0 <= i < |heads| && heads[i].Read?;
      var shorter := heads[..|heads| - 1];
      assert shorter[i].Read?;
      ReadableAfter(before, shorter, sha);
      assert all[..|all| - 1] == before + shorter;
    }
  }

  /** After one read of an unmoving HEAD, no later read moves it. */
  lemma NoMoveAfterRead(before: seq<HeadRead>, heads: seq<HeadRead>, sha: Sha, i: nat, j: nat)
    requires forall i :: 0 <= i < |heads| ==> heads[i].Read? ==> heads[i].sha == sha
    requires i < j < |heads| && heads[i].Read?
    ensures !Moved(before + heads, |before| + j)
  {
    var all := before + heads;
    assert all[..|before| + j] == before + heads[..j];
    assert heads[..j][i].Read?;
    ReadableAfter(before, heads[..j], sha);
  }

  lemma FirstSelfRed(w: seq<Event>) returns (first: nat)
    requires AllWithheld(w) && exists i :: 0 <= i < |w| && w[i].selfRed
    ensures first < |w| && w[first].selfRed
    ensures forall i :: 0 <= i < first ==> !w[i].selfRed
  {
    first := 0;
    while !w[first].selfRed
      invariant first < |w|
      invariant forall i :: 0 <= i < first ==> !w[i].selfRed
      invariant exists i :: first <= i < |w| && w[i].selfRed
      decreases |w| - first
    {
      first := first + 1;
    }
  }

  lemma SettledThree(before: seq<HeadRead>, heads: seq<HeadRead>, sha: Sha)
    requires |heads| == 3 && forall i :: 0 <= i < 3 ==> heads[i] == Read(sha)
    ensures SettledFor(before + heads, 3)
  {
    NoMoveAfterRead(before, heads, sha, 0, 1);
    NoMoveAfterRead(before, heads, sha, 0, 2);
  }

  /** HEAD readable and unchanged: the fifth consecutive withheld iteration is the last, whatever the mix. */
  lemma WithholdingEndsByFifth(h: seq<Event>, w: seq<Event>, sha: Sha)
    requires Fresh(h) && |w| >= 5
    requires forall i :: 0 <= i < |w| ==> w[i].Withheld? && w[i].head == Read(sha)
    ensures ExitsWithin(h, w, 5)
  {
    if forall i :: 0 <= i < 3 ==> !w[i].selfRed {
      PlainRunExitsAtThird(h, w[..3]);
      assert w[..3][..3] == w[..3];
      assert ExitAt(h + w[..3]).Some?;
    } else {
      var first := FirstSelfRed(w[..3]);
      SettledThree(RefusalReads(h), HeadsFrom(w[..first + 3], first), sha);
      ExitWhenSettled(h, w, first, first + 3);
      assert ExitAt(h + w[..first + 3]).Some?;
    }
  }

  /** HEAD reads that fail, mixed in, cost at most two more: the seventh is the last. */
  lemma WithholdingEndsBySeventh(h: seq<Event>, w: seq<Event>, sha: Sha)
    requires Fresh(h) && |w| >= 7 && HeadStays(w, sha)
    ensures ExitsWithin(h, w, 7)
  {
    if forall i :: 0 <= i < 3 ==> !w[i].selfRed {
      PlainRunExitsAtThird(h, w[..3]);
      assert w[..3][..3] == w[..3];
      assert ExitAt(h + w[..3]).Some?;
    } else {
      var first := FirstSelfRed(w[..3]);
      var heads := HeadsFrom(w[..first + 5], first);
      var end := SettledPoint(RefusalReads(h), heads, sha);
      assert HeadsFrom(w[..first + end], first) == heads[..end];
      ExitWhenSettled(h, w, first, first + end);
      assert ExitAt(h + w[..first + end]).Some?;
    }
  }

  lemma SettledPoint(before: seq<HeadRead>, heads: seq<HeadRead>, sha: Sha) returns (end: nat)
    requires |heads| == 5
    requires forall i :: 0 <= i < |heads| ==> heads[i].Read? ==> heads[i].sha == sha
    ensures 3 <= end <= 5 && SettledFor(before + heads[..end], 3)
  {
    end := if heads[0].Read? then 3 else if heads[1].Read? then 4 else if heads[2].Read? then 5 else 3;
    var all := before + heads[..end];
    forall i | |all| - 3 < i < |all| ensures !Moved(all, i) {
      var j := i - |before|;
      assert all[i] == heads[j];
      if heads[j].Read? {
        NoMoveAfterRead(before, heads[..end], sha, end - 3, j);
      }
    }
  }

  /** The bound is keyed on HEAD: with a self-red open and HEAD moving every time, no run is long enough. */
  lemma WithheldWhileHeadMoves(h: seq<Event>, w: seq<Event>, k: nat)
    requires Fresh(h) && AllWithheld(w) && 0 < k <= |w| && w[0].selfRed
    requires forall i :: 0 <= i < |w| ==> w[i].head.Read?
    requires LastReadable(RefusalReads(h)) != Some(w[0].head.sha)
    requires forall i :: 0 < i < |w| ==> w[i].head != w[i - 1].head
    ensures ExitAt(h + w[..k]).None?
  {
    ReadsOfRun(h, w[..k], 0);
    LastReadMoved(RefusalReads(h), HeadsFrom(w[..k], 0));
    assert SelfRedSeen(h + w[..k]) by {
      SeenInRun(h, w[..k]);
      assert w[..k][0].selfRed;
    }
    ExitRefinesHistory(h + w[..k]);
  }

  /** A run in which the worker commits every time: a self-red over a HEAD never seen before, the gate always green. */
  function MovingHeads(n: nat): (w: seq<Event>)
    ensures |w| == n
    ensures forall i :: 0 <= i < n ==> w[i] == Withheld(true, Read(Decimal(i)), Answered(Green))
  {
    seq(n, i requires 0 <= i < n => Withheld(true, Read(Decimal(i)), Answered(Green)))
  }

  lemma NumeralsDiffer(i: nat)
    requires i > 0
    ensures Decimal(i) != Decimal(i - 1)
  {
    ValueOfDecimal(i);
    ValueOfDecimal(i - 1);
  }

  /** However long it is, that run is withheld to its end. */
  lemma MovingHeadsNeverExit(n: nat)
    requires n > 0
    ensures ExitAt(MovingHeads(n)).None?
  {
    var w := MovingHeads(n);
    forall i | 0 < i < n ensures w[i].head != w[i - 1].head {
      NumeralsDiffer(i);
    }
    assert LastReadable(RefusalReads([])).None?;
    WithheldWhileHeadMoves([], w, n);
    assert [] + w[..n] == w;
  }

  lemma LastReadMoved(before: seq<HeadRead>, heads: seq<HeadRead>)
    requires heads != [] && forall i :: 0 <= i < |heads| ==> heads[i].Read?
    requires LastReadable(before) != Some(heads[0].sha)
    requires forall i :: 0 < i < |heads| ==> heads[i] != heads[i - 1]
    ensures !SettledFor(before + heads, 3)
  {
    var all := before + heads;
    var n := |all| - 1;
    assert all[..n] == before + heads[..|heads| - 1];
    if |heads| == 1 {
      assert all[..n] == before;
    } else {
      assert all[..n][n - 1] == heads[|heads| - 2];
    }
    assert Moved(all, n);
  }
}
