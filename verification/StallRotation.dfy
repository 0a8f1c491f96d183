/**
 * The error rotation of a worker-managed run: each handled subprocess error charges a stall to the
 * current subsystem, moves on to the next one, and ends the loop at a cap of consecutive errors.
 * The convergence file is written by the runner alone here.
 */
module StallRotation {
  import opened Wrappers
  import opened JsCollections

  const WORKER_CONSECUTIVE_ERROR_CAP: nat := 3

  /** The fields of the convergence file, and the two fields of the run's state, that rotation uses. */
  datatype Rotation = Rotation(subsystems: seq<string>, index: int, counts: map<string, int>,
                               current: Option<string>, errors: nat)

  function At(xs: seq<string>, i: int): Option<string> {
    if 0 <= i < |xs| then Some(xs[i]) else None
  }

  function IndexOf(xs: seq<string>, x: string): (i: nat)
    requires x in xs
    ensures i < |xs| && xs[i] == x
    ensures forall j :: 0 <= j < i ==> xs[j] != x
  {
    if xs[0] == x then 0 else IndexOf(xs[1..], x) + 1
  }

  function CountOf(r: Rotation, s: string): int {
    if s in r.counts then r.counts[s] else 0
  }

  function Charged(r: Rotation): Option<string> {
    if r.current.Some? then r.current else At(r.subsystems, r.index)
  }

  function MarkStalled(r: Rotation): Rotation {
    var s := Charged(r);
    if s.None? || s.value !in r.subsystems then r
    else r.(counts := r.counts[s.value := CountOf(r, s.value) + 1],
            index := (IndexOf(r.subsystems, s.value) + 1) % |r.subsystems|)
  }

  function Sync(r: Rotation): Rotation {
    r.(current := At(r.subsystems, r.index))
  }

  function OnError(r: Rotation): Rotation {
    Sync(MarkStalled(r.(errors := r.errors + 1)))
  }

  datatype LoopStep = Continue | ExitError

  class WorkerRotation {
    var subsystems: seq<string>
    var currentIndex: int
    var stallCounts: map<string, int>
    var currentSubsystem: Option<string>
    var consecutiveErrors: nat

    ghost function View(): Rotation
      reads this
    {
      Rotation(subsystems, currentIndex, stallCounts, currentSubsystem, consecutiveErrors)
    }

    method MarkWorkerSubsystemStalled()
      modifies this`stallCounts, this`currentIndex
      ensures View() == MarkStalled(old(View()))
    {
      if |subsystems| == 0 {
        return;
      }
      var s := if currentSubsystem.Some? then currentSubsystem else At(subsystems, currentIndex);
      if s.None? || s.value !in subsystems {
        return;
      }
      var nextCount := if s.value in stallCounts then stallCounts[s.value] + 1 else 1;
      stallCounts := stallCounts[s.value := nextCount];
      currentIndex := (IndexOf(subsystems, s.value) + 1) % |subsystems|;
    }

    method HandleWorkerSubprocessError() returns (step: LoopStep)
      modifies this
      ensures View() == OnError(old(View()))
      ensures step == if consecutiveErrors >= 3 then ExitError else Continue
    {
      consecutiveErrors := consecutiveErrors + 1;
      MarkWorkerSubsystemStalled();
      currentSubsystem := At(subsystems, currentIndex);
      if consecutiveErrors >= WORKER_CONSECUTIVE_ERROR_CAP {
        return ExitError;
      }
      return Continue;
    }

    method HandleSuccess()
      modifies this`consecutiveErrors
      ensures View() == old(View()).(errors := 0)
    {
      if consecutiveErrors != 0 {
        consecutiveErrors := 0;
      }
    }
  }

  // ---- Runs of handled errors and success exits ----

  datatype Call = ErrorCall | SuccessExit

  function Run(r: Rotation, calls: seq<Call>): Rotation {
    if calls == [] then r
    else
      var before := Run(r, calls[..|calls| - 1]);
      if calls[|calls| - 1].ErrorCall? then OnError(before) else before.(errors := 0)
  }

  function ErrorsIn(calls: seq<Call>): nat {
    if calls == [] then 0
    else ErrorsIn(calls[..|calls| - 1]) + if calls[|calls| - 1].ErrorCall? then 1 else 0
  }

  /** Errors since the last success exit. */
  function ErrorStreak(calls: seq<Call>): nat {
    if calls == [] || calls[|calls| - 1].SuccessExit? then 0 else ErrorStreak(calls[..|calls| - 1]) + 1
  }

  /** The state is in step with a file of distinct subsystems. */
  ghost predicate Synced(r: Rotation) {
    && Distinct(r.subsystems)
    && 0 <= r.index < |r.subsystems|
    && r.current == Some(r.subsystems[r.index])
  }

  function Succ(x: nat, n: nat): nat
    requires x < n
  {
    if x + 1 == n then 0 else x + 1
  }

  /** The place reached from `i` after `k` steps around `n` places. */
  function Place(i: nat, k: nat, n: nat): (p: nat)
    requires i < n
    ensures p < n
  {
    if k == 0 then i else Succ(Place(i, k - 1, n), n)
  }

  /** How many of the first `k` turns of a round robin over `n` that starts at `i` go to `j`. */
  function Turns(i: nat, k: nat, n: nat, j: nat): nat
    requires i < n
  {
    if k == 0 then 0 else Turns(i, k - 1, n, j) + if Place(i, k - 1, n) == j then 1 else 0
  }

  /** Subsystem `i` is the one an error is charged to: the first of the current one's name, or else of the one at the index. */
  ghost predicate ChargedAt(r: Rotation, i: int) {
    && 0 <= i < |r.subsystems|
    && (|| r.current == Some(r.subsystems[i])
        || (r.current.None? && 0 <= r.index < |r.subsystems| && r.subsystems[r.index] == r.subsystems[i]))
    && forall j :: 0 <= j < i ==> r.subsystems[j] != r.subsystems[i]
  }

  /** Whatever the file holds: one error charges that subsystem, goes one place past it, and takes over what is there. */
  lemma OneError(r: Rotation, i: int)
    requires ChargedAt(r, i)
    ensures var next, s, n := OnError(r), r.subsystems[i], |r.subsystems|;
            && next.subsystems == r.subsystems && next.errors == r.errors + 1
            && next.counts == r.counts[s := if s in r.counts then r.counts[s] + 1 else 1]
            && next.index == (if i + 1 == n then 0 else i + 1)
            && next.current == Some(r.subsystems[next.index])
  {
    var s := r.subsystems[i];
    assert IndexOf(r.subsystems, s) == i;
    SmallMod(i + 1, |r.subsystems|);
  }

  /** With nothing to charge, only the error is counted and the current subsystem read again. */
  lemma OneErrorUncharged(r: Rotation)
    requires forall i :: !ChargedAt(r, i)
    ensures OnError(r) == r.(errors := r.errors + 1,
                             current := if 0 <= r.index < |r.subsystems| then Some(r.subsystems[r.index]) else None)
  {
    var s := Charged(r);
    if s.Some? && s.value in r.subsystems {
      assert ChargedAt(r, IndexOf(r.subsystems, s.value));
    }
  }

  lemma OneTurn(r: Rotation)
    requires Synced(r)
    ensures var next := OnError(r);
            && Synced(next)
            && next.subsystems == r.subsystems
            && next.index == Succ(r.index, |r.subsystems|)
            && next.errors == r.errors + 1
            && (forall s :: CountOf(next, s) == CountOf(r, s) + if s == r.subsystems[r.index] then 1 else 0)
  {
    var i, n := IndexOf(r.subsystems, r.subsystems[r.index]), |r.subsystems|;
    assert i == r.index;
    SmallMod(i + 1, n);
  }

  lemma SmallMod(x: nat, n: nat)
    requires 0 < x <= n
    ensures x % n == if x == n then 0 else x
  {
    if x == n {
      DivModUnique(x, 1, 0, n);
    } else {
      DivModUnique(x, 0, x, n);
    }
  }

  lemma MulGap(a: nat, b: nat, n: nat)
    requires a > b
    ensures a * n >= b * n + n
  {
    assert a * n == b * n + n + (a - b - 1) * n;
  }

  lemma DivModUnique(k: nat, q: nat, r: nat, n: nat)
    requires r < n && k == q * n + r
    ensures k / n == q && k % n == r
  {
    var q', r' := k / n, k % n;
    assert k == q' * n + r';
    if q > q' {
      MulGap(q, q', n);
    } else if q < q' {
      MulGap(q', q, n);
    }
  }

  lemma SuccQuotient(k: nat, n: nat)
    requires n > 0
    ensures k % n == n - 1 ==> (k + 1) / n == k / n + 1 && (k + 1) % n == 0
    ensures k % n != n - 1 ==> (k + 1) / n == k / n && (k + 1) % n == k % n + 1
  {
    var q, r := k / n, k % n;
    assert k == q * n + r;
    if r == n - 1 {
      assert (q + 1) * n == q * n + n;
      DivModUnique(k + 1, q + 1, 0, n);
    } else {
      DivModUnique(k + 1, q, r + 1, n);
    }
  }

  /** A place is the start advanced by `k`, modulo `n`. */
  lemma {:induction false} PlaceIsMod(i: nat, k: nat, n: nat)
    requires i < n
    ensures Place(i, k, n) == (i + k) % n
  {
    if k == 0 {
      DivModUnique(i, 0, i, n);
    } else {
      PlaceIsMod(i, k - 1, n);
      SuccQuotient(i + k - 1, n);
    }
  }

  /** After any calls the state is in step with the file, at the place the errors rotated it to. */
  lemma {:induction false} RotationPlace(r: Rotation, calls: seq<Call>)
    requires Synced(r)
    ensures Synced(Run(r, calls)) && Run(r, calls).subsystems == r.subsystems
    ensures Run(r, calls).index == Place(r.index, ErrorsIn(calls), |r.subsystems|)
  {
    if calls != [] {
      var prior := calls[..|calls| - 1];
      RotationPlace(r, prior);
      if calls[|calls| - 1].ErrorCall? {
        OneTurn(Run(r, prior));
      }
    }
  }

  lemma IndexAdvances(r: Rotation, calls: seq<Call>)
    requires Synced(r)
    ensures Run(r, calls).index == (r.index + ErrorsIn(calls)) % |r.subsystems|
  {
    RotationPlace(r, calls);
    PlaceIsMod(r.index, ErrorsIn(calls), |r.subsystems|);
  }

  /** Each subsystem is charged its turns of a round robin, and nothing else is charged. */
  lemma {:induction false} RotationIsRoundRobin(r: Rotation, calls: seq<Call>, s: string)
    requires Synced(r)
    ensures s !in r.subsystems ==> CountOf(Run(r, calls), s) == CountOf(r, s)
    ensures forall j :: 0 <= j < |r.subsystems| && r.subsystems[j] == s ==>
              CountOf(Run(r, calls), s) == CountOf(r, s) + Turns(r.index, ErrorsIn(calls), |r.subsystems|, j)
  {
    hide OnError;
    if calls != [] {
      var prior := calls[..|calls| - 1];
      RotationIsRoundRobin(r, prior, s);
      RotationPlace(r, prior);
      if calls[|calls| - 1].ErrorCall? {
        OneTurn(Run(r, prior));
      }
    }
  }

  // ---- Fairness ----

  function Distance(i: nat, j: nat, n: nat): nat
    requires i < n && j < n
  {
    if i <= j then j - i else j + n - i
  }

  lemma {:induction false} TurnOf(i: nat, k: nat, n: nat, j: nat)
    requires i < n && j < n
    ensures Place(i, k, n) == j <==> k % n == Distance(i, j, n)
  {
    if k == 0 {
      DivModUnique(0, 0, 0, n);
    } else {
      TurnOf(i, k - 1, n, if j == 0 then n - 1 else j - 1);
      SuccQuotient(k - 1, n);
    }
  }

  /** Every subsystem gets its full rounds, and one more if its place came up in the last one. */
  lemma {:induction false} TurnsCounted(i: nat, k: nat, n: nat, j: nat)
    requires i < n && j < n
    ensures Turns(i, k, n, j) == k / n + if k % n > Distance(i, j, n) then 1 else 0
  {
    if k == 0 {
      DivModUnique(0, 0, 0, n);
    } else {
      TurnsCounted(i, k - 1, n, j);
      TurnOf(i, k - 1, n, j);
      SuccQuotient(k - 1, n);
    }
  }

  /** Any two subsystems' stall counts grow alike, give or take one. */
  lemma FairGrowth(r: Rotation, calls: seq<Call>, a: nat, b: nat)
    requires Synced(r) && a < |r.subsystems| && b < |r.subsystems|
    ensures var after := Run(r, calls);
            var growthA := CountOf(after, r.subsystems[a]) - CountOf(r, r.subsystems[a]);
            var growthB := CountOf(after, r.subsystems[b]) - CountOf(r, r.subsystems[b]);
            0 <= growthA && -1 <= growthA - growthB <= 1
  {
    RotationIsRoundRobin(r, calls, r.subsystems[a]);
    RotationIsRoundRobin(r, calls, r.subsystems[b]);
    TurnsCounted(r.index, ErrorsIn(calls), |r.subsystems|, a);
    TurnsCounted(r.index, ErrorsIn(calls), |r.subsystems|, b);
  }

  function TotalOf(r: Rotation, m: nat): int
    requires m <= |r.subsystems|
  {
    if m == 0 then 0 else TotalOf(r, m - 1) + CountOf(r, r.subsystems[m - 1])
  }

  lemma {:induction false} OneTurnTotal(r: Rotation, m: nat)
    requires Synced(r) && m <= |r.subsystems|
    ensures OnError(r).subsystems == r.subsystems
    ensures TotalOf(OnError(r), m) == TotalOf(r, m) + if r.index < m then 1 else 0
  {
    OneTurn(r);
    if m > 0 {
      OneTurnTotal(r, m - 1);
    }
  }

  lemma {:induction false} SameCountsTotal(r: Rotation, s: Rotation, m: nat)
    requires r.subsystems == s.subsystems && r.counts == s.counts && m <= |r.subsystems|
    ensures TotalOf(r, m) == TotalOf(s, m)
  {
    if m > 0 {
      SameCountsTotal(r, s, m - 1);
    }
  }

  /** Stall counts grow by exactly one per handled error, in total. */
  lemma {:induction false} TotalGrowth(r: Rotation, calls: seq<Call>)
    requires Synced(r)
    ensures Run(r, calls).subsystems == r.subsystems
    ensures TotalOf(Run(r, calls), |r.subsystems|) == TotalOf(r, |r.subsystems|) + ErrorsIn(calls)
  {
    if calls != [] {
      var prior := calls[..|calls| - 1];
      TotalGrowth(r, prior);
      RotationPlace(r, prior);
      if calls[|calls| - 1].ErrorCall? {
        OneTurnTotal(Run(r, prior), |r.subsystems|);
      } else {
        SameCountsTotal(Run(r, prior), Run(r, calls), |r.subsystems|);
      }
    }
  }

  /** The handler's counter is the number of errors in a row, whatever the file holds. */
  lemma {:induction false} ExitsAtCap(r: Rotation, calls: seq<Call>)
    requires r.errors == 0
    ensures Run(r, calls).errors == ErrorStreak(calls)
  {
    if calls != [] {
      ExitsAtCap(r, calls[..|calls| - 1]);
    }
  }

  lemma {:induction false} StreakIsTail(calls: seq<Call>, k: nat)
    ensures ErrorStreak(calls) >= k <==> k <= |calls| && forall i :: |calls| - k <= i < |calls| ==> calls[i].ErrorCall?
  {
    if k > 0 && calls != [] {
      var prior := calls[..|calls| - 1];
      StreakIsTail(prior, k - 1);
      assert forall i :: 0 <= i < |prior| ==> prior[i] == calls[i];
    }
  }

  /** So it asks for the exit exactly when the last three calls are errors. */
  lemma ExitsAtThirdInARow(r: Rotation, calls: seq<Call>)
    requires r.errors == 0
    ensures Run(r, calls).errors >= 3 <==>
            |calls| >= 3 && forall i :: |calls| - 3 <= i < |calls| ==> calls[i].ErrorCall?
  {
    ExitsAtCap(r, calls);
    StreakIsTail(calls, 3);
  }

  /** An error is charged to some subsystem exactly when the index it was synced from lies in the list. */
  lemma ChargedIffIndexInRange(r: Rotation)
    requires r.current == At(r.subsystems, r.index)
    ensures (exists s :: CountOf(OnError(r), s) == CountOf(r, s) + 1) <==> 0 <= r.index < |r.subsystems|
  {
    if 0 <= r.index < |r.subsystems| {
      var s := r.subsystems[r.index];
      assert CountOf(OnError(r), s) == CountOf(r, s) + 1;
    }
  }

  /** With no subsystem to charge, errors are counted but the file never changes: rotation is stuck. */
  lemma {:induction false} StuckWithoutCurrent(r: Rotation, calls: seq<Call>)
    requires r.current.None? && At(r.subsystems, r.index).None?
    ensures Run(r, calls) == r.(errors := Run(r, calls).errors)
  {
    if calls != [] {
      StuckWithoutCurrent(r, calls[..|calls| - 1]);
    }
  }
}
