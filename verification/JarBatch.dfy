/**
 * The batch loop of jar-runner.js: `processJarTask` writes each task's status in place, `main` keeps
 * two tallies, and a missing codex CLI may end the night early.
 */
module JarBatch {
  import opened Wrappers

  datatype Backend = Codex | Claude | OtherBackend(name: string)
  datatype Status = Marinating | Consumed | Failed(reason: string)

  /** A queued task: its directory name, the id its meta.json answers for, and the backend meta.json resolves to. */
  datatype Task = Task(dir: string, id: string, metaBackend: Backend)

  datatype RunResult = RunResult(ok: bool, enoent: bool, backend: Backend)

  /** What happens when a task's turn comes: it is unrunnable, its run throws, or the manager ends. */
  datatype Turn = NoSession | NoRepoPath | BadPrd(reason: string) | Threw | Ran(result: RunResult)

  function ResultOf(turn: Turn): RunResult
    requires turn.Threw? || turn.Ran?
  {
    if turn.Ran? then turn.result else RunResult(false, false, Claude)
  }

  /** The status a turn leaves behind on a marinating task. */
  function After(turn: Turn): Status {
    match turn
    case NoSession => Failed("missing-session")
    case NoRepoPath => Failed("missing-repo-path")
    case BadPrd(reason) => Failed(reason)
    case Threw => Failed("task-failed")
    case Ran(r) => if r.enoent then Marinating else if r.ok then Consumed else Failed("task-failed")
  }

  predicate MissingCodex(turn: Turn) {
    turn.Ran? && turn.result.enoent && turn.result.backend == Codex
  }

  // ---- Looking ahead for other codex tasks ----

  /** `tasks.findIndex(meta => taskIdForMeta(meta) === id)`, or the number of tasks when there is none. */
  function FirstWithId(tasks: seq<Task>, id: string): (first: nat)
    ensures first <= |tasks|
    ensures first < |tasks| ==> tasks[first].id == id
    ensures forall k :: 0 <= k < first ==> tasks[k].id != id
  {
    if tasks == [] || tasks[0].id == id then 0
    else
      var rest := FirstWithId(tasks[1..], id);
      assert forall k :: 1 <= k < rest + 1 ==> tasks[k] == tasks[1..][k - 1];
      rest + 1
  }

  /** `session` resolves the backend of the session directory with a given name. */
  predicate LooksCodex(t: Task, status: Status, session: string -> Backend) {
    status.Marinating? && t.id != "" && (t.metaBackend == Codex || session(t.id) == Codex)
  }

  predicate SessionCodex(t: Task, status: Status, session: string -> Backend) {
    status.Marinating? && session(t.dir) == Codex
  }

  /** The ids of the tasks from `from` to `to` that look like codex tasks, in queue order. */
  function CodexIds(tasks: seq<Task>, statuses: seq<Status>, from: nat, to: nat, session: string -> Backend): seq<string>
    requires from <= to <= |tasks| == |statuses|
  {
    if from == to then []
    else CodexIds(tasks, statuses, from, to - 1, session) +
         if LooksCodex(tasks[to - 1], statuses[to - 1], session) then [tasks[to - 1].id] else []
  }

  lemma {:induction false} SomeCodexIds(tasks: seq<Task>, statuses: seq<Status>, from: nat, to: nat, session: string -> Backend)
    requires from <= to <= |tasks| == |statuses|
    ensures CodexIds(tasks, statuses, from, to, session) != [] <==>
            exists j :: from <= j < to && LooksCodex(tasks[j], statuses[j], session)
  {
    if from < to {
      SomeCodexIds(tasks, statuses, from, to - 1, session);
    }
  }

  method HandleTaskEnoent(result: RunResult, tasks: seq<Task>, statuses: array<Status>, currentId: string,
                          session: string -> Backend)
      returns (skipped: seq<string>)
    requires statuses.Length == |tasks|
    ensures skipped == if result.enoent && result.backend == Codex && FirstWithId(tasks, currentId) < |tasks|
                       then CodexIds(tasks, statuses[..], FirstWithId(tasks, currentId) + 1, |tasks|, session) else []
  {
    hide FirstWithId;
    skipped := [];
    if !result.enoent || result.backend != Codex {
      return;
    }
    var first := FirstWithId(tasks, currentId);
    if first == |tasks| {
      return;
    }
    ghost var seen := statuses[..];
    for j := first + 1 to |tasks|
      invariant skipped == CodexIds(tasks, seen, first + 1, j, session)
    {
      assert statuses[j] == seen[j];
      if !statuses[j].Marinating? || tasks[j].id == "" {
        continue;
      }
      if tasks[j].metaBackend == Codex {
        skipped := skipped + [tasks[j].id];
        continue;
      }
      if session(tasks[j].id) == Codex {
        skipped := skipped + [tasks[j].id];
      }
    }
  }

  /** How many of the tasks from `from` to `to` have a codex session. */
  function CodexSessions(tasks: seq<Task>, statuses: seq<Status>, from: nat, to: nat, session: string -> Backend): nat
    requires from <= to <= |tasks| == |statuses|
  {
    if from == to then 0
    else CodexSessions(tasks, statuses, from, to - 1, session) +
         if SessionCodex(tasks[to - 1], statuses[to - 1], session) then 1 else 0
  }

  lemma {:induction false} SomeCodexSessions(tasks: seq<Task>, statuses: seq<Status>, from: nat, to: nat, session: string -> Backend)
    requires from <= to <= |tasks| == |statuses|
    ensures CodexSessions(tasks, statuses, from, to, session) > 0 <==>
            exists j :: from <= j < to && SessionCodex(tasks[j], statuses[j], session)
  {
    if from < to {
      SomeCodexSessions(tasks, statuses, from, to - 1, session);
    }
  }

  method CountRemainingQueuedCodexTasks(tasks: seq<Task>, statuses: array<Status>, index: nat,
                                        session: string -> Backend)
      returns (count: nat)
    requires statuses.Length == |tasks| && index < |tasks|
    ensures count == CodexSessions(tasks, statuses[..], index + 1, |tasks|, session)
  {
    count := 0;
    for j := index + 1 to |tasks|
      invariant count == CodexSessions(tasks, statuses[..], index + 1, j, session)
    {
      if !statuses[j].Marinating? {
        continue;
      }
      if session(tasks[j].dir) == Codex {
        count := count + 1;
      }
    }
  }

  /** The look-ahead finds a codex task when task `index` could not start codex. */
  ghost predicate SeesCodex(tasks: seq<Task>, statuses: seq<Status>, index: nat, session: string -> Backend)
    requires |statuses| == |tasks| && index < |tasks|
  {
    || LooksCodexBehind(tasks, statuses, FirstWithId(tasks, tasks[index].dir), session)
    || SessionCodexBehind(tasks, statuses, index, session)
  }

  ghost predicate LooksCodexBehind(tasks: seq<Task>, statuses: seq<Status>, first: nat, session: string -> Backend)
    requires |statuses| == |tasks|
  {
    exists j :: first < j < |tasks| && LooksCodex(tasks[j], statuses[j], session)
  }

  ghost predicate SessionCodexBehind(tasks: seq<Task>, statuses: seq<Status>, index: nat, session: string -> Backend)
    requires |statuses| == |tasks|
  {
    exists j :: index < j < |tasks| && SessionCodex(tasks[j], statuses[j], session)
  }

  lemma SomeLooksCodex(tasks: seq<Task>, statuses: seq<Status>, first: nat, session: string -> Backend)
    requires |statuses| == |tasks| && first <= |tasks|
    ensures LooksCodexBehind(tasks, statuses, first, session) <==>
            first < |tasks| && CodexIds(tasks, statuses, first + 1, |tasks|, session) != []
  {
    hide LooksCodex, CodexIds;
    if first < |tasks| {
      SomeCodexIds(tasks, statuses, first + 1, |tasks|, session);
    }
  }

  lemma SomeSessionCodex(tasks: seq<Task>, statuses: seq<Status>, index: nat, session: string -> Backend)
    requires |statuses| == |tasks| && index < |tasks|
    ensures SessionCodexBehind(tasks, statuses, index, session) <==>
            CodexSessions(tasks, statuses, index + 1, |tasks|, session) > 0
  {
    hide SessionCodex, CodexSessions;
    SomeCodexSessions(tasks, statuses, index + 1, |tasks|, session);
  }

  lemma SeesIff(tasks: seq<Task>, statuses: seq<Status>, index: nat, session: string -> Backend)
    requires |statuses| == |tasks| && index < |tasks|
    ensures var first := FirstWithId(tasks, tasks[index].dir);
            SeesCodex(tasks, statuses, index, session) <==>
            || (first < |tasks| && CodexIds(tasks, statuses, first + 1, |tasks|, session) != [])
            || CodexSessions(tasks, statuses, index + 1, |tasks|, session) > 0
  {
    hide FirstWithId, LooksCodexBehind, SessionCodexBehind, CodexIds, CodexSessions;
    SomeLooksCodex(tasks, statuses, FirstWithId(tasks, tasks[index].dir), session);
    SomeSessionCodex(tasks, statuses, index, session);
  }

  // ---- One task ----

  method ProcessJarTask(tasks: seq<Task>, statuses: array<Status>, index: nat, turn: Turn,
                        session: string -> Backend)
      returns (succeeded: nat, failed: nat, stop: bool)
    requires statuses.Length == |tasks| && index < |tasks| && statuses[index].Marinating?
    modifies statuses
    ensures statuses[..] == old(statuses[..])[index := After(turn)]
    ensures succeeded == (if After(turn).Consumed? then 1 else 0)
    ensures failed == (if After(turn).Failed? then 1 else 0)
    ensures stop <==> MissingCodex(turn) && SeesCodex(tasks, old(statuses[..]), index, session)
    ensures succeeded == 1 <==> turn.Ran? && turn.result.ok && !turn.result.enoent
    ensures failed == 0 <==> turn.Ran? && (turn.result.ok || turn.result.enoent)
  {
    hide SeesCodex, CodexIds, CodexSessions, FirstWithId;
    if turn.NoSession? {
      statuses[index] := Failed("missing-session");
      return 0, 1, false;
    }
    if turn.NoRepoPath? {
      statuses[index] := Failed("missing-repo-path");
      return 0, 1, false;
    }
    if turn.BadPrd? {
      statuses[index] := Failed(turn.reason);
      return 0, 1, false;
    }
    var result := ResultOf(turn);
    if result.enoent {
      var skippedTasks := HandleTaskEnoent(result, tasks, statuses, tasks[index].dir, session);
      var skipped := 0;
      if result.backend == Codex {
        skipped := |skippedTasks|;
        if skipped == 0 {
          skipped := CountRemainingQueuedCodexTasks(tasks, statuses, index, session);
        }
        SeesIff(tasks, statuses[..], index, session);
      }
      return 0, 0, skipped > 0;
    }
    if result.ok {
      statuses[index] := Consumed;
      return 1, 0, false;
    }
    statuses[index] := Failed("task-failed");
    return 0, 1, false;
  }

  // ---- The batch ----

  /** Statuses once the first `k` turns are over. */
  function StatusesAfter(turns: seq<Turn>, k: nat): (statuses: seq<Status>)
    requires k <= |turns|
    ensures |statuses| == |turns|
    ensures forall i :: 0 <= i < |turns| ==> statuses[i] == if i < k then After(turns[i]) else Marinating
  {
    seq(|turns|, i requires 0 <= i < |turns| => if i < k then After(turns[i]) else Marinating)
  }

  function CountConsumed(statuses: seq<Status>): nat {
    if statuses == [] then 0
    else CountConsumed(statuses[..|statuses| - 1]) + if statuses[|statuses| - 1].Consumed? then 1 else 0
  }

  function CountFailed(statuses: seq<Status>): nat {
    if statuses == [] then 0
    else CountFailed(statuses[..|statuses| - 1]) + if statuses[|statuses| - 1].Failed? then 1 else 0
  }

  function CountMarinating(statuses: seq<Status>): nat {
    if statuses == [] then 0
    else CountMarinating(statuses[..|statuses| - 1]) + if statuses[|statuses| - 1].Marinating? then 1 else 0
  }

  /** How many of the first `k` turns had a manager that ended ok. */
  ghost function CleanRuns(turns: seq<Turn>, k: nat): nat
    requires k <= |turns|
  {
    if k == 0 then 0
    else CleanRuns(turns, k - 1)
         + if turns[k - 1].Ran? && turns[k - 1].result.ok && !turns[k - 1].result.enoent then 1 else 0
  }

  /** How many of the first `k` turns were unrunnable, threw, or had a manager that found its CLI and did not end ok. */
  ghost function LostTurns(turns: seq<Turn>, k: nat): nat
    requires k <= |turns|
  {
    if k == 0 then 0
    else LostTurns(turns, k - 1)
         + if turns[k - 1].Ran? && (turns[k - 1].result.ok || turns[k - 1].result.enoent) then 0 else 1
  }

  ghost predicate StopsAt(tasks: seq<Task>, turns: seq<Turn>, sessions: seq<string -> Backend>, k: nat)
    requires |turns| == |tasks| == |sessions| && k < |tasks|
  {
    MissingCodex(turns[k]) && SeesCodex(tasks, StatusesAfter(turns, k), k, sessions[k])
  }

  /**
   * The loop of `main` over a queue of marinating tasks. `turns[k]` and `sessions[k]` are what task `k`
   * meets when its turn comes, if it comes.
   */
  method RunBatch(tasks: seq<Task>, statuses: array<Status>, turns: seq<Turn>, sessions: seq<string -> Backend>)
      returns (succeeded: nat, failed: nat, done: nat)
    requires statuses.Length == |tasks| == |turns| == |sessions|
    requires forall i :: 0 <= i < |tasks| ==> statuses[i].Marinating?
    modifies statuses
    ensures done <= |tasks| && statuses[..] == StatusesAfter(turns, done)
    ensures succeeded == CountConsumed(statuses[..]) && failed == CountFailed(statuses[..])
    ensures succeeded == CleanRuns(turns, done) && failed == LostTurns(turns, done)
    ensures forall k :: 0 <= k < done - 1 ==> !StopsAt(tasks, turns, sessions, k)
    ensures done < |tasks| ==> done > 0 && StopsAt(tasks, turns, sessions, done - 1)
  {
    hide After, SeesCodex, MissingCodex, CountConsumed, CountFailed;
    succeeded, failed, done := 0, 0, 0;
    assert statuses[..] == StatusesAfter(turns, 0);
    NothingCounted(turns);
    while done < |tasks|
      invariant done <= |tasks|
      invariant statuses[..] == StatusesAfter(turns, done)
      invariant succeeded == CountConsumed(statuses[..]) && failed == CountFailed(statuses[..])
      invariant succeeded == CleanRuns(turns, done) && failed == LostTurns(turns, done)
      invariant forall k :: 0 <= k < done ==> !StopsAt(tasks, turns, sessions, k)
    {
      assert statuses[done] == StatusesAfter(turns, done)[done];
      CountsMove(statuses[..], done, After(turns[done]));
      var s, f, stop := ProcessJarTask(tasks, statuses, done, turns[done], sessions[done]);
      assert statuses[..] == StatusesAfter(turns, done + 1);
      succeeded, failed, done := succeeded + s, failed + f, done + 1;
      if stop {
        break;
      }
    }
  }

  lemma {:induction false} AllMarinating(statuses: seq<Status>)
    requires forall i :: 0 <= i < |statuses| ==> statuses[i].Marinating?
    ensures CountConsumed(statuses) == 0 && CountFailed(statuses) == 0
  {
    if statuses != [] {
      AllMarinating(statuses[..|statuses| - 1]);
    }
  }

  lemma NothingCounted(turns: seq<Turn>)
    ensures CountConsumed(StatusesAfter(turns, 0)) == 0 && CountFailed(StatusesAfter(turns, 0)) == 0
  {
    AllMarinating(StatusesAfter(turns, 0));
  }

  /** One marinating task changes status: exactly its new status gains one. */
  lemma {:induction false} CountsMove(statuses: seq<Status>, i: nat, status: Status)
    requires i < |statuses| && statuses[i].Marinating?
    ensures CountConsumed(statuses[i := status]) == CountConsumed(statuses) + if status.Consumed? then 1 else 0
    ensures CountFailed(statuses[i := status]) == CountFailed(statuses) + if status.Failed? then 1 else 0
    decreases |statuses|
  {
    var n := |statuses| - 1;
    if i == n {
      assert statuses[i := status][..n] == statuses[..n];
    } else {
      assert statuses[i := status][..n] == statuses[..n][i := status];
      CountsMove(statuses[..n], i, status);
    }
  }

  /** No task is lost: consumed, failed and still marinating add up to the queue. */
  lemma {:induction false} NoTaskIsLost(statuses: seq<Status>)
    ensures CountConsumed(statuses) + CountFailed(statuses) + CountMarinating(statuses) == |statuses|
  {
    if statuses != [] {
      NoTaskIsLost(statuses[..|statuses| - 1]);
    }
  }

  /** What is still marinating is a turn that missed its CLI, or a task whose turn never came. */
  lemma MarinatingIffMissingOrUnreached(turns: seq<Turn>, done: nat, i: nat)
    requires done <= |turns| && i < |turns|
    ensures StatusesAfter(turns, done)[i].Marinating? <==> i >= done || (turns[i].Ran? && turns[i].result.enoent)
  {
    assert StatusesAfter(turns, done)[i] == if i < done then After(turns[i]) else Marinating;
  }

  /** Consumed is what was reached and whose manager ended ok with its CLI there. */
  lemma ConsumedIff(turns: seq<Turn>, done: nat, i: nat)
    requires done <= |turns| && i < |turns|
    ensures StatusesAfter(turns, done)[i] == Consumed <==>
            i < done && turns[i].Ran? && turns[i].result.ok && !turns[i].result.enoent
  {
    assert StatusesAfter(turns, done)[i] == if i < done then After(turns[i]) else Marinating;
  }

  /** Failed, with its reason, is what was reached and was unrunnable, threw, or ran with its CLI there and did not end ok. */
  lemma FailedIff(turns: seq<Turn>, done: nat, i: nat, reason: string)
    requires done <= |turns| && i < |turns|
    ensures StatusesAfter(turns, done)[i] == Failed(reason) <==>
            && i < done
            && (|| (turns[i] == NoSession && reason == "missing-session")
                || (turns[i] == NoRepoPath && reason == "missing-repo-path")
                || turns[i] == BadPrd(reason)
                || (turns[i] == Threw && reason == "task-failed")
                || (turns[i].Ran? && !turns[i].result.ok && !turns[i].result.enoent && reason == "task-failed"))
  {
    assert StatusesAfter(turns, done)[i] == if i < done then After(turns[i]) else Marinating;
  }

  /** Task `j` still waits when the turn of task `k` comes. */
  ghost predicate Waits(turns: seq<Turn>, k: nat, j: nat)
    requires j < |turns|
  {
    j >= k || (turns[j].Ran? && turns[j].result.enoent)
  }

  /**
   * The batch stops after a turn exactly when its manager could not find the codex CLI, and either a waiting
   * task behind the first one that answers for this task's directory has an id and is queued for codex by its
   * meta.json or by the session of that id, or a later task's session reads codex.
   */
  lemma StopsIff(tasks: seq<Task>, turns: seq<Turn>, sessions: seq<string -> Backend>, k: nat)
    requires |turns| == |tasks| == |sessions| && k < |tasks|
    ensures StopsAt(tasks, turns, sessions, k) <==>
            && turns[k].Ran? && turns[k].result.enoent && turns[k].result.backend == Codex
            && (|| (exists i, j :: 0 <= i < j < |tasks| && tasks[i].id == tasks[k].dir && Waits(turns, k, j)
                      && tasks[j].id != "" && (tasks[j].metaBackend == Codex || sessions[k](tasks[j].id) == Codex))
                || (exists j :: k < j < |tasks| && sessions[k](tasks[j].dir) == Codex))
  {
    hide FirstWithId;
    var statuses, first := StatusesAfter(turns, k), FirstWithId(tasks, tasks[k].dir);
    forall j | 0 <= j < |tasks| ensures statuses[j].Marinating? <==> Waits(turns, k, j) {
      MarinatingIffMissingOrUnreached(turns, k, j);
    }
    if exists j :: first < j < |tasks| && LooksCodex(tasks[j], statuses[j], sessions[k]) {
      var j :| first < j < |tasks| && LooksCodex(tasks[j], statuses[j], sessions[k]);
      assert 0 <= first < j && tasks[first].id == tasks[k].dir && Waits(turns, k, j);
    }
  }

  // ---- When a stop is justified ----

  /** Some later task is still queued for codex. */
  ghost predicate LaterCodex(tasks: seq<Task>, statuses: seq<Status>, index: nat, session: string -> Backend)
    requires |statuses| == |tasks|
  {
    exists j :: index < j < |tasks| &&
      (LooksCodex(tasks[j], statuses[j], session) || SessionCodex(tasks[j], statuses[j], session))
  }

  /** The look-ahead starts too early: an earlier task answers for this task's directory name. */
  ghost predicate CountsPassedTasks(tasks: seq<Task>, statuses: seq<Status>, index: nat)
    requires |statuses| == |tasks| && index < |tasks|
  {
    exists k :: FirstWithId(tasks, tasks[index].dir) < k <= index && statuses[k].Marinating? && tasks[k].id != ""
  }

  /** Same queue, other backends. */
  ghost predicate SameQueue(a: seq<Task>, b: seq<Task>) {
    |a| == |b| && forall i :: 0 <= i < |a| ==> a[i].dir == b[i].dir && a[i].id == b[i].id
  }

  function WithBackend(tasks: seq<Task>, at: nat): (r: seq<Task>)
    ensures |r| == |tasks|
    ensures forall i :: 0 <= i < |tasks| ==> r[i] == tasks[i].(metaBackend := if i == at then Codex else Claude)
  {
    seq(|tasks|, i requires 0 <= i < |tasks| => tasks[i].(metaBackend := if i == at then Codex else Claude))
  }

  lemma {:induction false} SameQueueSameFirst(a: seq<Task>, b: seq<Task>, id: string)
    requires SameQueue(a, b)
    ensures FirstWithId(a, id) == FirstWithId(b, id)
  {
    if a != [] && a[0].id != id {
      assert SameQueue(a[1..], b[1..]);
      SameQueueSameFirst(a[1..], b[1..], id);
    }
  }

  /** A later marinating task shares this task's session directory, or answers for its name. */
  ghost predicate LaterNamesakes(tasks: seq<Task>, statuses: seq<Status>, index: nat)
    requires |statuses| == |tasks| && index < |tasks|
  {
    exists j :: index < j < |tasks| && statuses[j].Marinating? && Namesake(tasks[j], tasks[index].dir)
  }

  predicate Namesake(t: Task, dir: string) {
    t.dir == dir || (t.id != "" && t.id == dir)
  }

  /** Codex in one session directory only. */
  function OnlyCodexAt(dir: string): string -> Backend {
    (name: string) => if name == dir then Codex else Claude
  }

  /**
   * A task that could not start codex ran on the backend its session names, so that session reads codex.
   * The stop rule is then right for every choice of the other backends (it sees codex only where a later
   * task is queued for codex) exactly when it counts no passed task, or a later task is a namesake.
   */
  lemma StopIsJustifiedIff(tasks: seq<Task>, statuses: seq<Status>, index: nat)
    requires |statuses| == |tasks| && index < |tasks|
    ensures !CountsPassedTasks(tasks, statuses, index) || LaterNamesakes(tasks, statuses, index) <==>
            forall other: seq<Task>, session: string -> Backend ::
              SameQueue(tasks, other) && session(tasks[index].dir) == Codex &&
              SeesCodex(other, statuses, index, session) ==>
              LaterCodex(other, statuses, index, session)
  {
    if !CountsPassedTasks(tasks, statuses, index) || LaterNamesakes(tasks, statuses, index) {
      forall other: seq<Task>, session: string -> Backend
        | SameQueue(tasks, other) && session(tasks[index].dir) == Codex && SeesCodex(other, statuses, index, session)
        ensures LaterCodex(other, statuses, index, session)
      {
        if LaterNamesakes(tasks, statuses, index) {
          NamesakeIsCodex(tasks, other, statuses, index, session);
        } else {
          SeesLater(tasks, other, statuses, index, session);
        }
      }
    } else {
      var k :| FirstWithId(tasks, tasks[index].dir) < k <= index && statuses[k].Marinating? && tasks[k].id != "";
      var other, session := WithBackend(tasks, k), OnlyCodexAt(tasks[index].dir);
      PassedTaskMisleads(tasks, statuses, index, k);
      assert SameQueue(tasks, other) && session(tasks[index].dir) == Codex;
    }
  }

  lemma NamesakeIsCodex(tasks: seq<Task>, other: seq<Task>, statuses: seq<Status>, index: nat, session: string -> Backend)
    requires |statuses| == |tasks| && index < |tasks| && SameQueue(tasks, other)
    requires session(tasks[index].dir) == Codex && LaterNamesakes(tasks, statuses, index)
    ensures LaterCodex(other, statuses, index, session)
  {
    var j :| index < j < |tasks| && statuses[j].Marinating? && Namesake(tasks[j], tasks[index].dir);
    assert LooksCodex(other[j], statuses[j], session) || SessionCodex(other[j], statuses[j], session);
  }

  /** With codex named by a passed task alone the rule sees codex, and no later task is queued for it. */
  lemma PassedTaskMisleads(tasks: seq<Task>, statuses: seq<Status>, index: nat, k: nat)
    requires |statuses| == |tasks| && index < |tasks|
    requires FirstWithId(tasks, tasks[index].dir) < k <= index && statuses[k].Marinating? && tasks[k].id != ""
    requires !LaterNamesakes(tasks, statuses, index)
    ensures var other, session := WithBackend(tasks, k), OnlyCodexAt(tasks[index].dir);
            SeesCodex(other, statuses, index, session) && !LaterCodex(other, statuses, index, session)
  {
    var other, session := WithBackend(tasks, k), OnlyCodexAt(tasks[index].dir);
    SameQueueSameFirst(tasks, other, tasks[index].dir);
    assert LooksCodex(other[k], statuses[k], session);
    forall j | index < j < |tasks|
      ensures !LooksCodex(other[j], statuses[j], session) && !SessionCodex(other[j], statuses[j], session)
    {
      assert statuses[j].Marinating? ==> !Namesake(tasks[j], tasks[index].dir);
    }
  }

  lemma SeesLater(tasks: seq<Task>, other: seq<Task>, statuses: seq<Status>, index: nat, session: string -> Backend)
    requires |statuses| == |tasks| && index < |tasks| && SameQueue(tasks, other)
    requires !CountsPassedTasks(tasks, statuses, index) && SeesCodex(other, statuses, index, session)
    ensures LaterCodex(other, statuses, index, session)
  {
    SameQueueSameFirst(tasks, other, tasks[index].dir);
    var first := FirstWithId(tasks, tasks[index].dir);
    if j :| index < j < |other| && SessionCodex(other[j], statuses[j], session) {
    } else {
      var j :| first < j < |other| && LooksCodex(other[j], statuses[j], session);
      assert other[j].id == tasks[j].id;
      assert j > index;
    }
  }

  /** Every task answers for its own directory name, and no two share one. */
  ghost predicate OwnIds(tasks: seq<Task>) {
    && (forall i :: 0 <= i < |tasks| ==> tasks[i].id == tasks[i].dir != "")
    && (forall i, j :: 0 <= i < j < |tasks| ==> tasks[i].dir != tasks[j].dir)
  }

  /** With distinct ids the batch stops exactly when codex is missing and a later task still needs it. */
  lemma OwnIdsStopExactly(tasks: seq<Task>, turns: seq<Turn>, sessions: seq<string -> Backend>, k: nat)
    requires |turns| == |tasks| == |sessions| && k < |tasks| && OwnIds(tasks)
    ensures StopsAt(tasks, turns, sessions, k) <==>
            MissingCodex(turns[k]) &&
            exists j :: k < j < |tasks| && (tasks[j].metaBackend == Codex || sessions[k](tasks[j].dir) == Codex)
  {
    var statuses := StatusesAfter(turns, k);
    var first := FirstWithId(tasks, tasks[k].dir);
    assert tasks[k].id == tasks[k].dir;
    assert first <= k;
    assert tasks[first].dir == tasks[first].id == tasks[k].dir;
    assert first == k;
    forall j | k < j < |tasks|
      ensures LooksCodex(tasks[j], statuses[j], sessions[k]) <==>
              tasks[j].metaBackend == Codex || sessions[k](tasks[j].dir) == Codex
    {
      assert tasks[j].id == tasks[j].dir;
    }
  }

  // ---- Whole nights ----

  /** Every run starts on the backend its session names, as it stays all night. */
  ghost predicate FollowsSession(tasks: seq<Task>, turns: seq<Turn>, session: string -> Backend) {
    && |turns| == |tasks|
    && forall k :: 0 <= k < |turns| && turns[k].Ran? ==> turns[k].result.backend == session(tasks[k].dir)
  }

  function AllNight(session: string -> Backend, n: nat): (sessions: seq<string -> Backend>)
    ensures |sessions| == n && forall k :: 0 <= k < n ==> sessions[k] == session
  {
    seq(n, k requires 0 <= k < n => session)
  }

  /** The night is stopped by task `index` and by none before it. */
  ghost predicate StoppedBy(tasks: seq<Task>, turns: seq<Turn>, session: string -> Backend, index: nat)
    requires |turns| == |tasks| && index < |tasks|
  {
    var sessions := AllNight(session, |tasks|);
    StopsAt(tasks, turns, sessions, index) && forall k :: 0 <= k < index ==> !StopsAt(tasks, turns, sessions, k)
  }

  /** What in the names of a queue lets task `index` stop a night in which no codex task is left. */
  ghost predicate CanMislead(tasks: seq<Task>, index: nat)
    requires index < |tasks|
  {
    var dir := tasks[index].dir;
    && (forall j :: index < j < |tasks| ==> !Namesake(tasks[j], dir))
    && (exists k :: FirstWithId(tasks, dir) < k <= index && tasks[k].id != "" && (k == index || tasks[k].dir != dir))
  }

  /**
   * Over whole nights, from the queue's names alone: every night that task `index` stops has a codex task
   * left, whatever the backends and whatever happens, exactly when the names cannot mislead.
   */
  lemma NightStopIsJustifiedIff(tasks: seq<Task>, index: nat)
    requires index < |tasks|
    ensures !CanMislead(tasks, index) <==>
            forall other: seq<Task>, turns: seq<Turn>, session: string -> Backend ::
              SameQueue(tasks, other) && FollowsSession(other, turns, session) &&
              StoppedBy(other, turns, session, index) ==>
              LaterCodex(other, StatusesAfter(turns, index), index, session)
  {
    if !CanMislead(tasks, index) {
      forall other: seq<Task>, turns: seq<Turn>, session: string -> Backend
        | SameQueue(tasks, other) && FollowsSession(other, turns, session) && StoppedBy(other, turns, session, index)
        ensures LaterCodex(other, StatusesAfter(turns, index), index, session)
      {
        NightStopIsJustified(tasks, other, turns, session, index);
      }
    } else {
      var dir := tasks[index].dir;
      var k :| FirstWithId(tasks, dir) < k <= index && tasks[k].id != "" && (k == index || tasks[k].dir != dir);
      MisleadingNight(tasks, index, k);
      var other, turns, session := WithBackend(tasks, k), MisleadingTurns(tasks, index), OnlyCodexAt(dir);
      assert SameQueue(tasks, other) && StoppedBy(other, turns, session, index);
    }
  }

  /** A night of such names: no run before task `index` misses codex, task `index` does, and no codex task is left. */
  lemma {:induction false} MisleadingNight(tasks: seq<Task>, index: nat, k: nat)
    requires index < |tasks| && FirstWithId(tasks, tasks[index].dir) < k <= index && tasks[k].id != ""
    requires k == index || tasks[k].dir != tasks[index].dir
    requires forall j :: index < j < |tasks| ==> !Namesake(tasks[j], tasks[index].dir)
    ensures var other, turns, session := WithBackend(tasks, k), MisleadingTurns(tasks, index), OnlyCodexAt(tasks[index].dir);
            && FollowsSession(other, turns, session)
            && StoppedBy(other, turns, session, index)
            && !LaterCodex(other, StatusesAfter(turns, index), index, session)
  {
    hide SeesCodex, LaterCodex, FirstWithId;
    var turns := MisleadingTurns(tasks, index);
    assert StatusesAfter(turns, index)[k].Marinating?;
    PassedTaskMisleads(tasks, StatusesAfter(turns, index), index, k);
    assert forall i :: 0 <= i < index ==> !MissingCodex(turns[i]);
  }

  /** Tasks that answer for their own directory mislead exactly as the last of several copies of one directory. */
  lemma LastCopyMisleads(tasks: seq<Task>, index: nat)
    requires index < |tasks|
    requires forall i :: 0 <= i < |tasks| ==> tasks[i].id == tasks[i].dir != ""
    ensures CanMislead(tasks, index) <==>
            && (exists i :: 0 <= i < index && tasks[i].dir == tasks[index].dir)
            && (forall j :: index < j < |tasks| ==> tasks[j].dir != tasks[index].dir)
  {
    var first := FirstWithId(tasks, tasks[index].dir);
    assert first <= index by {
      assert tasks[index].id == tasks[index].dir;
    }
    if i :| 0 <= i < index && tasks[i].dir == tasks[index].dir {
      assert tasks[i].id == tasks[index].dir;
    }
  }

  lemma NightStopIsJustified(tasks: seq<Task>, other: seq<Task>, turns: seq<Turn>, session: string -> Backend, index: nat)
    requires index < |tasks| && SameQueue(tasks, other) && !CanMislead(tasks, index)
    requires FollowsSession(other, turns, session) && StoppedBy(other, turns, session, index)
    ensures LaterCodex(other, StatusesAfter(turns, index), index, session)
  {
    var statuses, dir := StatusesAfter(turns, index), tasks[index].dir;
    assert session(dir) == Codex;
    if !LaterNamesakes(tasks, statuses, index) && CountsPassedTasks(tasks, statuses, index) {
      var k :| FirstWithId(tasks, dir) < k <= index && statuses[k].Marinating? && tasks[k].id != "";
      assert forall j :: index < j < |tasks| ==> statuses[j].Marinating?;
      assert k < index && tasks[k].dir == dir;
      SecondRunStops(other, turns, session, k, index);
    }
    StopIsJustifiedIff(tasks, statuses, index);
  }

  /** Of two tasks on one codex session, the first that misses codex stops the night. */
  lemma SecondRunStops(tasks: seq<Task>, turns: seq<Turn>, session: string -> Backend, k: nat, index: nat)
    requires FollowsSession(tasks, turns, session) && k < index < |tasks|
    requires tasks[k].dir == tasks[index].dir && session(tasks[k].dir) == Codex
    requires StatusesAfter(turns, index)[k].Marinating?
    ensures StopsAt(tasks, turns, AllNight(session, |tasks|), k)
  {
    assert After(turns[k]).Marinating? && MissingCodex(turns[k]);
    assert SessionCodex(tasks[index], StatusesAfter(turns, k)[index], session);
  }

  /** Task `index` misses codex; before it, its namesakes are unrunnable and every other task misses claude. */
  function MisleadingTurns(tasks: seq<Task>, index: nat): (turns: seq<Turn>)
    requires index < |tasks|
    ensures |turns| == |tasks|
    ensures forall k :: 0 <= k < |tasks| ==>
              turns[k] == if k == index then Ran(RunResult(false, true, Codex))
                          else if tasks[k].dir == tasks[index].dir then NoRepoPath
                          else Ran(RunResult(false, true, Claude))
  {
    seq(|tasks|, k requires 0 <= k < |tasks| =>
      if k == index then Ran(RunResult(false, true, Codex))
      else if tasks[k].dir == tasks[index].dir then NoRepoPath
      else Ran(RunResult(false, true, Claude)))
  }

  /**
   * Two days that jar the same task id: the first copy is skipped, the second finds codex missing and stops
   * a queue in which no codex task is left.
   */
  lemma DuplicateIdStopsEarly()
    ensures var tasks := [Task("t", "t", Claude), Task("t", "t", Claude), Task("u", "u", Claude)];
            var turns := [BadPrd("hash-mismatch"), Ran(RunResult(false, true, Codex)), Ran(RunResult(true, false, Claude))];
            var session := OnlyCodexAt("t");
            && FollowsSession(tasks, turns, session)
            && StoppedBy(tasks, turns, session, 1)
            && !LaterCodex(tasks, StatusesAfter(turns, 1), 1, session)
  {
    var tasks := [Task("t", "t", Claude), Task("t", "t", Claude), Task("u", "u", Claude)];
    var turns := [BadPrd("hash-mismatch"), Ran(RunResult(false, true, Codex)), Ran(RunResult(true, false, Claude))];
    assert tasks[0].id == tasks[1].dir;
    assert FirstWithId(tasks, tasks[1].dir) == 0;
    assert LooksCodex(tasks[1], StatusesAfter(turns, 1)[1], OnlyCodexAt("t"));
  }
}
