/**
 * check-flake-budget.js: repeated runs of the test suite with an early exit, and the attribution of
 * failures to tests.
 */
module FlakeBudget {
  import opened JsCollections
  import opened Text
  import opened Wrappers

  datatype Detail = Detail(name: string, duration: Option<nat>)

  /** One child process of a run: it cannot be spawned, or it ends, having reported test results or not. */
  datatype Half = SpawnError | Ended(status: Option<int>, reported: bool, tests: nat)

  /** `details` is what the joined output of all halves names as failing. */
  datatype TestRun = TestRun(halves: seq<Half>, details: seq<Detail>)

  datatype Record = Record(runIndex: nat, status: Option<int>, failing: seq<Detail>)
  datatype Summary = Summary(failures: nat, runsCompleted: nat, records: seq<Record>, testsMeasured: nat)

  // ---- One entry per failing test ----

  /** Names in order of first occurrence: `[...new Set(details.map(d => d.name))]`. */
  function Names(details: seq<Detail>): (names: seq<string>)
    ensures forall name :: name in names <==> exists i :: 0 <= i < |details| && details[i].name == name
    ensures forall i, j :: 0 <= i < j < |names| ==> names[i] != names[j]
  {
    if details == [] then []
    else
      var front, last := details[..|details| - 1], details[|details| - 1];
      var names := Names(front);
      assert details == front + [last];
      if last.name in names then names else names + [last.name]
  }

  /** The earlier name is met before the later one is. */
  lemma {:induction false} NamesInOrder(details: seq<Detail>, i: nat, j: nat)
    requires i < j < |Names(details)|
    ensures exists p :: 0 <= p < |details| && details[p].name == Names(details)[i]
                        && forall q :: 0 <= q <= p ==> details[q].name != Names(details)[j]
  {
    var front, last := details[..|details| - 1], details[|details| - 1];
    var names := Names(details);
    if j < |Names(front)| {
      NamesInOrder(front, i, j);
      var p :| 0 <= p < |front| && front[p].name == Names(front)[i] && forall q :: 0 <= q <= p ==> front[q].name != Names(front)[j];
      assert details[p].name == names[i];
      assert forall q :: 0 <= q <= p ==> details[q] == front[q];
    } else {
      assert names[i] in Names(front) && names[j] !in Names(front);
      var p :| 0 <= p < |front| && front[p].name == names[i];
      assert details[p].name == names[i];
      assert forall q :: 0 <= q <= p ==> details[q] == front[q];
    }
  }

  /** Detail `i` represents its name: the first with a duration, or the first at all when none has one. */
  ghost predicate Represents(details: seq<Detail>, i: int) {
    && 0 <= i < |details|
    && (if details[i].duration.Some?
        then forall j :: 0 <= j < i && details[j].name == details[i].name ==> details[j].duration.None?
        else (forall j :: 0 <= j < i ==> details[j].name != details[i].name) &&
             (forall j :: 0 <= j < |details| && details[j].name == details[i].name ==> details[j].duration.None?))
  }

  ghost predicate Chosen(details: seq<Detail>, d: Detail) {
    exists i :: Represents(details, i) && details[i] == d
  }

  /** The map's state after `n` details: names in order of first occurrence, each with its representative. */
  ghost predicate Deduped(details: seq<Detail>, n: nat, byName: JsMap<string, Detail>)
    requires n <= |details|
  {
    && KeysOf(byName) == Names(details[..n])
    && forall name :: Get(byName, name).Some? ==>
         Get(byName, name).value.name == name && Chosen(details[..n], Get(byName, name).value)
  }

  method DedupeFailureDetails(details: seq<Detail>) returns (r: seq<Detail>)
    ensures |r| == |Names(details)|
    ensures forall k :: 0 <= k < |r| ==> r[k].name == Names(details)[k] && Chosen(details, r[k])
  {
    var byName: JsMap<string, Detail> := [];
    for n := 0 to |details|
      invariant Deduped(details, n, byName)
    {
      var detail := details[n];
      var existing := Get(byName, detail.name);
      if existing.None? || (existing.value.duration.None? && detail.duration.Some?) {
        DedupedPut(details, n, byName);
        byName := Put(byName, detail.name, detail);
      } else {
        DedupedKeep(details, n, byName);
      }
    }
    assert details[..|details|] == details;
    r := ValuesOf(byName);
    forall k | 0 <= k < |r| ensures r[k].name == Names(details)[k] && Chosen(details, r[k]) {
      GetAt(byName, k);
    }
  }

  lemma NamesNext(details: seq<Detail>, n: nat)
    requires n < |details|
    ensures Names(details[..n + 1]) ==
            Names(details[..n]) + if details[n].name in Names(details[..n]) then [] else [details[n].name]
  {
    assert details[..n + 1][..n] == details[..n];
  }

  lemma DedupedPut(details: seq<Detail>, n: nat, byName: JsMap<string, Detail>)
    requires n < |details| && Deduped(details, n, byName)
    requires var existing := Get(byName, details[n].name);
             existing.None? || (existing.value.duration.None? && details[n].duration.Some?)
    ensures Deduped(details, n + 1, Put(byName, details[n].name, details[n]))
  {
    var detail := details[n];
    NamesNext(details, n);
    PutKeys(byName, detail.name, detail);
    GetInKeys(byName, detail.name);
    var after := Put(byName, detail.name, detail);
    forall name | Get(after, name).Some?
      ensures Get(after, name).value.name == name && Chosen(details[..n + 1], Get(after, name).value)
    {
      GetPut(byName, detail.name, detail, name);
      if name == detail.name {
        ReplacedIsChosen(details, n, Get(byName, name));
      } else {
        StaysChosen(details, n, Get(byName, name).value);
      }
    }
  }

  lemma DedupedKeep(details: seq<Detail>, n: nat, byName: JsMap<string, Detail>)
    requires n < |details| && Deduped(details, n, byName)
    requires var existing := Get(byName, details[n].name);
             existing.Some? && (existing.value.duration.Some? || details[n].duration.None?)
    ensures Deduped(details, n + 1, byName)
  {
    NamesNext(details, n);
    GetInKeys(byName, details[n].name);
    forall name | Get(byName, name).Some? ensures Chosen(details[..n + 1], Get(byName, name).value) {
      StaysChosen(details, n, Get(byName, name).value);
    }
  }

  /** `[...map.values()]` */
  function ValuesOf(m: JsMap<string, Detail>): (r: seq<Detail>)
    ensures |r| == |m|
    ensures forall i :: 0 <= i < |m| ==> r[i] == m[i].1
  {
    seq(|m|, i requires 0 <= i < |m| => m[i].1)
  }

  lemma StaysChosen(details: seq<Detail>, n: nat, was: Detail)
    requires n < |details| && Chosen(details[..n], was)
    requires details[n].name != was.name || was.duration.Some? || details[n].duration.None?
    ensures Chosen(details[..n + 1], was)
  {
    var i :| Represents(details[..n], i) && details[..n][i] == was;
    var after := details[..n + 1];
    assert forall j :: 0 <= j < n ==> after[j] == details[..n][j];
    assert Represents(after, i) && after[i] == was;
  }

  lemma ReplacedIsChosen(details: seq<Detail>, n: nat, was: Option<Detail>)
    requires n < |details|
    requires if was.None? then details[n].name !in Names(details[..n])
             else was.value.name == details[n].name && was.value.duration.None? && details[n].duration.Some? &&
                  Chosen(details[..n], was.value)
    ensures Chosen(details[..n + 1], details[n])
  {
    var after := details[..n + 1];
    assert forall j :: 0 <= j < n ==> after[j] == details[..n][j];
    if was.Some? {
      var i :| Represents(details[..n], i) && details[..n][i] == was.value;
    }
    assert Represents(after, n) && after[n] == details[n];
  }

  // ---- Repeated failures ----

  predicate Fails(record: Record, name: string) {
    name in Names(record.failing)
  }

  /** In how many records a test fails. */
  function Appearances(records: seq<Record>, name: string): nat {
    if records == [] then 0
    else Appearances(records[..|records| - 1], name) + if Fails(records[|records| - 1], name) then 1 else 0
  }

  function CountOf(counts: JsMap<string, nat>, name: string): nat {
    Get(counts, name).GetOr(0)
  }

  method CountFailures(records: seq<Record>) returns (counts: JsMap<string, nat>)
    ensures Distinct(KeysOf(counts))
    ensures forall name :: CountOf(counts, name) == Appearances(records, name)
  {
    counts := [];
    for k := 0 to |records|
      invariant Distinct(KeysOf(counts))
      invariant forall name :: CountOf(counts, name) == Appearances(records[..k], name)
    {
      var names := Names(records[k].failing);
      ghost var was := counts;
      for j := 0 to |names|
        invariant Distinct(KeysOf(counts))
        invariant forall name :: CountOf(counts, name) == CountOf(was, name) + if name in names[..j] then 1 else 0
      {
        var count: nat := CountOf(counts, names[j]) + 1;
        PutKeepsDistinct(counts, names[j], count);
        PutCount(counts, names[j], count);
        TakenNext(names, j);
        counts := Put(counts, names[j], count);
      }
      assert names[..|names|] == names;
      forall name ensures CountOf(counts, name) == Appearances(records[..k + 1], name) {
        assert records[..k + 1][..k] == records[..k];
      }
    }
    assert records[..|records|] == records;
  }

  lemma PutCount(counts: JsMap<string, nat>, key: string, count: nat)
    ensures forall name :: CountOf(Put(counts, key, count), name) == if name == key then count else CountOf(counts, name)
  {
    GetPutAll(counts, key, count);
  }

  lemma TakenNext(names: seq<string>, j: nat)
    requires j < |names|
    requires forall a, b :: 0 <= a < b < |names| ==> names[a] != names[b]
    ensures names[j] !in names[..j]
    ensures forall name :: name in names[..j + 1] <==> name in names[..j] || name == names[j]
  {
    assert names[..j + 1] == names[..j] + [names[j]];
  }

  function Repeated(counts: JsMap<string, nat>): seq<string> {
    if counts == [] then []
    else (if counts[0].1 >= 2 then [counts[0].0] else []) + Repeated(counts[1..])
  }

  lemma {:induction false} RepeatedAre(counts: JsMap<string, nat>, name: string)
    requires Distinct(KeysOf(counts))
    ensures name in Repeated(counts) <==> CountOf(counts, name) >= 2
    ensures Distinct(Repeated(counts))
    decreases |counts|
  {
    if counts != [] {
      var tail := counts[1..];
      HeadKeyIsNew(counts);
      GetInKeys(tail, counts[0].0);
      RepeatedAre(tail, name);
      RepeatedAre(tail, counts[0].0);
    }
  }

  lemma HeadKeyIsNew(counts: JsMap<string, nat>)
    requires counts != [] && Distinct(KeysOf(counts))
    ensures Distinct(KeysOf(counts[1..])) && counts[0].0 !in KeysOf(counts[1..])
  {
    var keys, tail := KeysOf(counts), KeysOf(counts[1..]);
    assert keys == [counts[0].0] + tail;
    forall i | 0 <= i < |tail| ensures tail[i] != counts[0].0 {
      assert keys[0] != keys[i + 1];
    }
    forall i, j | 0 <= i < j < |tail| ensures tail[i] != tail[j] {
      assert keys[i + 1] != keys[j + 1];
    }
  }

  lemma TextLeqIsTotal()
    ensures TotalOrder(TextLeq)
  {
    forall a, b ensures TextLeq(a, b) || TextLeq(b, a) {
      TextOrder(a, b);
    }
    forall a, b, c | TextLeq(a, b) && TextLeq(b, c) ensures TextLeq(a, c) {
      TextTransitive(a, b, c);
    }
  }

  method FindRepeatedFailures(records: seq<Record>) returns (names: seq<string>)
    ensures forall name :: name in names <==> InTwoRecords(records, name)
    ensures forall i, j :: 0 <= i < j < |names| ==> CompareText(names[i], names[j]) < 0
  {
    var counts := CountFailures(records);
    var repeated := Repeated(counts);
    names := Sort(repeated, TextLeq);
    TextLeqIsTotal();
    SortCorrect(repeated, TextLeq);
    RepeatedAre(counts, "");
    PermutationKeepsDistinct(repeated, names);
    forall name ensures name in names <==> InTwoRecords(records, name) {
      RepeatedAre(counts, name);
      TwoAppearances(records, name);
    }
    forall i, j | 0 <= i < j < |names| ensures CompareText(names[i], names[j]) < 0 {
      assert TextLeq(names[i], names[j]);
      TextOrder(names[i], names[j]);
    }
  }

  /** The test fails in two different runs. */
  ghost predicate InTwoRecords(records: seq<Record>, name: string) {
    exists a, b :: 0 <= a < b < |records| && Fails(records[a], name) && Fails(records[b], name)
  }

  ghost predicate InOneRecord(records: seq<Record>, name: string) {
    exists a :: 0 <= a < |records| && Fails(records[a], name)
  }

  lemma InRecordsNext(front: seq<Record>, last: Record, name: string)
    ensures InOneRecord(front + [last], name) <==> InOneRecord(front, name) || Fails(last, name)
    ensures InTwoRecords(front + [last], name) <==>
            InTwoRecords(front, name) || (InOneRecord(front, name) && Fails(last, name))
  {
    var all := front + [last];
    assert all[|front|] == last && forall a :: 0 <= a < |front| ==> all[a] == front[a];
    if InOneRecord(front, name) {
      var a :| 0 <= a < |front| && Fails(front[a], name);
      assert Fails(all[a], name);
    }
    if InTwoRecords(front, name) {
      var a, b :| 0 <= a < b < |front| && Fails(front[a], name) && Fails(front[b], name);
      assert Fails(all[a], name) && Fails(all[b], name);
    }
  }

  lemma {:induction false} TwoAppearances(records: seq<Record>, name: string)
    ensures Appearances(records, name) >= 1 <==> InOneRecord(records, name)
    ensures Appearances(records, name) >= 2 <==> InTwoRecords(records, name)
  {
    if records != [] {
      var front, last := records[..|records| - 1], records[|records| - 1];
      TwoAppearances(front, name);
      InRecordsNext(front, last, name);
      assert records == front + [last];
    }
  }

  // ---- The runs ----

  predicate Failed(half: Half) {
    half.Ended? && half.status.GetOr(1) != 0
  }

  predicate Silent(half: Half) {
    half.Ended? && !half.reported
  }

  /** A harness fault: some half could not be spawned, or proved no test results. */
  ghost predicate Fault(run: TestRun) {
    exists h :: h in run.halves && (h.SpawnError? || !h.reported)
  }

  /** Some half ended with anything but exit status 0, a missing status included. */
  ghost predicate Failing(run: TestRun) {
    exists h :: h in run.halves && h.Ended? && h.status != Some(0)
  }

  ghost function CountFailing(runs: seq<TestRun>): nat {
    if runs == [] then 0
    else CountFailing(runs[..|runs| - 1]) + if Failing(runs[|runs| - 1]) then 1 else 0
  }

  /** One pass over the halves of a run; none when a spawn error is thrown. */
  method RunHalves(halves: seq<Half>) returns (r: Option<(Option<Half>, Option<Half>, nat)>)
    ensures r.None? <==> exists h :: h in halves && h.SpawnError?
    ensures r.Some? ==>
              && (r.value.0.Some? <==> exists h :: h in halves && h.status != Some(0))
              && (r.value.0.Some? ==> FirstSuch(halves, r.value.0.value, Failed))
              && (r.value.1.Some? <==> exists h :: h in halves && !h.reported)
              && (r.value.1.Some? ==> FirstSuch(halves, r.value.1.value, Silent))
              && r.value.2 == TestsOf(halves)
  {
    var failed: Option<Half>, silent: Option<Half> := None, None;
    var tests := 0;
    for i := 0 to |halves|
      invariant forall h :: h in halves[..i] ==> h.Ended?
      invariant failed.Some? <==> exists h :: h in halves[..i] && Failed(h)
      invariant failed.Some? ==> FirstSuch(halves[..i], failed.value, Failed)
      invariant silent.Some? <==> exists h :: h in halves[..i] && Silent(h)
      invariant silent.Some? ==> FirstSuch(halves[..i], silent.value, Silent)
      invariant tests == TestsOf(halves[..i])
    {
      var half := halves[i];
      assert halves[..i + 1] == halves[..i] + [half];
      if half.SpawnError? {
        assert half in halves;
        return None;
      }
      if failed.None? && Failed(half) {
        failed := Some(half);
      }
      FirstSuchNext(halves[..i], half, failed, Failed);
      if silent.None? && Silent(half) {
        silent := Some(half);
      }
      FirstSuchNext(halves[..i], half, silent, Silent);
      tests := tests + half.tests;
      assert halves[..i + 1][..i] == halves[..i];
    }
    assert halves[..|halves|] == halves;
    return Some((failed, silent, tests));
  }

  ghost predicate FirstSuch(halves: seq<Half>, h: Half, p: Half -> bool) {
    exists i :: 0 <= i < |halves| && halves[i] == h && p(h) && forall j :: 0 <= j < i ==> !p(halves[j])
  }

  lemma FirstSuchNext(before: seq<Half>, next: Half, found: Option<Half>, p: Half -> bool)
    requires found.Some? ==>
               FirstSuch(before, found.value, p) ||
               (found.value == next && p(next) && forall h :: h in before ==> !p(h))
    ensures found.Some? ==> FirstSuch(before + [next], found.value, p)
  {
    var after := before + [next];
    if found.Some? {
      if FirstSuch(before, found.value, p) {
        var i :| 0 <= i < |before| && before[i] == found.value && p(found.value) && forall j :: 0 <= j < i ==> !p(before[j]);
        assert after[i] == found.value && forall j :: 0 <= j < i ==> !p(after[j]);
      } else {
        assert after[|before|] == next && forall j :: 0 <= j < |before| ==> !p(after[j]);
      }
    }
  }

  function TestsOf(halves: seq<Half>): nat {
    if halves == [] then 0
    else TestsOf(halves[..|halves| - 1]) + if halves[|halves| - 1].Ended? then halves[|halves| - 1].tests else 0
  }

  /** The tests of a run are those of its halves together. */
  lemma {:induction false} TestsAddUp(halves: seq<Half>, more: seq<Half>)
    ensures TestsOf(halves + more) == TestsOf(halves) + TestsOf(more)
    ensures forall status: Option<int>, reported: bool, tests: nat :: TestsOf([Ended(status, reported, tests)]) == tests
  {
    forall status: Option<int>, reported: bool, tests: nat ensures TestsOf([Ended(status, reported, tests)]) == tests {
      assert [Ended(status, reported, tests)][..0] == [];
    }
    if more == [] {
      assert halves + more == halves;
    } else {
      TestsAddUp(halves, more[..|more| - 1]);
      assert (halves + more)[..|halves + more| - 1] == halves + more[..|more| - 1];
    }
  }

  /** The fewest tests any of the runs measured. */
  ghost predicate IsFewest(runs: seq<TestRun>, tests: nat) {
    && (exists k :: 0 <= k < |runs| && TestsOf(runs[k].halves) == tests)
    && (forall k :: 0 <= k < |runs| ==> tests <= TestsOf(runs[k].halves))
  }

  /** The first half that ended with anything but status 0 ended with this one. */
  ghost predicate FirstFailure(halves: seq<Half>, status: Option<int>) {
    exists i :: 0 <= i < |halves|
      && halves[i].Ended? && halves[i].status == status != Some(0)
      && forall j :: 0 <= j < i ==> halves[j].SpawnError? || halves[j].status == Some(0)
  }

  /** Record `r` describes run number `k + 1`. */
  ghost predicate Describes(r: Record, runs: seq<TestRun>, k: int) {
    && 0 <= k < |runs| && r.runIndex == k + 1 && Failing(runs[k])
    && FirstFailure(runs[k].halves, r.status)
    && |r.failing| == |Names(runs[k].details)|
    && forall i :: 0 <= i < |r.failing| ==>
         r.failing[i].name == Names(runs[k].details)[i] && Chosen(runs[k].details, r.failing[i])
  }

  /** The records are, in order, the failing runs among the first `n`. */
  ghost predicate RecordsAre(records: seq<Record>, runs: seq<TestRun>, n: nat)
    requires n <= |runs|
    decreases n
  {
    if n == 0 then records == []
    else if Failing(runs[n - 1]) then
      records != [] && Describes(records[|records| - 1], runs, n - 1) && RecordsAre(records[..|records| - 1], runs, n - 1)
    else RecordsAre(records, runs, n - 1)
  }

  /** Run `k` is reached, and it is a harness fault. */
  ghost predicate FaultReached(runs: seq<TestRun>, budget: nat, k: int) {
    0 <= k < |runs| && Fault(runs[k]) && CountFailing(runs[..k]) <= budget
  }

  /** Before run `k`: everything so far is counted, recorded and within budget, and was no harness fault. */
  ghost predicate Counted(runs: seq<TestRun>, budget: nat, k: nat, failures: nat, records: seq<Record>, fewest: Option<nat>)
    requires k <= |runs|
  {
    && failures == CountFailing(runs[..k])
    && RecordsAre(records, runs, k)
    && (forall j :: 0 <= j < k ==> !FaultReached(runs, budget, j))
    && (fewest.Some? <==> k > 0)
    && (k > 0 ==> IsFewest(runs[..k], fewest.value))
  }

  function Fewer(fewest: Option<nat>, tests: nat): Option<nat> {
    Some(if fewest.None? || tests < fewest.value then tests else fewest.value)
  }

  lemma CountedPass(runs: seq<TestRun>, budget: nat, k: nat, failures: nat, records: seq<Record>, fewest: Option<nat>)
    requires k < |runs| && Counted(runs, budget, k, failures, records, fewest)
    requires !Fault(runs[k]) && !Failing(runs[k])
    ensures Counted(runs, budget, k + 1, failures, records, Fewer(fewest, TestsOf(runs[k].halves)))
  {
    assert runs[..k + 1][..k] == runs[..k];
    FewestNext(runs, k, fewest, TestsOf(runs[k].halves));
  }

  lemma CountedFail(runs: seq<TestRun>, budget: nat, k: nat, failures: nat, records: seq<Record>, fewest: Option<nat>,
                    record: Record)
    requires k < |runs| && Counted(runs, budget, k, failures, records, fewest)
    requires !Fault(runs[k]) && Failing(runs[k]) && Describes(record, runs, k)
    ensures Counted(runs, budget, k + 1, failures + 1, records + [record], Fewer(fewest, TestsOf(runs[k].halves)))
  {
    assert runs[..k + 1][..k] == runs[..k];
    assert (records + [record])[..|records|] == records;
    FewestNext(runs, k, fewest, TestsOf(runs[k].halves));
  }

  /** `runs` are the requested runs; none when the loop throws. */
  method RunIterations(runs: seq<TestRun>, budget: nat) returns (r: Option<Summary>)
    requires runs != []
    ensures r.None? <==> exists k :: FaultReached(runs, budget, k)
    ensures r.Some? ==>
              var s := r.value;
              && 0 < s.runsCompleted <= |runs|
              && s.failures == CountFailing(runs[..s.runsCompleted])
              && RecordsAre(s.records, runs, s.runsCompleted)
              && IsFewest(runs[..s.runsCompleted], s.testsMeasured)
              && (s.failures > budget ==> s.failures == budget + 1)
              && (s.failures <= budget ==> s.runsCompleted == |runs|)
  {
    var failures: nat := 0;
    var records: seq<Record> := [];
    var fewest: Option<nat> := None;
    for k := 0 to |runs|
      invariant failures <= budget
      invariant Counted(runs, budget, k, failures, records, fewest)
    {
      var halves := RunHalves(runs[k].halves);
      if halves.None? {
        assert FaultReached(runs, budget, k);
        return None;
      }
      var (failed, silent, tests) := halves.value;
      if silent.Some? {
        assert FaultReached(runs, budget, k);
        return None;
      }
      if failed.Some? {
        var failing := DedupeFailureDetails(runs[k].details);
        var record := Record(k + 1, failed.value.status, failing);
        RecordDescribes(record, runs, k, failed.value);
        CountedFail(runs, budget, k, failures, records, fewest, record);
        failures, records, fewest := failures + 1, records + [record], Fewer(fewest, tests);
        if failures > budget {
          NoFaultAfterExit(runs, budget, k);
          return Some(Summary(failures, k + 1, records, fewest.value));
        }
      } else {
        CountedPass(runs, budget, k, failures, records, fewest);
        fewest := Fewer(fewest, tests);
      }
    }
    return Some(Summary(failures, |runs|, records, fewest.value));
  }

  lemma RecordDescribes(record: Record, runs: seq<TestRun>, k: nat, failed: Half)
    requires k < |runs| && FirstSuch(runs[k].halves, failed, Failed)
    requires record.runIndex == k + 1 && failed.Ended? && record.status == failed.status
    requires |record.failing| == |Names(runs[k].details)|
    requires forall i :: 0 <= i < |record.failing| ==>
               record.failing[i].name == Names(runs[k].details)[i] && Chosen(runs[k].details, record.failing[i])
    ensures Describes(record, runs, k)
  {
    var halves := runs[k].halves;
    var i :| 0 <= i < |halves| && halves[i] == failed && Failed(failed) && forall j :: 0 <= j < i ==> !Failed(halves[j]);
    assert FirstFailure(halves, record.status);
  }

  lemma FewestNext(runs: seq<TestRun>, k: nat, fewest: Option<nat>, tests: nat)
    requires k < |runs| && tests == TestsOf(runs[k].halves)
    requires fewest.Some? <==> k > 0
    requires k > 0 ==> IsFewest(runs[..k], fewest.value)
    ensures IsFewest(runs[..k + 1], if fewest.None? || tests < fewest.value then tests else fewest.value)
  {
    var after := runs[..k + 1];
    assert after[k] == runs[k];
    if k > 0 {
      var j :| 0 <= j < k && TestsOf(runs[..k][j].halves) == fewest.value;
      assert TestsOf(after[j].halves) == fewest.value;
      assert forall i :: 0 <= i < k ==> after[i] == runs[..k][i];
    }
  }

  lemma {:induction false} CountGrows(runs: seq<TestRun>, a: nat, b: nat)
    requires a <= b <= |runs|
    ensures CountFailing(runs[..a]) <= CountFailing(runs[..b])
    decreases b
  {
    if a < b {
      CountGrows(runs, a, b - 1);
      assert runs[..b][..b - 1] == runs[..b - 1];
    }
  }

  lemma NoFaultAfterExit(runs: seq<TestRun>, budget: nat, k: nat)
    requires k < |runs| && CountFailing(runs[..k + 1]) > budget
    requires forall j :: 0 <= j < k ==> !FaultReached(runs, budget, j)
    requires !Fault(runs[k])
    ensures forall j :: !FaultReached(runs, budget, j)
  {
    forall j: nat | k < j < |runs| ensures CountFailing(runs[..j]) > budget {
      CountGrows(runs, k + 1, j);
    }
  }

  // ---- The verdict ----

  /** Counting every run, with no early exit: no harness fault anywhere and failures within budget. */
  ghost predicate Passes(runs: seq<TestRun>, budget: nat) {
    (forall k :: 0 <= k < |runs| ==> !Fault(runs[k])) && CountFailing(runs) <= budget
  }

  ghost function FailingRuns(runs: seq<TestRun>): set<nat> {
    set k: nat | k < |runs| && Failing(runs[k])
  }

  /** The failures counted are the failing runs, each once. */
  lemma {:induction false} FailuresAreRuns(runs: seq<TestRun>)
    ensures CountFailing(runs) == |FailingRuns(runs)|
  {
    hide Failing;
    if runs == [] {
      assert FailingRuns(runs) == {};
    } else {
      var front, last := runs[..|runs| - 1], |runs| - 1;
      FailuresAreRuns(front);
      assert forall k :: 0 <= k < last ==> front[k] == runs[k];
      assert FailingRuns(runs) == FailingRuns(front) + if Failing(runs[last]) then {last} else {};
    }
  }

  method CheckFlakeBudgetMain(runs: seq<TestRun>, budget: nat) returns (exitCode: nat)
    requires runs != []
    ensures exitCode == if Passes(runs, budget) then 0 else 1
  {
    var summary := RunIterations(runs, budget);
    assert runs[..|runs|] == runs;
    if summary.None? {
      return 1;
    }
    if summary.value.failures > budget {
      CountGrows(runs, summary.value.runsCompleted, |runs|);
      return 1;
    }
    forall k | 0 <= k < |runs| ensures !Fault(runs[k]) {
      CountGrows(runs, k, |runs|);
      assert !FaultReached(runs, budget, k);
    }
    return 0;
  }
}
