/**
 * Weekly metrics of metrics.js: rows of daily figures are folded into one bucket per ISO week.
 * Dates are day numbers; day 0 is 1 January 1970, a Thursday.
 */
module WeekBuckets {
  import opened JsCollections
  import opened Wrappers

  datatype Backend = Claude | Codex | Hermes | Deepseek | Grok | Kimi | Gemini

  const BACKENDS := [Claude, Codex, Hermes, Deepseek, Grok, Kimi, Gemini]

  datatype Tokens = Tokens(turns: nat, input: nat, output: nat, cacheRead: nat, cacheCreate: nat, perBackend: map<Backend, nat>)
  datatype Loc = Loc(commits: nat, added: nat, removed: nat)
  datatype Row = Row(date: int, projects: JsMap<string, Tokens>, loc: JsMap<string, Loc>)
  datatype Totals = Totals(turns: nat, input: nat, output: nat, cacheRead: nat, cacheCreate: nat,
                           commits: nat, added: nat, removed: nat)

  /** `week` is the Monday the bucket is labelled by. */
  datatype Bucket = Bucket(week: int, turns: nat, output: nat, backendOutput: map<Backend, nat>,
                           added: nat, removed: nat, projectOutput: JsMap<string, nat>)

  // ---- Weeks ----

  /** `d.getDay()`: 0 is Sunday. */
  function Weekday(day: int): (w: nat)
    ensures w < 7
  {
    (day + 4) % 7
  }

  /** Days of the week follow each other, and day 0 is a Thursday. */
  lemma WeekdaysFollow(day: int)
    ensures Weekday(0) == 4
    ensures Weekday(day + 1) == if Weekday(day) == 6 then 0 else Weekday(day) + 1
  {
  }

  function Monday(day: int): int {
    var weekday := Weekday(day);
    day + if weekday == 0 then -6 else 1 - weekday
  }

  /** The computed day is the one Monday whose seven days hold the date. */
  lemma MondayIsUnique(day: int, m: int)
    ensures m == Monday(day) <==> Weekday(m) == 1 && m <= day < m + 7
  {
    var monday := Monday(day);
    assert Weekday(monday) == 1 && monday <= day < monday + 7;
    if Weekday(m) == 1 && m <= day < m + 7 {
      assert -7 < m - monday < 7;
    }
  }

  // ---- Sums ----

  function Sum<T>(xs: seq<T>, f: T -> nat): nat {
    if xs == [] then 0 else Sum(xs[..|xs| - 1], f) + f(xs[|xs| - 1])
  }

  lemma SumNext<T>(xs: seq<T>, i: nat, f: T -> nat)
    requires i < |xs|
    ensures Sum(xs[..i + 1], f) == Sum(xs[..i], f) + f(xs[i])
  {
    assert xs[..i + 1][..i] == xs[..i];
  }

  function TurnsOf(): ((string, Tokens)) -> nat { (p: (string, Tokens)) => p.1.turns }
  function InputOf(): ((string, Tokens)) -> nat { (p: (string, Tokens)) => p.1.input }
  function OutputOf(): ((string, Tokens)) -> nat { (p: (string, Tokens)) => p.1.output }
  function CacheReadOf(): ((string, Tokens)) -> nat { (p: (string, Tokens)) => p.1.cacheRead }
  function CacheCreateOf(): ((string, Tokens)) -> nat { (p: (string, Tokens)) => p.1.cacheCreate }
  function CommitsOf(): ((string, Loc)) -> nat { (p: (string, Loc)) => p.1.commits }
  function AddedOf(): ((string, Loc)) -> nat { (p: (string, Loc)) => p.1.added }
  function RemovedOf(): ((string, Loc)) -> nat { (p: (string, Loc)) => p.1.removed }

  /** `outputs?.[backend] ?? 0` */
  function Figure(outputs: map<Backend, nat>, b: Backend): nat {
    if b in outputs then outputs[b] else 0
  }

  function BackendOf(b: Backend): ((string, Tokens)) -> nat {
    (p: (string, Tokens)) => Figure(p.1.perBackend, b)
  }

  function SlugOf(slug: string): ((string, Tokens)) -> nat {
    (p: (string, Tokens)) => if p.0 == slug then p.1.output else 0
  }

  function RowTurns(): Row -> nat { (r: Row) => Sum(r.projects, TurnsOf()) }
  function RowOutput(): Row -> nat { (r: Row) => Sum(r.projects, OutputOf()) }
  function RowAdded(): Row -> nat { (r: Row) => Sum(r.loc, AddedOf()) }
  function RowRemoved(): Row -> nat { (r: Row) => Sum(r.loc, RemovedOf()) }
  function RowBackend(b: Backend): Row -> nat { (r: Row) => Sum(r.projects, BackendOf(b)) }
  function RowSlug(slug: string): Row -> nat { (r: Row) => Sum(r.projects, SlugOf(slug)) }

  lemma {:induction false} SumConcat<T>(a: seq<T>, b: seq<T>, f: T -> nat)
    ensures Sum(a + b, f) == Sum(a, f) + Sum(b, f)
  {
    if b == [] {
      assert a + b == a;
    } else {
      SumConcat(a, b[..|b| - 1], f);
      assert (a + b)[..|a + b| - 1] == a + b[..|b| - 1];
    }
  }

  lemma SumOfOne<T>(x: T, f: T -> nat)
    ensures Sum([x], f) == f(x)
  {
    assert [x][..0] == [];
  }

  /** A row of one project and one repository has exactly their figures; `SumConcat` gives the rest. */
  lemma FiguresOfOne(row: Row, slug: string, t: Tokens, repo: string, l: Loc)
    requires row.projects == [(slug, t)] && row.loc == [(repo, l)]
    ensures RowTurns()(row) == t.turns && Sum(row.projects, InputOf()) == t.input && RowOutput()(row) == t.output
    ensures Sum(row.projects, CacheReadOf()) == t.cacheRead && Sum(row.projects, CacheCreateOf()) == t.cacheCreate
    ensures Sum(row.projects, TurnsOf()) == t.turns && Sum(row.projects, OutputOf()) == t.output
    ensures Sum(row.loc, CommitsOf()) == l.commits
    ensures Sum(row.loc, AddedOf()) == l.added == RowAdded()(row) && Sum(row.loc, RemovedOf()) == l.removed == RowRemoved()(row)
    ensures forall b: Backend :: RowBackend(b)(row) == if b in t.perBackend then t.perBackend[b] else 0
    ensures forall other :: RowSlug(other)(row) == if other == slug then t.output else 0
  {
    hide Sum;
    SumOfOne((slug, t), TurnsOf());
    SumOfOne((slug, t), InputOf());
    SumOfOne((slug, t), OutputOf());
    SumOfOne((slug, t), CacheReadOf());
    SumOfOne((slug, t), CacheCreateOf());
    SumOfOne((repo, l), CommitsOf());
    SumOfOne((repo, l), AddedOf());
    SumOfOne((repo, l), RemovedOf());
    forall b: Backend ensures RowBackend(b)(row) == if b in t.perBackend then t.perBackend[b] else 0 {
      SumOfOne((slug, t), BackendOf(b));
    }
    forall other ensures RowSlug(other)(row) == if other == slug then t.output else 0 {
      SumOfOne((slug, t), SlugOf(other));
    }
  }

  // ---- One row ----

  method AggregateRow(row: Row) returns (t: Totals)
    ensures t == Totals(Sum(row.projects, TurnsOf()), Sum(row.projects, InputOf()), Sum(row.projects, OutputOf()),
                        Sum(row.projects, CacheReadOf()), Sum(row.projects, CacheCreateOf()),
                        Sum(row.loc, CommitsOf()), Sum(row.loc, AddedOf()), Sum(row.loc, RemovedOf()))
  {
    t := Totals(0, 0, 0, 0, 0, 0, 0, 0);
    for i := 0 to |row.projects|
      invariant t == Totals(Sum(row.projects[..i], TurnsOf()), Sum(row.projects[..i], InputOf()),
                            Sum(row.projects[..i], OutputOf()), Sum(row.projects[..i], CacheReadOf()),
                            Sum(row.projects[..i], CacheCreateOf()), 0, 0, 0)
    {
      var tokens := row.projects[i].1;
      assert row.projects[..i + 1][..i] == row.projects[..i];
      t := t.(turns := t.turns + tokens.turns, input := t.input + tokens.input, output := t.output + tokens.output,
              cacheRead := t.cacheRead + tokens.cacheRead, cacheCreate := t.cacheCreate + tokens.cacheCreate);
    }
    assert row.projects[..|row.projects|] == row.projects;
    ghost var half := t;
    for i := 0 to |row.loc|
      invariant t == half.(commits := Sum(row.loc[..i], CommitsOf()), added := Sum(row.loc[..i], AddedOf()),
                           removed := Sum(row.loc[..i], RemovedOf()))
    {
      var loc := row.loc[i].1;
      assert row.loc[..i + 1][..i] == row.loc[..i];
      t := t.(commits := t.commits + loc.commits, added := t.added + loc.added, removed := t.removed + loc.removed);
    }
    assert row.loc[..|row.loc|] == row.loc;
  }

  lemma BackendsAreAll(b: Backend)
    ensures b in BACKENDS
  {
    match b
    case Claude => assert BACKENDS[0] == b;
    case Codex => assert BACKENDS[1] == b;
    case Hermes => assert BACKENDS[2] == b;
    case Deepseek => assert BACKENDS[3] == b;
    case Grok => assert BACKENDS[4] == b;
    case Kimi => assert BACKENDS[5] == b;
    case Gemini => assert BACKENDS[6] == b;
  }

  /** `Object.fromEntries(BACKENDS.map(backend => [backend, 0]))` */
  function EmptyBackendOutputs(): (outputs: map<Backend, nat>) {
    map b: Backend | b in BACKENDS :: 0
  }

  lemma EmptyIsZero()
    ensures forall b: Backend :: b in EmptyBackendOutputs() && EmptyBackendOutputs()[b] == 0
  {
    forall b: Backend ensures b in EmptyBackendOutputs() {
      BackendsAreAll(b);
    }
  }

  /** The inner loop of both folds: adds one figure per backend. */
  method AddBackends(outputs: map<Backend, nat>, more: map<Backend, nat>) returns (r: map<Backend, nat>)
    requires forall b: Backend :: b in outputs
    ensures forall b: Backend :: b in r && r[b] == outputs[b] + Figure(more, b)
  {
    r := outputs;
    for j := 0 to |BACKENDS|
      invariant forall b: Backend :: b in r && r[b] == outputs[b] + if b in BACKENDS[..j] then Figure(more, b) else 0
    {
      assert BACKENDS[..j + 1] == BACKENDS[..j] + [BACKENDS[j]];
      assert forall i :: 0 <= i < j ==> BACKENDS[i] != BACKENDS[j];
      r := r[BACKENDS[j] := r[BACKENDS[j]] + Figure(more, BACKENDS[j])];
    }
    forall b: Backend ensures b in BACKENDS[..|BACKENDS|] {
      BackendsAreAll(b);
      assert BACKENDS[..|BACKENDS|] == BACKENDS;
    }
  }

  method AggregateRowBackendOutputs(row: Row) returns (outputs: map<Backend, nat>)
    ensures forall b: Backend :: b in outputs && outputs[b] == RowBackend(b)(row)
  {
    outputs := EmptyBackendOutputs();
    EmptyIsZero();
    for i := 0 to |row.projects|
      invariant forall b: Backend :: b in outputs && outputs[b] == Sum(row.projects[..i], BackendOf(b))
    {
      var tokens := row.projects[i].1;
      forall b: Backend
        ensures Sum(row.projects[..i + 1], BackendOf(b)) ==
                Sum(row.projects[..i], BackendOf(b)) + Figure(tokens.perBackend, b)
      {
        SumNext(row.projects, i, BackendOf(b));
      }
      outputs := AddBackends(outputs, tokens.perBackend);
    }
    assert row.projects[..|row.projects|] == row.projects;
  }

  // ---- One bucket ----

  function ValueOf(m: JsMap<string, nat>, key: string): nat {
    Get(m, key).GetOr(0)
  }

  function Values(m: JsMap<string, nat>): nat {
    if m == [] then 0 else m[0].1 + Values(m[1..])
  }

  lemma {:induction false} PutAdds(m: JsMap<string, nat>, key: string, value: nat)
    ensures Values(Put(m, key, value)) == Values(m) - ValueOf(m, key) + value
  {
    if m != [] && m[0].0 != key {
      PutAdds(m[1..], key, value);
      var tail := Put(m[1..], key, value);
      assert ([m[0]] + tail)[1..] == tail;
    }
  }

  method AddProjects(start: JsMap<string, nat>, projects: JsMap<string, Tokens>) returns (r: JsMap<string, nat>)
    ensures forall slug :: ValueOf(r, slug) == ValueOf(start, slug) + Sum(projects, SlugOf(slug))
    ensures Values(r) == Values(start) + Sum(projects, OutputOf())
  {
    r := start;
    for i := 0 to |projects|
      invariant forall slug :: ValueOf(r, slug) == ValueOf(start, slug) + Sum(projects[..i], SlugOf(slug))
      invariant Values(r) == Values(start) + Sum(projects[..i], OutputOf())
    {
      var (slug, tokens) := projects[i];
      var value: nat := ValueOf(r, slug) + tokens.output;
      PutValue(r, slug, value);
      PutAdds(r, slug, value);
      SumNext(projects, i, OutputOf());
      assert OutputOf()(projects[i]) == tokens.output;
      forall other ensures Sum(projects[..i + 1], SlugOf(other)) ==
                           Sum(projects[..i], SlugOf(other)) + if other == slug then tokens.output else 0
      {
        SumNext(projects, i, SlugOf(other));
      }
      r := Put(r, slug, value);
    }
    assert projects[..|projects|] == projects;
  }

  lemma PutValue(m: JsMap<string, nat>, key: string, value: nat)
    ensures forall other :: ValueOf(Put(m, key, value), other) == if other == key then value else ValueOf(m, other)
  {
    GetPutAll(m, key, value);
  }

  /** The bucket holds exactly the figures of these rows, and its project outputs add up to its output. */
  ghost predicate Holds(bucket: Bucket, rows: seq<Row>) {
    && bucket.turns == Sum(rows, RowTurns())
    && bucket.output == Sum(rows, RowOutput()) == Values(bucket.projectOutput)
    && bucket.added == Sum(rows, RowAdded())
    && bucket.removed == Sum(rows, RowRemoved())
    && (forall b: Backend :: b in bucket.backendOutput && bucket.backendOutput[b] == Sum(rows, RowBackend(b)))
    && (forall slug :: ValueOf(bucket.projectOutput, slug) == Sum(rows, RowSlug(slug)))
  }

  method AddRow(bucket: Bucket, row: Row, ghost rows: seq<Row>) returns (r: Bucket)
    requires Holds(bucket, rows)
    ensures Holds(r, rows + [row]) && r.week == bucket.week
  {
    var totals := AggregateRow(row);
    var backendOutputs := AggregateRowBackendOutputs(row);
    var backendOutput := AddBackends(bucket.backendOutput, backendOutputs);
    var projectOutput := AddProjects(bucket.projectOutput, row.projects);
    r := Bucket(bucket.week, bucket.turns + totals.turns, bucket.output + totals.output, backendOutput,
                bucket.added + totals.added, bucket.removed + totals.removed, projectOutput);
    assert (rows + [row])[..|rows|] == rows;
  }

  // ---- All buckets ----

  /** The rows of one week, in report order. */
  function Week(rows: seq<Row>, monday: int): seq<Row> {
    if rows == [] then []
    else
      var last := rows[|rows| - 1];
      Week(rows[..|rows| - 1], monday) + if Monday(last.date) == monday then [last] else []
  }

  /** One bucket per week that has a row, holding that week's rows. */
  ghost predicate Folded(buckets: JsMap<int, Bucket>, rows: seq<Row>) {
    && Distinct(KeysOf(buckets))
    && (forall m :: Get(buckets, m).Some? <==> Week(rows, m) != [])
    && (forall m :: Get(buckets, m).Some? ==>
          Get(buckets, m).value.week == m && Holds(Get(buckets, m).value, Week(rows, m)))
  }

  lemma WeekNext(rows: seq<Row>, k: nat, m: int)
    requires k < |rows|
    ensures Week(rows[..k + 1], m) == Week(rows[..k], m) + if Monday(rows[k].date) == m then [rows[k]] else []
  {
    assert rows[..k + 1][..k] == rows[..k];
  }

  lemma FoldedNext(buckets: JsMap<int, Bucket>, rows: seq<Row>, k: nat, bucket: Bucket)
    requires k < |rows| && Folded(buckets, rows[..k])
    requires var m := Monday(rows[k].date);
             bucket.week == m && Holds(bucket, Week(rows[..k], m) + [rows[k]])
    ensures Folded(Put(buckets, Monday(rows[k].date), bucket), rows[..k + 1])
  {
    var key := Monday(rows[k].date);
    var after := Put(buckets, key, bucket);
    PutKeepsDistinct(buckets, key, bucket);
    forall m
      ensures Get(after, m).Some? <==> Week(rows[..k + 1], m) != []
      ensures Get(after, m).Some? ==>
                Get(after, m).value.week == m && Holds(Get(after, m).value, Week(rows[..k + 1], m))
    {
      WeekNext(rows, k, m);
      GetPut(buckets, key, bucket, m);
      assert Week(rows[..k], m) + [] == Week(rows[..k], m);
    }
  }

  method FoldRows(rows: seq<Row>) returns (buckets: JsMap<int, Bucket>)
    ensures Folded(buckets, rows)
  {
    buckets := [];
    for k := 0 to |rows|
      invariant Folded(buckets, rows[..k])
    {
      var key := Monday(rows[k].date);
      var found := Get(buckets, key);
      var bucket := if found.Some? then found.value else Bucket(key, 0, 0, EmptyBackendOutputs(), 0, 0, []);
      EmptyIsZero();
      bucket := AddRow(bucket, rows[k], Week(rows[..k], key));
      FoldedNext(buckets, rows, k, bucket);
      buckets := Put(buckets, key, bucket);
    }
    assert rows[..|rows|] == rows;
  }

  /** The order of week keys. */
  predicate NotLater(a: int, b: int) {
    a <= b
  }

  /** The weeks come out in strictly increasing order, none empty, none missing, each holding its rows. */
  ghost predicate InOrder(weeks: seq<Bucket>, rows: seq<Row>) {
    && (forall i, j :: 0 <= i < j < |weeks| ==> weeks[i].week < weeks[j].week)
    && (forall i :: 0 <= i < |weeks| ==> Holds(weeks[i], Week(rows, weeks[i].week)) && Week(rows, weeks[i].week) != [])
    && (forall m :: Week(rows, m) != [] ==> exists i :: 0 <= i < |weeks| && weeks[i].week == m)
  }

  method BuildWeekBuckets(rows: seq<Row>) returns (weeks: seq<Bucket>)
    ensures InOrder(weeks, rows)
  {
    var buckets := FoldRows(rows);
    var sorted := Sort(buckets, ByKey(NotLater));
    weeks := Buckets(sorted);
    SortByKey(buckets, NotLater);
    SortedBuckets(buckets, sorted, rows);
  }

  /** `.map(([, bucket]) => bucket)` */
  function Buckets(sorted: JsMap<int, Bucket>): (r: seq<Bucket>)
    ensures |r| == |sorted|
    ensures forall i :: 0 <= i < |r| ==> r[i] == sorted[i].1
  {
    seq(|sorted|, i requires 0 <= i < |sorted| => sorted[i].1)
  }

  lemma PairIsFolded(buckets: JsMap<int, Bucket>, rows: seq<Row>, p: (int, Bucket))
    requires Folded(buckets, rows) && p in buckets
    ensures p.1.week == p.0 && Holds(p.1, Week(rows, p.0)) && Week(rows, p.0) != []
  {
    var i :| 0 <= i < |buckets| && buckets[i] == p;
    GetAt(buckets, i);
  }

  lemma SortedBuckets(buckets: JsMap<int, Bucket>, sorted: JsMap<int, Bucket>, rows: seq<Row>)
    requires Folded(buckets, rows)
    requires KeysAscend(sorted, NotLater) && forall p :: p in sorted <==> p in buckets
    ensures InOrder(Buckets(sorted), rows)
  {
    var weeks := Buckets(sorted);
    forall i | 0 <= i < |sorted|
      ensures weeks[i].week == sorted[i].0
      ensures Holds(weeks[i], Week(rows, weeks[i].week)) && Week(rows, weeks[i].week) != []
    {
      assert sorted[i] in sorted;
      PairIsFolded(buckets, rows, sorted[i]);
    }
    forall m | Week(rows, m) != [] ensures exists i :: 0 <= i < |weeks| && weeks[i].week == m {
      assert Get(buckets, m).Some?;
      var k := GetFinds(buckets, m);
      assert buckets[k] in sorted;
      var i :| 0 <= i < |sorted| && sorted[i] == buckets[k];
      assert weeks[i].week == m;
    }
  }

  // ---- Conservation: the weeks tile the report ----

  function SumOfWeeks(weeks: seq<Bucket>, rows: seq<Row>, f: Row -> nat): nat {
    if weeks == [] then 0 else SumOfWeeks(weeks[..|weeks| - 1], rows, f) + Sum(Week(rows, weeks[|weeks| - 1].week), f)
  }

  ghost predicate DistinctWeeks(weeks: seq<Bucket>) {
    forall i, j :: 0 <= i < j < |weeks| ==> weeks[i].week != weeks[j].week
  }

  ghost predicate HasWeek(weeks: seq<Bucket>, m: int) {
    exists i :: 0 <= i < |weeks| && weeks[i].week == m
  }

  lemma {:induction false} EmptyWeeks(weeks: seq<Bucket>, f: Row -> nat)
    ensures SumOfWeeks(weeks, [], f) == 0
  {
    if weeks != [] {
      EmptyWeeks(weeks[..|weeks| - 1], f);
    }
  }

  lemma HasWeekNext(front: seq<Bucket>, last: Bucket, m: int)
    ensures HasWeek(front + [last], m) <==> HasWeek(front, m) || last.week == m
  {
    var all := front + [last];
    assert all[|front|] == last && forall i :: 0 <= i < |front| ==> all[i] == front[i];
  }

  lemma LastIsNew(front: seq<Bucket>, last: Bucket)
    requires DistinctWeeks(front + [last])
    ensures DistinctWeeks(front) && !HasWeek(front, last.week)
  {
    var all := front + [last];
    forall i, j | 0 <= i < j < |front| ensures front[i].week != front[j].week {
      assert all[i].week != all[j].week;
    }
    forall i | 0 <= i < |front| ensures front[i].week != last.week {
      assert all[i].week != all[|front|].week;
    }
  }

  lemma WeekGains(rows: seq<Row>, row: Row, m: int, f: Row -> nat)
    ensures Sum(Week(rows + [row], m), f) == Sum(Week(rows, m), f) + if Monday(row.date) == m then f(row) else 0
  {
    assert (rows + [row])[..|rows|] == rows;
    var before := Week(rows, m);
    assert before + [] == before && (before + [row])[..|before|] == before;
  }

  /** One more row raises the weeks' total by its figure, once: it lies in exactly one week. */
  lemma {:induction false} OneWeekGains(weeks: seq<Bucket>, rows: seq<Row>, row: Row, f: Row -> nat)
    requires DistinctWeeks(weeks)
    ensures SumOfWeeks(weeks, rows + [row], f) ==
            SumOfWeeks(weeks, rows, f) + if HasWeek(weeks, Monday(row.date)) then f(row) else 0
    decreases |weeks|
  {
    if weeks != [] {
      var front, last := weeks[..|weeks| - 1], weeks[|weeks| - 1];
      assert weeks == front + [last];
      LastIsNew(front, last);
      OneWeekGains(front, rows, row, f);
      WeekGains(rows, row, last.week, f);
      HasWeekNext(front, last, Monday(row.date));
    }
  }

  ghost predicate Covers(weeks: seq<Bucket>, rows: seq<Row>) {
    forall row :: row in rows ==> HasWeek(weeks, Monday(row.date))
  }

  lemma {:induction false} WeeksTile(weeks: seq<Bucket>, rows: seq<Row>, f: Row -> nat)
    requires DistinctWeeks(weeks) && Covers(weeks, rows)
    ensures SumOfWeeks(weeks, rows, f) == Sum(rows, f)
    decreases |rows|
  {
    hide Monday;
    if rows == [] {
      EmptyWeeks(weeks, f);
    } else {
      var front, last := rows[..|rows| - 1], rows[|rows| - 1];
      assert rows == front + [last];
      assert last in rows;
      WeeksTile(weeks, front, f);
      OneWeekGains(weeks, front, last, f);
    }
  }

  lemma {:induction false} WeekIsMember(rows: seq<Row>, k: nat)
    requires k < |rows|
    ensures Week(rows, Monday(rows[k].date)) != []
  {
    if k < |rows| - 1 {
      WeekIsMember(rows[..|rows| - 1], k);
    }
  }

  function BucketTurns(): Bucket -> nat { (b: Bucket) => b.turns }
  function BucketOutput(): Bucket -> nat { (b: Bucket) => b.output }
  function BucketAdded(): Bucket -> nat { (b: Bucket) => b.added }
  function BucketRemoved(): Bucket -> nat { (b: Bucket) => b.removed }
  function BucketBackend(backend: Backend): Bucket -> nat {
    (b: Bucket) => if backend in b.backendOutput then b.backendOutput[backend] else 0
  }
  function BucketSlug(slug: string): Bucket -> nat { (b: Bucket) => ValueOf(b.projectOutput, slug) }

  /** A bucket figure that is the sum of a row figure over the bucket's rows. */
  lemma {:induction false} FigureTotals(weeks: seq<Bucket>, rows: seq<Row>, g: Bucket -> nat, f: Row -> nat)
    requires forall i :: 0 <= i < |weeks| ==> g(weeks[i]) == Sum(Week(rows, weeks[i].week), f)
    ensures Sum(weeks, g) == SumOfWeeks(weeks, rows, f)
    decreases |weeks|
  {
    if weeks != [] {
      FigureTotals(weeks[..|weeks| - 1], rows, g, f);
    }
  }

  lemma FigureConserved(weeks: seq<Bucket>, rows: seq<Row>, g: Bucket -> nat, f: Row -> nat)
    requires InOrder(weeks, rows)
    requires forall i :: 0 <= i < |weeks| ==> g(weeks[i]) == Sum(Week(rows, weeks[i].week), f)
    ensures Sum(weeks, g) == Sum(rows, f)
  {
    forall row | row in rows ensures HasWeek(weeks, Monday(row.date)) {
      var k :| 0 <= k < |rows| && rows[k] == row;
      WeekIsMember(rows, k);
    }
    FigureTotals(weeks, rows, g, f);
    WeeksTile(weeks, rows, f);
  }

  /** No figure is lost or counted twice: every weekly total adds up to the report's. */
  lemma WeeksConserve(weeks: seq<Bucket>, rows: seq<Row>)
    requires InOrder(weeks, rows)
    ensures Sum(weeks, BucketTurns()) == Sum(rows, RowTurns())
    ensures Sum(weeks, BucketOutput()) == Sum(rows, RowOutput())
    ensures Sum(weeks, BucketAdded()) == Sum(rows, RowAdded())
    ensures Sum(weeks, BucketRemoved()) == Sum(rows, RowRemoved())
    ensures forall b: Backend :: Sum(weeks, BucketBackend(b)) == Sum(rows, RowBackend(b))
    ensures forall slug :: Sum(weeks, BucketSlug(slug)) == Sum(rows, RowSlug(slug))
  {
    FigureConserved(weeks, rows, BucketTurns(), RowTurns());
    FigureConserved(weeks, rows, BucketOutput(), RowOutput());
    FigureConserved(weeks, rows, BucketAdded(), RowAdded());
    FigureConserved(weeks, rows, BucketRemoved(), RowRemoved());
    forall b: Backend ensures Sum(weeks, BucketBackend(b)) == Sum(rows, RowBackend(b)) {
      FigureConserved(weeks, rows, BucketBackend(b), RowBackend(b));
    }
    forall slug ensures Sum(weeks, BucketSlug(slug)) == Sum(rows, RowSlug(slug)) {
      FigureConserved(weeks, rows, BucketSlug(slug), RowSlug(slug));
    }
  }

  /** The date lies in the seven days that start with the bucket's Monday. */
  predicate InWeekOf(bucket: Bucket, date: int) {
    Weekday(bucket.week) == 1 && bucket.week <= date < bucket.week + 7
  }

  /** Each row lies in the bucket of its date's week, and its date in no other bucket's week. */
  lemma RowFallsInItsWeek(weeks: seq<Bucket>, rows: seq<Row>, k: nat)
    requires InOrder(weeks, rows) && k < |rows|
    ensures exists i :: 0 <= i < |weeks| && InWeekOf(weeks[i], rows[k].date)
    ensures forall i :: 0 <= i < |weeks| ==>
              (rows[k] in Week(rows, weeks[i].week) <==> InWeekOf(weeks[i], rows[k].date))
  {
    WeekIsMember(rows, k);
    var i :| 0 <= i < |weeks| && weeks[i].week == Monday(rows[k].date);
    MondayIsUnique(rows[k].date, weeks[i].week);
    assert InWeekOf(weeks[i], rows[k].date);
    forall j | 0 <= j < |weeks|
      ensures rows[k] in Week(rows, weeks[j].week) <==> InWeekOf(weeks[j], rows[k].date)
    {
      MondayIsUnique(rows[k].date, weeks[j].week);
      RowIsMember(rows, k);
      WeekRowsShareMonday(rows, weeks[j].week);
    }
  }

  lemma {:induction false} RowIsMember(rows: seq<Row>, k: nat)
    requires k < |rows|
    ensures rows[k] in Week(rows, Monday(rows[k].date))
  {
    if k < |rows| - 1 {
      RowIsMember(rows[..|rows| - 1], k);
    }
  }

  lemma {:induction false} WeekRowsShareMonday(rows: seq<Row>, m: int)
    ensures forall i :: 0 <= i < |Week(rows, m)| ==> Monday(Week(rows, m)[i].date) == m
  {
    if rows != [] {
      WeekRowsShareMonday(rows[..|rows| - 1], m);
    }
  }
}
