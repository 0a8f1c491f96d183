/**
 * `applyLedgerPartialProgress` (microverse-runner.js): a pass judged "held" is upgraded when the
 * largest size figure the ledger shows for some path strictly fell and that path was committed to.
 */
module PartialProgress {
  import opened JsCollections
  import opened Wrappers

  datatype Kind = Lines | Complexity

  /** An entry's figures, already read; `path` is absent when the entry names none. */
  datatype Entry = Entry(path: Option<string>, figures: JsMap<Kind, real>)

  datatype Classification = Improved | Held | Regressed
  datatype Basis =
    | Judged(note: string)
    | PartialProgress(path: string, figure: Kind, previous: real, current: real)
  datatype Comparison = Comparison(classification: Classification, basis: Basis)

  type Folded = JsMap<string, JsMap<Kind, real>>

  function Key(e: Entry): string {
    e.path.GetOr("")
  }

  function Larger(a: Option<real>, b: Option<real>): Option<real> {
    match (a, b)
    case (None, _) => b
    case (_, None) => a
    case (Some(x), Some(y)) => Some(if x < y then y else x)
  }

  function LargestIn(figures: JsMap<Kind, real>, kind: Kind): Option<real> {
    if figures == [] then None
    else
      var last := figures[|figures| - 1];
      Larger(LargestIn(figures[..|figures| - 1], kind), if last.0 == kind then Some(last.1) else None)
  }

  /** The largest figure of a kind over all entries of a path. */
  function Largest(entries: seq<Entry>, path: string, kind: Kind): Option<real> {
    if entries == [] then None
    else
      var last := entries[|entries| - 1];
      Larger(Largest(entries[..|entries| - 1], path, kind),
             if Key(last) == path then LargestIn(last.figures, kind) else None)
  }

  function At(byPath: Folded, path: string, kind: Kind): Option<real> {
    var figures := Get(byPath, path);
    if figures.None? then None else Get(figures.value, kind)
  }

  // The order in which the map is walked: of first occurrence

  function AddNew<T(==)>(xs: seq<T>, x: T): seq<T> {
    if x in xs then xs else xs + [x]
  }

  function AddKinds(kinds: seq<Kind>, figures: JsMap<Kind, real>): seq<Kind> {
    if figures == [] then kinds
    else AddNew(AddKinds(kinds, figures[..|figures| - 1]), figures[|figures| - 1].0)
  }

  /** The paths of a ledger. */
  function Paths(entries: seq<Entry>): seq<string> {
    if entries == [] then [] else AddNew(Paths(entries[..|entries| - 1]), Key(entries[|entries| - 1]))
  }

  /** The kinds of figures a ledger shows for a path. */
  function Kinds(entries: seq<Entry>, path: string): seq<Kind> {
    if entries == [] then []
    else
      var last, kinds := entries[|entries| - 1], Kinds(entries[..|entries| - 1], path);
      if Key(last) == path then AddKinds(kinds, last.figures) else kinds
  }

  function KindsAt(byPath: Folded, path: string): seq<Kind> {
    KeysOf(Get(byPath, path).GetOr([]))
  }

  /** No path twice, and no kind twice under a path. */
  ghost predicate WellKeyed(byPath: Folded) {
    && Distinct(KeysOf(byPath))
    && forall path :: Get(byPath, path).Some? ==> Distinct(KeysOf(Get(byPath, path).value))
  }

  method FoldFigures(start: JsMap<Kind, real>, figures: JsMap<Kind, real>) returns (folded: JsMap<Kind, real>)
    requires Distinct(KeysOf(start))
    ensures Distinct(KeysOf(folded)) && KeysOf(folded) == AddKinds(KeysOf(start), figures)
    ensures forall kind :: Get(folded, kind) == Larger(Get(start, kind), LargestIn(figures, kind))
  {
    folded := start;
    for j := 0 to |figures|
      invariant Distinct(KeysOf(folded)) && KeysOf(folded) == AddKinds(KeysOf(start), figures[..j])
      invariant forall kind :: Get(folded, kind) == Larger(Get(start, kind), LargestIn(figures[..j], kind))
    {
      var (kind, value) := figures[j];
      var was := Get(folded, kind).GetOr(value);
      var larger := if was < value then value else was;
      PutKeepsDistinct(folded, kind, larger);
      PutKeys(folded, kind, larger);
      GetPutAll(folded, kind, larger);
      folded := Put(folded, kind, larger);
      assert figures[..j + 1][..j] == figures[..j];
    }
    assert figures[..|figures|] == figures;
  }

  /** The map holds the maxima of these entries, in order of first occurrence. */
  ghost predicate Folds(byPath: Folded, entries: seq<Entry>) {
    && WellKeyed(byPath)
    && KeysOf(byPath) == Paths(entries)
    && (forall path :: KindsAt(byPath, path) == Kinds(entries, path))
    && (forall path, kind :: At(byPath, path, kind) == Largest(entries, path, kind))
  }

  lemma FoldsNext(byPath: Folded, entries: seq<Entry>, i: nat, folded: JsMap<Kind, real>)
    requires i < |entries| && Folds(byPath, entries[..i])
    requires var start := Get(byPath, Key(entries[i])).GetOr([]);
             && Distinct(KeysOf(folded)) && KeysOf(folded) == AddKinds(KeysOf(start), entries[i].figures)
             && forall kind :: Get(folded, kind) == Larger(Get(start, kind), LargestIn(entries[i].figures, kind))
    ensures Folds(Put(byPath, Key(entries[i]), folded), entries[..i + 1])
  {
    var key := Key(entries[i]);
    var after := Put(byPath, key, folded);
    assert entries[..i + 1][..i] == entries[..i];
    PutKeepsDistinct(byPath, key, folded);
    PutKeys(byPath, key, folded);
    forall path
      ensures Get(after, path).Some? ==> Distinct(KeysOf(Get(after, path).value))
      ensures KindsAt(after, path) == Kinds(entries[..i + 1], path)
      ensures forall kind :: At(after, path, kind) == Largest(entries[..i + 1], path, kind)
    {
      GetPut(byPath, key, folded, path);
      assert KindsAt(byPath, path) == Kinds(entries[..i], path);
      forall kind ensures At(after, path, kind) == Largest(entries[..i + 1], path, kind) {
        assert At(byPath, path, kind) == Largest(entries[..i], path, kind);
        assert path == key ==> At(byPath, path, kind) == Get(Get(byPath, key).GetOr([]), kind);
      }
    }
  }

  method LargestLedgerFiguresByPath(entries: seq<Entry>) returns (byPath: Folded)
    ensures Folds(byPath, entries)
  {
    byPath := [];
    for i := 0 to |entries|
      invariant Folds(byPath, entries[..i])
    {
      var key := Key(entries[i]);
      var folded := FoldFigures(Get(byPath, key).GetOr([]), entries[i].figures);
      FoldsNext(byPath, entries, i, folded);
      byPath := Put(byPath, key, folded);
    }
    assert entries[..|entries|] == entries;
  }

  predicate Fell(prior: seq<Entry>, current: seq<Entry>, path: string, kind: Kind) {
    var was, now := Largest(prior, path, kind), Largest(current, path, kind);
    was.Some? && now.Some? && now.value < was.value
  }

  ghost predicate SomethingFell(prior: seq<Entry>, current: seq<Entry>) {
    exists path, kind :: Fell(prior, current, path, kind)
  }

  /** The rule: some path that was committed to has a fallen largest figure. */
  ghost predicate MadeProgress(prior: seq<Entry>, current: seq<Entry>, committed: Option<set<string>>) {
    committed.Some? && exists path, kind :: path in committed.value && Fell(prior, current, path, kind)
  }

  /**
   * `prior` and `current` are absent when the ledger holds no list of entries; `committed` is what the
   * lazy `committedPaths()` answers, and `asked` tells whether it was called.
   */
  method ApplyLedgerPartialProgress(comparison: Comparison, prior: Option<seq<Entry>>,
                                    current: Option<seq<Entry>>, committed: Option<set<string>>)
      returns (r: Comparison, asked: bool)
    ensures !comparison.classification.Held? || prior.None? || current.None? ==> r == comparison && !asked
    ensures comparison.classification.Held? && prior.Some? && current.Some? ==>
              && (asked <==> SomethingFell(prior.value, current.value))
              && (if MadeProgress(prior.value, current.value, committed)
                  then r.classification.Improved? && Justifies(r.basis, prior.value, current.value, committed)
                  else r == comparison)
  {
    if !comparison.classification.Held? || prior.None? || current.None? {
      return comparison, false;
    }
    var was := LargestLedgerFiguresByPath(prior.value);
    var now := LargestLedgerFiguresByPath(current.value);
    asked := false;
    for i := 0 to |now|
      invariant Scanned(prior.value, now, committed, i, 0, asked)
    {
      var (path, figures) := now[i];
      for j := 0 to |figures|
        invariant Scanned(prior.value, now, committed, i, j, asked)
      {
        var (kind, value) := figures[j];
        PlaceOf(now, i, j);
        var previous := At(was, path, kind);
        ScanStep(prior.value, now, committed, i, j, asked);
        if previous.None? || value >= previous.value {
          continue;
        }
        asked := true;
        assert Fell(prior.value, current.value, path, kind);
        if committed.Some? && path in committed.value {
          ReportsFirst(prior.value, current.value, now, committed, i, j);
          return Comparison(Improved, PartialProgress(path, kind, previous.value, value)), asked;
        }
      }
      ScanRow(prior.value, now, committed, i, asked);
    }
    ScanIsComplete(prior.value, current.value, now, committed, asked);
    return comparison, asked;
  }

  /** Place (`a`, `b`) of a ledger's walk shows a fall on a committed path. */
  ghost predicate CommittedFall(prior: seq<Entry>, current: seq<Entry>, committed: set<string>, a: int, b: int) {
    && 0 <= a < |Paths(current)| && 0 <= b < |Kinds(current, Paths(current)[a])|
    && Paths(current)[a] in committed && Fell(prior, current, Paths(current)[a], Kinds(current, Paths(current)[a])[b])
  }

  /** What an upgrade reports is a real fall on a committed path, the first one in the order of the walk. */
  ghost predicate Justifies(basis: Basis, prior: seq<Entry>, current: seq<Entry>, committed: Option<set<string>>) {
    && basis.PartialProgress? && committed.Some? && basis.path in committed.value
    && Largest(prior, basis.path, basis.figure) == Some(basis.previous)
    && Largest(current, basis.path, basis.figure) == Some(basis.current)
    && basis.current < basis.previous
    && IsFirst(basis.path, basis.figure, prior, current, committed.value)
  }

  ghost predicate IsFirst(path: string, kind: Kind, prior: seq<Entry>, current: seq<Entry>, committed: set<string>) {
    exists a, b ::
      && CommittedFall(prior, current, committed, a, b)
      && path == Paths(current)[a] && kind == Kinds(current, path)[b]
      && forall a', b' :: Before(a', b', a, b) ==> !CommittedFall(prior, current, committed, a', b')
  }

  /** The pair the two loops visit at place (`a`, `b`) shows a fall. */
  ghost predicate FellAt(prior: seq<Entry>, now: Folded, a: int, b: int) {
    && 0 <= a < |now| && 0 <= b < |now[a].1|
    && Largest(prior, now[a].0, now[a].1[b].0).Some?
    && now[a].1[b].1 < Largest(prior, now[a].0, now[a].1[b].0).value
  }

  predicate Before(a: int, b: int, i: int, j: int) {
    a < i || (a == i && b < j)
  }

  /** State of the scan at place (`i`, `j`): asked iff a fall was passed, and no passed fall was committed. */
  ghost predicate Scanned(prior: seq<Entry>, now: Folded, committed: Option<set<string>>, i: int, j: int, asked: bool) {
    && (asked <==> exists a, b :: Before(a, b, i, j) && FellAt(prior, now, a, b))
    && (forall a, b :: Before(a, b, i, j) && FellAt(prior, now, a, b) ==>
          committed.None? || now[a].0 !in committed.value)
  }

  lemma ScanStep(prior: seq<Entry>, now: Folded, committed: Option<set<string>>, i: nat, j: nat, asked: bool)
    requires i < |now| && j < |now[i].1| && Scanned(prior, now, committed, i, j, asked)
    ensures !FellAt(prior, now, i, j) ==> Scanned(prior, now, committed, i, j + 1, asked)
    ensures FellAt(prior, now, i, j) && (committed.None? || now[i].0 !in committed.value) ==>
              Scanned(prior, now, committed, i, j + 1, true)
  {
    forall a, b ensures Before(a, b, i, j + 1) <==> Before(a, b, i, j) || (a == i && b == j) {
    }
    assert Before(i, j, i, j + 1);
  }

  lemma ScanRow(prior: seq<Entry>, now: Folded, committed: Option<set<string>>, i: nat, asked: bool)
    requires i < |now| && Scanned(prior, now, committed, i, |now[i].1|, asked)
    ensures Scanned(prior, now, committed, i + 1, 0, asked)
  {
    forall a, b | FellAt(prior, now, a, b)
      ensures Before(a, b, i + 1, 0) <==> Before(a, b, i, |now[i].1|)
    {
    }
  }

  lemma PlaceOf(now: Folded, a: nat, b: nat)
    requires WellKeyed(now) && a < |now| && b < |now[a].1|
    ensures At(now, now[a].0, now[a].1[b].0) == Some(now[a].1[b].1)
  {
    GetAt(now, a);
    GetAt(now[a].1, b);
  }

  /** A place of the walk is a place of the map. */
  lemma WalkIsMap(current: seq<Entry>, now: Folded, a: nat)
    requires Folds(now, current) && a < |now|
    ensures |Paths(current)| == |now| && Paths(current)[a] == now[a].0
    ensures Kinds(current, now[a].0) == KeysOf(now[a].1)
  {
    GetAt(now, a);
    assert KindsAt(now, now[a].0) == Kinds(current, now[a].0);
  }

  lemma FallIsFellAt(prior: seq<Entry>, current: seq<Entry>, now: Folded, committed: set<string>, a: int, b: int)
    requires Folds(now, current)
    ensures CommittedFall(prior, current, committed, a, b) <==> FellAt(prior, now, a, b) && now[a].0 in committed
  {
    if 0 <= a < |now| {
      WalkIsMap(current, now, a);
      if 0 <= b < |now[a].1| {
        PlaceOf(now, a, b);
        assert At(now, now[a].0, now[a].1[b].0) == Largest(current, now[a].0, now[a].1[b].0);
      }
    }
  }

  lemma ReportsFirst(prior: seq<Entry>, current: seq<Entry>, now: Folded, committed: Option<set<string>>, i: nat, j: nat)
    requires Folds(now, current) && committed.Some? && FellAt(prior, now, i, j) && now[i].0 in committed.value
    requires forall a, b :: Before(a, b, i, j) && FellAt(prior, now, a, b) ==> now[a].0 !in committed.value
    ensures IsFirst(now[i].0, now[i].1[j].0, prior, current, committed.value)
  {
    WalkIsMap(current, now, i);
    FallIsFellAt(prior, current, now, committed.value, i, j);
    forall a, b | Before(a, b, i, j) ensures !CommittedFall(prior, current, committed.value, a, b) {
      FallIsFellAt(prior, current, now, committed.value, a, b);
    }
  }

  lemma ScanIsComplete(prior: seq<Entry>, current: seq<Entry>, now: Folded, committed: Option<set<string>>, asked: bool)
    requires WellKeyed(now) && Scanned(prior, now, committed, |now|, 0, asked)
    requires forall path, kind :: At(now, path, kind) == Largest(current, path, kind)
    ensures asked <==> SomethingFell(prior, current)
    ensures !MadeProgress(prior, current, committed)
  {
    forall path, kind | Fell(prior, current, path, kind)
      ensures asked && (committed.None? || path !in committed.value)
    {
      assert At(now, path, kind) == Largest(current, path, kind);
      var a := GetFinds(now, path);
      var b := GetFinds(now[a].1, kind);
      assert Before(a, b, |now|, 0) && FellAt(prior, now, a, b);
    }
    if asked {
      var a, b :| Before(a, b, |now|, 0) && FellAt(prior, now, a, b);
      PlaceOf(now, a, b);
      assert Fell(prior, current, now[a].0, now[a].1[b].0);
    }
  }

  // ---- The classification depends on per-path maxima only ----

  /** Some entry of the path carries this figure; entries without a path count for the empty one. */
  ghost predicate Carries(entries: seq<Entry>, path: string, kind: Kind, value: real) {
    exists e :: e in entries && (e.path == Some(path) || (e.path.None? && path == "")) && (kind, value) in e.figures
  }

  lemma {:induction false} LargestInIs(figures: JsMap<Kind, real>, kind: Kind)
    ensures LargestIn(figures, kind).Some? ==> (kind, LargestIn(figures, kind).value) in figures
    ensures forall value :: (kind, value) in figures ==>
              LargestIn(figures, kind).Some? && value <= LargestIn(figures, kind).value
  {
    if figures != [] {
      var front, last := figures[..|figures| - 1], figures[|figures| - 1];
      LargestInIs(front, kind);
      assert figures == front + [last];
    }
  }

  /** `Largest` is the maximum: carried by some entry of the path, and no entry carries more. */
  lemma {:induction false} LargestIs(entries: seq<Entry>, path: string, kind: Kind)
    ensures Largest(entries, path, kind).Some? ==> Carries(entries, path, kind, Largest(entries, path, kind).value)
    ensures forall value :: Carries(entries, path, kind, value) ==>
              Largest(entries, path, kind).Some? && value <= Largest(entries, path, kind).value
  {
    if entries != [] {
      var front, last := entries[..|entries| - 1], entries[|entries| - 1];
      LargestIs(front, path, kind);
      LargestInIs(last.figures, kind);
      assert entries == front + [last];
      forall value | Carries(entries, path, kind, value)
        ensures Carries(front, path, kind, value) || (Key(last) == path && (kind, value) in last.figures)
      {
        var e :| e in entries && (e.path == Some(path) || (e.path.None? && path == "")) && (kind, value) in e.figures;
        assert e in front || e == last;
      }
      assert last in entries;
      assert forall e :: e in front ==> e in entries;
    }
  }

  /** The same entries in any order, any number of times, give the same maxima. */
  lemma OrderAndRepetitionDoNotMatter(a: seq<Entry>, b: seq<Entry>, path: string, kind: Kind)
    requires forall e :: e in a <==> e in b
    ensures Largest(a, path, kind) == Largest(b, path, kind)
  {
    LargestIs(a, path, kind);
    LargestIs(b, path, kind);
    assert forall value :: Carries(a, path, kind, value) <==> Carries(b, path, kind, value);
  }

  lemma {:induction false} LargestConcat(a: seq<Entry>, b: seq<Entry>, path: string, kind: Kind)
    ensures Largest(a + b, path, kind) == Larger(Largest(a, path, kind), Largest(b, path, kind))
    decreases |b|
  {
    if b == [] {
      assert a + b == a;
    } else {
      assert (a + b)[..|a + b| - 1] == a + b[..|b| - 1];
      LargestConcat(a, b[..|b| - 1], path, kind);
    }
  }

  /** Splitting one entry into parts with the same per-path maxima changes nothing. */
  lemma SplittingDoesNotMatter(before: seq<Entry>, whole: Entry, parts: seq<Entry>, after: seq<Entry>,
                               path: string, kind: Kind)
    requires Largest(parts, path, kind) == Largest([whole], path, kind)
    ensures Largest(before + parts + after, path, kind) == Largest(before + [whole] + after, path, kind)
  {
    LargestConcat(before + parts, after, path, kind);
    LargestConcat(before, parts, path, kind);
    LargestConcat(before + [whole], after, path, kind);
    LargestConcat(before, [whole], path, kind);
  }

  ghost predicate SameMaxima(a: seq<Entry>, b: seq<Entry>) {
    forall path, kind :: Largest(a, path, kind) == Largest(b, path, kind)
  }

  /** Ledgers with the same maxima are classified alike, and `committedPaths` is asked in the same cases. */
  lemma MaximaDecide(prior: seq<Entry>, prior2: seq<Entry>, current: seq<Entry>, current2: seq<Entry>,
                     committed: Option<set<string>>)
    requires SameMaxima(prior, prior2) && SameMaxima(current, current2)
    ensures MadeProgress(prior, current, committed) <==> MadeProgress(prior2, current2, committed)
    ensures SomethingFell(prior, current) <==> SomethingFell(prior2, current2)
  {
    assert forall path, kind :: Fell(prior, current, path, kind) <==> Fell(prior2, current2, path, kind);
  }

  /** A ledger whose figures did not change claims no progress, whatever was committed. */
  lemma NoChangeNoProgress(entries: seq<Entry>, shuffled: seq<Entry>, committed: Option<set<string>>)
    requires forall e :: e in entries <==> e in shuffled
    ensures !MadeProgress(entries, shuffled, committed) && !SomethingFell(entries, shuffled)
  {
    forall path, kind ensures !Fell(entries, shuffled, path, kind) {
      OrderAndRepetitionDoNotMatter(entries, shuffled, path, kind);
    }
  }
}
