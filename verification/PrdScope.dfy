/**
 * `prdDefinitions`, `requirementsFromPrd` and `findOwnershipAdvisories` (check-readiness.js): one
 * integer, `notInScopeLevel`, stands for the whole stack of headings that are open at a line.
 */
module PrdScope {
  import opened JsCollections
  import opened Wrappers

  /** Number of `#` signs of an ATX heading. */
  type Level = n: nat | 1 <= n <= 6 witness 1

  /** `flagged`: the title says "not in scope". */
  datatype Heading = Heading(level: Level, title: string, flagged: bool)

  /** A line as the two regular expressions read it: perhaps a heading, and the ids it defines. */
  datatype Line = Line(heading: Option<Heading>, ids: seq<string>)

  datatype Definition = Definition(section: string, id: string, notInScope: bool)

  // ---- Reference: which headings enclose a line ----

  /** Heading `i` is still open at line `k`: no heading since is as high or higher. */
  ghost predicate Encloses(lines: seq<Line>, i: int, k: int) {
    && 0 <= i <= k < |lines| && lines[i].heading.Some?
    && forall j :: i < j <= k && lines[j].heading.Some? ==> lines[j].heading.value.level > lines[i].heading.value.level
  }

  ghost predicate UnderNotInScope(lines: seq<Line>, k: int) {
    exists i :: Encloses(lines, i, k) && lines[i].heading.value.flagged
  }

  function SectionAt(lines: seq<Line>, k: nat): string
    requires k <= |lines|
  {
    if k == 0 then ""
    else if lines[k - 1].heading.Some? then lines[k - 1].heading.value.title
    else SectionAt(lines, k - 1)
  }

  /** The section is the title of the last heading so far. */
  lemma {:induction false} SectionIsLastHeading(lines: seq<Line>, k: nat, i: nat)
    requires i < k <= |lines| && lines[i].heading.Some?
    requires forall j :: i < j < k ==> lines[j].heading.None?
    ensures SectionAt(lines, k) == lines[i].heading.value.title
  {
    if i < k - 1 {
      SectionIsLastHeading(lines, k - 1, i);
    }
  }

  /** Before the first heading it is empty. */
  lemma {:induction false} NoSectionYet(lines: seq<Line>, k: nat)
    requires k <= |lines| && forall i :: 0 <= i < k ==> lines[i].heading.None?
    ensures SectionAt(lines, k) == ""
  {
    if k > 0 {
      NoSectionYet(lines, k - 1);
    }
  }

  function Defines(ids: seq<string>, section: string, notInScope: bool): (defs: seq<Definition>)
    ensures |defs| == |ids|
    ensures forall i :: 0 <= i < |ids| ==> defs[i] == Definition(section, ids[i], notInScope)
  {
    seq(|ids|, i requires 0 <= i < |ids| => Definition(section, ids[i], notInScope))
  }

  /** The definitions of the first `k` lines, by the reference. */
  ghost function DefinitionsOf(lines: seq<Line>, k: nat): seq<Definition>
    requires k <= |lines|
  {
    if k == 0 then []
    else DefinitionsOf(lines, k - 1) +
         Defines(lines[k - 1].ids, SectionAt(lines, k), UnderNotInScope(lines, k - 1))
  }

  // ---- The integer ----

  /** After `k` lines the integer is the level of the outermost open flagged heading, or 0. */
  ghost predicate Stands(lines: seq<Line>, k: nat, notInScopeLevel: nat) {
    && (forall i :: k > 0 && Encloses(lines, i, k - 1) && lines[i].heading.value.flagged ==>
          0 < notInScopeLevel <= lines[i].heading.value.level)
    && (notInScopeLevel > 0 ==>
          k > 0 && (exists i :: Encloses(lines, i, k - 1) && lines[i].heading.value.flagged
                                && lines[i].heading.value.level == notInScopeLevel))
  }

  /** A heading closes exactly the open headings that are not above it; another line closes none. */
  lemma EnclosesStep(lines: seq<Line>, i: int, k: nat)
    requires 0 < k < |lines| && i < k
    ensures Encloses(lines, i, k) <==>
            && Encloses(lines, i, k - 1)
            && (lines[k].heading.Some? ==> lines[k].heading.value.level > lines[i].heading.value.level)
  {
  }

  lemma LevelStep(lines: seq<Line>, k: nat, was: nat, now: nat)
    requires k < |lines| && Stands(lines, k, was)
    requires now == match lines[k].heading
                    case None => was
                    case Some(h) =>
                      var kept := if was > 0 && h.level <= was then 0 else was;
                      if kept == 0 && h.flagged then h.level else kept
    ensures Stands(lines, k + 1, now)
    ensures now > 0 <==> UnderNotInScope(lines, k)
  {
    if k > 0 {
      forall i: int | i < k
        ensures Encloses(lines, i, k) <==>
                Encloses(lines, i, k - 1) &&
                (lines[k].heading.Some? ==> lines[k].heading.value.level > lines[i].heading.value.level)
      {
        EnclosesStep(lines, i, k);
      }
    }
    assert Encloses(lines, k, k) <==> lines[k].heading.Some?;
  }

  method PrdDefinitions(lines: seq<Line>) returns (definitions: seq<Definition>)
    ensures definitions == DefinitionsOf(lines, |lines|)
  {
    definitions := [];
    var section := "";
    var notInScopeLevel: nat := 0;
    for k := 0 to |lines|
      invariant definitions == DefinitionsOf(lines, k)
      invariant section == SectionAt(lines, k)
      invariant Stands(lines, k, notInScopeLevel)
    {
      ghost var was := notInScopeLevel;
      if lines[k].heading.Some? {
        var heading := lines[k].heading.value;
        section := heading.title;
        if notInScopeLevel > 0 && heading.level <= notInScopeLevel {
          notInScopeLevel := 0;
        }
        if notInScopeLevel == 0 && heading.flagged {
          notInScopeLevel := heading.level;
        }
      }
      LevelStep(lines, k, was, notInScopeLevel);
      definitions := definitions + Defines(lines[k].ids, section, notInScopeLevel > 0);
    }
  }

  // ---- The same reference as a stack of open headings ----

  /** Full stack semantics: a heading pops what is not above it and is pushed. */
  function PopTo(stack: seq<Heading>, level: Level): (r: seq<Heading>)
    ensures r <= stack
  {
    if stack != [] && stack[|stack| - 1].level >= level then PopTo(stack[..|stack| - 1], level) else stack
  }

  function StackAt(lines: seq<Line>, k: nat): seq<Heading>
    requires k <= |lines|
  {
    if k == 0 then []
    else match lines[k - 1].heading
      case None => StackAt(lines, k - 1)
      case Some(h) => PopTo(StackAt(lines, k - 1), h.level) + [h]
  }

  /** Going down the stack, levels strictly increase. */
  ghost predicate Nested(stack: seq<Heading>) {
    forall a, b :: 0 <= a < b < |stack| ==> stack[a].level < stack[b].level
  }

  lemma {:induction false} PopKeepsLower(stack: seq<Heading>, level: Level)
    requires Nested(stack)
    ensures Nested(PopTo(stack, level) + [Heading(level, "", false)])
    ensures forall h :: h in PopTo(stack, level) <==> h in stack && h.level < level
  {
    if stack != [] && stack[|stack| - 1].level >= level {
      var front := stack[..|stack| - 1];
      PopKeepsLower(front, level);
      assert stack == front + [stack[|stack| - 1]];
    }
  }

  lemma {:induction false} StackIsNested(lines: seq<Line>, k: nat)
    requires k <= |lines|
    ensures Nested(StackAt(lines, k))
  {
    if k > 0 {
      StackIsNested(lines, k - 1);
      if lines[k - 1].heading.Some? {
        var h := lines[k - 1].heading.value;
        PopKeepsLower(StackAt(lines, k - 1), h.level);
        NestedTop(PopTo(StackAt(lines, k - 1), h.level), h);
      }
    }
  }

  ghost predicate EnclosingHeading(lines: seq<Line>, k: int, h: Heading) {
    exists i :: Encloses(lines, i, k) && lines[i].heading.value == h
  }

  lemma EnclosingStep(lines: seq<Line>, k: nat, h: Heading)
    requires k < |lines|
    ensures EnclosingHeading(lines, k, h) <==>
            || lines[k].heading == Some(h)
            || (EnclosingHeading(lines, k - 1, h) &&
                (lines[k].heading.Some? ==> lines[k].heading.value.level > h.level))
  {
    if i :| Encloses(lines, i, k) && lines[i].heading.value == h && i < k {
      EnclosesStep(lines, i, k);
    }
    if i :| Encloses(lines, i, k - 1) && lines[i].heading.value == h {
      EnclosesStep(lines, i, k);
    }
    assert lines[k].heading.Some? ==> Encloses(lines, k, k);
  }

  /** The stack holds exactly the headings that enclose the line. */
  lemma {:induction false} StackIsEnclosing(lines: seq<Line>, k: nat, h: Heading)
    requires k < |lines|
    ensures h in StackAt(lines, k + 1) <==> EnclosingHeading(lines, k, h)
  {
    if k > 0 {
      StackIsEnclosing(lines, k - 1, h);
    }
    EnclosingStep(lines, k, h);
    if lines[k].heading.Some? {
      StackIsNested(lines, k);
      PopKeepsLower(StackAt(lines, k), lines[k].heading.value.level);
    }
  }

  lemma NestedTop(stack: seq<Heading>, top: Heading)
    requires Nested(stack + [Heading(top.level, "", false)])
    ensures Nested(stack + [top])
  {
    var plain := stack + [Heading(top.level, "", false)];
    forall a, b | 0 <= a < b < |stack + [top]| ensures (stack + [top])[a].level < (stack + [top])[b].level {
      assert plain[a].level < plain[b].level;
    }
  }

  /** The integer's flag is the stack's: some heading on the stack says "not in scope". */
  lemma FlagIsStackFlag(lines: seq<Line>, k: nat)
    requires k < |lines|
    ensures UnderNotInScope(lines, k) <==> exists h :: h in StackAt(lines, k + 1) && h.flagged
  {
    if i :| Encloses(lines, i, k) && lines[i].heading.value.flagged {
      StackIsEnclosing(lines, k, lines[i].heading.value);
    }
    if h :| h in StackAt(lines, k + 1) && h.flagged {
      StackIsEnclosing(lines, k, h);
    }
  }

  // ---- Advisories ----

  /** Some of the first `k` lines defines `id`. */
  ghost predicate DefinedBefore(lines: seq<Line>, k: nat, id: string)
    requires k <= |lines|
  {
    exists j :: 0 <= j < k && id in lines[j].ids
  }

  /** Some of the first `k` lines defines `id` outside every "not in scope" heading. */
  ghost predicate InScopeBefore(lines: seq<Line>, k: nat, id: string)
    requires k <= |lines|
  {
    exists j :: 0 <= j < k && id in lines[j].ids && !UnderNotInScope(lines, j)
  }

  ghost predicate DefinedAnywhere(lines: seq<Line>, id: string) {
    DefinedBefore(lines, |lines|, id)
  }

  ghost predicate DefinedInScope(lines: seq<Line>, id: string) {
    InScopeBefore(lines, |lines|, id)
  }

  ghost predicate Says(definitions: seq<Definition>, id: string) {
    exists i :: 0 <= i < |definitions| && definitions[i].id == id
  }

  ghost predicate SaysInScope(definitions: seq<Definition>, id: string) {
    exists i :: 0 <= i < |definitions| && definitions[i].id == id && !definitions[i].notInScope
  }

  lemma SaysConcat(a: seq<Definition>, b: seq<Definition>, id: string)
    ensures Says(a + b, id) <==> Says(a, id) || Says(b, id)
    ensures SaysInScope(a + b, id) <==> SaysInScope(a, id) || SaysInScope(b, id)
  {
    forall i | 0 <= i < |b| ensures (a + b)[|a| + i] == b[i] {
    }
    forall i | 0 <= i < |a| ensures (a + b)[i] == a[i] {
    }
  }

  lemma LineSays(ids: seq<string>, section: string, under: bool, id: string)
    ensures Says(Defines(ids, section, under), id) <==> id in ids
    ensures SaysInScope(Defines(ids, section, under), id) <==> id in ids && !under
  {
    if id in ids {
      var i :| 0 <= i < |ids| && ids[i] == id;
      assert Defines(ids, section, under)[i].id == id;
    }
  }

  lemma BeforeStep(lines: seq<Line>, k: nat, id: string)
    requires 0 < k <= |lines|
    ensures DefinedBefore(lines, k, id) <==> DefinedBefore(lines, k - 1, id) || id in lines[k - 1].ids
    ensures InScopeBefore(lines, k, id) <==>
            InScopeBefore(lines, k - 1, id) || (id in lines[k - 1].ids && !UnderNotInScope(lines, k - 1))
  {
  }

  lemma {:induction false} DefinitionsSay(lines: seq<Line>, k: nat, id: string)
    requires k <= |lines|
    ensures Says(DefinitionsOf(lines, k), id) <==> DefinedBefore(lines, k, id)
    ensures SaysInScope(DefinitionsOf(lines, k), id) <==> InScopeBefore(lines, k, id)
  {
    if k > 0 {
      DefinitionsSay(lines, k - 1, id);
      BeforeStep(lines, k, id);
      DefinitionsStep(lines, k, id);
    }
  }

  lemma DefinitionsStep(lines: seq<Line>, k: nat, id: string)
    requires 0 < k <= |lines|
    ensures Says(DefinitionsOf(lines, k), id) <==>
            Says(DefinitionsOf(lines, k - 1), id) || id in lines[k - 1].ids
    ensures SaysInScope(DefinitionsOf(lines, k), id) <==>
            || SaysInScope(DefinitionsOf(lines, k - 1), id)
            || (id in lines[k - 1].ids && !UnderNotInScope(lines, k - 1))
  {
    var under := UnderNotInScope(lines, k - 1);
    var ids, section := lines[k - 1].ids, SectionAt(lines, k);
    LineSays(ids, section, under, id);
    SaysConcat(DefinitionsOf(lines, k - 1), Defines(ids, section, under), id);
  }

  /** `requirementsFromPrd`: the definitions that owe a ticket. */
  function Owed(definitions: seq<Definition>): seq<Definition> {
    if definitions == [] then []
    else (if definitions[0].notInScope then [] else [definitions[0]]) + Owed(definitions[1..])
  }

  /** The definitions outside every "not in scope" heading, in their order and number. */
  lemma {:induction false} OwedPiecewise(a: seq<Definition>, b: seq<Definition>)
    ensures Owed(a + b) == Owed(a) + Owed(b)
  {
    if a == [] {
      assert a + b == b;
    } else {
      OwedPiecewise(a[1..], b);
      assert (a + b)[1..] == a[1..] + b && (a + b)[0] == a[0];
    }
  }

  lemma OwedOfOne(d: Definition)
    ensures Owed([d]) == if d.notInScope then [] else [d]
  {
    assert [d][1..] == [];
  }

  lemma {:induction false} OwedAre(definitions: seq<Definition>, id: string)
    ensures Says(Owed(definitions), id) <==> SaysInScope(definitions, id)
  {
    if definitions != [] {
      var first := [definitions[0]];
      assert definitions == first + definitions[1..];
      SaysConcat(first, definitions[1..], id);
      OwedAre(definitions[1..], id);
      SaysConcat(if definitions[0].notInScope then [] else first, Owed(definitions[1..]), id);
      assert Says(first, id) <==> first[0].id == id;
      assert SaysInScope(first, id) <==> first[0].id == id && !first[0].notInScope;
    }
  }

  method RequirementsFromPrd(lines: seq<Line>) returns (requirements: seq<Definition>)
    ensures requirements == Owed(DefinitionsOf(lines, |lines|))
    ensures forall id :: Says(requirements, id) <==> DefinedInScope(lines, id)
  {
    var definitions := PrdDefinitions(lines);
    requirements := Owed(definitions);
    forall id ensures Says(requirements, id) <==> DefinedInScope(lines, id) {
      DefinitionsSay(lines, |lines|, id);
      OwedAre(definitions, id);
    }
  }

  /** `unmapped` when true, `not-in-scope-only` when false. */
  datatype Advisory = Advisory(id: string, unmapped: bool)

  method InScopeById(definitions: seq<Definition>) returns (inScope: JsMap<string, bool>)
    ensures Distinct(KeysOf(inScope))
    ensures forall id :: Get(inScope, id).Some? <==> Says(definitions, id)
    ensures forall id :: Get(inScope, id) == Some(true) <==> SaysInScope(definitions, id)
  {
    inScope := [];
    for k := 0 to |definitions|
      invariant Distinct(KeysOf(inScope))
      invariant forall id :: Get(inScope, id).Some? <==> Says(definitions[..k], id)
      invariant forall id :: Get(inScope, id) == Some(true) <==> SaysInScope(definitions[..k], id)
    {
      var id := definitions[k].id;
      var value := Get(inScope, id).GetOr(false) || !definitions[k].notInScope;
      PutKeepsDistinct(inScope, id, value);
      GetPutAll(inScope, id, value);
      inScope := Put(inScope, id, value);
      SaysNext(definitions, k);
    }
    assert definitions[..|definitions|] == definitions;
  }

  lemma SaysNext(definitions: seq<Definition>, k: nat)
    requires k < |definitions|
    ensures forall id :: Says(definitions[..k + 1], id) <==> Says(definitions[..k], id) || definitions[k].id == id
    ensures forall id :: SaysInScope(definitions[..k + 1], id) <==>
              SaysInScope(definitions[..k], id) || (definitions[k].id == id && !definitions[k].notInScope)
  {
    assert definitions[..k + 1] == definitions[..k] + [definitions[k]];
    forall id
      ensures Says(definitions[..k + 1], id) <==> Says(definitions[..k], id) || definitions[k].id == id
      ensures SaysInScope(definitions[..k + 1], id) <==>
              SaysInScope(definitions[..k], id) || (definitions[k].id == id && !definitions[k].notInScope)
    {
      SaysConcat(definitions[..k], [definitions[k]], id);
      var one := [definitions[k]];
      assert Says(one, id) <==> one[0].id == id;
      assert SaysInScope(one, id) <==> one[0].id == id && !one[0].notInScope;
    }
  }

  /** `lines` is absent when there is no PRD; `leq` is the locale's order of ids. */
  method FindOwnershipAdvisories(lines: Option<seq<Line>>, owned: set<string>, prdMapDomain: set<string>,
                                 leq: (string, string) -> bool)
      returns (advisories: seq<Advisory>)
    requires TotalOrder(leq)
    ensures lines.None? ==> advisories == []
    ensures lines.Some? ==> forall a :: a in advisories <==> Due(lines.value, owned, prdMapDomain, a)
    ensures forall i, j :: 0 <= i < j < |advisories| ==>
              leq(advisories[i].id, advisories[j].id) && advisories[i].id != advisories[j].id
  {
    if lines.None? {
      return [];
    }
    var definitions := PrdDefinitions(lines.value);
    var inScope := InScopeById(definitions);
    var left := Unowned(inScope, owned, prdMapDomain);
    UnownedKeepsDistinct(inScope, owned, prdMapDomain);
    var sorted := Sort(left, ByKey(leq));
    SortByKey(left, leq);
    advisories := Advise(sorted);
    forall i, j | 0 <= i < j < |advisories|
      ensures leq(advisories[i].id, advisories[j].id) && advisories[i].id != advisories[j].id
    {
      assert leq(sorted[i].0, sorted[j].0) && sorted[i].0 != sorted[j].0;
    }
    forall a ensures a in advisories <==> Due(lines.value, owned, prdMapDomain, a) {
      AdviseKeeps(sorted, a);
      UnownedAre(inScope, owned, prdMapDomain, a.id, a.unmapped);
      InScopeSays(lines.value, inScope, a.id, a.unmapped);
    }
  }

  /** The advisory the PRD deserves for an id. */
  ghost predicate Due(lines: seq<Line>, owned: set<string>, prdMapDomain: set<string>, a: Advisory) {
    && DefinedAnywhere(lines, a.id) && a.id !in owned && a.id !in prdMapDomain
    && (a.unmapped <==> DefinedInScope(lines, a.id))
  }

  function Advise(sorted: JsMap<string, bool>): (r: seq<Advisory>)
    ensures |r| == |sorted|
    ensures forall i :: 0 <= i < |r| ==> r[i] == Advisory(sorted[i].0, sorted[i].1)
  {
    seq(|sorted|, i requires 0 <= i < |sorted| => Advisory(sorted[i].0, sorted[i].1))
  }

  lemma AdviseKeeps(sorted: JsMap<string, bool>, a: Advisory)
    ensures a in Advise(sorted) <==> (a.id, a.unmapped) in sorted
  {
    var r := Advise(sorted);
    if (a.id, a.unmapped) in sorted {
      var i :| 0 <= i < |sorted| && sorted[i] == (a.id, a.unmapped);
      assert r[i] == a;
    }
  }

  /** `inScope` describes the definitions of `lines`. */
  ghost predicate Describes(lines: seq<Line>, inScope: JsMap<string, bool>) {
    && (forall id :: Get(inScope, id).Some? <==> Says(DefinitionsOf(lines, |lines|), id))
    && (forall id :: Get(inScope, id) == Some(true) <==> SaysInScope(DefinitionsOf(lines, |lines|), id))
  }

  lemma InScopeSays(lines: seq<Line>, inScope: JsMap<string, bool>, id: string, flag: bool)
    requires Describes(lines, inScope)
    ensures Get(inScope, id) == Some(flag) <==>
            DefinedAnywhere(lines, id) && (flag <==> DefinedInScope(lines, id))
  {
    DefinitionsSay(lines, |lines|, id);
    assert DefinedAnywhere(lines, id) <==> Get(inScope, id).Some?;
    assert DefinedInScope(lines, id) <==> Get(inScope, id) == Some(true);
    assert Get(inScope, id).Some? ==> Get(inScope, id).value == true || Get(inScope, id).value == false;
  }

  function Unowned(inScope: JsMap<string, bool>, owned: set<string>, domain: set<string>): JsMap<string, bool> {
    if inScope == [] then []
    else (if inScope[0].0 in owned || inScope[0].0 in domain then [] else [inScope[0]]) +
         Unowned(inScope[1..], owned, domain)
  }

  lemma {:induction false} UnownedPairs(inScope: JsMap<string, bool>, owned: set<string>, domain: set<string>, p: (string, bool))
    ensures p in Unowned(inScope, owned, domain) <==> p in inScope && p.0 !in owned && p.0 !in domain
  {
    if inScope != [] {
      UnownedPairs(inScope[1..], owned, domain, p);
      assert inScope == [inScope[0]] + inScope[1..];
    }
  }

  lemma UnownedAre(inScope: JsMap<string, bool>, owned: set<string>, domain: set<string>, id: string, flag: bool)
    requires Distinct(KeysOf(inScope))
    ensures (id, flag) in Unowned(inScope, owned, domain) <==>
            Get(inScope, id) == Some(flag) && id !in owned && id !in domain
  {
    UnownedPairs(inScope, owned, domain, (id, flag));
    if (id, flag) in inScope {
      var i :| 0 <= i < |inScope| && inScope[i] == (id, flag);
      GetAt(inScope, i);
    }
    if Get(inScope, id).Some? {
      var i := GetFinds(inScope, id);
    }
  }

  lemma {:induction false} UnownedKeepsDistinct(inScope: JsMap<string, bool>, owned: set<string>, domain: set<string>)
    requires Distinct(KeysOf(inScope))
    ensures Distinct(KeysOf(Unowned(inScope, owned, domain)))
  {
    if inScope != [] {
      var tail := inScope[1..];
      assert KeysOf(inScope) == [inScope[0].0] + KeysOf(tail);
      assert forall i :: 0 <= i < |tail| ==> KeysOf(inScope)[i + 1] == KeysOf(tail)[i];
      UnownedKeepsDistinct(tail, owned, domain);
      var rest := Unowned(tail, owned, domain);
      forall i | 0 <= i < |rest| ensures rest[i].0 != inScope[0].0 {
        UnownedPairs(tail, owned, domain, rest[i]);
        var j :| 0 <= j < |tail| && tail[j] == rest[i];
        assert KeysOf(inScope)[0] != KeysOf(inScope)[j + 1];
      }
    }
  }

  /**
   * `prd_map` wins: when it covers what this PRD owes, the only advisories left are ids whose every
   * definition lies under a "not in scope" heading.
   */
  lemma CoveredPrdLeavesOnlyOutOfScope(lines: seq<Line>, owned: set<string>, prdMapDomain: set<string>,
                                       a: Advisory, k: nat)
    requires forall other :: Says(Owed(DefinitionsOf(lines, |lines|)), other) ==> other in prdMapDomain
    requires Due(lines, owned, prdMapDomain, a)
    requires k < |lines| && a.id in lines[k].ids
    ensures !a.unmapped && UnderNotInScope(lines, k)
  {
    DefinitionsSay(lines, |lines|, a.id);
    OwedAre(DefinitionsOf(lines, |lines|), a.id);
    assert !InScopeBefore(lines, |lines|, a.id);
  }
}
