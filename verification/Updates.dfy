/**
 * `checkForUpdate` and `performUpgrade` (check-update.js) as steps on the installed version, the
 * update cache and a log of what was audited and installed.
 */
module Updates {
  import opened Versions
  import opened Wrappers

  datatype Cache = Cache(latest: string, current: string)

  /**
   * `seen` is what `getCurrentVersion` answered when the candidate was inspected; `confirmed` is the operator's
   * answer, which the file written does not hold but the model keeps with the row.
   */
  datatype Event =
    | Downgrade(candidate: string, seen: string, session: Option<string>, options: Options, confirmed: bool)
    | Install(candidate: string, seen: string)

  datatype Options = Options(force: bool, allowDowngrade: bool, overrideActive: bool, noConfirm: bool, closerContext: bool)

  /** A failing install script may or may not have published the new package.json already. */
  datatype Script = Completed | Failed(published: bool)

  /**
   * Answers from outside during one call: settings, three reads of the installed package.json, the
   * release and its payload, the session directory, the operator, and the two files written.
   */
  datatype World = World(
    autoUpdate: bool, firstRead: bool, stale: bool, tag: Option<string>, downloaded: bool, payload: Option<string>,
    inspectionRead: bool, session: Option<string>, confirmed: bool, auditWritable: bool, script: Script,
    lastRead: bool, cacheWritable: bool)

  datatype Outcome = Upgraded | Aborted | Refused | Failure | Blocked(candidate: string, current: string)
  datatype Status = UpToDate(version: string) | UpdateAvailable(latest: string) | CheckError

  /** `getCurrentVersion()`: an unreadable package.json reads as 0.0.0. */
  function Seen(installed: string, readable: bool): string {
    if readable then installed else "0.0.0"
  }

  /** The payload's version, when the payload can be unpacked and names one. */
  function Candidate(w: World): Option<string> {
    if w.payload.None? then None else ParseVersion(w.payload.value)
  }

  // ---- What one upgrade does, stated as conditions ----

  predicate Reaches(options: Options, w: World) {
    (w.autoUpdate || options.force) && w.downloaded && Candidate(w).Some?
  }

  predicate Lower(candidate: string, seen: string) {
    CompareSemver(candidate, seen).Some? && CompareSemver(candidate, seen).value < 0
  }

  predicate NotLower(candidate: string, seen: string) {
    CompareSemver(candidate, seen).Some? && CompareSemver(candidate, seen).value >= 0
  }

  predicate SessionInTheWay(options: Options, w: World) {
    w.session.Some? && !options.overrideActive && !options.closerContext
  }

  /** The operator's side of a downgrade: asked for, no live session in the way, confirmed. */
  predicate Consented(options: Options, w: World) {
    options.allowDowngrade && !SessionInTheWay(options, w) && (options.noConfirm || w.confirmed)
  }

  /** The payload is reached and is below the version read. */
  predicate WouldDowngrade(installed: string, options: Options, w: World) {
    Reaches(options, w) && Lower(Candidate(w).value, Seen(installed, w.inspectionRead))
  }

  /** How an upgrade that installs nothing ends. */
  predicate EndsAs(stop: Outcome, installed: string, options: Options, w: World) {
    if !WouldDowngrade(installed, options, w) then stop.Failure?
    else if !options.allowDowngrade then stop == Blocked(Candidate(w).value, Seen(installed, w.inspectionRead))
    else if SessionInTheWay(options, w) then stop.Refused?
    else if !Consented(options, w) then stop.Aborted?
    else stop.Failure?
  }

  predicate Audits(installed: string, options: Options, w: World) {
    WouldDowngrade(installed, options, w) && Consented(options, w) && w.auditWritable
  }

  predicate Installs(installed: string, options: Options, w: World) {
    && Reaches(options, w)
    && (NotLower(Candidate(w).value, Seen(installed, w.inspectionRead)) || Audits(installed, options, w))
  }

  /** The installed version after an upgrade. */
  function Published(installed: string, options: Options, w: World): string {
    if Installs(installed, options, w) && (w.script.Completed? || w.script.published)
    then Candidate(w).value else installed
  }

  function AuditRows(installed: string, options: Options, w: World): seq<Event> {
    if Audits(installed, options, w)
    then [Downgrade(Candidate(w).value, Seen(installed, w.inspectionRead), w.session, options, w.confirmed)] else []
  }

  function InstallRows(installed: string, options: Options, w: World): seq<Event> {
    if Installs(installed, options, w) then [Install(Candidate(w).value, Seen(installed, w.inspectionRead))] else []
  }

  function Events(installed: string, options: Options, w: World): seq<Event> {
    AuditRows(installed, options, w) + InstallRows(installed, options, w)
  }

  /** When `checkForUpdate` goes on to `performUpgrade`. */
  predicate Attempts(installed: string, force: bool, w: World) {
    && (w.autoUpdate || force) && (force || w.stale)
    && w.tag.Some? && ParseVersion(w.tag.value).Some?
    && Lower(Seen(installed, w.firstRead), ParseVersion(w.tag.value).value)
  }

  /** `checkForUpdate` never passes `allowDowngrade`. */
  function CheckOptions(force: bool): Options {
    Options(force, false, false, false, false)
  }

  /** A check that may ask the network, and gets a usable tag. */
  predicate Fetches(force: bool, w: World) {
    (w.autoUpdate || force) && (force || w.stale) && w.tag.Some? && ParseVersion(w.tag.value).Some?
  }

  /** `seen` against the version known to be latest, when a check does not install. */
  function Standing(seen: string, latest: string): Status {
    if Lower(seen, latest) then UpdateAvailable(latest)
    else if NotLower(seen, latest) then UpToDate(seen)
    else CheckError
  }

  function CheckStatus(installed: string, cache: Cache, force: bool, w: World): Status {
    var seen := Seen(installed, w.firstRead);
    if !w.autoUpdate && !force then UpToDate(seen)
    else if !force && !w.stale then (if cache.latest == "" then UpToDate(seen) else Standing(seen, cache.latest))
    else if !Fetches(force, w) then CheckError
    else if !Attempts(installed, force, w) then Standing(seen, ParseVersion(w.tag.value).value)
    else if Installs(installed, CheckOptions(force), w) && w.script.Completed? then
      UpToDate(ParseVersion(w.tag.value).value)
    else if WouldDowngrade(installed, CheckOptions(force), w) then CheckError
    else UpdateAvailable(ParseVersion(w.tag.value).value)
  }

  /** A fetched tag is remembered even when nothing is installed; an upgrade re-reads the installed version. */
  function CacheAfterCheck(installed: string, cache: Cache, force: bool, w: World): Cache {
    if !Fetches(force, w) || !w.cacheWritable then cache
    else
      var latest := ParseVersion(w.tag.value).value;
      if Attempts(installed, force, w) && Installs(installed, CheckOptions(force), w) && w.script.Completed?
      then Cache(latest, Seen(Candidate(w).value, w.lastRead))
      else Cache(latest, Seen(installed, w.firstRead))
  }

  // ---- The same, read off the inputs ----

  /** How the payload compares with what the inspection reads; none without two versions to compare. */
  ghost function Weighed(installed: string, w: World): Option<int> {
    if w.payload.None? || ParseVersion(w.payload.value).None? then None
    else CompareSemver(ParseVersion(w.payload.value).value, if w.inspectionRead then installed else "0.0.0")
  }

  /** The payload may be installed: it is not below the version read, or its downgrade is cleared and on record. */
  ghost predicate Cleared(installed: string, options: Options, w: World) {
    && Weighed(installed, w).Some?
    && (Weighed(installed, w).value >= 0 ||
        (&& options.allowDowngrade
         && (w.session.None? || options.overrideActive || options.closerContext)
         && (options.noConfirm || w.confirmed)
         && w.auditWritable))
  }

  /** Every outcome but failure, which is the rest. */
  ghost predicate OutcomeFromInputs(outcome: Outcome, installed: string, options: Options, w: World) {
    var inspected := (w.autoUpdate || options.force) && w.downloaded;
    var lower := inspected && Weighed(installed, w).Some? && Weighed(installed, w).value < 0;
    && (outcome.Upgraded? <==> inspected && Cleared(installed, options, w) && w.script.Completed?)
    && (outcome.Blocked? <==> lower && !options.allowDowngrade)
    && (outcome.Blocked? ==>
          && Some(outcome.candidate) == ParseVersion(w.payload.value)
          && outcome.current == (if w.inspectionRead then installed else "0.0.0"))
    && (outcome.Refused? <==>
          lower && options.allowDowngrade && w.session.Some? && !options.overrideActive && !options.closerContext)
    && (outcome.Aborted? <==>
          && lower && options.allowDowngrade && (w.session.None? || options.overrideActive || options.closerContext)
          && !options.noConfirm && !w.confirmed)
  }

  lemma InstallsFromInputs(installed: string, options: Options, w: World)
    ensures Installs(installed, options, w) <==>
            (w.autoUpdate || options.force) && w.downloaded && Cleared(installed, options, w)
    ensures Audits(installed, options, w) <==>
            && (w.autoUpdate || options.force) && w.downloaded && Cleared(installed, options, w)
            && Weighed(installed, w).value < 0
  {
    hide CompareSemver, ParseVersion;
  }

  /** Each way an upgrade ends, read off the inputs. */
  lemma EndsFromInputs(outcome: Outcome, installed: string, options: Options, w: World)
    requires if Installs(installed, options, w) then outcome == if w.script.Completed? then Upgraded else Failure
             else EndsAs(outcome, installed, options, w)
    ensures OutcomeFromInputs(outcome, installed, options, w)
  {
    hide CompareSemver, ParseVersion;
  }

  class Installer {
    var installed: string
    var cache: Cache
    var log: seq<Event>

    /** `stop` is what the caller returns instead of going on; `threw` when the audit row could not be written. */
    method EvaluateDowngradeUx(candidate: string, seen: string, options: Options, w: World)
        returns (stop: Option<Outcome>, threw: bool)
      requires options.allowDowngrade
      modifies this`log
      ensures stop == Some(Refused) <==> w.session.Some? && !options.overrideActive && !options.closerContext
      ensures stop == Some(Aborted) <==>
              && (w.session.None? || options.overrideActive || options.closerContext)
              && !options.noConfirm && !w.confirmed
      ensures stop.Some? ==> (stop.value.Refused? || stop.value.Aborted?) && !threw
      ensures stop.None? && threw ==> !w.auditWritable
      ensures stop.None? && !threw ==> w.auditWritable
      ensures log == old(log) +
                if stop.None? && !threw then [Downgrade(candidate, seen, w.session, options, w.confirmed)] else []
    {
      if w.session.Some? && !options.overrideActive && !options.closerContext {
        return Some(Refused), false;
      }
      if !options.noConfirm && !w.confirmed {
        return Some(Aborted), false;
      }
      if !w.auditWritable {
        return None, true;
      }
      log := log + [Downgrade(candidate, seen, w.session, options, w.confirmed)];
      return None, false;
    }

    /** `go` is the version to install; otherwise `stop` says how the upgrade ends. */
    method InspectReleaseForUpgrade(options: Options, w: World) returns (go: Option<string>, stop: Outcome)
      requires (w.autoUpdate || options.force) && w.downloaded
      modifies this`log
      ensures go == if Installs(installed, options, w) then Candidate(w) else None
      ensures log == old(log) + AuditRows(installed, options, w)
      ensures go.None? ==> EndsAs(stop, installed, options, w)
    {
      hide CompareSemver, ParseVersion;
      var candidate := Candidate(w);
      if candidate.None? {
        return None, Failure;
      }
      var seen := Seen(installed, w.inspectionRead);
      var order := CompareSemver(candidate.value, seen);
      assert Reaches(options, w);
      if order.None? {
        return None, Failure;
      }
      if order.value >= 0 {
        assert NotLower(candidate.value, seen) && !Audits(installed, options, w);
        return candidate, Upgraded;
      }
      assert Lower(candidate.value, seen) && !NotLower(candidate.value, seen);
      if !options.allowDowngrade {
        return None, Blocked(candidate.value, seen);
      }
      var ux, threw := EvaluateDowngradeUx(candidate.value, seen, options, w);
      if threw {
        return None, Failure;
      }
      if ux.Some? {
        return None, ux.value;
      }
      return candidate, Upgraded;
    }

    method PerformUpgrade(target: string, options: Options, w: World) returns (outcome: Outcome)
      modifies this
      ensures installed == Published(old(installed), options, w)
      ensures log == old(log) + Events(old(installed), options, w)
      ensures if Installs(old(installed), options, w)
              then outcome == if w.script.Completed? then Upgraded else Failure
              else EndsAs(outcome, old(installed), options, w)
      ensures OutcomeFromInputs(outcome, old(installed), options, w)
      ensures cache == if outcome.Upgraded? && w.cacheWritable
                       then Cache(target, Seen(installed, w.lastRead)) else old(cache)
    {
      hide CompareSemver, ParseVersion, OutcomeFromInputs;
      forall o | if Installs(installed, options, w) then o == if w.script.Completed? then Upgraded else Failure
                 else EndsAs(o, installed, options, w)
        ensures OutcomeFromInputs(o, installed, options, w)
      {
        EndsFromInputs(o, installed, options, w);
      }
      if !w.autoUpdate && !options.force {
        return Failure;
      }
      if !w.downloaded {
        return Failure;
      }
      var go, stop := InspectReleaseForUpgrade(options, w);
      if go.None? {
        assert log == old(log) + Events(installed, options, w);
        return stop;
      }
      log := log + [Install(go.value, Seen(installed, w.inspectionRead))];
      assert InstallRows(installed, options, w) == [Install(go.value, Seen(installed, w.inspectionRead))];
      assert log == old(log) + Events(installed, options, w);
      if w.script.Completed? || w.script.published {
        installed := go.value;
      }
      if w.script.Failed? {
        return Failure;
      }
      if w.cacheWritable {
        cache := Cache(target, Seen(installed, w.lastRead));
      }
      return Upgraded;
    }

    method CheckForUpdate(force: bool, w: World) returns (status: Status)
      modifies this
      ensures installed ==
                if Attempts(old(installed), force, w) then Published(old(installed), CheckOptions(force), w)
                else old(installed)
      ensures log == old(log) +
                if Attempts(old(installed), force, w) then Events(old(installed), CheckOptions(force), w) else []
      ensures status == CheckStatus(old(installed), old(cache), force, w)
      ensures cache == CacheAfterCheck(old(installed), old(cache), force, w)
    {
      hide CompareSemver, ParseVersion;
      var current := Seen(installed, w.firstRead);
      if !w.autoUpdate && !force {
        return UpToDate(current);
      }
      if !force && !w.stale {
        if cache.latest != "" {
          var order := CompareSemver(current, cache.latest);
          if order.None? {
            return CheckError;
          }
          if order.value < 0 {
            return UpdateAvailable(cache.latest);
          }
        }
        return UpToDate(current);
      }
      if w.tag.None? {
        return CheckError;
      }
      var latest := ParseVersion(w.tag.value);
      if latest.None? {
        return CheckError;
      }
      if w.cacheWritable {
        cache := Cache(latest.value, current);
      }
      var order := CompareSemver(current, latest.value);
      if order.None? {
        return CheckError;
      }
      if order.value >= 0 {
        return UpToDate(current);
      }
      var outcome := PerformUpgrade(latest.value, CheckOptions(force), w);
      if outcome.Blocked? {
        return CheckError;
      }
      if outcome.Upgraded? {
        return UpToDate(latest.value);
      }
      return UpdateAvailable(latest.value);
    }
  }

  // ---- Runs ----

  datatype Call = Check(force: bool, world: World) | Upgrade(options: Options, world: World)

  /** The installed version and the log, the part of the state that runs are about. */
  datatype State = State(installed: string, log: seq<Event>)

  function Next(s: State, c: Call): State {
    match c
    case Check(force, w) =>
      if Attempts(s.installed, force, w)
      then State(Published(s.installed, CheckOptions(force), w), s.log + Events(s.installed, CheckOptions(force), w))
      else s
    case Upgrade(options, w) =>
      State(Published(s.installed, options, w), s.log + Events(s.installed, options, w))
  }

  /** An upgrade writes its audit row, starts the install and publishes exactly as the inputs say. */
  lemma UpgradeFromInputs(s: State, options: Options, w: World)
    ensures var next := Next(s, Upgrade(options, w));
            var seen := if w.inspectionRead then s.installed else "0.0.0";
            if (w.autoUpdate || options.force) && w.downloaded && Cleared(s.installed, options, w) then
              var candidate := ParseVersion(w.payload.value).value;
              && next.installed == (if w.script == Failed(false) then s.installed else candidate)
              && next.log == s.log
                           + (if Weighed(s.installed, w).value >= 0 then []
                              else [Downgrade(candidate, seen, w.session, options, w.confirmed)])
                           + [Install(candidate, seen)]
            else next == s
  {
    hide CompareSemver, ParseVersion, Cleared, Weighed;
    InstallsFromInputs(s.installed, options, w);
    assert Audits(s.installed, options, w) ==> Installs(s.installed, options, w);
    UpgradeCandidate(s.installed, options, w);
  }

  lemma UpgradeCandidate(installed: string, options: Options, w: World)
    ensures Installs(installed, options, w) ==> Candidate(w) == ParseVersion(w.payload.value)
    ensures Installs(installed, options, w) && Weighed(installed, w).value >= 0 ==> !Audits(installed, options, w)
  {
    hide CompareSemver, ParseVersion;
  }

  /** A downgrade nobody confirmed, and nobody waived the confirmation of, changes nothing; without a session in the way it is aborted. */
  lemma UnconfirmedChangesNothing(s: State, options: Options, w: World)
    requires Weighed(s.installed, w).Some? && Weighed(s.installed, w).value < 0
    requires !w.confirmed && !options.noConfirm
    ensures Next(s, Upgrade(options, w)) == s
    ensures forall outcome :: OutcomeFromInputs(outcome, s.installed, options, w) ==>
              !outcome.Upgraded?
              && (outcome.Aborted? <==>
                    && (w.autoUpdate || options.force) && w.downloaded && options.allowDowngrade
                    && (w.session.None? || options.overrideActive || options.closerContext))
  {
    UpgradeFromInputs(s, options, w);
  }

  /** A check installs exactly a newer tag's payload that is not below what the inspection reads; it audits nothing. */
  lemma CheckInstallsIff(s: State, force: bool, w: World)
    ensures var next := Next(s, Check(force, w));
            var latest := if w.tag.None? then None else ParseVersion(w.tag.value);
            var order := if latest.None? then None else CompareSemver(if w.firstRead then s.installed else "0.0.0", latest.value);
            if && (force || (w.autoUpdate && w.stale))
               && order.Some? && order.value < 0
               && w.downloaded && Weighed(s.installed, w).Some? && Weighed(s.installed, w).value >= 0
            then
              var candidate := ParseVersion(w.payload.value).value;
              && next.installed == (if w.script == Failed(false) then s.installed else candidate)
              && next.log == s.log + [Install(candidate, if w.inspectionRead then s.installed else "0.0.0")]
            else next == s
  {
    hide CompareSemver, ParseVersion;
    UpgradeFromInputs(s, CheckOptions(force), w);
    assert Attempts(s.installed, force, w) ==> Next(s, Check(force, w)) == Next(s, Upgrade(CheckOptions(force), w));
  }

  /** What a check answers and remembers, read off the inputs. */
  lemma CheckAnswers(installed: string, cache: Cache, force: bool, w: World)
    ensures var seen := if w.firstRead then installed else "0.0.0";
            var answer := CheckStatus(installed, cache, force, w);
            var kept := CacheAfterCheck(installed, cache, force, w);
            && (!w.autoUpdate && !force ==> answer == UpToDate(seen) && kept == cache)
            && (w.autoUpdate && !force && !w.stale ==>
                  kept == cache && if cache.latest == "" then answer == UpToDate(seen)
                                   else answer == Verdict(CompareSemver(seen, cache.latest), seen, cache.latest))
            && (force || (w.autoUpdate && w.stale) ==>
                  if w.tag.None? || ParseVersion(w.tag.value).None? then answer == CheckError && kept == cache
                  else FetchedAnswer(installed, cache, w, ParseVersion(w.tag.value).value, seen, answer, kept))
  {
    hide CompareSemver, ParseVersion;
  }

  ghost function Verdict(order: Option<int>, seen: string, latest: string): Status {
    if order.None? then CheckError else if order.value < 0 then UpdateAvailable(latest) else UpToDate(seen)
  }

  /** After a fetched tag: an older version that could not be brought up to the tag is reported as such. */
  ghost predicate FetchedAnswer(
    installed: string, cache: Cache, w: World, latest: string, seen: string, answer: Status, kept: Cache)
  {
    var order := CompareSemver(seen, latest);
    var weighed := Weighed(installed, w);
    if order.Some? && order.value < 0 && w.downloaded && weighed.Some? && weighed.value >= 0 && w.script.Completed? then
      && answer == UpToDate(latest)
      && kept == if w.cacheWritable
                 then Cache(latest, if w.lastRead then ParseVersion(w.payload.value).value else "0.0.0") else cache
    else
      && kept == (if w.cacheWritable then Cache(latest, seen) else cache)
      && answer == if order.Some? && order.value < 0 && w.downloaded && weighed.Some? && weighed.value < 0
                   then CheckError else Verdict(order, seen, latest)
  }

  function Run(s: State, calls: seq<Call>): State
    decreases |calls|
  {
    if calls == [] then s else Run(Next(s, calls[0]), calls[1..])
  }

  /** `a` is not after `b`, for two version texts. */
  predicate AtMost(a: string, b: string) {
    CompareSemver(a, b).Some? && CompareSemver(a, b).value <= 0
  }

  lemma CandidateNotLower(installed: string, w: World)
    requires w.inspectionRead && VersionOf(installed).Some? && Candidate(w).Some?
    requires NotLower(Candidate(w).value, Seen(installed, w.inspectionRead))
    ensures AtMost(installed, Candidate(w).value)
  {
    CompareSemverIsTotal(Candidate(w).value, installed);
  }

  predicate OnlyChecks(calls: seq<Call>) {
    forall i :: 0 <= i < |calls| ==> calls[i].Check?
  }

  predicate InspectionsRead(calls: seq<Call>) {
    forall i :: 0 <= i < |calls| ==> calls[i].world.inspectionRead
  }

  lemma CheckStep(s: State, c: Call)
    requires c.Check? && c.world.inspectionRead && VersionOf(s.installed).Some?
    ensures VersionOf(Next(s, c).installed).Some? && AtMost(s.installed, Next(s, c).installed)
  {
    CompareSemverIsTotal(s.installed, s.installed);
    if Next(s, c).installed != s.installed {
      CandidateNotLower(s.installed, c.world);
    }
  }

  /**
   * Over any run of `checkForUpdate` calls in which every inspection can read the installed
   * package.json, the installed version never goes down, whatever else the world answers.
   */
  lemma {:induction false} NeverGoesBackwards(s: State, calls: seq<Call>)
    requires OnlyChecks(calls) && InspectionsRead(calls) && VersionOf(s.installed).Some?
    ensures AtMost(s.installed, Run(s, calls).installed)
    decreases |calls|
  {
    if calls == [] {
      CompareSemverIsTotal(s.installed, s.installed);
    } else {
      var next := Next(s, calls[0]);
      CheckStep(s, calls[0]);
      NeverGoesBackwards(next, calls[1..]);
      CompareSemverIsTransitive(s.installed, next.installed, Run(s, calls).installed);
    }
  }

  lemma UnparseableStep(s: State, c: Call)
    requires c.world.inspectionRead && VersionOf(s.installed).None?
    ensures Next(s, c) == s
  {
    hide CompareSemver, ParseVersion, VersionOf;
    if Candidate(c.world).Some? {
      CompareSemverIsTotal(Candidate(c.world).value, s.installed);
    }
    var options := if c.Check? then CheckOptions(c.force) else c.options;
    assert !Installs(s.installed, options, c.world) && Events(s.installed, options, c.world) == [];
  }

  /** A readable package.json whose version does not parse is never replaced, by any call. */
  lemma {:induction false} UnparseableIsNeverReplaced(s: State, calls: seq<Call>)
    requires InspectionsRead(calls) && VersionOf(s.installed).None?
    ensures Run(s, calls) == s
    decreases |calls|
  {
    if calls != [] {
      UnparseableStep(s, calls[0]);
      UnparseableIsNeverReplaced(s, calls[1..]);
    }
  }

  // ---- Exactly when a check can go backwards ----

  lemma ZeroParses()
    ensures ParseVersion("0.0.0") == Some("0.0.0") && VersionOf("0.0.0") == Some(Version(0, 0, 0, None))
  {
    hide ParseVersion, VersionOf, ParseParts, Print;
    var zero := Version(0, 0, 0, None);
    PrintOfZero();
    VersionRoundTrip(zero);
    PartsRoundTrip(zero);
    TagIff("0.0.0", "0.0.0");
  }

  lemma PrintOfZero()
    ensures Print(Version(0, 0, 0, None)) == "0.0.0"
  {
    var pieces := PiecesOf(Version(0, 0, 0, None));
    assert pieces == Pieces("0", "0", "0", None);
    TextIs(pieces);
  }

  /** A forced check of a newer tag whose payload says 0.0.0. */
  function ZeroPayload(installed: Version, firstRead: bool): World {
    World(true, firstRead, true, Some(Print(Version(installed.major + 1, 0, 0, None))), true, Some("0.0.0"),
          false, None, false, false, Completed, true, true)
  }

  /**
   * One check cannot lower the installed version, whatever the release, exactly when its inspection
   * reads package.json or the installed version is not above 0.0.0 anyway.
   */
  lemma CheckIsSafeIff(s: State, inspectionRead: bool)
    requires VersionOf(s.installed).Some?
    ensures inspectionRead || AtMost(s.installed, "0.0.0") <==>
            forall c: Call :: c.Check? && c.world.inspectionRead == inspectionRead ==>
              AtMost(s.installed, Next(s, c).installed)
  {
    ZeroParses();
    if inspectionRead || AtMost(s.installed, "0.0.0") {
      forall c: Call | c.Check? && c.world.inspectionRead == inspectionRead
        ensures AtMost(s.installed, Next(s, c).installed)
      {
        if inspectionRead {
          CheckStep(s, c);
        } else {
          BlindStepFromZero(s, c);
        }
      }
    } else {
      var w := ZeroPayload(VersionOf(s.installed).value, true);
      ZeroPayloadInstalls(s, w);
      assert Check(true, w).world.inspectionRead == inspectionRead;
    }
  }

  lemma BlindStepFromZero(s: State, c: Call)
    requires c.Check? && !c.world.inspectionRead && VersionOf(s.installed).Some? && AtMost(s.installed, "0.0.0")
    ensures AtMost(s.installed, Next(s, c).installed)
  {
    CompareSemverIsTotal(s.installed, s.installed);
    if Next(s, c).installed != s.installed {
      CompareSemverIsTotal(Candidate(c.world).value, "0.0.0");
      CompareSemverIsTransitive(s.installed, "0.0.0", Candidate(c.world).value);
    }
  }

  lemma NewerTag(installed: string, newer: Version)
    requires VersionOf(installed).Some? && newer == Version(VersionOf(installed).value.major + 1, 0, 0, None)
    ensures ParseVersion(Print(newer)) == Some(Print(newer))
    ensures Lower(installed, Print(newer))
  {
    VersionRoundTrip(newer);
    PartsRoundTrip(newer);
    PrintStartsWithDigit(newer);
  }

  lemma PayloadInstalls(s: State, w: World, seen: string)
    requires w.downloaded && w.tag.Some? && w.payload == Some(seen) && w.script.Completed?
    requires Seen(s.installed, w.inspectionRead) == seen && Seen(s.installed, w.firstRead) == s.installed
    requires ParseVersion(w.tag.value).Some? && Lower(s.installed, ParseVersion(w.tag.value).value)
    requires ParseVersion(seen) == Some(seen) && NotLower(seen, seen)
    ensures Next(s, Check(true, w)).installed == seen
  {
    hide CompareSemver, ParseVersion, Seen;
    assert Installs(s.installed, CheckOptions(true), w);
    assert Attempts(s.installed, true, w);
  }

  lemma ZeroPayloadInstalls(s: State, w: World)
    requires VersionOf(s.installed).Some? && w == ZeroPayload(VersionOf(s.installed).value, true)
    ensures Next(s, Check(true, w)).installed == "0.0.0"
  {
    hide CompareSemver, ParseVersion, VersionOf, Print;
    ZeroParses();
    NewerTag(s.installed, Version(VersionOf(s.installed).value.major + 1, 0, 0, None));
    CompareSemverIsTotal("0.0.0", "0.0.0");
    PayloadInstalls(s, w, "0.0.0");
  }

  // ---- What the answers are worth ----

  /**
   * An "up to date" answer names the version that is installed afterwards exactly when an upgrade, if one
   * was attempted, unpacked the version its tag names, and otherwise when package.json could be read.
   */
  lemma UpToDateIsTrueIff(s: State, cache: Cache, force: bool, w: World)
    requires CheckStatus(s.installed, cache, force, w).UpToDate?
    ensures CheckStatus(s.installed, cache, force, w).version == Next(s, Check(force, w)).installed <==>
            if Attempts(s.installed, force, w) then Candidate(w) == ParseVersion(w.tag.value)
            else w.firstRead || s.installed == "0.0.0"
  {
    hide CompareSemver, ParseVersion;
  }

  /** A newer tag whose payload is an intermediate version. */
  function MislabelledRelease(tag: Version, payload: Version): World {
    World(true, true, true, Some(Print(tag)), true, Some(Print(payload)), true, None, false, false, Completed, true, true)
  }

  lemma PrintedOrder(a: Version, b: Version)
    requires a.prerelease.None? && b.prerelease.None?
    ensures ParseVersion(Print(a)) == Some(Print(a))
    ensures CompareSemver(Print(a), Print(b)) == Some(CompareVersions(a, b))
  {
    VersionRoundTrip(a);
    VersionRoundTrip(b);
    PartsRoundTrip(a);
    PrintStartsWithDigit(a);
  }

  /** `payload` lies strictly between the two others, and all are releases. */
  predicate Between(installed: Version, payload: Version, tag: Version) {
    && installed.prerelease.None? && payload.prerelease.None? && tag.prerelease.None?
    && CompareVersions(installed, payload) < 0 && CompareVersions(payload, tag) < 0
  }

  lemma BetweenPrinted(installed: Version, payload: Version, tag: Version)
    requires Between(installed, payload, tag)
    ensures ParseVersion(Print(payload)) == Some(Print(payload)) && ParseVersion(Print(tag)) == Some(Print(tag))
    ensures Lower(Print(installed), Print(tag)) && NotLower(Print(payload), Print(installed))
    ensures Lower(Print(payload), Print(tag)) && Print(payload) != Print(tag)
  {
    VersionsOrder(payload, installed);
    VersionsOrder(payload, tag);
    VersionsTransitive(installed, payload, tag);
    VersionsOrder(installed, tag);
    PartsRoundTrip(payload);
    PartsRoundTrip(tag);
    hide CompareVersions, CompareSemver, ParseVersion, Print;
    PrintedOrder(installed, tag);
    PrintedOrder(tag, payload);
    PrintedOrder(payload, installed);
    PrintedOrder(payload, tag);
  }

  /** With such a payload the answer is the tag and the truth the payload. */
  lemma UpToDateCanBeUntrue(installed: Version, payload: Version, tag: Version, log: seq<Event>, cache: Cache)
    requires Between(installed, payload, tag)
    ensures var w, s := MislabelledRelease(tag, payload), State(Print(installed), log);
            && CheckStatus(Print(installed), cache, false, w) == UpToDate(Print(tag))
            && Next(s, Check(false, w)).installed == Print(payload) != Print(tag)
  {
    hide CompareSemver, ParseVersion, Print;
    BetweenPrinted(installed, payload, tag);
  }

  /**
   * What a check remembers serves the next one: after a fetched tag was written down, a check over the fresh
   * cache that can read package.json weighs what is now installed against that tag.
   */
  lemma FreshCacheAgrees(s: State, cache: Cache, force: bool, w: World, later: World)
    requires Fetches(force, w) && w.cacheWritable
    requires later.autoUpdate && !later.stale && later.firstRead
    ensures var installed := Next(s, Check(force, w)).installed;
            CheckStatus(installed, CacheAfterCheck(s.installed, cache, force, w), false, later) ==
            Standing(installed, ParseVersion(w.tag.value).value)
  {
    ParsedIsNotEmpty(w.tag.value);
    hide CompareSemver, ParseVersion;
  }

  lemma ParsedIsNotEmpty(tag: string)
    ensures ParseVersion(tag).Some? ==> ParseVersion(tag).value != ""
  {
  }

  /** So a mislabelled release is offered again by the very next check. */
  lemma MislabelledIsOfferedAgain(installed: Version, payload: Version, tag: Version, cache: Cache, later: World)
    requires Between(installed, payload, tag)
    requires later.autoUpdate && !later.stale && later.firstRead
    ensures var w := MislabelledRelease(tag, payload);
            CheckStatus(Print(payload), CacheAfterCheck(Print(installed), cache, false, w), false, later) ==
            UpdateAvailable(Print(tag))
  {
    hide CompareSemver, ParseVersion, Print;
    BetweenPrinted(installed, payload, tag);
    UpToDateCanBeUntrue(installed, payload, tag, [], cache);
    FreshCacheAgrees(State(Print(installed), []), cache, false, MislabelledRelease(tag, payload), later);
  }

  /**
   * What an upgrade's outcome says of the disk: refused, aborted and blocked leave no trace; upgraded means the
   * candidate is installed; a failure changed the version only when a failing script had published it.
   */
  lemma OutcomeTells(installed: string, options: Options, w: World, outcome: Outcome)
    requires if Installs(installed, options, w) then outcome == if w.script.Completed? then Upgraded else Failure
             else EndsAs(outcome, installed, options, w)
    ensures outcome.Refused? || outcome.Aborted? || outcome.Blocked? ==>
              Published(installed, options, w) == installed && Events(installed, options, w) == []
    ensures outcome.Upgraded? ==> Candidate(w) == Some(Published(installed, options, w))
    ensures outcome.Failure? && Published(installed, options, w) != installed ==>
              Installs(installed, options, w) && w.script == Failed(true)
  {
    hide CompareSemver, ParseVersion;
  }

  // ---- Downgrades are audited ----

  /** Every install below the version seen comes right after its audit row, which records the consent. */
  ghost predicate Audited(log: seq<Event>) {
    forall k :: 0 <= k < |log| && log[k].Install? && Lower(log[k].candidate, log[k].seen) ==>
      && k > 0 && log[k - 1].Downgrade?
      && log[k - 1].candidate == log[k].candidate && log[k - 1].seen == log[k].seen
      && log[k - 1].options.allowDowngrade
      && (log[k - 1].options.noConfirm || log[k - 1].confirmed)
      && (log[k - 1].session.Some? ==> log[k - 1].options.overrideActive || log[k - 1].options.closerContext)
  }

  lemma AuditedConcat(a: seq<Event>, b: seq<Event>)
    requires Audited(a) && Audited(b)
    ensures Audited(a + b)
  {
    forall k | |a| <= k < |a + b| && (a + b)[k].Install? && Lower((a + b)[k].candidate, (a + b)[k].seen)
      ensures k > |a| && (a + b)[k - 1] == b[k - |a| - 1]
    {
      assert (a + b)[k] == b[k - |a|];
    }
  }

  lemma RowsAudited(row: Event, install: Event)
    requires install.Install? && row.Downgrade? && row.candidate == install.candidate && row.seen == install.seen
    requires row.options.allowDowngrade && (row.options.noConfirm || row.confirmed)
    requires row.session.Some? ==> row.options.overrideActive || row.options.closerContext
    ensures Audited([row] + [install])
  {
  }

  lemma EventsAudited(installed: string, options: Options, w: World)
    ensures Audited(Events(installed, options, w))
  {
    var rows, installs := AuditRows(installed, options, w), InstallRows(installed, options, w);
    if rows == [] {
      assert rows + installs == installs;
      assert installs != [] ==> !Lower(installs[0].candidate, installs[0].seen);
    } else {
      RowsAudited(rows[0], installs[0]);
      assert rows + installs == [rows[0]] + [installs[0]];
    }
  }

  /** Over any mixture of checks and upgrades, from a log that is audited so far. */
  lemma {:induction false} EveryDowngradeIsAudited(s: State, calls: seq<Call>)
    requires Audited(s.log)
    ensures Audited(Run(s, calls).log)
    decreases |calls|
  {
    if calls != [] {
      var c := calls[0];
      EventsAudited(s.installed, if c.Check? then CheckOptions(c.force) else c.options, c.world);
      AuditedConcat(s.log, Events(s.installed, if c.Check? then CheckOptions(c.force) else c.options, c.world));
      EveryDowngradeIsAudited(Next(s, c), calls[1..]);
    }
  }

  /** With every inspection readable, a lower version is on disk only after a logged, audited downgrade. */
  lemma {:induction false} SilenceMeansNotLower(s: State, calls: seq<Call>)
    requires InspectionsRead(calls) && VersionOf(s.installed).Some?
    requires forall e :: e in Run(s, calls).log && e !in s.log ==> !e.Downgrade?
    requires forall e :: e in s.log ==> !e.Downgrade?
    ensures AtMost(s.installed, Run(s, calls).installed)
    decreases |calls|
  {
    CompareSemverIsTotal(s.installed, s.installed);
    if calls != [] {
      var c := calls[0];
      var next := Next(s, c);
      LogGrows(next, calls[1..]);
      forall e | e in next.log ensures !e.Downgrade? {
        assert e in Run(s, calls).log;
      }
      if next.installed != s.installed {
        var options := if c.Check? then CheckOptions(c.force) else c.options;
        RowIsLogged(s, options, c.world);
        CandidateNotLower(s.installed, c.world);
      }
      SilenceMeansNotLower(next, calls[1..]);
      CompareSemverIsTransitive(s.installed, next.installed, Run(s, calls).installed);
    }
  }

  lemma RowIsLogged(s: State, options: Options, w: World)
    ensures Audits(s.installed, options, w) ==>
              exists e :: e in s.log + Events(s.installed, options, w) && e.Downgrade?
  {
    if Audits(s.installed, options, w) {
      var log := s.log + Events(s.installed, options, w);
      assert log[|s.log|] == AuditRows(s.installed, options, w)[0];
      assert log[|s.log|] in log;
    }
  }

  lemma {:induction false} LogGrows(s: State, calls: seq<Call>)
    ensures s.log <= Run(s, calls).log
    decreases |calls|
  {
    if calls != [] {
      LogGrows(Next(s, calls[0]), calls[1..]);
    }
  }
}
