/**
 * The staged-path fence of check-scope-diff.js: a test on strings that stands for a test on path
 * components.
 */
module ScopeFence {
  import opened Text
  import opened Wrappers

  const CATALOG := "CLAUDE.md"

  /** `p.replace(/\/$/, '')`: one trailing slash goes. */
  function NormalizePath(p: string): string {
    if p != [] && p[|p| - 1] == '/' then p[..|p| - 1] else p
  }

  predicate Covers(allowed: string, path: string) {
    var a := NormalizePath(allowed);
    path == a || StartsWith(path, a + "/")
  }

  predicate IsPathInScope(stagedPath: string, allowedPaths: seq<string>) {
    exists i :: 0 <= i < |allowedPaths| && Covers(allowedPaths[i], NormalizePath(stagedPath))
  }

  predicate IsTrapDoorCatalogPath(stagedPath: string) {
    var n := NormalizePath(stagedPath);
    n == CATALOG || EndsWith(n, "/" + CATALOG)
  }

  // ---- Reference: components ----

  function Components(path: string): (parts: seq<string>)
    ensures |parts| > 0
  {
    Split(NormalizePath(path), '/')
  }

  /** The components are the pieces between slashes, but for one slash at the end. */
  lemma TrailingSlashIsNoComponent(path: string)
    ensures Components(path + "/") == Split(path, '/')
    ensures path == [] || path[|path| - 1] != '/' ==> Components(path) == Split(path, '/')
  {
    assert (path + "/")[..|path|] == path;
  }

  lemma PrefixIsComponentPrefix(a: string, s: string)
    ensures s == a || StartsWith(s, a + "/") <==> Split(a, '/') <= Split(s, '/')
  {
    if StartsWith(s, a + "/") {
      var t := s[|a| + 1..];
      assert s == a + ['/'] + t;
      SplitConcat(a, t, '/');
    }
    if Split(a, '/') <= Split(s, '/') {
      JoinSplit(a, '/');
      JoinSplit(s, '/');
      var rest := Split(s, '/')[|Split(a, '/')|..];
      assert Split(s, '/') == Split(a, '/') + rest;
      if rest == [] {
        assert Split(s, '/') == Split(a, '/');
      } else {
        JoinConcat(Split(a, '/'), rest, '/');
        assert s == a + ['/'] + Join(rest, '/');
      }
    }
  }

  /** The string test is the component test: some allowed path's components start the path's own. */
  lemma InScopeIffComponentPrefix(path: string, allowedPaths: seq<string>)
    ensures IsPathInScope(path, allowedPaths) <==>
            exists i :: 0 <= i < |allowedPaths| && Components(allowedPaths[i]) <= Components(path)
  {
    forall i | 0 <= i < |allowedPaths|
      ensures Covers(allowedPaths[i], NormalizePath(path)) <==> Components(allowedPaths[i]) <= Components(path)
    {
      PrefixIsComponentPrefix(NormalizePath(allowedPaths[i]), NormalizePath(path));
    }
  }

  lemma {:induction false} CatalogHasNoSlash()
    ensures '/' !in CATALOG
  {
    assert CATALOG == ['C', 'L', 'A', 'U', 'D', 'E', '.', 'm', 'd'];
  }

  lemma EndIsLastComponent(n: string, name: string)
    requires '/' !in name
    ensures n == name || EndsWith(n, "/" + name) <==> Split(n, '/')[|Split(n, '/')| - 1] == name
  {
    SplitPiece(name, '/');
    if EndsWith(n, "/" + name) {
      var front := n[..|n| - |name| - 1];
      assert n == front + n[|n| - |name| - 1..];
      assert n == front + ['/'] + name;
      SplitConcat(front, name, '/');
    }
    var parts := Split(n, '/');
    if parts[|parts| - 1] == name {
      JoinSplit(n, '/');
      if |parts| == 1 {
        assert parts == [name];
      } else {
        LastPiece(n, parts[..|parts| - 1], name);
      }
    }
  }

  lemma LastPiece(n: string, front: seq<string>, name: string)
    requires front != [] && Split(n, '/')[..|Split(n, '/')| - 1] == front
    requires Split(n, '/')[|Split(n, '/')| - 1] == name
    ensures EndsWith(n, "/" + name)
  {
    JoinSplit(n, '/');
    assert Split(n, '/') == front + [name];
    JoinConcat(front, [name], '/');
    var before := Join(front, '/');
    assert n == before + ("/" + name);
    assert n[|before|..] == "/" + name;
  }

  /** A catalog path is one whose last component is the catalog's file name. */
  lemma CatalogIffLastComponent(path: string)
    ensures IsTrapDoorCatalogPath(path) <==> Components(path)[|Components(path)| - 1] == "CLAUDE.md"
  {
    hide NormalizePath, Split, EndsWith;
    CatalogHasNoSlash();
    EndIsLastComponent(NormalizePath(path), CATALOG);
  }

  // ---- Listing what is staged: `git diff --staged --name-only -z` ----

  function NonEmpty(parts: seq<string>): seq<string> {
    if parts == [] then [] else (if parts[0] == [] then [] else [parts[0]]) + NonEmpty(parts[1..])
  }

  /** `stdout.split('\0').filter(Boolean)` */
  function ReadStaged(stdout: string): seq<string> {
    NonEmpty(Split(stdout, '\0'))
  }

  /** The `-z` form: every path followed by a NUL. */
  function PrintStaged(paths: seq<string>): string {
    if paths == [] then [] else paths[0] + ['\0'] + PrintStaged(paths[1..])
  }

  /** Every listing of file names is read back as it was, whatever else the names contain. */
  lemma {:induction false} StagedRoundTrip(paths: seq<string>)
    requires forall i :: 0 <= i < |paths| ==> paths[i] != [] && '\0' !in paths[i]
    ensures ReadStaged(PrintStaged(paths)) == paths
  {
    if paths != [] {
      var rest := PrintStaged(paths[1..]);
      StagedRoundTrip(paths[1..]);
      SplitConcat(paths[0], rest, '\0');
      SplitPiece(paths[0], '\0');
      assert ([paths[0]] + Split(rest, '\0'))[1..] == Split(rest, '\0');
      assert paths == [paths[0]] + paths[1..];
    }
  }

  // ---- The fence ----

  /** What reading scope.json gives: nothing to read, a reading error, or its `allowed_paths` field. */
  datatype Scope = NoPath | Missing | Unreadable | BadField | Allowed(paths: seq<string>)

  datatype Status =
    | NoScope
    | MalformedScope
    | EnumerationFailed
    | Ok(stagedCount: nat)
    | OutsideScope(paths: seq<string>)

  predicate Passes(path: string, allowedPaths: seq<string>) {
    IsPathInScope(path, allowedPaths) || IsTrapDoorCatalogPath(path)
  }

  function Outside(staged: seq<string>, allowedPaths: seq<string>): (r: seq<string>)
    ensures |r| <= |staged|
  {
    if staged == [] then []
    else (if Passes(staged[0], allowedPaths) then [] else [staged[0]]) + Outside(staged[1..], allowedPaths)
  }

  /** `staged` is none when the enumeration did not complete. */
  function CheckScopeDiff(scope: Scope, staged: Option<seq<string>>): Status {
    match scope
    case NoPath | Missing => NoScope
    case Unreadable | BadField => MalformedScope
    case Allowed(paths) =>
      if staged.None? then EnumerationFailed
      else
        var outside := Outside(staged.value, paths);
        if outside == [] then Ok(|staged.value|) else OutsideScope(outside)
  }

  lemma {:induction false} OutsideAre(staged: seq<string>, allowedPaths: seq<string>, path: string)
    ensures path in Outside(staged, allowedPaths) <==> path in staged && !Passes(path, allowedPaths)
  {
    if staged != [] {
      OutsideAre(staged[1..], allowedPaths, path);
      assert staged == [staged[0]] + staged[1..];
    }
  }

  /** By components: the path lies under an allowed path, or its last component is the catalog's name. */
  ghost predicate Fenced(path: string, allowedPaths: seq<string>) {
    || (exists i :: 0 <= i < |allowedPaths| && Components(allowedPaths[i]) <= Components(path))
    || Components(path)[|Components(path)| - 1] == "CLAUDE.md"
  }

  lemma PassesIffFenced(path: string, allowedPaths: seq<string>)
    ensures Passes(path, allowedPaths) <==> Fenced(path, allowedPaths)
  {
    InScopeIffComponentPrefix(path, allowedPaths);
    CatalogIffLastComponent(path);
  }

  /**
   * "ok" is answered exactly for a readable scope and a completed enumeration whose every path lies, by
   * components, inside the fence; otherwise the paths outside are listed, all of them.
   */
  lemma OkIffEverythingFenced(scope: Scope, staged: Option<seq<string>>)
    ensures CheckScopeDiff(scope, staged).Ok? <==>
            && scope.Allowed? && staged.Some?
            && forall path :: path in staged.value ==> Fenced(path, scope.paths)
    ensures CheckScopeDiff(scope, staged).OutsideScope? ==>
              && scope.Allowed? && staged.Some?
              && forall path :: path in CheckScopeDiff(scope, staged).paths <==>
                   path in staged.value && !Fenced(path, scope.paths)
  {
    if scope.Allowed? && staged.Some? {
      var outside := Outside(staged.value, scope.paths);
      forall path ensures path in outside <==> path in staged.value && !Fenced(path, scope.paths) {
        OutsideAre(staged.value, scope.paths, path);
        PassesIffFenced(path, scope.paths);
      }
      if outside != [] {
        assert outside[0] in outside;
      }
    }
  }

  /** Each status, by what was read and what the enumeration gave. */
  lemma StatusIff(scope: Scope, staged: Option<seq<string>>)
    ensures CheckScopeDiff(scope, staged).NoScope? <==> scope.NoPath? || scope.Missing?
    ensures CheckScopeDiff(scope, staged).MalformedScope? <==> scope.Unreadable? || scope.BadField?
    ensures CheckScopeDiff(scope, staged).EnumerationFailed? <==> scope.Allowed? && staged.None?
    ensures CheckScopeDiff(scope, staged).Ok? ==> CheckScopeDiff(scope, staged).stagedCount == |staged.value|
    ensures CheckScopeDiff(scope, staged).OutsideScope? <==>
            && scope.Allowed? && staged.Some?
            && exists i :: 0 <= i < |staged.value| && !Fenced(staged.value[i], scope.paths)
  {
    OkIffEverythingFenced(scope, staged);
    if scope.Allowed? && staged.Some? && CheckScopeDiff(scope, staged).OutsideScope? {
      var outside := Outside(staged.value, scope.paths);
      OutsideAre(staged.value, scope.paths, outside[0]);
      PassesIffFenced(outside[0], scope.paths);
    }
  }

  /** `picked` holds the elements at these increasing positions. */
  ghost predicate PicksInOrder(staged: seq<string>, picked: seq<string>, at: seq<nat>) {
    && |at| == |picked|
    && (forall k :: 0 <= k < |at| ==> at[k] < |staged| && picked[k] == staged[at[k]])
    && (forall j, k :: 0 <= j < k < |at| ==> at[j] < at[k])
  }

  ghost function Shifted(s: seq<nat>): (r: seq<nat>)
    ensures |r| == |s| && forall k :: 0 <= k < |s| ==> r[k] == s[k] + 1
  {
    seq(|s|, k requires 0 <= k < |s| => s[k] + 1)
  }

  lemma InShifted(s: seq<nat>, i: nat)
    ensures i in Shifted(s) <==> i > 0 && i - 1 in s
  {
    if i > 0 && i - 1 in s {
      var k :| 0 <= k < |s| && s[k] == i - 1;
      assert Shifted(s)[k] == i;
    }
  }

  lemma PicksShifted(staged: seq<string>, picked: seq<string>, at: seq<nat>)
    requires staged != [] && PicksInOrder(staged[1..], picked, at)
    ensures PicksInOrder(staged, picked, Shifted(at))
    ensures PicksInOrder(staged, [staged[0]] + picked, [0] + Shifted(at))
  {
    var shifted := Shifted(at);
    assert forall k :: 0 <= k < |at| ==> staged[shifted[k]] == staged[1..][at[k]];
  }

  ghost predicate AreUnfenced(staged: seq<string>, allowedPaths: seq<string>, at: seq<nat>) {
    forall i :: 0 <= i < |staged| ==> (i in at <==> !Fenced(staged[i], allowedPaths))
  }

  lemma UnfencedShifted(staged: seq<string>, allowedPaths: seq<string>, rest: seq<nat>)
    requires staged != [] && AreUnfenced(staged[1..], allowedPaths, rest)
    ensures AreUnfenced(staged, allowedPaths, (if Fenced(staged[0], allowedPaths) then [] else [0]) + Shifted(rest))
  {
    hide Fenced, Shifted;
    var at := (if Fenced(staged[0], allowedPaths) then [] else [0]) + Shifted(rest);
    forall i | 0 <= i < |staged| ensures i in at <==> !Fenced(staged[i], allowedPaths) {
      InShifted(rest, i);
      if i > 0 {
        assert staged[i] == staged[1..][i - 1];
      }
    }
  }

  /** The reported paths are the unfenced ones, each as often as it was listed and in that order. */
  lemma {:induction false} OutsideInOrder(staged: seq<string>, allowedPaths: seq<string>) returns (at: seq<nat>)
    ensures PicksInOrder(staged, Outside(staged, allowedPaths), at)
    ensures AreUnfenced(staged, allowedPaths, at)
  {
    hide Fenced, Passes, Shifted;
    if staged == [] {
      at := [];
    } else {
      hide PicksInOrder, AreUnfenced;
      PassesIffFenced(staged[0], allowedPaths);
      var rest := OutsideInOrder(staged[1..], allowedPaths);
      PicksShifted(staged, Outside(staged[1..], allowedPaths), rest);
      UnfencedShifted(staged, allowedPaths, rest);
      at := (if Fenced(staged[0], allowedPaths) then [] else [0]) + Shifted(rest);
      assert [] + Shifted(rest) == Shifted(rest);
      assert [] + Outside(staged[1..], allowedPaths) == Outside(staged[1..], allowedPaths);
    }
  }

  lemma MoreAllowedMoreInScope(path: string, allowedPaths: seq<string>, more: seq<string>)
    requires forall a :: a in allowedPaths ==> a in more
    ensures IsPathInScope(path, allowedPaths) ==> IsPathInScope(path, more)
  {
    if i :| 0 <= i < |allowedPaths| && Covers(allowedPaths[i], NormalizePath(path)) {
      assert allowedPaths[i] in allowedPaths && allowedPaths[i] in more;
      var j :| 0 <= j < |more| && more[j] == allowedPaths[i];
      assert Covers(more[j], NormalizePath(path));
    }
  }

  /** Enlarging `allowed_paths` never puts a path outside. */
  lemma EnlargingNeverExcludes(staged: seq<string>, allowedPaths: seq<string>, more: seq<string>, path: string)
    requires forall a :: a in allowedPaths ==> a in more
    requires path in Outside(staged, more)
    ensures path in Outside(staged, allowedPaths)
  {
    MoreAllowedMoreInScope(path, allowedPaths, more);
    OutsideAre(staged, more, path);
    OutsideAre(staged, allowedPaths, path);
  }

  /** The fence is monotone in the tree: what lies under a path in scope is in scope. */
  lemma ScopeIsClosedDownwards(path: string, below: string, allowedPaths: seq<string>)
    requires IsPathInScope(path, allowedPaths) && Components(path) <= Components(below)
    ensures IsPathInScope(below, allowedPaths)
  {
    InScopeIffComponentPrefix(path, allowedPaths);
    InScopeIffComponentPrefix(below, allowedPaths);
  }
}
