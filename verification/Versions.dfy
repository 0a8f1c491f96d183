/**
 * Version ordering of check-update.js: `parseVersion`, `comparePrerelease`, `compareSemver`, related
 * to section 11 of Semantic Versioning 2.0.0.
 */
module Versions {
  import opened Text
  import opened Wrappers

  datatype Prerelease = Prerelease(ident: string, num: nat)
  datatype Version = Version(major: nat, minor: nat, patch: nat, prerelease: Option<Prerelease>)

  // ---- Parsing: X.Y.Z or X.Y.Z-<ident>.<N> ----

  /** `[0-9A-Za-z-]` */
  predicate IsIdentChar(c: char) {
    IsDigit(c) || 'A' <= c <= 'Z' || 'a' <= c <= 'z' || c == '-'
  }

  predicate IsIdent(s: string) {
    s != [] && forall i :: 0 <= i < |s| ==> IsIdentChar(s[i])
  }

  function IdentRun(s: string): (n: nat)
    ensures n <= |s|
    ensures forall i :: 0 <= i < n ==> IsIdentChar(s[i])
    ensures n < |s| ==> !IsIdentChar(s[n])
  {
    if s == [] || !IsIdentChar(s[0]) then 0
    else
      var n := IdentRun(s[1..]);
      assert forall i :: 1 <= i < n + 1 ==> s[i] == s[1..][i - 1];
      n + 1
  }

  /** `(\d+)` at the front: its value and what follows. */
  function TakeNumber(s: string): (r: Option<(nat, string)>) {
    var n := DigitRun(s);
    if n == 0 then None else Some((Value(s[..n]), s[n..]))
  }

  /** `(\d+)\.` at the front. */
  function TakeField(s: string): (r: Option<(nat, string)>) {
    var r := TakeNumber(s);
    if r.None? || r.value.1 == [] || r.value.1[0] != '.' then None else Some((r.value.0, r.value.1[1..]))
  }

  /** `-([0-9A-Za-z-]+)\.(\d+)$` */
  function ParsePrerelease(s: string): (r: Option<Prerelease>)
    requires s != []
    ensures r.Some? ==> IsIdent(r.value.ident)
  {
    var n := IdentRun(s[1..]);
    var rest := s[1..][n..];
    if s[0] != '-' || n == 0 || rest == [] || rest[0] != '.' then None
    else
      var num := TakeNumber(rest[1..]);
      if num.None? || num.value.1 != [] then None else Some(Prerelease(s[1..][..n], num.value.0))
  }

  function ParseParts(s: string): (r: Option<Version>)
    ensures r.Some? && r.value.prerelease.Some? ==> IsIdent(r.value.prerelease.value.ident)
  {
    var major := TakeField(s);
    if major.None? then None
    else
      var minor := TakeField(major.value.1);
      if minor.None? then None
      else
        var patch := TakeNumber(minor.value.1);
        if patch.None? then None
        else if patch.value.1 == [] then
          Some(Version(major.value.0, minor.value.0, patch.value.0, None))
        else
          var prerelease := ParsePrerelease(patch.value.1);
          if prerelease.None? then None
          else Some(Version(major.value.0, minor.value.0, patch.value.0, prerelease))
  }

  /** `parseVersion(tag)`: the tag without one leading `v`, when that is a version; no tag is none. */
  function ParseVersion(tag: string): Option<string> {
    if tag == [] then None
    else
      var stripped := if tag[0] == 'v' then tag[1..] else tag;
      if ParseParts(stripped).None? then None else Some(stripped)
  }

  function VersionOf(tag: string): Option<Version> {
    var s := ParseVersion(tag);
    if s.None? then None else ParseParts(s.value)
  }

  lemma TakeDigits(d: string, rest: string)
    requires d != [] && AllDigits(d)
    requires rest == [] || !IsDigit(rest[0])
    ensures TakeNumber(d + rest) == Some((Value(d), rest))
    ensures rest != [] && rest[0] == '.' ==> TakeField(d + rest) == Some((Value(d), rest[1..]))
  {
    DigitRunOf(d, rest);
  }

  lemma {:induction false} IdentRunOf(ident: string, rest: string)
    requires forall i :: 0 <= i < |ident| ==> IsIdentChar(ident[i])
    requires rest == [] || !IsIdentChar(rest[0])
    ensures IdentRun(ident + rest) == |ident|
    ensures (ident + rest)[..|ident|] == ident && (ident + rest)[|ident|..] == rest
  {
    if ident == [] {
      assert ident + rest == rest;
    } else {
      assert (ident + rest)[1..] == ident[1..] + rest;
      IdentRunOf(ident[1..], rest);
    }
  }

  /** The pieces of a version text: three runs of digits and, for a prerelease, an identifier and one more. */
  datatype Pieces = Pieces(major: string, minor: string, patch: string, prerelease: Option<(string, string)>)

  ghost predicate WellFormed(p: Pieces) {
    && Digits(p.major) && Digits(p.minor) && Digits(p.patch)
    && (p.prerelease.Some? ==> LettersDigitsHyphens(p.prerelease.value.0) && Digits(p.prerelease.value.1))
  }

  ghost predicate Digits(d: string) {
    d != [] && forall i :: 0 <= i < |d| ==> '0' <= d[i] <= '9'
  }

  ghost predicate LettersDigitsHyphens(s: string) {
    s != [] && forall i :: 0 <= i < |s| ==> '0' <= s[i] <= '9' || 'A' <= s[i] <= 'Z' || 'a' <= s[i] <= 'z' || s[i] == '-'
  }

  predicate IsNumber(d: string) {
    d != [] && AllDigits(d)
  }

  function PrereleaseText(p: Option<(string, string)>): string {
    if p.None? then [] else ['-'] + (p.value.0 + (['.'] + p.value.1))
  }

  function TextOf(p: Pieces): string {
    p.major + (['.'] + (p.minor + (['.'] + (p.patch + PrereleaseText(p.prerelease)))))
  }

  ghost function Denoted(p: Pieces): Version
    requires WellFormed(p)
  {
    Version(Value(p.major), Value(p.minor), Value(p.patch),
            if p.prerelease.None? then None
            else Some(Prerelease(p.prerelease.value.0, Value(p.prerelease.value.1))))
  }

  lemma PrereleaseParses(ident: string, num: string)
    requires IsIdent(ident) && IsNumber(num)
    ensures ParsePrerelease(PrereleaseText(Some((ident, num)))) == Some(Prerelease(ident, Value(num)))
  {
    var tail := ['.'] + num;
    var s := PrereleaseText(Some((ident, num)));
    assert s[1..] == ident + tail;
    IdentRunOf(ident, tail);
    assert tail[1..] == num && num + [] == num;
    TakeDigits(num, []);
  }

  lemma TakeNext(d: string, rest: string)
    requires IsNumber(d)
    ensures TakeField(d + (['.'] + rest)) == Some((Value(d), rest))
  {
    TakeDigits(d, ['.'] + rest);
    assert (['.'] + rest)[1..] == rest;
  }

  lemma PatchTaken(patch: string, prerelease: Option<(string, string)>)
    requires IsNumber(patch)
    ensures TakeNumber(patch + PrereleaseText(prerelease)) == Some((Value(patch), PrereleaseText(prerelease)))
  {
    TakeDigits(patch, PrereleaseText(prerelease));
  }

  /** Every well-formed text is accepted and denotes what its pieces say. */
  lemma PiecesParse(p: Pieces)
    requires WellFormed(p)
    ensures ParseParts(TextOf(p)) == Some(Denoted(p))
  {
    hide TakeField, TakeNumber, ParsePrerelease;
    var patchText := p.patch + PrereleaseText(p.prerelease);
    TakeNext(p.major, p.minor + (['.'] + patchText));
    TakeNext(p.minor, patchText);
    PatchTaken(p.patch, p.prerelease);
    if p.prerelease.Some? {
      PrereleaseParses(p.prerelease.value.0, p.prerelease.value.1);
    }
  }

  lemma NumberTaken(s: string)
    requires TakeNumber(s).Some?
    ensures var d := s[..DigitRun(s)];
            IsNumber(d) && s == d + TakeNumber(s).value.1 && TakeNumber(s).value.0 == Value(d)
  {
  }

  lemma FieldTaken(s: string)
    requires TakeField(s).Some?
    ensures var d := s[..DigitRun(s)];
            IsNumber(d) && s == d + (['.'] + TakeField(s).value.1) && TakeField(s).value.0 == Value(d)
  {
    NumberTaken(s);
    var rest := TakeNumber(s).value.1;
    assert rest == ['.'] + rest[1..];
  }

  lemma PrereleaseTaken(s: string) returns (p: (string, string))
    requires s != [] && ParsePrerelease(s).Some?
    ensures IsIdent(p.0) && IsNumber(p.1) && s == PrereleaseText(Some(p))
  {
    var body := s[1..];
    var n := IdentRun(body);
    var num := body[n..][1..];
    p := (body[..n], num);
    NumberTaken(num);
    assert TakeNumber(num).value.1 == [];
    assert num[..DigitRun(num)] == num;
    Reassemble(s, n);
  }

  lemma Reassemble(s: string, n: nat)
    requires s != [] && s[0] == '-' && n < |s[1..]| && s[1..][n] == '.'
    ensures s == PrereleaseText(Some((s[1..][..n], s[1..][n..][1..])))
  {
    var body := s[1..];
    assert body[n..] == ['.'] + body[n..][1..];
    assert body == body[..n] + body[n..];
    assert s == ['-'] + body;
  }

  /** Nothing else is accepted: an accepted text is made of well-formed pieces. */
  lemma AcceptedIsWellFormed(s: string) returns (p: Pieces)
    requires ParseParts(s).Some?
    ensures WellFormed(p) && s == TextOf(p)
  {
    FieldTaken(s);
    var afterMajor := TakeField(s).value.1;
    FieldTaken(afterMajor);
    var afterMinor := TakeField(afterMajor).value.1;
    NumberTaken(afterMinor);
    var rest := TakeNumber(afterMinor).value.1;
    var major, minor, patch := s[..DigitRun(s)], afterMajor[..DigitRun(afterMajor)], afterMinor[..DigitRun(afterMinor)];
    if rest == [] {
      p := Pieces(major, minor, patch, None);
    } else {
      var prerelease := PrereleaseTaken(rest);
      p := Pieces(major, minor, patch, Some(prerelease));
    }
  }

  lemma TextIs(p: Pieces)
    ensures TextOf(p) ==
            p.major + "." + p.minor + "." + p.patch +
            if p.prerelease.None? then "" else "-" + p.prerelease.value.0 + "." + p.prerelease.value.1
  {
  }

  /** The parser accepts exactly X.Y.Z and X.Y.Z-ident.N. */
  lemma ParsesIff(s: string)
    ensures ParseParts(s).Some? <==>
            exists p :: WellFormed(p) &&
              s == p.major + "." + p.minor + "." + p.patch +
                   if p.prerelease.None? then "" else "-" + p.prerelease.value.0 + "." + p.prerelease.value.1
  {
    hide TextOf, WellFormed;
    if ParseParts(s).Some? {
      var p := AcceptedIsWellFormed(s);
      TextIs(p);
    }
    if p :| WellFormed(p) &&
            s == p.major + "." + p.minor + "." + p.patch +
                 if p.prerelease.None? then "" else "-" + p.prerelease.value.0 + "." + p.prerelease.value.1 {
      TextIs(p);
      PiecesParse(p);
    }
  }

  function PiecesOf(v: Version): Pieces {
    Pieces(Decimal(v.major), Decimal(v.minor), Decimal(v.patch),
           if v.prerelease.None? then None else Some((v.prerelease.value.ident, Decimal(v.prerelease.value.num))))
  }

  function Print(v: Version): string {
    TextOf(PiecesOf(v))
  }

  lemma PrintIsWellFormed(v: Version)
    requires v.prerelease.Some? ==> IsIdent(v.prerelease.value.ident)
    ensures WellFormed(PiecesOf(v))
  {
    hide Decimal;
  }

  lemma PartsRoundTrip(v: Version)
    requires v.prerelease.Some? ==> IsIdent(v.prerelease.value.ident)
    ensures ParseParts(Print(v)) == Some(v)
  {
    hide ParseParts, TextOf, WellFormed, Value, Decimal;
    PrintIsWellFormed(v);
    PiecesParse(PiecesOf(v));
    ValueOfDecimal(v.major);
    ValueOfDecimal(v.minor);
    ValueOfDecimal(v.patch);
    if v.prerelease.Some? {
      ValueOfDecimal(v.prerelease.value.num);
    }
  }

  /** A tag is read as the version text it is, or is but for one `v` in front. */
  lemma TagIff(tag: string, s: string)
    ensures ParseVersion(tag) == Some(s) <==> ParseParts(s).Some? && (tag == s || tag == "v" + s)
  {
    assert ("v" + s)[1..] == s;
    if tag != [] {
      assert tag == [tag[0]] + tag[1..];
    }
    if ParseParts(s).Some? {
      FieldTaken(s);
      assert s[0] != 'v' by {
        assert DigitRun(s) > 0 && s[0] == s[..DigitRun(s)][0];
      }
    }
  }

  lemma TagRoundTrip(s: string)
    requires s != [] && s[0] != 'v' && ParseParts(s).Some?
    ensures VersionOf(s) == ParseParts(s) && VersionOf(['v'] + s) == ParseParts(s)
  {
    assert (['v'] + s)[1..] == s;
  }

  /** Every version is read back from its text, with or without the leading `v`. */
  lemma VersionRoundTrip(v: Version)
    requires v.prerelease.Some? ==> IsIdent(v.prerelease.value.ident)
    ensures VersionOf(Print(v)) == Some(v) && VersionOf(['v'] + Print(v)) == Some(v)
  {
    PartsRoundTrip(v);
    PrintStartsWithDigit(v);
    TagRoundTrip(Print(v));
  }

  lemma PrintStartsWithDigit(v: Version)
    ensures Print(v) != [] && IsDigit(Print(v)[0])
  {
    var major := Decimal(v.major);
    assert IsDigit(major[0]);
  }

  // ---- Comparing ----

  function Sign(a: int, b: int): int {
    if a < b then -1 else if a > b then 1 else 0
  }

  function ComparePrerelease(a: Option<Prerelease>, b: Option<Prerelease>): int {
    match (a, b)
    case (None, None) => 0
    case (None, Some(_)) => 1
    case (Some(_), None) => -1
    case (Some(p), Some(q)) =>
      if p.ident != q.ident then CompareText(p.ident, q.ident) else Sign(p.num, q.num)
  }

  function CompareVersions(a: Version, b: Version): int {
    if a.major != b.major then Sign(a.major, b.major)
    else if a.minor != b.minor then Sign(a.minor, b.minor)
    else if a.patch != b.patch then Sign(a.patch, b.patch)
    else ComparePrerelease(a.prerelease, b.prerelease)
  }

  /** `compareSemver(a, b)`: none when it throws. */
  function CompareSemver(a: string, b: string): Option<int> {
    var va, vb := VersionOf(a), VersionOf(b);
    if va.None? || vb.None? then None else Some(CompareVersions(va.value, vb.value))
  }

  lemma PrereleaseTransitive(a: Option<Prerelease>, b: Option<Prerelease>, c: Option<Prerelease>)
    requires ComparePrerelease(a, b) <= 0 && ComparePrerelease(b, c) <= 0
    ensures ComparePrerelease(a, c) <= 0
  {
    if a.Some? && b.Some? && c.Some? {
      var p, q, r := a.value, b.value, c.value;
      TextOrder(p.ident, q.ident);
      TextOrder(q.ident, r.ident);
      TextOrder(p.ident, r.ident);
      if p.ident != q.ident && q.ident != r.ident {
        TextTransitive(p.ident, q.ident, r.ident);
      }
    }
  }

  lemma PrereleaseOrder(a: Option<Prerelease>, b: Option<Prerelease>)
    ensures ComparePrerelease(b, a) == -ComparePrerelease(a, b)
    ensures ComparePrerelease(a, b) in {-1, 0, 1}
    ensures ComparePrerelease(a, b) == 0 <==> a == b
  {
    if a.Some? && b.Some? {
      TextOrder(a.value.ident, b.value.ident);
    }
  }

  lemma VersionsOrder(a: Version, b: Version)
    ensures CompareVersions(b, a) == -CompareVersions(a, b)
    ensures CompareVersions(a, b) in {-1, 0, 1}
    ensures CompareVersions(a, b) == 0 <==> a == b
  {
    PrereleaseOrder(a.prerelease, b.prerelease);
  }

  /**
   * `compareSemver` throws exactly when one side is no version; otherwise it is a total order of the
   * versions the texts denote.
   */
  lemma CompareSemverIsTotal(a: string, b: string)
    ensures CompareSemver(a, b).None? <==> VersionOf(a).None? || VersionOf(b).None?
    ensures CompareSemver(a, b).Some? ==>
              && CompareSemver(b, a) == Some(-CompareSemver(a, b).value)
              && CompareSemver(a, b).value in {-1, 0, 1}
              && (CompareSemver(a, b).value == 0 <==> VersionOf(a) == VersionOf(b))
  {
    var va, vb := VersionOf(a), VersionOf(b);
    if va.Some? && vb.Some? {
      VersionsOrder(va.value, vb.value);
    }
  }

  lemma VersionsTransitive(a: Version, b: Version, c: Version)
    requires CompareVersions(a, b) <= 0 && CompareVersions(b, c) <= 0
    ensures CompareVersions(a, c) <= 0
  {
    if (a.major, a.minor, a.patch) == (b.major, b.minor, b.patch) == (c.major, c.minor, c.patch) {
      PrereleaseTransitive(a.prerelease, b.prerelease, c.prerelease);
    }
  }

  lemma CompareSemverIsTransitive(a: string, b: string, c: string)
    requires CompareSemver(a, b).Some? && CompareSemver(b, c).Some?
    requires CompareSemver(a, b).value <= 0 && CompareSemver(b, c).value <= 0
    ensures CompareSemver(a, c).Some? && CompareSemver(a, c).value <= 0
  {
    VersionsTransitive(VersionOf(a).value, VersionOf(b).value, VersionOf(c).value);
  }

  /** Older: a smaller triple, and under one triple a prerelease below the release, then identifiers as text, then numbers. */
  lemma OlderIff(a: Version, b: Version)
    ensures CompareVersions(a, b) < 0 <==>
            || a.major < b.major
            || (a.major == b.major && a.minor < b.minor)
            || (a.major == b.major && a.minor == b.minor && a.patch < b.patch)
            || (a.major == b.major && a.minor == b.minor && a.patch == b.patch && a.prerelease.Some?
                && (|| b.prerelease.None?
                    || CompareText(a.prerelease.value.ident, b.prerelease.value.ident) < 0
                    || (a.prerelease.value.ident == b.prerelease.value.ident
                        && a.prerelease.value.num < b.prerelease.value.num)))
  {
    if a.prerelease.Some? && b.prerelease.Some? {
      TextOrder(a.prerelease.value.ident, b.prerelease.value.ident);
    }
  }

  // ---- Reference: section 11 of Semantic Versioning 2.0.0 ----

  /** 11.4.1 to 11.4.3: two dot-separated identifiers. */
  function Precedence(x: string, y: string): int {
    if AllDigits(x) && AllDigits(y) then Sign(Value(x), Value(y))
    else if AllDigits(x) then -1
    else if AllDigits(y) then 1
    else CompareText(x, y)
  }

  /** 11.4: identifiers left to right; 11.4.4: a longer list wins when all shared ones are equal. */
  function PrecedenceOfLists(xs: seq<string>, ys: seq<string>): int {
    if xs == [] then (if ys == [] then 0 else -1)
    else if ys == [] then 1
    else
      var first := Precedence(xs[0], ys[0]);
      if first != 0 then first else PrecedenceOfLists(xs[1..], ys[1..])
  }

  function Identifiers(p: Prerelease): seq<string> {
    [p.ident, Decimal(p.num)]
  }

  /** 11.2 and 11.3: the triple numerically, then a version without a prerelease wins. */
  function VersionPrecedence(a: Version, b: Version): int {
    var triple := [Sign(a.major, b.major), Sign(a.minor, b.minor), Sign(a.patch, b.patch)];
    if triple[0] != 0 then triple[0]
    else if triple[1] != 0 then triple[1]
    else if triple[2] != 0 then triple[2]
    else match (a.prerelease, b.prerelease)
      case (None, None) => 0
      case (None, _) => 1
      case (_, None) => -1
      case (Some(p), Some(q)) => PrecedenceOfLists(Identifiers(p), Identifiers(q))
  }

  /** The two prereleases name alphanumeric identifiers, or one of the versions has none. */
  predicate AlphanumericIdents(a: Version, b: Version) {
    a.prerelease.Some? && b.prerelease.Some? ==>
      !AllDigits(a.prerelease.value.ident) && !AllDigits(b.prerelease.value.ident)
  }

  lemma ListsOfTwo(p: Prerelease, q: Prerelease)
    ensures PrecedenceOfLists(Identifiers(p), Identifiers(q)) ==
            if Precedence(p.ident, q.ident) != 0 then Precedence(p.ident, q.ident) else Sign(p.num, q.num)
  {
    ValueOfDecimal(p.num);
    ValueOfDecimal(q.num);
    assert Identifiers(p)[1..] == [Decimal(p.num)] && Identifiers(q)[1..] == [Decimal(q.num)];
    assert [Decimal(p.num)][1..] == [] && [Decimal(q.num)][1..] == [];
    assert PrecedenceOfLists([Decimal(p.num)], [Decimal(q.num)]) == Sign(p.num, q.num);
  }

  lemma AgreesWithSemVer(a: Version, b: Version)
    requires AlphanumericIdents(a, b)
    ensures CompareVersions(a, b) == VersionPrecedence(a, b)
  {
    if a.prerelease.Some? && b.prerelease.Some? {
      ListsOfTwo(a.prerelease.value, b.prerelease.value);
      TextOrder(a.prerelease.value.ident, b.prerelease.value.ident);
    }
  }

  /**
   * Exactly the alphanumeric identifiers are safe: one identifier is ordered as section 11 says against
   * every alphanumeric identifier if and only if it has a non-digit itself.
   */
  lemma SafeIdentIff(p: Prerelease)
    requires IsIdent(p.ident)
    ensures !AllDigits(p.ident) <==>
            forall q: Prerelease :: IsIdent(q.ident) && !AllDigits(q.ident) ==>
              ComparePrerelease(Some(p), Some(q)) == PrecedenceOfLists(Identifiers(p), Identifiers(q))
  {
    if !AllDigits(p.ident) {
      forall q: Prerelease | IsIdent(q.ident) && !AllDigits(q.ident)
        ensures ComparePrerelease(Some(p), Some(q)) == PrecedenceOfLists(Identifiers(p), Identifiers(q))
      {
        ListsOfTwo(p, q);
        TextOrder(p.ident, q.ident);
      }
    } else {
      var q := Prerelease("-", 0);
      ListsOfTwo(p, q);
      assert !IsDigit(q.ident[0]) && IsIdentChar(q.ident[0]);
      assert IsIdent(q.ident) && !AllDigits(q.ident);
      assert IsDigit(p.ident[0]) && q.ident[0] < p.ident[0];
    }
  }

  /** Two numeric identifiers are ordered as text, not as numbers: 1.0.0-10.1 counts as older than 1.0.0-9.1. */
  lemma NumericIdentsAreText()
    ensures var a, b := Version(1, 0, 0, Some(Prerelease("10", 1))), Version(1, 0, 0, Some(Prerelease("9", 1)));
            CompareVersions(a, b) == -1 && VersionPrecedence(a, b) == 1
  {
    var p, q := Prerelease("10", 1), Prerelease("9", 1);
    ListsOfTwo(p, q);
    assert "10"[..1] == "1" && "1"[..0] == "" && "9"[..0] == "";
    assert Value("1") == 1 && Value("10") == 10 && Value("9") == 9;
  }
}
