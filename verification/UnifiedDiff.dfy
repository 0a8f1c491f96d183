/**
 * The unified-diff cursor parser and the finding filter built on it. The printer beside it writes
 * diffs in the unified form of POSIX.1-2008 `diff` ("Diff -u or -U Output Format") under git's
 * per-file headers; the parser is its left inverse on line numbers.
 */
module UnifiedDiff {
  import opened Wrappers
  import opened Text

  type Touched = map<string, set<int>>

  // ---- The parser ----

  datatype Cursor = Cursor(result: Touched, file: Option<string>, inHeader: bool, newLine: nat)

  const START := Cursor(map[], None, false, 0)

  /** `raw.match(/^@@ -\d+(?:,\d+)? \+(\d+)(?:,\d+)? @@/)`: the captured new-side start. */
  function MatchHunk(raw: string): Option<nat> {
    if !StartsWith(raw, "@@ -") then None
    else
      var afterOld := SkipRange(raw[4..]);
      if afterOld.None? || !StartsWith(afterOld.value.1, " +") then None
      else
        var afterNew := SkipRange(afterOld.value.1[2..]);
        if afterNew.None? || !StartsWith(afterNew.value.1, " @@") then None
        else Some(Value(afterNew.value.0))
  }

  /** `\d+(?:,\d+)?`: the digits before the comma and what follows the range. */
  function SkipRange(s: string): (r: Option<(string, string)>)
    ensures r.Some? ==> AllDigits(r.value.0)
  {
    var n := DigitRun(s);
    if n == 0 then None
    else
      var rest := s[n..];
      if rest != [] && rest[0] == ',' && DigitRun(rest[1..]) > 0
      then Some((s[..n], rest[1..][DigitRun(rest[1..])..]))
      else Some((s[..n], rest))
  }

  /** `raw.slice(4).replace(/\t$/, '')` */
  function HeaderName(raw: string): string
    requires |raw| >= 4
  {
    var name := raw[4..];
    if name != [] && name[|name| - 1] == '\t' then name[..|name| - 1] else name
  }

  function Touch(result: Touched, file: string, lines: set<int>): Touched {
    result[file := (if file in result then result[file] else {}) + lines]
  }

  /** One line of the parser's loop; `None` when it gives up on the whole diff. */
  function Step(c: Cursor, raw: string): Option<Cursor> {
    if StartsWith(raw, "diff --git ") then Some(c.(inHeader := true, file := None))
    else if c.inHeader && !StartsWith(raw, "@@ ") then
      if !StartsWith(raw, "+++ ") then Some(c)
      else
        var name := HeaderName(raw);
        if name == "/dev/null" then Some(c)
        else if !StartsWith(name, "b/") then None
        else Some(c.(file := Some(name[2..]), result := Touch(c.result, name[2..], {})))
    else
      var d := c.(inHeader := false);
      var hunk := MatchHunk(raw);
      if hunk.Some? then Some(d.(newLine := hunk.value))
      else if d.file.None? then Some(d)
      else if StartsWith(raw, "+") then
        Some(d.(result := Touch(d.result, d.file.value, {d.newLine}), newLine := d.newLine + 1))
      else if StartsWith(raw, " ") then Some(d.(newLine := d.newLine + 1))
      else Some(d)
  }

  function Steps(c: Cursor, lines: seq<string>): Option<Cursor>
    decreases |lines|
  {
    if lines == [] then Some(c)
    else
      var next := Step(c, lines[0]);
      if next.None? then None else Steps(next.value, lines[1..])
  }

  function Parse(lines: seq<string>): Option<Touched> {
    var end := Steps(START, lines);
    if end.None? then None else Some(end.value.result)
  }

  predicate OpensFile(line: string) {
    StartsWith(line, "diff --git ")
  }

  predicate OpensHunk(line: string) {
    StartsWith(line, "@@ ")
  }

  /** Line `k` stands between a file's `diff --git` line and that file's first hunk. */
  ghost predicate InHeader(lines: seq<string>, k: nat) {
    k <= |lines| && exists d :: 0 <= d < k && OpensFile(lines[d]) && forall j :: d < j < k ==> !OpensHunk(lines[j])
  }

  /** A `+++` line in a file header that names neither a path of the new tree nor the null device. */
  ghost predicate BadHeader(lines: seq<string>, k: nat) {
    && k < |lines| && InHeader(lines, k)
    && StartsWith(lines[k], "+++ ") && !StartsWith(lines[k], "+++ b/")
    && lines[k] != "+++ /dev/null" && lines[k] != "+++ /dev/null\t"
  }

  /** The name test of the parser, on the raw line. */
  lemma HeaderNameTest(raw: string)
    requires StartsWith(raw, "+++ ")
    ensures HeaderName(raw) == "/dev/null" <==> raw == "+++ /dev/null" || raw == "+++ /dev/null\t"
    ensures StartsWith(HeaderName(raw), "b/") <==> StartsWith(raw, "+++ b/")
  {
    var rest := raw[4..];
    assert raw == "+++ " + rest;
    TabLess(rest);
    assert StartsWith(raw, "+++ b/") <==> StartsWith(rest, "b/") by {
      if StartsWith(raw, "+++ b/") {
        assert rest[..2] == raw[4..6] == "b/";
      }
      if StartsWith(rest, "b/") {
        assert raw[..6] == "+++ " + rest[..2];
      }
    }
    if raw == "+++ /dev/null" || raw == "+++ /dev/null\t" {
      assert rest == "/dev/null" || rest == "/dev/null\t";
    }
    if rest == "/dev/null" || rest == "/dev/null\t" {
      assert raw == "+++ " + rest;
    }
  }

  /** A name without its trailing tab. */
  lemma TabLess(rest: string)
    ensures var name := if rest != [] && rest[|rest| - 1] == '\t' then rest[..|rest| - 1] else rest;
            && (name == "/dev/null" <==> rest == "/dev/null" || rest == "/dev/null\t")
            && (StartsWith(name, "b/") <==> StartsWith(rest, "b/"))
  {
    if rest != [] && rest[|rest| - 1] == '\t' {
      assert rest == rest[..|rest| - 1] + ['\t'];
      assert "/dev/null"[8] == 'l' && "b/"[1] == '/';
    }
  }

  lemma InHeaderStep(lines: seq<string>, k: nat)
    requires k < |lines|
    ensures InHeader(lines, k + 1) <==> OpensFile(lines[k]) || (InHeader(lines, k) && !OpensHunk(lines[k]))
  {
    if InHeader(lines, k) && !OpensHunk(lines[k]) {
      var d :| 0 <= d < k && OpensFile(lines[d]) && forall j :: d < j < k ==> !OpensHunk(lines[j]);
      assert forall j :: d < j < k + 1 ==> !OpensHunk(lines[j]);
    }
    if InHeader(lines, k + 1) && !OpensFile(lines[k]) {
      var d :| 0 <= d < k + 1 && OpensFile(lines[d]) && forall j :: d < j < k + 1 ==> !OpensHunk(lines[j]);
      assert InHeader(lines, k);
    }
  }

  /** The cursor's `inHeader` flag means what it says, and only a bad header name stops the parser. */
  lemma HeaderFlag(c: Cursor, lines: seq<string>, k: nat)
    requires k < |lines| && c.inHeader == InHeader(lines, k)
    ensures Step(c, lines[k]).None? <==> BadHeader(lines, k)
    ensures Step(c, lines[k]).Some? ==> Step(c, lines[k]).value.inHeader == InHeader(lines, k + 1)
  {
    InHeaderStep(lines, k);
    if StartsWith(lines[k], "+++ ") {
      HeaderNameTest(lines[k]);
      assert lines[k][0] == '+' && "diff --git "[0] == 'd' && "@@ "[0] == '@';
    }
    if OpensFile(lines[k]) {
      assert lines[k][0] == 'd' && "+++ "[0] == '+';
    }
  }

  /** The loop itself. It gives up exactly on a document with an unkeyable header name, of any shape. */
  method ParseChangedLineNumbers(lines: seq<string>) returns (r: Option<Touched>)
    ensures r == Parse(lines)
    ensures r.None? <==> exists k :: BadHeader(lines, k)
  {
    var result: Touched := map[];
    var currentFile: Option<string> := None;
    var inHeader := false;
    var newLine: nat := 0;
    ghost var c := START;
    for k := 0 to |lines|
      invariant c == Cursor(result, currentFile, inHeader, newLine)
      invariant Steps(START, lines) == Steps(c, lines[k..])
      invariant inHeader == InHeader(lines, k)
      invariant forall j :: 0 <= j < k ==> !BadHeader(lines, j)
    {
      var raw := lines[k];
      HeaderFlag(c, lines, k);
      assert lines[k..][0] == raw && lines[k..][1..] == lines[k + 1..];
      if Step(c, raw).Some? {
        c := Step(c, raw).value;
      }
      if StartsWith(raw, "diff --git ") {
        inHeader := true;
        currentFile := None;
        continue;
      }
      if inHeader && !StartsWith(raw, "@@ ") {
        if !StartsWith(raw, "+++ ") {
          continue;
        }
        var name := HeaderName(raw);
        if name == "/dev/null" {
          continue;
        }
        if !StartsWith(name, "b/") {
          return None;
        }
        currentFile := Some(name[2..]);
        result := Touch(result, name[2..], {});
        continue;
      }
      inHeader := false;
      var hunk := MatchHunk(raw);
      if hunk.Some? {
        newLine := hunk.value;
        continue;
      }
      if currentFile.None? {
        continue;
      }
      if StartsWith(raw, "+") {
        result := Touch(result, currentFile.value, {newLine});
        newLine := newLine + 1;
      } else if StartsWith(raw, " ") {
        newLine := newLine + 1;
      }
    }
    assert lines[|lines|..] == [];
    return Some(result);
  }

  // ---- The printer ----

  datatype BodyLine = Context(text: string) | Added(text: string) | Removed(text: string) | NoNewline(text: string)
  datatype Hunk = Hunk(oldStart: nat, oldCount: Option<nat>, newStart: nat, newCount: Option<nat>,
                       section: string, body: seq<BodyLine>)

  /** The `+++` line: absent (mode change, binary file), a deleted file, a plain name, or a C-quoted one. */
  datatype NewName = Absent | DevNull | InTree(path: string) | Quoted(text: string)
  datatype FileDiff = FileDiff(names: string, extended: seq<string>, newName: NewName, hunks: seq<Hunk>)

  function PrintRange(start: nat, count: Option<nat>): string {
    Decimal(start) + if count.Some? then "," + Decimal(count.value) else ""
  }

  function PrintHunkHeader(h: Hunk): string {
    "@@ -" + (PrintRange(h.oldStart, h.oldCount) + (" +" + (PrintRange(h.newStart, h.newCount) + (" @@" + h.section))))
  }

  function PrintBodyLine(l: BodyLine): string {
    match l
    case Context(text) => " " + text
    case Added(text) => "+" + text
    case Removed(text) => "-" + text
    case NoNewline(text) => "\\" + text
  }

  function PrintBody(body: seq<BodyLine>): seq<string> {
    if body == [] then [] else [PrintBodyLine(body[0])] + PrintBody(body[1..])
  }

  function PrintHunks(hunks: seq<Hunk>): seq<string> {
    if hunks == [] then []
    else PrintHunk(hunks[0]) + PrintHunks(hunks[1..])
  }

  /** git puts a TAB after a header name that holds a space. */
  function PrintName(n: NewName): seq<string> {
    match n
    case Absent => []
    case DevNull => ["+++ /dev/null"]
    case InTree(path) => ["+++ b/" + path + (if ' ' in path then "\t" else "")]
    case Quoted(text) => ["+++ \"" + text]
  }

  function PrintFile(f: FileDiff): seq<string> {
    ["diff --git " + f.names] + (f.extended + (PrintName(f.newName) + PrintHunks(f.hunks)))
  }

  function Print(files: seq<FileDiff>): seq<string> {
    if files == [] then [] else PrintFile(files[0]) + Print(files[1..])
  }

  /** Extended header lines, `---` among them, are none of the lines the parser keys on. */
  ghost predicate WellFormed(f: FileDiff) {
    && (forall l :: l in f.extended ==> !OpensFile(l) && !OpensHunk(l) && !StartsWith(l, "+++ "))
    && (f.newName.InTree? ==> '\t' !in f.newName.path)
    && (f.newName.Quoted? ==> |f.newName.text| > 0)
  }

  ghost predicate AllWellFormed(files: seq<FileDiff>) {
    forall i :: 0 <= i < |files| ==> WellFormed(files[i])
  }

  // ---- What a diff says, without a cursor ----

  /** How many of the body lines exist on the new side. */
  function NewSide(body: seq<BodyLine>): nat {
    if body == [] then 0
    else NewSide(body[..|body| - 1]) + if body[|body| - 1].Context? || body[|body| - 1].Added? then 1 else 0
  }

  /** The new-side numbers of a hunk's added lines. */
  function AddedNumbers(h: Hunk): set<int> {
    set i | 0 <= i < |h.body| && h.body[i].Added? :: h.newStart + NewSide(h.body[..i])
  }

  function AddedInFile(f: FileDiff): set<int> {
    set k, n | 0 <= k < |f.hunks| && n in AddedNumbers(f.hunks[k]) :: n
  }

  ghost predicate Says(files: seq<FileDiff>, touched: Touched) {
    && (forall path :: path in touched <==> exists i :: 0 <= i < |files| && files[i].newName == InTree(path))
    && (forall path, n | path in touched ::
          n in touched[path] <==>
          exists i :: 0 <= i < |files| && files[i].newName == InTree(path) && n in AddedInFile(files[i]))
  }

  // ---- The parser inverts the printer ----

  lemma {:induction false} StepsConcat(c: Cursor, a: seq<string>, b: seq<string>)
    ensures Steps(c, a + b) == if Steps(c, a).None? then None else Steps(Steps(c, a).value, b)
    decreases |a|
  {
    if a == [] {
      assert a + b == b;
    } else {
      assert (a + b)[0] == a[0] && (a + b)[1..] == a[1..] + b;
      var next := Step(c, a[0]);
      if next.Some? {
        StepsConcat(next.value, a[1..], b);
      }
    }
  }

  lemma RangeRoundTrip(start: nat, count: Option<nat>, rest: string)
    requires rest != [] && rest[0] == ' '
    ensures SkipRange(PrintRange(start, count) + rest) == Some((Decimal(start), rest))
  {
    hide Decimal, SkipRange;
    var tail := if count.None? then [] else [','] + Decimal(count.value);
    assert PrintRange(start, count) == Decimal(start) + tail;
    assert count.Some? ==> tail[1..] == Decimal(count.value);
    RangeSkipped(Decimal(start), tail, rest);
  }

  lemma HunkHeaderRoundTrip(h: Hunk)
    ensures MatchHunk(PrintHunkHeader(h)) == Some(h.newStart)
    ensures StartsWith(PrintHunkHeader(h), "@@ ") && !StartsWith(PrintHunkHeader(h), "diff --git ")
  {
    hide SkipRange, Decimal, Value, PrintRange;
    var newPart := PrintRange(h.newStart, h.newCount) + (" @@" + h.section);
    HunkHeaderText(h, newPart);
    RangeRoundTrip(h.oldStart, h.oldCount, " +" + newPart);
    assert (" +" + newPart)[2..] == newPart;
    RangeRoundTrip(h.newStart, h.newCount, " @@" + h.section);
    ValueOfDecimal(h.newStart);
  }

  /** A run of digits, with a comma and another run behind it or not. */
  ghost predicate RangeText(start: string, tail: string) {
    Numeral(start) && (tail == [] || (tail[0] == ',' && Numeral(tail[1..])))
  }

  ghost predicate Numeral(s: string) {
    s != [] && forall i :: 0 <= i < |s| ==> '0' <= s[i] <= '9'
  }

  /** A hunk header's text: both ranges, and anything after the closing mark. */
  ghost predicate HunkText(raw: string, before: string, beforeTail: string, after: string, afterTail: string, rest: string) {
    && RangeText(before, beforeTail) && RangeText(after, afterTail)
    && raw == "@@ -" + ((before + beforeTail) + (" +" + ((after + afterTail) + (" @@" + rest))))
  }

  lemma RangeSkipped(start: string, tail: string, rest: string)
    requires RangeText(start, tail) && rest != [] && rest[0] == ' '
    ensures SkipRange((start + tail) + rest) == Some((start, rest))
  {
    var whole := (start + tail) + rest;
    if tail == [] {
      assert whole == start + rest;
      DigitRunOf(start, rest);
    } else {
      assert whole == start + (tail + rest);
      DigitRunOf(start, tail + rest);
      assert (tail + rest)[1..] == tail[1..] + rest;
      DigitRunOf(tail[1..], rest);
    }
  }

  lemma SkippedIsRange(s: string) returns (tail: string)
    requires SkipRange(s).Some?
    ensures RangeText(SkipRange(s).value.0, tail) && s == (SkipRange(s).value.0 + tail) + SkipRange(s).value.1
  {
    hide DigitRun;
    var n := DigitRun(s);
    var rest := s[n..];
    if rest != [] && rest[0] == ',' && DigitRun(rest[1..]) > 0 {
      var m := DigitRun(rest[1..]);
      tail := rest[..m + 1];
      assert tail[1..] == rest[1..][..m];
      assert rest == tail + rest[1..][m..];
    } else {
      tail := [];
    }
  }

  /** The hunk pattern matches exactly the texts of that form, and captures the value of the new-side start. */
  lemma MatchesIffHunkText(raw: string)
    ensures MatchHunk(raw).Some? <==> exists a, b, c, d, e :: HunkText(raw, a, b, c, d, e)
    ensures forall a, b, c, d, e :: HunkText(raw, a, b, c, d, e) ==> AllDigits(c) && MatchHunk(raw) == Some(Value(c))
  {
    hide MatchHunk;
    forall a, b, c, d, e | HunkText(raw, a, b, c, d, e) ensures MatchHunk(raw) == Some(Value(c)) {
      HunkTextMatches(raw, a, b, c, d, e);
    }
    if MatchHunk(raw).Some? {
      var a, b, c, d, e := MatchedIsHunkText(raw);
    }
  }

  lemma MatchedIsHunkText(raw: string)
      returns (before: string, beforeTail: string, after: string, afterTail: string, rest: string)
    requires MatchHunk(raw).Some?
    ensures HunkText(raw, before, beforeTail, after, afterTail, rest)
  {
    hide RangeText, SkipRange;
    var afterOld := SkipRange(raw[4..]).value;
    var afterNew := SkipRange(afterOld.1[2..]).value;
    before, after, rest := afterOld.0, afterNew.0, afterNew.1[3..];
    beforeTail := SkippedIsRange(raw[4..]);
    afterTail := SkippedIsRange(afterOld.1[2..]);
    assert raw == "@@ -" + raw[4..];
    assert afterOld.1 == " +" + afterOld.1[2..];
    assert afterNew.1 == " @@" + rest;
  }

  lemma HunkTextMatches(raw: string, before: string, beforeTail: string, after: string, afterTail: string, rest: string)
    requires HunkText(raw, before, beforeTail, after, afterTail, rest)
    ensures MatchHunk(raw) == Some(Value(after))
  {
    var newPart := (after + afterTail) + (" @@" + rest);
    var oldPart := (before + beforeTail) + (" +" + newPart);
    assert raw[4..] == oldPart;
    RangeSkipped(before, beforeTail, " +" + newPart);
    assert (" +" + newPart)[2..] == newPart;
    RangeSkipped(after, afterTail, " @@" + rest);
  }

  lemma HunkHeaderText(h: Hunk, newPart: string)
    requires newPart == PrintRange(h.newStart, h.newCount) + (" @@" + h.section)
    ensures PrintHunkHeader(h) == "@@ -" + (PrintRange(h.oldStart, h.oldCount) + (" +" + newPart))
    ensures PrintHunkHeader(h)[4..] == PrintRange(h.oldStart, h.oldCount) + (" +" + newPart)
    ensures StartsWith(PrintHunkHeader(h), "@@ ") && !StartsWith(PrintHunkHeader(h), "diff --git ")
  {
    var raw := PrintHunkHeader(h);
    assert raw == "@@ -" + (PrintRange(h.oldStart, h.oldCount) + (" +" + newPart));
    assert raw[..3] == "@@ ";
    assert "diff --git "[0] == 'd';
  }

  function NumbersFrom(body: seq<BodyLine>, start: nat): set<int> {
    if body == [] then {}
    else
      (if body[0].Added? then {start as int} else {}) +
      NumbersFrom(body[1..], start + if body[0].Context? || body[0].Added? then 1 else 0)
  }

  /** Content is content, whatever its text: a body line is never read as a header or a hunk. */
  lemma BodyLineStep(c: Cursor, l: BodyLine)
    requires !c.inHeader
    ensures Step(c, PrintBodyLine(l)) ==
            Some(if c.file.None? then c
                 else match l
                   case Added(_) => c.(result := Touch(c.result, c.file.value, {c.newLine}), newLine := c.newLine + 1)
                   case Context(_) => c.(newLine := c.newLine + 1)
                   case _ => c)
  {
    var raw := PrintBodyLine(l);
    assert raw[0] in {' ', '+', '-', '\\'};
    assert "diff --git "[0] == 'd' && "@@ -"[0] == '@' && "+"[0] == '+' && " "[0] == ' ';
  }

  lemma {:induction false} BodySteps(c: Cursor, body: seq<BodyLine>)
    requires !c.inHeader
    requires c.file.Some? ==> c.file.value in c.result
    ensures var end := Steps(c, PrintBody(body));
            && end.Some? && !end.value.inHeader && end.value.file == c.file
            && end.value.result == if c.file.None? then c.result
                                   else Touch(c.result, c.file.value, NumbersFrom(body, c.newLine))
    decreases |body|
  {
    if body == [] {
      if c.file.Some? {
        assert c.result[c.file.value] + {} == c.result[c.file.value];
      }
    } else {
      var l := body[0];
      BodyLineStep(c, l);
      var next := Step(c, PrintBodyLine(l)).value;
      assert PrintBody(body)[0] == PrintBodyLine(l) && PrintBody(body)[1..] == PrintBody(body[1..]);
      BodySteps(next, body[1..]);
      if c.file.Some? {
        var rest := NumbersFrom(body[1..], next.newLine);
        if l.Added? {
          TouchTwice(c.result, c.file.value, {c.newLine}, rest);
        } else {
          assert {} + rest == rest;
        }
      }
    }
  }

  ghost predicate AddedAt(body: seq<BodyLine>, start: nat, i: int, n: int) {
    0 <= i < |body| && body[i].Added? && n == start + NewSide(body[..i])
  }

  lemma AddedAtShift(body: seq<BodyLine>, start: nat, i: nat, n: int)
    requires body != []
    ensures AddedAt(body, start, i + 1, n) <==>
            AddedAt(body[1..], start + if body[0].Context? || body[0].Added? then 1 else 0, i, n)
  {
    if i + 1 < |body| {
      NewSideShift(body, i + 1);
    }
  }

  lemma {:induction false} NumbersFromAre(body: seq<BodyLine>, start: nat, n: int)
    ensures n in NumbersFrom(body, start) <==> exists i :: AddedAt(body, start, i, n)
    decreases |body|
  {
    if body != [] {
      var next := start + if body[0].Context? || body[0].Added? then 1 else 0;
      NumbersFromAre(body[1..], next, n);
      if i :| AddedAt(body, start, i, n) {
        if i > 0 {
          AddedAtShift(body, start, i - 1, n);
        } else {
          assert body[..0] == [];
        }
      }
      if i :| AddedAt(body[1..], next, i, n) {
        AddedAtShift(body, start, i, n);
      }
      if body[0].Added? && n == start {
        assert body[..0] == [] && AddedAt(body, start, 0, n);
      }
    }
  }

  lemma {:induction false} NewSideShift(body: seq<BodyLine>, i: nat)
    requires 0 < i <= |body|
    ensures NewSide(body[..i]) ==
            (if body[0].Context? || body[0].Added? then 1 else 0) + NewSide(body[1..][..i - 1])
  {
    if i == 1 {
      assert body[..1][..0] == [] && body[1..][..0] == [];
    } else {
      NewSideShift(body, i - 1);
      assert body[..i][..i - 1] == body[..i - 1];
      assert body[1..][..i - 1][..i - 2] == body[1..][..i - 2];
    }
  }

  lemma NumbersFromHunk(h: Hunk)
    ensures NumbersFrom(h.body, h.newStart) == AddedNumbers(h)
  {
    forall n ensures n in NumbersFrom(h.body, h.newStart) <==> n in AddedNumbers(h) {
      NumbersFromAre(h.body, h.newStart, n);
      if n in AddedNumbers(h) {
        var i :| 0 <= i < |h.body| && h.body[i].Added? && n == h.newStart + NewSide(h.body[..i]);
        assert AddedAt(h.body, h.newStart, i, n);
      }
    }
  }

  lemma TouchTwice(result: Touched, file: string, a: set<int>, b: set<int>)
    ensures Touch(Touch(result, file, a), file, b) == Touch(result, file, a + b)
  {
    var seen := if file in result then result[file] else {};
    assert seen + a + b == seen + (a + b);
  }

  function AddedInHunks(hunks: seq<Hunk>): set<int> {
    if hunks == [] then {} else AddedNumbers(hunks[0]) + AddedInHunks(hunks[1..])
  }

  lemma {:induction false} AddedInHunksAre(hunks: seq<Hunk>)
    ensures forall n :: n in AddedInHunks(hunks) <==> exists k :: 0 <= k < |hunks| && n in AddedNumbers(hunks[k])
  {
    if hunks != [] {
      AddedInHunksAre(hunks[1..]);
      forall n ensures n in AddedInHunks(hunks) <==> exists k :: 0 <= k < |hunks| && n in AddedNumbers(hunks[k]) {
        if k :| 0 <= k < |hunks| && n in AddedNumbers(hunks[k]) && k > 0 {
          assert n in AddedNumbers(hunks[1..][k - 1]);
        }
        if k :| 0 <= k < |hunks[1..]| && n in AddedNumbers(hunks[1..][k]) {
          assert n in AddedNumbers(hunks[k + 1]);
        }
      }
    }
  }

  lemma FileAdds(f: FileDiff)
    ensures AddedInHunks(f.hunks) == AddedInFile(f)
  {
    AddedInHunksAre(f.hunks);
    forall n ensures n in AddedInHunks(f.hunks) <==> n in AddedInFile(f) {
    }
  }

  /** What adding a set of numbers under the current file makes of the result. */
  function Adding(c: Cursor, numbers: set<int>): Touched {
    if c.file.None? then c.result else Touch(c.result, c.file.value, numbers)
  }

  lemma AddingTwice(c: Cursor, next: Cursor, a: set<int>, b: set<int>)
    requires next.file == c.file && next.result == Adding(c, a)
    ensures Adding(next, b) == Adding(c, a + b)
  {
    if c.file.Some? {
      TouchTwice(c.result, c.file.value, a, b);
    }
  }

  function PrintHunk(h: Hunk): seq<string> {
    [PrintHunkHeader(h)] + PrintBody(h.body)
  }

  lemma HunkStep(c: Cursor, h: Hunk)
    requires c.file.Some? ==> c.file.value in c.result
    ensures var end := Steps(c, PrintHunk(h));
            end.Some? && end.value.file == c.file && end.value.result == Adding(c, AddedNumbers(h))
  {
    HunkHeaderRoundTrip(h);
    var at := c.(inHeader := false, newLine := h.newStart);
    var lines := PrintHunk(h);
    assert lines[0] == PrintHunkHeader(h) && lines[1..] == PrintBody(h.body);
    assert Step(c, lines[0]) == Some(at);
    BodySteps(at, h.body);
    NumbersFromHunk(h);
  }

  lemma {:induction false} HunksSteps(c: Cursor, hunks: seq<Hunk>)
    requires c.file.Some? ==> c.file.value in c.result
    ensures Steps(c, PrintHunks(hunks)).Some?
    ensures Steps(c, PrintHunks(hunks)).value.result == Adding(c, AddedInHunks(hunks))
    decreases |hunks|
  {
    if hunks == [] {
      if c.file.Some? {
        assert c.result[c.file.value] + {} == c.result[c.file.value];
      }
    } else {
      HunkStep(c, hunks[0]);
      var next := Steps(c, PrintHunk(hunks[0])).value;
      HunksConcat(c, hunks);
      HunksSteps(next, hunks[1..]);
      AddingTwice(c, next, AddedNumbers(hunks[0]), AddedInHunks(hunks[1..]));
    }
  }

  lemma HunksConcat(c: Cursor, hunks: seq<Hunk>)
    requires hunks != [] && Steps(c, PrintHunk(hunks[0])).Some?
    ensures Steps(c, PrintHunks(hunks)) == Steps(Steps(c, PrintHunk(hunks[0])).value, PrintHunks(hunks[1..]))
  {
    StepsConcat(c, PrintHunk(hunks[0]), PrintHunks(hunks[1..]));
  }

  lemma {:induction false} ExtendedSteps(c: Cursor, extended: seq<string>)
    requires c.inHeader
    requires forall l :: l in extended ==> !OpensFile(l) && !OpensHunk(l) && !StartsWith(l, "+++ ")
    ensures Steps(c, extended) == Some(c)
  {
    if extended != [] {
      assert extended[0] in extended && forall l :: l in extended[1..] ==> l in extended;
      ExtendedSteps(c, extended[1..]);
    }
  }

  lemma NameStep(c: Cursor, n: NewName)
    requires c.inHeader && c.file.None?
    requires n.InTree? ==> '\t' !in n.path
    requires n.Quoted? ==> |n.text| > 0
    ensures Steps(c, PrintName(n)) ==
            match n
            case InTree(path) => Some(c.(file := Some(path), result := Touch(c.result, path, {})))
            case Quoted(_) => None
            case _ => Some(c)
  {
    match n
    case Absent =>
    case DevNull => DevNullStep(c);
    case InTree(path) => InTreeStep(c, path);
    case Quoted(text) => QuotedStep(c, text);
  }

  /** A `+++` line is neither a `diff --git` line nor a hunk. */
  lemma PlusHeader(raw: string)
    requires StartsWith(raw, "+++ ")
    ensures !StartsWith(raw, "diff --git ") && !StartsWith(raw, "@@ ")
  {
    assert raw[0] == '+' && "diff --git "[0] == 'd' && "@@ "[0] == '@';
  }

  lemma OneLine(c: Cursor, raw: string)
    ensures Steps(c, [raw]) == Step(c, raw)
  {
    assert [raw][1..] == [];
  }

  lemma DevNullStep(c: Cursor)
    requires c.inHeader
    ensures Steps(c, ["+++ /dev/null"]) == Some(c)
  {
    var raw := "+++ /dev/null";
    assert raw[..4] == "+++ " && raw[4..] == "/dev/null";
    PlusHeader(raw);
    OneLine(c, raw);
  }

  lemma InTreeStep(c: Cursor, path: string)
    requires c.inHeader && '\t' !in path
    ensures Steps(c, PrintName(InTree(path))) == Some(c.(file := Some(path), result := Touch(c.result, path, {})))
  {
    var tab := if ' ' in path then "\t" else "";
    var raw := "+++ b/" + path + tab;
    assert raw[..4] == "+++ ";
    PlusHeader(raw);
    TabStripped(path, tab, raw);
    var name := "b/" + path;
    assert name[..2] == "b/" && name[2..] == path;
    assert name[0] == 'b' && "/dev/null"[0] == '/';
    OneLine(c, raw);
  }

  lemma QuotedStep(c: Cursor, text: string)
    requires c.inHeader && |text| > 0
    ensures Steps(c, PrintName(Quoted(text))).None?
  {
    var raw := "+++ \"" + text;
    assert raw[..4] == "+++ ";
    PlusHeader(raw);
    assert raw[4] == '"' && HeaderName(raw)[0] == '"';
    assert "/dev/null"[0] == '/' && "b/"[0] == 'b';
    OneLine(c, raw);
  }

  lemma TabStripped(path: string, tab: string, raw: string)
    requires '\t' !in path && tab == (if ' ' in path then "\t" else "")
    requires raw == "+++ b/" + path + tab
    ensures HeaderName(raw) == "b/" + path
  {
    var name := raw[4..];
    assert name == "b/" + path + tab;
    if tab == "\t" {
      assert name[|name| - 1] == '\t' && name[..|name| - 1] == "b/" + path;
    } else {
      assert name == "b/" + path;
      assert name[|name| - 1] == if path == "" then '/' else path[|path| - 1];
    }
  }

  /** One printed file: its path's touched lines are added to the result, and nothing else changes. */
  lemma FileSteps(c: Cursor, f: FileDiff)
    requires WellFormed(f)
    ensures f.newName.Quoted? ==> Steps(c, PrintFile(f)).None?
    ensures !f.newName.Quoted? ==>
              var end := Steps(c, PrintFile(f));
              && end.Some?
              && end.value.result == if f.newName.InTree? then Touch(c.result, f.newName.path, AddedInFile(f)) else c.result
  {
    var open := c.(inHeader := true, file := None);
    var rest := PrintName(f.newName) + PrintHunks(f.hunks);
    var lines := PrintFile(f);
    assert lines[0] == "diff --git " + f.names && lines[1..] == f.extended + rest;
    assert lines[0][..11] == "diff --git ";
    ExtendedSteps(open, f.extended);
    StepsConcat(open, f.extended, rest);
    NameStep(open, f.newName);
    StepsConcat(open, PrintName(f.newName), PrintHunks(f.hunks));
    if !f.newName.Quoted? {
      var named := Steps(open, PrintName(f.newName)).value;
      HunksSteps(named, f.hunks);
      FileAdds(f);
      if f.newName.InTree? {
        TouchTwice(c.result, f.newName.path, {}, AddedInFile(f));
        assert {} + AddedInFile(f) == AddedInFile(f);
      }
    }
  }

  function TouchAll(result: Touched, files: seq<FileDiff>): Touched
    decreases |files|
  {
    if files == [] then result
    else TouchAll(if files[0].newName.InTree? then Touch(result, files[0].newName.path, AddedInFile(files[0])) else result,
                  files[1..])
  }

  lemma {:induction false} FilesSteps(c: Cursor, files: seq<FileDiff>)
    requires AllWellFormed(files)
    ensures (exists i :: 0 <= i < |files| && files[i].newName.Quoted?) ==> Steps(c, Print(files)).None?
    ensures (forall i :: 0 <= i < |files| ==> !files[i].newName.Quoted?) ==>
              Steps(c, Print(files)).Some? && Steps(c, Print(files)).value.result == TouchAll(c.result, files)
    decreases |files|
  {
    if files != [] {
      FileSteps(c, files[0]);
      StepsConcat(c, PrintFile(files[0]), Print(files[1..]));
      if !files[0].newName.Quoted? {
        FilesSteps(Steps(c, PrintFile(files[0])).value, files[1..]);
        if i :| 0 <= i < |files| && files[i].newName.Quoted? {
          assert files[1..][i - 1].newName.Quoted?;
        }
      }
    }
  }

  ghost predicate Covers(files: seq<FileDiff>, path: string) {
    exists i :: 0 <= i < |files| && files[i].newName == InTree(path)
  }

  ghost predicate Adds(files: seq<FileDiff>, path: string, n: int) {
    exists i :: 0 <= i < |files| && files[i].newName == InTree(path) && n in AddedInFile(files[i])
  }

  lemma {:induction false} TouchAllIs(result: Touched, files: seq<FileDiff>, path: string)
    ensures path in TouchAll(result, files) <==> path in result || Covers(files, path)
    ensures path in TouchAll(result, files) ==>
              forall n :: n in TouchAll(result, files)[path] <==> (path in result && n in result[path]) || Adds(files, path, n)
    decreases |files|
  {
    if files != [] {
      var f := files[0];
      var next := if f.newName.InTree? then Touch(result, f.newName.path, AddedInFile(f)) else result;
      TouchAllIs(next, files[1..], path);
      CoversStep(files, path);
      forall n ensures Adds(files, path, n) <==>
                       (f.newName == InTree(path) && n in AddedInFile(f)) || Adds(files[1..], path, n)
      {
        AddsStep(files, path, n);
      }
    }
  }

  lemma CoversStep(files: seq<FileDiff>, path: string)
    requires files != []
    ensures Covers(files, path) <==> files[0].newName == InTree(path) || Covers(files[1..], path)
  {
    if i :| 0 <= i < |files| && files[i].newName == InTree(path) && i > 0 {
      assert files[1..][i - 1].newName == InTree(path);
    }
    if i :| 0 <= i < |files[1..]| && files[1..][i].newName == InTree(path) {
      assert files[i + 1].newName == InTree(path);
    }
  }

  lemma AddsStep(files: seq<FileDiff>, path: string, n: int)
    requires files != []
    ensures Adds(files, path, n) <==>
            (files[0].newName == InTree(path) && n in AddedInFile(files[0])) || Adds(files[1..], path, n)
  {
    if i :| 0 <= i < |files| && files[i].newName == InTree(path) && n in AddedInFile(files[i]) && i > 0 {
      assert files[1..][i - 1].newName == InTree(path) && n in AddedInFile(files[1..][i - 1]);
    }
    if i :| 0 <= i < |files[1..]| && files[1..][i].newName == InTree(path) && n in AddedInFile(files[1..][i]) {
      assert files[i + 1].newName == InTree(path) && n in AddedInFile(files[i + 1]);
    }
  }

  /** The diff text git prints: one line per printed line, each ended by a newline. */
  function PrintText(files: seq<FileDiff>): string {
    Join(Print(files) + [""], '\n')
  }

  ghost predicate OneLineEach(files: seq<FileDiff>) {
    forall l :: l in Print(files) ==> '\n' !in l
  }

  /**
   * Parsing a printed diff maps each surviving file to exactly the new-side numbers of its added lines;
   * it gives up exactly when a file's name had to be quoted.
   */
  lemma ParseInvertsPrint(files: seq<FileDiff>)
    requires AllWellFormed(files) && OneLineEach(files)
    ensures var r := Parse(Split(PrintText(files), '\n'));
            && (r.None? <==> exists i :: 0 <= i < |files| && files[i].newName.Quoted?)
            && (r.Some? ==> Says(files, r.value))
  {
    var lines := Print(files) + [""];
    forall i | 0 <= i < |lines| ensures '\n' !in lines[i] {
      if i < |Print(files)| {
        assert lines[i] in Print(files);
      }
    }
    SplitJoin(lines, '\n');
    StepsConcat(START, Print(files), [""]);
    FilesSteps(START, files);
    if forall i :: 0 <= i < |files| ==> !files[i].newName.Quoted? {
      var end := Steps(START, Print(files)).value;
      LastEmptyLine(end);
      forall path ensures path in end.result <==> Covers(files, path) {
        TouchAllIs(map[], files, path);
      }
      forall path, n | path in end.result ensures n in end.result[path] <==> Adds(files, path, n) {
        TouchAllIs(map[], files, path);
      }
    }
  }

  lemma LastEmptyLine(c: Cursor)
    ensures Steps(c, [""]).Some? && Steps(c, [""]).value.result == c.result
  {
    assert [""][1..] == [];
  }

  /** The texts a hunk leaves in the new file. */
  ghost function NewText(body: seq<BodyLine>): seq<string> {
    if body == [] then []
    else
      var last := body[|body| - 1];
      NewText(body[..|body| - 1]) + if last.Context? || last.Added? then [last.text] else []
  }

  /** These texts stand in the new file from the hunk's new-side start on. */
  ghost predicate Fits(h: Hunk, newFile: seq<string>) {
    var text := NewText(h.body);
    text != [] ==>
      && 1 <= h.newStart && h.newStart - 1 + |text| <= |newFile|
      && newFile[h.newStart - 1..h.newStart - 1 + |text|] == text
  }

  lemma {:induction false} NewTextAt(body: seq<BodyLine>, i: nat)
    requires i < |body|
    ensures NewSide(body[..i]) == |NewText(body[..i])| <= |NewText(body)|
    ensures body[i].Context? || body[i].Added? ==>
              NewSide(body[..i]) < |NewText(body)| && NewText(body)[NewSide(body[..i])] == body[i].text
    decreases |body|
  {
    var front := body[..|body| - 1];
    if i < |front| {
      assert front[..i] == body[..i];
      NewTextAt(front, i);
    } else {
      assert body[..i] == front;
      NewSideCounts(front);
    }
  }

  lemma {:induction false} NewSideCounts(body: seq<BodyLine>)
    ensures NewSide(body) == |NewText(body)|
  {
    if body != [] {
      NewSideCounts(body[..|body| - 1]);
    }
  }

  /** The numbers index the new file: in a file the hunk fits, they are where its added texts stand. */
  lemma AddedNumbersIndexNewFile(h: Hunk, newFile: seq<string>, n: int)
    requires Fits(h, newFile) && n in AddedNumbers(h)
    ensures 1 <= n <= |newFile|
    ensures exists i :: 0 <= i < |h.body| && h.body[i] == Added(newFile[n - 1]) && n == h.newStart + |NewText(h.body[..i])|
  {
    var i :| 0 <= i < |h.body| && h.body[i].Added? && n == h.newStart + NewSide(h.body[..i]);
    NewTextAt(h.body, i);
    var text := NewText(h.body);
    assert newFile[h.newStart - 1..h.newStart - 1 + |text|][n - h.newStart] == newFile[n - 1];
    assert h.body[i] == Added(newFile[n - 1]);
  }

  /** And every added line has its number. */
  lemma AddedLinesAreNumbered(h: Hunk, i: nat)
    requires i < |h.body| && h.body[i].Added?
    ensures h.newStart + |NewText(h.body[..i])| in AddedNumbers(h)
  {
    NewSideCounts(h.body[..i]);
  }

  // ---- The finding filter ----

  datatype Violation = Violation(path: Option<string>, line: Option<int>, text: string)
  datatype Surface = Unscoped | Failed | Derived(base: Option<string>)

  predicate HasUsableLocator(v: Violation) {
    v.path.Some? && v.path.value != "" && v.line.Some? && v.line.value > 0
  }

  /** Not provably untouched. */
  predicate Kept(v: Violation, touched: Touched) {
    HasUsableLocator(v) ==> v.path.value in touched && v.line.value in touched[v.path.value]
  }

  function Keep(vs: seq<Violation>, touched: Touched): seq<Violation> {
    if vs == [] then []
    else
      var kept := Keep(vs[..|vs| - 1], touched);
      if Kept(vs[|vs| - 1], touched) then kept + [vs[|vs| - 1]] else kept
  }

  /** The finding names a line of a file and that line is not among the touched ones. */
  ghost predicate NamesUntouched(v: Violation, touched: Touched) {
    && v.path.Some? && v.path.value != "" && v.line.Some? && v.line.value >= 1
    && !(v.path.value in touched && v.line.value in touched[v.path.value])
  }

  ghost function UntouchedCount(vs: seq<Violation>, touched: Touched): nat {
    if vs == [] then 0
    else UntouchedCount(vs[..|vs| - 1], touched) + if NamesUntouched(vs[|vs| - 1], touched) then 1 else 0
  }

  /** Exactly the findings that name an untouched line are missing; the others are there, in order. */
  ghost predicate DropsExactly(vs: seq<Violation>, kept: seq<Violation>, touched: Touched) {
    exists at :: PicksInOrder(vs, kept, at) && forall k :: 0 <= k < |vs| ==> (k !in at <==> NamesUntouched(vs[k], touched))
  }

  /** `diff` is the printed diff of the usable paths, or `None` when git did not finish enumerating it. */
  method DropOutOfSurfaceViolations(vs: seq<Violation>, surface: Surface, diff: Option<seq<string>>)
    returns (kept: seq<Violation>, droppedCount: nat)
    ensures |kept| + droppedCount == |vs|
    ensures !surface.Derived? || surface.base.None? || diff.None? || Parse(diff.value).None? ==> kept == vs
    ensures surface.Derived? && surface.base.Some? && diff.Some? && Parse(diff.value).Some? ==>
              && kept == Keep(vs, Parse(diff.value).value)
              && DropsExactly(vs, kept, Parse(diff.value).value)
              && droppedCount == UntouchedCount(vs, Parse(diff.value).value)
  {
    if !surface.Derived? || surface.base.None? {
      return vs, 0;
    }
    if diff.None? {
      return vs, 0;
    }
    var touched := ParseChangedLineNumbers(diff.value);
    if touched.None? {
      return vs, 0;
    }
    kept, droppedCount := [], 0;
    for k := 0 to |vs|
      invariant kept == Keep(vs[..k], touched.value)
      invariant |kept| + droppedCount == k
      invariant droppedCount == UntouchedCount(vs[..k], touched.value)
    {
      var v := vs[k];
      assert vs[..k + 1][..k] == vs[..k];
      if !HasUsableLocator(v) {
        kept := kept + [v];
        continue;
      }
      if v.path.value in touched.value && v.line.value in touched.value[v.path.value] {
        kept := kept + [v];
        continue;
      }
      droppedCount := droppedCount + 1;
    }
    assert vs[..|vs|] == vs;
    KeepDropsExactly(vs, touched.value);
  }

  lemma KeepDropsExactly(vs: seq<Violation>, touched: Touched)
    ensures DropsExactly(vs, Keep(vs, touched), touched)
  {
    var at := KeepIsSubsequence(vs, touched);
    forall k | 0 <= k < |vs| ensures k !in at <==> NamesUntouched(vs[k], touched) {
      assert k in at <==> Kept(vs[k], touched);
    }
  }

  /** `kept` picks out positions of `vs` in increasing order. */
  ghost predicate PicksInOrder(vs: seq<Violation>, kept: seq<Violation>, at: seq<nat>) {
    && |at| == |kept|
    && (forall i :: 0 <= i < |at| ==> at[i] < |vs| && vs[at[i]] == kept[i])
    && (forall i, j :: 0 <= i < j < |at| ==> at[i] < at[j])
  }

  lemma PicksNext(front: seq<Violation>, last: Violation, kept: seq<Violation>, at: seq<nat>)
    requires PicksInOrder(front, kept, at)
    ensures PicksInOrder(front + [last], kept, at)
    ensures PicksInOrder(front + [last], kept + [last], at + [|front|])
    ensures |front| !in at
    ensures forall k :: k in at + [|front|] <==> k in at || k == |front|
  {
  }

  /** What is kept is a subsequence of the input, holding exactly the positions not provably untouched. */
  lemma {:induction false} KeepIsSubsequence(vs: seq<Violation>, touched: Touched) returns (at: seq<nat>)
    ensures PicksInOrder(vs, Keep(vs, touched), at)
    ensures forall k :: 0 <= k < |vs| ==> (k in at <==> Kept(vs[k], touched))
  {
    if vs == [] {
      at := [];
    } else {
      hide Kept, PicksInOrder;
      var front, last := vs[..|vs| - 1], vs[|vs| - 1];
      var prior := KeepIsSubsequence(front, touched);
      PicksNext(front, last, Keep(front, touched), prior);
      assert vs == front + [last];
      at := if Kept(last, touched) then prior + [|front|] else prior;
    }
  }

  /**
   * End to end on a printed diff: a finding is dropped exactly when it names a non-empty path and a line from 1 on,
   * and no file of the diff adds that line there.
   */
  lemma DroppedIffUntouched(files: seq<FileDiff>, v: Violation)
    requires AllWellFormed(files) && OneLineEach(files)
    requires forall i :: 0 <= i < |files| ==> !files[i].newName.Quoted?
    ensures var touched := Parse(Split(PrintText(files), '\n'));
            && touched.Some?
            && (NamesUntouched(v, touched.value) <==>
                && v.path.Some? && v.path.value != "" && v.line.Some? && v.line.value >= 1
                && !Adds(files, v.path.value, v.line.value))
            && (Kept(v, touched.value) <==> !NamesUntouched(v, touched.value))
  {
    hide Parse, Split, PrintText, AllWellFormed, OneLineEach, AddedInFile;
    ParseInvertsPrint(files);
    var touched := Parse(Split(PrintText(files), '\n')).value;
    if v.path.Some? && v.line.Some? {
      var path, n := v.path.value, v.line.value;
      if Adds(files, path, n) {
        var i :| 0 <= i < |files| && files[i].newName == InTree(path) && n in AddedInFile(files[i]);
        assert path in touched;
      }
      if path in touched {
        assert n in touched[path] <==> Adds(files, path, n);
      }
    }
  }

  /** The findings kept over a printed diff, by position: all but those that name a line no file of it adds. */
  lemma KeptOverPrintedDiff(files: seq<FileDiff>, vs: seq<Violation>) returns (at: seq<nat>)
    requires AllWellFormed(files) && OneLineEach(files)
    requires forall i :: 0 <= i < |files| ==> !files[i].newName.Quoted?
    ensures var touched := Parse(Split(PrintText(files), '\n'));
            touched.Some? && PicksInOrder(vs, Keep(vs, touched.value), at)
    ensures forall k :: 0 <= k < |vs| ==>
              (k !in at <==>
                 && vs[k].path.Some? && vs[k].path.value != "" && vs[k].line.Some? && vs[k].line.value >= 1
                 && !Adds(files, vs[k].path.value, vs[k].line.value))
  {
    ParseInvertsPrint(files);
    var touched := Parse(Split(PrintText(files), '\n')).value;
    at := KeepIsSubsequence(vs, touched);
    forall k | 0 <= k < |vs|
      ensures k !in at <==>
                && vs[k].path.Some? && vs[k].path.value != "" && vs[k].line.Some? && vs[k].line.value >= 1
                && !Adds(files, vs[k].path.value, vs[k].line.value)
    {
      DroppedIffUntouched(files, vs[k]);
      assert k in at <==> Kept(vs[k], touched);
    }
  }
}
