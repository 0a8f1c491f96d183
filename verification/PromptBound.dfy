/**
 * `boundRemediationPrompt` (microverse-runner.js): a brief that is too long for one process argument
 * is cut in the middle, on line boundaries, to a number of UTF-8 bytes.
 */
module PromptBound {
  import opened Text
  import opened Wrappers

  const REMEDIATION_PROMPT_MAX_BYTES: nat := 96 * 1024

  function Utf8Length(c: char): nat {
    var code := c as int;
    if code < 0x80 then 1 else if code < 0x800 then 2 else if code < 0x10000 then 3 else 4
  }

  /** `Buffer.byteLength(s)` */
  function ByteLength(s: string): nat {
    if s == [] then 0 else Utf8Length(s[0]) + ByteLength(s[1..])
  }

  /** What the loop charges for taking these lines: each line and one newline. */
  function Cost(lines: seq<string>): nat {
    if lines == [] then 0 else ByteLength(lines[0]) + 1 + Cost(lines[1..])
  }

  /** The line the loop looks at after `h` head lines and `t` tail lines. */
  function NextInTurn(lines: seq<string>, h: nat, t: nat): string
    requires h + t < |lines|
  {
    if h == t then lines[h] else lines[|lines| - 1 - t]
  }

  /** Cost of the first `h` and the last `t` lines. */
  function Spent(lines: seq<string>, h: nat, t: nat): nat
    requires h <= |lines| && t <= |lines|
  {
    Cost(lines[..h]) + Cost(lines[|lines| - t..])
  }

  /** `h` first lines and `t` last lines are what alternating within `budget` keeps. */
  ghost predicate Cuts(lines: seq<string>, budget: int, h: nat, t: nat) {
    && h + t < |lines|
    && (h == t || h == t + 1)
    && (h > 0 ==> Spent(lines, h, t) <= budget)
    && Spent(lines, h, t) + ByteLength(NextInTurn(lines, h, t)) + 1 > budget
  }

  function Around(lines: seq<string>, h: nat, t: nat, notice: string): string
    requires h <= |lines| && t <= |lines|
  {
    Join(lines[..h], '\n') + notice + Join(lines[|lines| - t..], '\n')
  }

  ghost predicate CutText(brief: string, maxBytes: nat, notice: string, prompt: string) {
    var lines := Split(brief, '\n');
    exists h: nat, t: nat ::
      Cuts(lines, maxBytes - ByteLength(notice), h, t) && prompt == Around(lines, h, t, notice)
  }

  /** `noticeText` is the sentence that names the full brief's path. */
  method BoundRemediationPrompt(brief: string, noticeText: string, maxBytes: nat := REMEDIATION_PROMPT_MAX_BYTES)
      returns (prompt: string)
    ensures ByteLength(brief) <= maxBytes ==> prompt == brief
    ensures ByteLength(brief) > maxBytes >= ByteLength(noticeText) ==> CutText(brief, maxBytes, noticeText, prompt)
    ensures ByteLength(brief) > maxBytes && ByteLength(noticeText) > maxBytes ==> CutText(brief, maxBytes, "\n", prompt)
    ensures ByteLength(prompt) <= Max(maxBytes, 1)
  {
    hide ByteLength, Split, Join, Cost, Spent, CutText;
    if ByteLength(brief) <= maxBytes {
      return brief;
    }
    var notice := noticeText;
    if ByteLength(noticeText) > maxBytes {
      notice := "\n";
    }
    var lines := Split(brief, '\n');
    NothingSpent(lines);
    NewlineIsOneByte();
    var head: seq<string>, tail: seq<string> := [], [];
    var budget: int := maxBytes - ByteLength(notice);
    var takeHead, i, j := true, 0, |lines| - 1;
    ghost var t: nat := 0;
    while i <= j
      invariant 0 <= i <= j + 1 <= |lines| && t == |lines| - 1 - j
      invariant head == lines[..i]
      invariant tail == lines[j + 1..]
      invariant if takeHead then i == t else i == t + 1
      invariant budget == maxBytes - ByteLength(notice) - Spent(lines, i, t)
      invariant i > 0 ==> budget >= 0
      decreases j - i
    {
      var line := if takeHead then lines[i] else lines[j];
      var cost := ByteLength(line) + 1;
      if cost > budget {
        break;
      }
      budget := budget - cost;
      if takeHead {
        SpendHead(lines, i, t);
        head := head + [lines[i]];
        i := i + 1;
      } else {
        SpendTail(lines, i, t);
        tail := [lines[j]] + tail;
        j, t := j - 1, t + 1;
      }
      takeHead := !takeHead;
    }
    if i > j {
      NotEverythingFits(brief, i, t);
    }
    prompt := Join(head, '\n') + notice + Join(tail, '\n');
    CutFound(brief, maxBytes, notice, i, t, prompt);
  }

  /** What Linux takes as one process argument, its terminating NUL included. */
  const MAX_ARG_STRLEN: nat := 131072

  /** The call that hands a brief to the agent: it fits one argument, whatever the brief and its path. */
  method RemediationPrompt(brief: string, noticeText: string) returns (prompt: string)
    ensures ByteLength(prompt) <= 98304 && ByteLength(prompt) + 1 <= MAX_ARG_STRLEN
    ensures ByteLength(brief) <= 98304 ==> prompt == brief
    ensures ByteLength(brief) > 98304 >= ByteLength(noticeText) ==> CutText(brief, 98304, noticeText, prompt)
    ensures ByteLength(brief) > 98304 && ByteLength(noticeText) > 98304 ==> CutText(brief, 98304, "\n", prompt)
  {
    prompt := BoundRemediationPrompt(brief, noticeText);
  }

  lemma CutFound(brief: string, maxBytes: nat, notice: string, h: nat, t: nat, prompt: string)
    requires Cuts(Split(brief, '\n'), maxBytes - ByteLength(notice), h, t)
    requires prompt == Around(Split(brief, '\n'), h, t, notice)
    requires h > 0 || ByteLength(notice) <= Max(maxBytes, 1)
    ensures CutText(brief, maxBytes, notice, prompt)
    ensures ByteLength(prompt) <= Max(maxBytes, 1)
  {
    AroundLength(Split(brief, '\n'), h, t, notice);
  }

  // ---- What a cut guarantees ----

  lemma {:induction false} ByteLengthConcat(a: string, b: string)
    ensures ByteLength(a + b) == ByteLength(a) + ByteLength(b)
  {
    if a == [] {
      assert a + b == b;
    } else {
      assert (a + b)[1..] == a[1..] + b;
      ByteLengthConcat(a[1..], b);
    }
  }

  lemma {:induction false} CostConcat(a: seq<string>, b: seq<string>)
    ensures Cost(a + b) == Cost(a) + Cost(b)
  {
    if a == [] {
      assert a + b == b;
    } else {
      assert (a + b)[1..] == a[1..] + b;
      CostConcat(a[1..], b);
    }
  }

  lemma SpendHead(lines: seq<string>, h: nat, t: nat)
    requires h + t < |lines|
    ensures lines[..h + 1] == lines[..h] + [lines[h]]
    ensures Spent(lines, h + 1, t) == Spent(lines, h, t) + ByteLength(lines[h]) + 1
  {
    assert lines[..h + 1] == lines[..h] + [lines[h]];
    CostConcat(lines[..h], [lines[h]]);
  }

  lemma SpendTail(lines: seq<string>, h: nat, t: nat)
    requires h + t < |lines|
    ensures lines[|lines| - 1 - t..] == [lines[|lines| - 1 - t]] + lines[|lines| - t..]
    ensures Spent(lines, h, t + 1) == Spent(lines, h, t) + ByteLength(lines[|lines| - 1 - t]) + 1
  {
    assert lines[|lines| - 1 - t..] == [lines[|lines| - 1 - t]] + lines[|lines| - t..];
    CostConcat([lines[|lines| - 1 - t]], lines[|lines| - t..]);
  }

  lemma {:induction false} JoinLength(lines: seq<string>)
    ensures ByteLength(Join(lines, '\n')) == if lines == [] then 0 else Cost(lines) - 1
  {
    if |lines| > 1 {
      JoinLength(lines[1..]);
      ByteLengthConcat(lines[0] + ['\n'], Join(lines[1..], '\n'));
      ByteLengthConcat(lines[0], ['\n']);
    }
  }

  lemma CostOfSplit(brief: string)
    ensures Cost(Split(brief, '\n')) == ByteLength(brief) + 1
  {
    JoinSplit(brief, '\n');
    JoinLength(Split(brief, '\n'));
  }

  lemma NothingSpent(lines: seq<string>)
    ensures Spent(lines, 0, 0) == 0
  {
  }

  lemma NewlineIsOneByte()
    ensures ByteLength("\n") == 1
  {
    assert "\n"[1..] == "";
  }

  lemma NotEverythingFits(brief: string, h: nat, t: nat)
    requires h + t == |Split(brief, '\n')|
    ensures Spent(Split(brief, '\n'), h, t) == ByteLength(brief) + 1
  {
    var lines := Split(brief, '\n');
    assert lines == lines[..h] + lines[|lines| - t..];
    CostConcat(lines[..h], lines[|lines| - t..]);
    CostOfSplit(brief);
  }

  lemma AroundLength(lines: seq<string>, h: nat, t: nat, notice: string)
    requires h <= |lines| && t <= |lines|
    ensures ByteLength(Around(lines, h, t, notice)) <=
            Spent(lines, h, t) + ByteLength(notice)
  {
    JoinLength(lines[..h]);
    JoinLength(lines[|lines| - t..]);
    ByteLengthConcat(Join(lines[..h], '\n') + notice, Join(lines[|lines| - t..], '\n'));
    ByteLengthConcat(Join(lines[..h], '\n'), notice);
  }

  lemma JoinOfPrefix(lines: seq<string>, k: nat)
    requires k <= |lines|
    ensures StartsWith(Join(lines, '\n'), Join(lines[..k], '\n'))
  {
    if k == 0 {
      assert Join(lines[..k], '\n') == "";
    } else if k == |lines| {
      assert lines[..k] == lines;
    } else {
      JoinAtCut(lines, k);
    }
  }

  lemma JoinOfSuffix(lines: seq<string>, k: nat)
    requires k <= |lines|
    ensures EndsWith(Join(lines, '\n'), Join(lines[k..], '\n'))
    ensures |Join(lines[..k], '\n')| + |Join(lines[k..], '\n')| <= |Join(lines, '\n')|
  {
    if k == 0 {
      assert lines[k..] == lines;
      assert Join(lines[..k], '\n') == "";
    } else if k == |lines| {
      assert lines[..k] == lines;
      assert Join(lines[k..], '\n') == "";
    } else {
      JoinAtCut(lines, k);
    }
  }

  lemma JoinAtCut(lines: seq<string>, k: nat)
    requires 0 < k < |lines|
    ensures Join(lines, '\n') == Join(lines[..k], '\n') + ['\n'] + Join(lines[k..], '\n')
  {
    assert lines == lines[..k] + lines[k..];
    JoinConcat(lines[..k], lines[k..], '\n');
  }

  /** Both ends of the brief survive as they are, and they do not overlap. */
  lemma CutKeepsBothEnds(brief: string, budget: int, h: nat, t: nat)
    requires Cuts(Split(brief, '\n'), budget, h, t)
    ensures var lines := Split(brief, '\n');
            && StartsWith(brief, Join(lines[..h], '\n'))
            && EndsWith(brief, Join(lines[|lines| - t..], '\n'))
            && |Join(lines[..h], '\n')| + |Join(lines[|lines| - t..], '\n')| <= |brief|
  {
    var lines := Split(brief, '\n');
    var rest := lines[..|lines| - t];
    JoinSplit(brief, '\n');
    JoinOfPrefix(lines, h);
    JoinOfSuffix(lines, |lines| - t);
    JoinOfPrefix(rest, h);
    assert rest[..h] == lines[..h];
  }

  lemma EndsAround(brief: string, a: string, b: string, notice: string)
    requires StartsWith(brief, a) && EndsWith(brief, b) && |a| + |b| <= |brief|
    ensures a + notice + b == brief[..|a|] + notice + brief[|brief| - |b|..]
  {
  }

  lemma CutAtReplaces(brief: string, budget: int, h: nat, t: nat, notice: string) returns (p: nat, q: nat)
    requires Cuts(Split(brief, '\n'), budget, h, t)
    ensures p <= q <= |brief| && Around(Split(brief, '\n'), h, t, notice) == brief[..p] + notice + brief[q..]
  {
    var lines := Split(brief, '\n');
    CutKeepsBothEnds(brief, budget, h, t);
    var a, b := Join(lines[..h], '\n'), Join(lines[|lines| - t..], '\n');
    hide Split, Join, Cuts, StartsWith, EndsWith;
    EndsAround(brief, a, b, notice);
    p, q := |a|, |brief| - |b|;
  }

  /** A cut prompt is the brief with one stretch of its middle replaced by the notice. */
  lemma CutReplacesTheMiddle(brief: string, maxBytes: nat, notice: string, prompt: string) returns (p: nat, q: nat)
    requires CutText(brief, maxBytes, notice, prompt)
    ensures p <= q <= |brief| && prompt == brief[..p] + notice + brief[q..]
  {
    hide Split, Around, ByteLength, Spent, NextInTurn;
    var h: nat, t: nat :| Cuts(Split(brief, '\n'), maxBytes - ByteLength(notice), h, t)
                          && prompt == Around(Split(brief, '\n'), h, t, notice);
    p, q := CutAtReplaces(brief, maxBytes - ByteLength(notice), h, t, notice);
  }

  lemma {:induction false} SpentGrows(lines: seq<string>, h: nat, t: nat, h2: nat, t2: nat)
    requires h <= h2 && t <= t2 && h2 + t2 <= |lines|
    ensures Spent(lines, h, t) <= Spent(lines, h2, t2)
    decreases h2 + t2
  {
    if h < h2 {
      SpendHead(lines, h2 - 1, t2);
      SpentGrows(lines, h, t, h2 - 1, t2);
    } else if t < t2 {
      SpendTail(lines, h2, t2 - 1);
      SpentGrows(lines, h, t, h2, t2 - 1);
    }
  }

  /** Taking more lines costs at least the next line in turn. */
  lemma MoreLinesCostMore(lines: seq<string>, h: nat, t: nat, h2: nat, t2: nat)
    requires h2 + t2 <= |lines|
    requires h == t || h == t + 1
    requires h2 == t2 || h2 == t2 + 1
    requires h + t < h2 + t2
    ensures Spent(lines, h, t) + ByteLength(NextInTurn(lines, h, t)) + 1 <= Spent(lines, h2, t2)
  {
    if h == t {
      SpendHead(lines, h, t);
      SpentGrows(lines, h + 1, t, h2, t2);
    } else {
      SpendTail(lines, h, t);
      SpentGrows(lines, h, t + 1, h2, t2);
    }
  }

  /** No longer alternating selection fits: the cut keeps as many lines as the budget allows. */
  lemma CutIsLargest(lines: seq<string>, budget: int, h: nat, t: nat, h2: nat, t2: nat)
    requires Cuts(lines, budget, h, t)
    requires h2 + t2 <= |lines| && (h2 == t2 || h2 == t2 + 1)
    requires Spent(lines, h2, t2) <= budget
    ensures h2 + t2 <= h + t
  {
    if h + t < h2 + t2 {
      MoreLinesCostMore(lines, h, t, h2, t2);
    }
  }

  lemma CutPlaceIsUnique(lines: seq<string>, budget: int, h: nat, t: nat, h2: nat, t2: nat)
    requires Cuts(lines, budget, h, t) && Cuts(lines, budget, h2, t2)
    ensures h == h2 && t == t2
  {
    if h + t < h2 + t2 {
      MoreLinesCostMore(lines, h, t, h2, t2);
    } else if h2 + t2 < h + t {
      MoreLinesCostMore(lines, h2, t2, h, t);
    }
  }

  /** The text is determined: whatever satisfies `CutText` is the one text the loop builds. */
  lemma CutIsUnique(brief: string, maxBytes: nat, notice: string, a: string, b: string)
    requires CutText(brief, maxBytes, notice, a) && CutText(brief, maxBytes, notice, b)
    ensures a == b
  {
    var lines := Split(brief, '\n');
    var budget := maxBytes - ByteLength(notice);
    var h: nat, t: nat :| Cuts(lines, budget, h, t) && a == Around(lines, h, t, notice);
    var h2: nat, t2: nat :| Cuts(lines, budget, h2, t2) && b == Around(lines, h2, t2, notice);
    CutPlaceIsUnique(lines, budget, h, t, h2, t2);
  }

  // ---- The bytes that are counted ----

  /** The UTF-8 bytes of a code point, as in the table of section 3 of RFC 3629. */
  ghost function Utf8(code: nat): seq<nat> {
    if code <= 0x7F then [code]
    else if code <= 0x7FF then [0xC0 + code / 64, 0x80 + code % 64]
    else if code <= 0xFFFF then [0xE0 + code / 64 / 64, 0x80 + code / 64 % 64, 0x80 + code % 64]
    else [0xF0 + code / 64 / 64 / 64, 0x80 + code / 64 / 64 % 64, 0x80 + code / 64 % 64, 0x80 + code % 64]
  }

  ghost function Utf8Text(s: string): seq<nat> {
    if s == [] then [] else Utf8(s[0] as int) + Utf8Text(s[1..])
  }

  /** The lead byte tells the width; the other bytes carry six bits each. */
  ghost function Utf8Read(bytes: seq<int>): int
    requires |bytes| >= 4 || (bytes != [] && bytes[0] < 0x80) || (|bytes| >= 2 && bytes[0] < 0xE0) || (|bytes| >= 3 && bytes[0] < 0xF0)
  {
    if bytes[0] < 0x80 then bytes[0]
    else if bytes[0] < 0xE0 then Tail(bytes[0] - 0xC0, bytes[1])
    else if bytes[0] < 0xF0 then Tail(Tail(bytes[0] - 0xE0, bytes[1]), bytes[2])
    else Tail(Tail(Tail(bytes[0] - 0xF0, bytes[1]), bytes[2]), bytes[3])
  }

  ghost function Tail(high: int, byte: int): int {
    high * 64 + (byte - 0x80)
  }

  lemma TailReadsBack(code: nat)
    ensures Tail(code / 64, 0x80 + code % 64) == code
  {
  }

  /** Those bytes are bytes, and the code point is read back from them whatever follows. */
  lemma Utf8ReadsBack(code: nat, rest: seq<nat>)
    requires code < 0x110000
    ensures forall k :: 0 <= k < |Utf8(code)| ==> Utf8(code)[k] < 256
    ensures var bytes := Utf8(code) + rest;
            && (|bytes| >= 4 || bytes[0] < 0x80 || (|bytes| >= 2 && bytes[0] < 0xE0) || (|bytes| >= 3 && bytes[0] < 0xF0))
            && Utf8Read(bytes) == code
  {
    hide Tail;
    TailReadsBack(code);
    TailReadsBack(code / 64);
    TailReadsBack(code / 64 / 64);
    var bytes := Utf8(code) + rest;
    assert forall k :: 0 <= k < |Utf8(code)| ==> bytes[k] == Utf8(code)[k];
  }

  /** What the budget counts is the length of the text's UTF-8 encoding. */
  lemma {:induction false} ByteLengthIsUtf8(s: string)
    ensures ByteLength(s) == |Utf8Text(s)|
  {
    if s != [] {
      ByteLengthIsUtf8(s[1..]);
    }
  }

  /** And no two texts share an encoding. */
  lemma {:induction false} Utf8TextIsInjective(s: string, t: string)
    requires Utf8Text(s) == Utf8Text(t)
    ensures s == t
  {
    if s != [] {
      Utf8ReadsBack(s[0] as int, Utf8Text(s[1..]));
    }
    if t != [] {
      Utf8ReadsBack(t[0] as int, Utf8Text(t[1..]));
    }
    if s != [] && t != [] {
      assert s[0] == t[0];
      assert Utf8Text(s)[|Utf8(s[0] as int)|..] == Utf8Text(s[1..]);
      assert Utf8Text(t)[|Utf8(t[0] as int)|..] == Utf8Text(t[1..]);
      Utf8TextIsInjective(s[1..], t[1..]);
    }
  }
}
