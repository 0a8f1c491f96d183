/** Strings as the source uses them: `split`, `join`, `startsWith` and decimal numerals. */
module Text {

  /** Puts character `c` in front of the pieces of the rest of a string. */
  function Glue(c: char, rest: seq<string>, sep: char): (parts: seq<string>)
    requires |rest| > 0
    ensures |parts| > 0
  {
    if c == sep then [[]] + rest else [[c] + rest[0]] + rest[1..]
  }

  /** `s.split(sep)` for a one-character separator. */
  function Split(s: string, sep: char): (parts: seq<string>)
    ensures |parts| > 0
  {
    if s == [] then [[]] else Glue(s[0], Split(s[1..], sep), sep)
  }

  /** `parts.join(sep)`. */
  function Join(parts: seq<string>, sep: char): string {
    if |parts| == 0 then []
    else if |parts| == 1 then parts[0]
    else parts[0] + [sep] + Join(parts[1..], sep)
  }

  lemma JoinGlue(c: char, rest: seq<string>, sep: char)
    requires |rest| > 0
    ensures Join(Glue(c, rest, sep), sep) == [c] + Join(rest, sep)
  {
    if c == sep {
      assert ([[]] + rest)[1..] == rest;
    } else {
      var parts := [[c] + rest[0]] + rest[1..];
      assert parts[1..] == rest[1..];
      if |rest| > 1 {
        assert Join(parts, sep) == [c] + rest[0] + [sep] + Join(rest[1..], sep);
      }
    }
  }

  lemma {:induction false} JoinSplit(s: string, sep: char)
    ensures Join(Split(s, sep), sep) == s
  {
    hide Glue;
    if s != [] {
      JoinSplit(s[1..], sep);
      JoinGlue(s[0], Split(s[1..], sep), sep);
      assert s == [s[0]] + s[1..];
    }
  }

  lemma GlueConcat(c: char, rest: seq<string>, tail: seq<string>, sep: char)
    requires |rest| > 0
    ensures Glue(c, rest + tail, sep) == Glue(c, rest, sep) + tail
  {
    assert (rest + tail)[1..] == rest[1..] + tail;
  }

  lemma {:induction false} SplitConcat(s: string, t: string, sep: char)
    ensures Split(s + [sep] + t, sep) == Split(s, sep) + Split(t, sep)
  {
    var whole := s + [sep] + t;
    if s == [] {
      assert whole[0] == sep && whole[1..] == t;
    } else {
      assert whole[0] == s[0] && whole[1..] == s[1..] + [sep] + t;
      SplitConcat(s[1..], t, sep);
      GlueConcat(s[0], Split(s[1..], sep), Split(t, sep), sep);
    }
  }

  lemma {:induction false} SplitPiece(s: string, sep: char)
    requires sep !in s
    ensures Split(s, sep) == [s]
  {
    if s != [] {
      assert sep !in s[1..];
      SplitPiece(s[1..], sep);
      assert [s[0]] + s[1..] == s;
    }
  }

  lemma {:induction false} SplitJoin(parts: seq<string>, sep: char)
    requires |parts| > 0
    requires forall i :: 0 <= i < |parts| ==> sep !in parts[i]
    ensures Split(Join(parts, sep), sep) == parts
  {
    SplitPiece(parts[0], sep);
    if |parts| == 1 {
      assert parts == [parts[0]];
    } else {
      SplitJoin(parts[1..], sep);
      SplitConcat(parts[0], Join(parts[1..], sep), sep);
      assert parts == [parts[0]] + parts[1..];
    }
  }

  lemma {:induction false} JoinConcat(a: seq<string>, b: seq<string>, sep: char)
    requires |a| > 0 && |b| > 0
    ensures Join(a + b, sep) == Join(a, sep) + [sep] + Join(b, sep)
  {
    if |a| == 1 {
      assert (a + b)[1..] == b;
    } else {
      JoinConcat(a[1..], b, sep);
      assert (a + b)[1..] == a[1..] + b;
      assert Join(a + b, sep) == a[0] + [sep] + (Join(a[1..], sep) + [sep] + Join(b, sep));
      assert Join(a, sep) == a[0] + [sep] + Join(a[1..], sep);
    }
  }

  predicate StartsWith(s: string, prefix: string) {
    prefix <= s
  }

  predicate EndsWith(s: string, suffix: string) {
    |suffix| <= |s| && s[|s| - |suffix|..] == suffix
  }

  // Decimal numerals

  predicate IsDigit(c: char) {
    '0' <= c <= '9'
  }

  predicate AllDigits(s: string) {
    forall i :: 0 <= i < |s| ==> IsDigit(s[i])
  }

  /** `Number(s)` on a string of digits. */
  function Value(s: string): nat
    requires AllDigits(s)
  {
    if s == [] then 0 else 10 * Value(s[..|s| - 1]) + (s[|s| - 1] as int - '0' as int)
  }

  function Decimal(n: nat): (s: string)
    ensures s != [] && AllDigits(s)
  {
    var last := [('0' as int + n % 10) as char];
    if n < 10 then last else Decimal(n / 10) + last
  }

  lemma {:induction false} ValueOfDecimal(n: nat)
    ensures Value(Decimal(n)) == n
  {
    var s := Decimal(n);
    if n < 10 {
      assert s[..|s| - 1] == [];
    } else {
      ValueOfDecimal(n / 10);
      assert s[..|s| - 1] == Decimal(n / 10);
    }
  }

  /** Length of the longest run of digits at the front: what a greedy `\d+` consumes. */
  function DigitRun(s: string): (n: nat)
    ensures n <= |s| && AllDigits(s[..n])
    ensures n < |s| ==> !IsDigit(s[n])
  {
    if s == [] || !IsDigit(s[0]) then 0
    else
      var n := DigitRun(s[1..]);
      assert s[..n + 1] == [s[0]] + s[1..][..n];
      n + 1
  }

  /** It ends at the first character that is none of '0' to '9'. */
  lemma DigitRunIs(s: string)
    ensures forall i :: 0 <= i < DigitRun(s) ==> '0' <= s[i] <= '9'
    ensures DigitRun(s) < |s| ==> s[DigitRun(s)] < '0' || '9' < s[DigitRun(s)]
  {
    var n := DigitRun(s);
    assert forall i :: 0 <= i < n ==> s[..n][i] == s[i];
  }

  lemma {:induction false} DigitRunOf(d: string, rest: string)
    requires AllDigits(d)
    requires rest == [] || !IsDigit(rest[0])
    ensures DigitRun(d + rest) == |d|
    ensures (d + rest)[..|d|] == d && (d + rest)[|d|..] == rest
  {
    var whole := d + rest;
    var n := DigitRun(whole);
    assert forall i :: 0 <= i < |d| ==> whole[i] == d[i];
    assert rest != [] ==> whole[|d|] == rest[0];
    assert forall i :: 0 <= i < n ==> whole[..n][i] == whole[i];
  }

  // Order of strings

  /** How JavaScript's `<` and default `sort` order strings: lexicographic by character code. */
  function CompareText(a: string, b: string): (r: int) {
    if a == [] && b == [] then 0
    else if a == [] then -1
    else if b == [] then 1
    else if a[0] != b[0] then (if a[0] < b[0] then -1 else 1)
    else CompareText(a[1..], b[1..])
  }

  lemma {:induction false} TextOrder(a: string, b: string)
    ensures CompareText(a, b) in {-1, 0, 1} && CompareText(b, a) == -CompareText(a, b)
    ensures CompareText(a, b) == 0 <==> a == b
  {
    if a != [] && b != [] && a[0] == b[0] {
      TextOrder(a[1..], b[1..]);
      assert a == [a[0]] + a[1..] && b == [b[0]] + b[1..];
    }
  }

  /** The smaller text is smaller at the first difference, or is a proper prefix of the other. */
  lemma {:induction false} CompareTextIs(a: string, b: string)
    ensures CompareText(a, b) < 0 <==>
            a < b || exists k :: 0 <= k < |a| && k < |b| && a[..k] == b[..k] && a[k] < b[k]
  {
    if a != [] && b != [] && a[0] == b[0] {
      var x, y := a[1..], b[1..];
      CompareTextIs(x, y);
      assert a == [a[0]] + x && b == [b[0]] + y;
      if k :| 0 <= k < |x| && k < |y| && x[..k] == y[..k] && x[k] < y[k] {
        assert a[..k + 1] == [a[0]] + x[..k] && b[..k + 1] == [b[0]] + y[..k];
        assert a[k + 1] < b[k + 1];
      }
      if k :| 0 <= k < |a| && k < |b| && a[..k] == b[..k] && a[k] < b[k] {
        assert k > 0 && x[..k - 1] == a[..k][1..] == b[..k][1..] == y[..k - 1] && x[k - 1] < y[k - 1];
      }
    } else if a != [] && b != [] {
      assert a[..0] == b[..0];
    }
  }

  lemma {:induction false} TextTransitive(a: string, b: string, c: string)
    requires CompareText(a, b) <= 0 && CompareText(b, c) <= 0
    ensures CompareText(a, c) <= 0
    ensures CompareText(a, c) == 0 ==> a == b == c
  {
    TextOrder(a, b);
    TextOrder(b, c);
    TextOrder(a, c);
    if a != [] && b != [] && c != [] && a[0] == b[0] == c[0] {
      TextTransitive(a[1..], b[1..], c[1..]);
      assert a == [a[0]] + a[1..] && b == [b[0]] + b[1..] && c == [c[0]] + c[1..];
    }
  }

  predicate TextLeq(a: string, b: string) {
    CompareText(a, b) <= 0
  }
}
