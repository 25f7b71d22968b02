/**
 * The Python `str` operations the automation scripts rely on, with Python's own
 * character sets: `isspace`, `strip()`, `splitlines()`, `split(sep)`,
 * `replace(c, "")`, the `in` substring test, and `isdigit()` followed by
 * `int(...)` (the last two restricted to the ASCII digits).
 */
module Text {

  /** `str.isspace` for one character: the characters Python treats as whitespace. */
  predicate IsSpace(c: char) {
    || ('\t' <= c <= '\r')
    || ('\U{1C}' <= c <= ' ')
    || c == '\U{85}' || c == '\U{A0}' || c == '\U{1680}'
    || ('\U{2000}' <= c <= '\U{200A}')
    || c == '\U{2028}' || c == '\U{2029}' || c == '\U{202F}' || c == '\U{205F}' || c == '\U{3000}'
  }

  /** A line boundary of `str.splitlines`. */
  predicate IsLineBreak(c: char) {
    || ('\n' <= c <= '\r')
    || ('\U{1C}' <= c <= '\U{1E}')
    || c == '\U{85}' || c == '\U{2028}' || c == '\U{2029}'
  }

  predicate NoLineBreak(s: string) {
    forall k :: 0 <= k < |s| ==> !IsLineBreak(s[k])
  }

  // ---------------------------------------------------------------- strip

  /** `s.lstrip()`: drop the leading whitespace. */
  function TrimStart(s: string): (r: string)
    ensures |r| <= |s| && r == s[|s| - |r|..]
    ensures forall k :: 0 <= k < |s| - |r| ==> IsSpace(s[k])
    ensures |r| > 0 ==> !IsSpace(r[0])
  {
    if |s| > 0 && IsSpace(s[0]) then TrimStart(s[1..]) else s
  }

  /** `s.rstrip()`: drop the trailing whitespace. */
  function TrimEnd(s: string): (r: string)
    ensures |r| <= |s| && r == s[..|r|]
    ensures forall k :: |r| <= k < |s| ==> IsSpace(s[k])
    ensures |r| > 0 ==> !IsSpace(r[|r| - 1])
  {
    if |s| > 0 && IsSpace(s[|s| - 1]) then TrimEnd(s[..|s| - 1]) else s
  }

  /** `s.strip()`: the result starts and ends with a non-space, and a string that
      already does so is returned unchanged. */
  function Strip(s: string): (r: string)
    ensures |r| <= |s|
    ensures |r| > 0 ==> !IsSpace(r[0]) && !IsSpace(r[|r| - 1])
    ensures |s| > 0 && !IsSpace(s[0]) && !IsSpace(s[|s| - 1]) ==> r == s
  {
    var t := TrimStart(s);
    assert |t| > 0 ==> t[|t| - 1] == s[|s| - 1];
    TrimEnd(t)
  }

  /** `strip` removes exactly the whitespace padding around a core that starts and
      ends with a non-space. */
  lemma StripPadded(lead: string, core: string, trail: string)
    requires forall k :: 0 <= k < |lead| ==> IsSpace(lead[k])
    requires forall k :: 0 <= k < |trail| ==> IsSpace(trail[k])
    requires |core| > 0 && !IsSpace(core[0]) && !IsSpace(core[|core| - 1])
    ensures Strip(lead + core + trail) == core
  {
    assert lead + core + trail == lead + (core + trail);
    TrimStartPadded(lead, core + trail);
    TrimEndPadded(core, trail);
  }

  lemma TrimStartPadded(lead: string, rest: string)
    requires forall k :: 0 <= k < |lead| ==> IsSpace(lead[k])
    requires |rest| > 0 && !IsSpace(rest[0])
    ensures TrimStart(lead + rest) == rest
  {
    var s := lead + rest;
    var t := TrimStart(s);
    assert s[|lead|] == rest[0];
    assert forall k :: 0 <= k < |lead| ==> s[k] == lead[k];
    assert |s| - |t| == |lead|;
  }

  lemma TrimEndPadded(rest: string, trail: string)
    requires forall k :: 0 <= k < |trail| ==> IsSpace(trail[k])
    requires |rest| > 0 && !IsSpace(rest[|rest| - 1])
    ensures TrimEnd(rest + trail) == rest
  {
    var t := rest + trail;
    var r := TrimEnd(t);
    assert t[|rest| - 1] == rest[|rest| - 1];
    assert forall k :: |rest| <= k < |t| ==> t[k] == trail[k - |rest|];
    assert |r| == |rest|;
  }

  // ---------------------------------------------------------------- join, splitlines, split

  /** The strings of `parts` with `sep` between neighbours (`sep.join(parts)`). */
  function Join(parts: seq<string>, sep: string): string {
    if |parts| == 0 then []
    else if |parts| == 1 then parts[0]
    else parts[0] + sep + Join(parts[1..], sep)
  }

  /** Index of the first line boundary in `s`, or `|s|` when there is none. */
  function LineEnd(s: string): (i: nat)
    ensures i <= |s|
    ensures NoLineBreak(s[..i])
    ensures i < |s| ==> IsLineBreak(s[i])
  {
    if |s| == 0 || IsLineBreak(s[0]) then 0
    else
      var j := LineEnd(s[1..]);
      assert s[..1 + j] == [s[0]] + s[1..][..j];
      1 + j
  }

  /** `s.splitlines()`: the lines of `s` without their boundaries. "\r\n" is one
      boundary, and a boundary at the very end does not open another line. */
  function SplitLines(s: string): (lines: seq<string>)
    ensures forall k :: 0 <= k < |lines| ==> NoLineBreak(lines[k])
    decreases |s|
  {
    if |s| == 0 then []
    else
      var i := LineEnd(s);
      if i == |s| then
        assert s[..i] == s;
        [s]
      else
        var width := if s[i] == '\r' && i + 1 < |s| && s[i + 1] == '\n' then 2 else 1;
        [s[..i]] + SplitLines(s[i + width..])
  }

  /** A line followed by a "\n" or "\r\n" boundary is split off as the first line. */
  lemma SplitLinesCons(line: string, eol: string, rest: string)
    requires eol == "\n" || eol == "\r\n"
    requires NoLineBreak(line)
    ensures SplitLines(line + eol + rest) == [line] + SplitLines(rest)
  {
    var s := line + eol + rest;
    LineEndOfPlain(line, eol + rest);
    assert s == line + (eol + rest);
    var i := |line|;
    assert s[i] == eol[0];
    assert eol == "\r\n" ==> s[i + 1] == '\n';
    assert s[..i] == line;
    assert s[i + |eol|..] == rest;
  }

  /** Lines joined with "\n" or "\r\n" split back into the same lines, provided no
      line holds a boundary and the last one is not empty. */
  lemma {:induction false} SplitLinesJoin(lines: seq<string>, eol: string)
    requires eol == "\n" || eol == "\r\n"
    requires forall k :: 0 <= k < |lines| ==> NoLineBreak(lines[k])
    requires |lines| > 0 ==> |lines[|lines| - 1]| > 0
    ensures SplitLines(Join(lines, eol)) == lines
    decreases |lines|
  {
    if |lines| == 1 {
      SplitLinesPlain(lines[0]);
    } else if |lines| > 1 {
      var tail := lines[1..];
      var rest := Join(tail, eol);
      assert forall k :: 0 <= k < |tail| ==> NoLineBreak(tail[k]) by {
        forall k | 0 <= k < |tail| ensures NoLineBreak(tail[k]) {
          assert tail[k] == lines[k + 1];
        }
      }
      assert tail[|tail| - 1] == lines[|lines| - 1];
      calc {
        SplitLines(Join(lines, eol));
        SplitLines(lines[0] + eol + rest);
        { SplitLinesCons(lines[0], eol, rest); }
        [lines[0]] + SplitLines(rest);
        { SplitLinesJoin(tail, eol); }
        [lines[0]] + tail;
        lines;
      }
    }
  }

  /** A non-empty line without a boundary is a single line. */
  lemma SplitLinesPlain(line: string)
    requires NoLineBreak(line) && |line| > 0
    ensures SplitLines(line) == [line]
  {
    LineEndOfPlain(line, []);
    assert line + [] == line;
  }

  /** The first boundary of `line + tail` is the first of `tail` when `line` has none. */
  lemma {:induction false} LineEndOfPlain(line: string, tail: string)
    requires NoLineBreak(line)
    requires |tail| > 0 ==> IsLineBreak(tail[0])
    ensures LineEnd(line + tail) == |line|
    decreases |line|
  {
    if |line| > 0 {
      assert (line + tail)[1..] == line[1..] + tail;
      LineEndOfPlain(line[1..], tail);
    }
  }

  /** Index of the first `c` in `s`, or `|s|` when `c` does not occur. */
  function IndexOf(s: string, c: char): (i: nat)
    ensures i <= |s|
    ensures c !in s[..i]
    ensures i < |s| ==> s[i] == c
  {
    if |s| == 0 || s[0] == c then 0
    else
      var j := IndexOf(s[1..], c);
      assert s[..1 + j] == [s[0]] + s[1..][..j];
      1 + j
  }

  /** `s.split(sep)` for a one-character separator: the fields between separators,
      which never contain `sep` and joined with `sep` give back `s`. */
  function Split(s: string, sep: char): (fields: seq<string>)
    ensures |fields| >= 1
    ensures forall k :: 0 <= k < |fields| ==> sep !in fields[k]
    ensures Join(fields, [sep]) == s
    ensures |fields| >= 2 <==> sep in s
    decreases |s|
  {
    var i := IndexOf(s, sep);
    if i == |s| then
      assert s[..i] == s;
      [s]
    else
      var rest := Split(s[i + 1..], sep);
      assert s == s[..i] + [sep] + s[i + 1..];
      [s[..i]] + rest
  }

  /** Fields without the separator, joined with it, split back into the same fields. */
  lemma {:induction false} SplitJoin(fields: seq<string>, sep: char)
    requires |fields| >= 1
    requires forall k :: 0 <= k < |fields| ==> sep !in fields[k]
    ensures Split(Join(fields, [sep]), sep) == fields
    decreases |fields|
  {
    if |fields| > 1 {
      var s := Join(fields, [sep]);
      IndexOfPlain(fields[0], [sep] + Join(fields[1..], [sep]), sep);
      assert s[|fields[0]| + 1..] == Join(fields[1..], [sep]);
      assert s[..|fields[0]|] == fields[0];
      SplitJoin(fields[1..], sep);
    } else {
      IndexOfPlain(fields[0], [], sep);
    }
  }

  /** The first `c` in `a + b` is the first of `b` when `a` has none. */
  lemma {:induction false} IndexOfPlain(a: string, b: string, c: char)
    requires c !in a
    requires |b| > 0 ==> b[0] == c
    ensures IndexOf(a + b, c) == |a|
    decreases |a|
  {
    if |a| > 0 {
      assert (a + b)[1..] == a[1..] + b;
      IndexOfPlain(a[1..], b, c);
    }
  }

  // ---------------------------------------------------------------- replace, in

  /** `s.replace(c, "")`: every `c` removed, everything else kept in order. */
  function RemoveAll(s: string, c: char): (r: string)
    ensures c !in r
    ensures |r| <= |s|
    ensures c !in s ==> r == s
  {
    if |s| == 0 then []
    else (if s[0] == c then [] else [s[0]]) + RemoveAll(s[1..], c)
  }

  /** Removal distributes over concatenation. */
  lemma {:induction false} RemoveAllConcat(a: string, b: string, c: char)
    ensures RemoveAll(a + b, c) == RemoveAll(a, c) + RemoveAll(b, c)
    decreases |a|
  {
    if |a| > 0 {
      assert (a + b)[1..] == a[1..] + b;
      RemoveAllConcat(a[1..], b, c);
    } else {
      assert a + b == b;
    }
  }

  predicate IsPrefix(p: string, s: string) {
    |p| <= |s| && s[..|p|] == p
  }

  /** Python's `sub in s`. */
  predicate Contains(s: string, sub: string)
    decreases |s|
  {
    IsPrefix(sub, s) || (|s| > 0 && Contains(s[1..], sub))
  }

  /** `sub` occurs in `s` starting at index `k`. */
  predicate OccursAt(s: string, sub: string, k: int) {
    0 <= k <= |s| - |sub| && s[k..k + |sub|] == sub
  }

  /** `sub in s` holds exactly when `sub` occurs at some position of `s`. */
  lemma {:induction false} ContainsAt(s: string, sub: string)
    ensures Contains(s, sub) <==> exists k :: OccursAt(s, sub, k)
    decreases |s|
  {
    if IsPrefix(sub, s) {
      assert OccursAt(s, sub, 0);
    }
    if |s| > 0 {
      ContainsAt(s[1..], sub);
      if Contains(s[1..], sub) {
        var k :| OccursAt(s[1..], sub, k);
        assert s[k + 1..k + 1 + |sub|] == s[1..][k..k + |sub|];
        assert OccursAt(s, sub, k + 1);
      }
      if k :| OccursAt(s, sub, k) {
        if k > 0 {
          assert s[1..][k - 1..k - 1 + |sub|] == s[k..k + |sub|];
          assert OccursAt(s[1..], sub, k - 1);
        }
      }
    }
  }

  // ---------------------------------------------------------------- digits

  predicate IsDigit(c: char) {
    '0' <= c <= '9'
  }

  /** `s.isdigit()` restricted to ASCII: non-empty and all digits. */
  predicate IsDigits(s: string) {
    |s| > 0 && forall k :: 0 <= k < |s| ==> IsDigit(s[k])
  }

  /** `int(s)` for a string of digits (leading zeros allowed). */
  function DecimalValue(s: string): nat
    requires forall k :: 0 <= k < |s| ==> IsDigit(s[k])
  {
    if |s| == 0 then 0
    else 10 * DecimalValue(s[..|s| - 1]) + DigitValue(s[|s| - 1])
  }

  function DigitValue(c: char): (d: nat)
    requires IsDigit(c)
    ensures d < 10
  {
    c as int - '0' as int
  }

  function DigitChar(d: nat): (c: char)
    requires d < 10
    ensures IsDigit(c)
  {
    ('0' as int + d) as char
  }

  /** `str(n)`: the decimal rendering of `n`, without leading zeros. */
  function Decimal(n: nat): (s: string)
    ensures IsDigits(s)
    ensures |s| > 1 ==> s[0] != '0'
  {
    if n < 10 then [DigitChar(n)] else Decimal(n / 10) + [DigitChar(n % 10)]
  }

  /** `int(str(n)) == n`. */
  lemma {:induction false} DecimalRoundTrip(n: nat)
    ensures DecimalValue(Decimal(n)) == n
  {
    if n >= 10 {
      var s := Decimal(n);
      assert s[..|s| - 1] == Decimal(n / 10);
      DecimalRoundTrip(n / 10);
    }
  }
}
