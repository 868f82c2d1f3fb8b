/**
 * The on-disk format of one memo: a Markdown file whose front matter holds the
 * id, the escaped title, the two timestamps and the order, followed by the body.
 *
 * The same writer template and the same reader appear in backend/src/storage.ts and
 * src/storage.ts; the browser writer puts one blank line between the closing
 * delimiter and the body. The reader's regular expressions are modelled as
 * scanners with JavaScript's semantics: `^` under the `m` flag matches at the
 * start of the text and after every JavaScript line terminator, `\s` is the
 * JavaScript whitespace class, `\d` is `[0-9]`, and a match is the first one
 * found scanning left to right.
 */
module FrontMatter {
  import opened Wrappers
  import opened MemoTypes

  // ---------------------------------------------------------------------------
  // Character classes
  // ---------------------------------------------------------------------------

  /** JavaScript's line terminators: the characters after which `^` matches under `m`. */
  predicate IsLineTerminator(c: char) {
    c == '\n' || c == '\r' || c == '\U{2028}' || c == '\U{2029}'
  }

  /** JavaScript's `\s`: the WhiteSpace and LineTerminator code points. */
  predicate IsJsSpace(c: char) {
    c == ' ' || c == '\t' || c == '\n' || c == '\U{000B}' || c == '\U{000C}' || c == '\r'
    || c == '\U{00A0}' || c == '\U{1680}' || ('\U{2000}' <= c <= '\U{200A}')
    || c == '\U{2028}' || c == '\U{2029}' || c == '\U{202F}' || c == '\U{205F}'
    || c == '\U{3000}' || c == '\U{FEFF}'
  }

  /** JavaScript's `\d`. */
  predicate IsDigit(c: char) {
    '0' <= c <= '9'
  }

  predicate NoLineTerminator(s: string) {
    forall i :: 0 <= i < |s| ==> !IsLineTerminator(s[i])
  }

  predicate AllDigits(s: string) {
    forall i :: 0 <= i < |s| ==> IsDigit(s[i])
  }

  // ---------------------------------------------------------------------------
  // Global literal replacement: `str.replace(/pat/g, rep)`
  // ---------------------------------------------------------------------------

  /**
   * Every occurrence of `pat`, scanning left to right, replaced by `rep`; an
   * occurrence starts where the previous one ended, so occurrences never overlap.
   */
  function ReplaceAll(s: string, pat: string, rep: string): string
    requires pat != []
    decreases |s|
  {
    if |s| < |pat| then s
    else if s[..|pat|] == pat then rep + ReplaceAll(s[|pat|..], pat, rep)
    else [s[0]] + ReplaceAll(s[1..], pat, rep)
  }

  /** Text that does not begin with the first character of `pat` starts no occurrence. */
  lemma ReplaceAllSkip(c: char, t: string, pat: string, rep: string)
    requires pat != [] && c != pat[0]
    ensures ReplaceAll([c] + t, pat, rep) == [c] + ReplaceAll(t, pat, rep)
  {
    var s := [c] + t;
    assert s[1..] == t;
    if |s| < |pat| {
      assert |t| < |pat|;
    } else {
      assert s[..|pat|][0] == c;
    }
  }

  lemma ReplaceAllMatch(t: string, pat: string, rep: string)
    requires pat != []
    ensures ReplaceAll(pat + t, pat, rep) == rep + ReplaceAll(t, pat, rep)
  {
    var s := pat + t;
    assert s[..|pat|] == pat;
    assert s[|pat|..] == t;
  }

  /** A text without the first character of `pat` is left as it is. */
  lemma {:induction false} ReplaceAllAbsent(s: string, pat: string, rep: string)
    requires pat != [] && pat[0] !in s
    ensures ReplaceAll(s, pat, rep) == s
    decreases |s|
  {
    if s != [] {
      assert s == [s[0]] + s[1..];
      ReplaceAllSkip(s[0], s[1..], pat, rep);
      ReplaceAllAbsent(s[1..], pat, rep);
    }
  }

  /** One character replaced the way a one-character pattern replaces it. */
  function CharReplace(c: char, p: char, rep: string): string {
    if c == p then rep else [c]
  }

  /** With a one-character pattern the replacement works character by character. */
  lemma {:induction false} ReplaceCharAppend(a: string, b: string, p: char, rep: string)
    ensures ReplaceAll(a + b, [p], rep) == ReplaceAll(a, [p], rep) + ReplaceAll(b, [p], rep)
    decreases |a|
  {
    if a == [] {
      assert a + b == b;
    } else {
      var s := a + b;
      assert s[..1] == [a[0]] && s[1..] == a[1..] + b;
      assert a[..1] == [a[0]];
      ReplaceCharAppend(a[1..], b, p, rep);
      if a[0] == p {
        calc {
          ReplaceAll(s, [p], rep);
          rep + ReplaceAll(a[1..] + b, [p], rep);
          rep + (ReplaceAll(a[1..], [p], rep) + ReplaceAll(b, [p], rep));
          (rep + ReplaceAll(a[1..], [p], rep)) + ReplaceAll(b, [p], rep);
        }
      } else {
        calc {
          ReplaceAll(s, [p], rep);
          [a[0]] + ReplaceAll(a[1..] + b, [p], rep);
          [a[0]] + (ReplaceAll(a[1..], [p], rep) + ReplaceAll(b, [p], rep));
          ([a[0]] + ReplaceAll(a[1..], [p], rep)) + ReplaceAll(b, [p], rep);
        }
      }
    }
  }

  lemma ReplaceCharSingle(c: char, p: char, rep: string)
    ensures ReplaceAll([c], [p], rep) == CharReplace(c, p, rep)
  {
    assert [c][..1] == [c];
    assert [c][1..] == [];
  }

  // ---------------------------------------------------------------------------
  // escapeYaml / unescapeYaml
  // ---------------------------------------------------------------------------

  /** `escapeYaml`: backslashes doubled, then quotes escaped, then newlines written as `\n`. */
  function Escape(s: string): string {
    ReplaceAll(ReplaceAll(ReplaceAll(s, "\\", "\\\\"), "\"", "\\\""), "\n", "\\n")
  }

  /** `unescapeYaml`: `\n` to a newline, then `\"` to a quote, then `\\` to a backslash. */
  function Unescape(s: string): string {
    ReplaceAll(ReplaceAll(ReplaceAll(s, "\\n", "\n"), "\\\"", "\""), "\\\\", "\\")
  }

  /** The escape of one character. */
  function EscapeChar(c: char): (r: string)
    ensures r != []
  {
    if c == '\\' then "\\\\"
    else if c == '"' then "\\\""
    else if c == '\n' then "\\n"
    else [c]
  }

  /** Reference definition of the escape, character by character. */
  function EscapeChars(s: string): string
    decreases |s|
  {
    if s == [] then [] else EscapeChar(s[0]) + EscapeChars(s[1..])
  }

  /** The three passes applied to a single character. */
  lemma EscapeOfChar(c: char)
    ensures Escape([c]) == EscapeChar(c)
  {
    ReplaceCharSingle(c, '\\', "\\\\");
    var r1 := CharReplace(c, '\\', "\\\\");
    if c == '\\' {
      ReplaceAllAbsent(r1, "\"", "\\\"");
      ReplaceAllAbsent(r1, "\n", "\\n");
    } else {
      ReplaceCharSingle(c, '"', "\\\"");
      var r2 := CharReplace(c, '"', "\\\"");
      if c == '"' {
        ReplaceAllAbsent(r2, "\n", "\\n");
      } else {
        ReplaceCharSingle(c, '\n', "\\n");
      }
    }
  }

  /** The three sequential global replaces equal the character-by-character escape. */
  lemma {:induction false} EscapeIsCharwise(s: string)
    ensures Escape(s) == EscapeChars(s)
    decreases |s|
  {
    if s == [] {
    } else {
      var c, t := s[0], s[1..];
      assert s == [c] + t;
      var r1a, r1b := ReplaceAll([c], "\\", "\\\\"), ReplaceAll(t, "\\", "\\\\");
      ReplaceCharAppend([c], t, '\\', "\\\\");
      var r2a, r2b := ReplaceAll(r1a, "\"", "\\\""), ReplaceAll(r1b, "\"", "\\\"");
      ReplaceCharAppend(r1a, r1b, '"', "\\\"");
      ReplaceCharAppend(r2a, r2b, '\n', "\\n");
      EscapeOfChar(c);
      EscapeIsCharwise(t);
      calc {
        Escape(s);
        ReplaceAll(r2a + r2b, "\n", "\\n");
        Escape([c]) + Escape(t);
        EscapeChar(c) + EscapeChars(t);
      }
    }
  }

  /** Characters of an escaped text other than `\`, `"` and `n` come from the input, and none is a newline. */
  lemma {:induction false} EscapeCharsFrom(s: string, c: char)
    requires c in EscapeChars(s) && c != '\\' && c != '"' && c != 'n'
    ensures c in s && c != '\n'
    decreases |s|
  {
    if s != [] {
      assert EscapeChars(s) == EscapeChar(s[0]) + EscapeChars(s[1..]);
      if c in EscapeChar(s[0]) {
        assert c == s[0];
      } else {
        EscapeCharsFrom(s[1..], c);
      }
    }
  }

  /** The escaped title holds no newline, so it stays on the title line. */
  lemma EscapeHasNoNewline(s: string)
    ensures '\n' !in Escape(s)
  {
    EscapeIsCharwise(s);
    if '\n' in EscapeChars(s) {
      EscapeCharsFrom(s, '\n');
    }
  }

  /** A text with no carriage return or U+2028/U+2029 escapes to a text with no line terminator. */
  lemma EscapeNoLineTerminator(s: string)
    requires '\r' !in s && '\U{2028}' !in s && '\U{2029}' !in s
    ensures NoLineTerminator(Escape(s))
  {
    EscapeIsCharwise(s);
    var e := EscapeChars(s);
    forall i | 0 <= i < |e|
      ensures !IsLineTerminator(e[i])
    {
      if IsLineTerminator(e[i]) {
        EscapeCharsFrom(s, e[i]);
      }
    }
  }

  /** The escape adds a `"` only where the input had one. */
  lemma EscapeQuoteFree(s: string)
    requires '"' !in s
    ensures '"' !in Escape(s)
  {
    EscapeIsCharwise(s);
    EscapeCharsQuoteFree(s);
  }

  lemma {:induction false} EscapeCharsQuoteFree(s: string)
    requires '"' !in s
    ensures '"' !in EscapeChars(s)
    decreases |s|
  {
    if s != [] {
      assert s[0] in s && forall c :: c in s[1..] ==> c in s;
      EscapeCharsQuoteFree(s[1..]);
    }
  }

  /** Text with none of the three special characters is written as it is. */
  lemma {:induction false} EscapePlain(s: string)
    requires '\\' !in s && '"' !in s && '\n' !in s
    ensures Escape(s) == s
  {
    ReplaceAllAbsent(s, "\\", "\\\\");
    ReplaceAllAbsent(s, "\"", "\\\"");
    ReplaceAllAbsent(s, "\n", "\\n");
  }

  /** Only quotes escaped: the escape of a backslash-free text after its `\n` pass is undone. */
  function EscapeQuotes(s: string): string
    decreases |s|
  {
    if s == [] then [] else (if s[0] == '"' then "\\\"" else [s[0]]) + EscapeQuotes(s[1..])
  }

  lemma {:induction false} UndoNewlines(s: string)
    requires '\\' !in s
    ensures ReplaceAll(EscapeChars(s), "\\n", "\n") == EscapeQuotes(s)
    decreases |s|
  {
    if s != [] {
      var c, t := s[0], s[1..];
      assert forall x :: x in t ==> x in s;
      UndoNewlines(t);
      var rest := EscapeChars(t);
      if c == '\n' {
        ReplaceAllMatch(rest, "\\n", "\n");
      } else if c == '"' {
        ReplaceAllEscapedQuote(rest);
      } else {
        ReplaceAllSkip(c, rest, "\\n", "\n");
      }
    }
  }

  /** An escaped quote starts no `\n`, and its quote starts no `\n` either. */
  lemma ReplaceAllEscapedQuote(rest: string)
    ensures ReplaceAll("\\\"" + rest, "\\n", "\n") == "\\\"" + ReplaceAll(rest, "\\n", "\n")
  {
    var s := "\\\"" + rest;
    assert s[1..] == ['"'] + rest;
    ReplaceAllMismatch(s, "\\n", "\n");
    ReplaceAllSkip('"', rest, "\\n", "\n");
  }

  /** Where `pat` does not start, the first character is copied. */
  lemma ReplaceAllMismatch(s: string, pat: string, rep: string)
    requires pat != [] && |s| >= |pat| && s[..|pat|] != pat
    ensures ReplaceAll(s, pat, rep) == [s[0]] + ReplaceAll(s[1..], pat, rep)
  {
  }

  lemma {:induction false} UndoQuotes(s: string)
    requires '\\' !in s
    ensures ReplaceAll(EscapeQuotes(s), "\\\"", "\"") == s
    decreases |s|
  {
    if s != [] {
      var c, t := s[0], s[1..];
      assert forall x :: x in t ==> x in s;
      UndoQuotes(t);
      if c == '"' {
        ReplaceAllMatch(EscapeQuotes(t), "\\\"", "\"");
      } else {
        ReplaceAllSkip(c, EscapeQuotes(t), "\\\"", "\"");
      }
      assert s == [c] + t;
    }
  }

  /** `unescapeYaml` undoes `escapeYaml` on every text without a backslash. */
  lemma UnescapeEscape(s: string)
    requires '\\' !in s
    ensures Unescape(Escape(s)) == s
  {
    EscapeIsCharwise(s);
    UndoNewlines(s);
    UndoQuotes(s);
    ReplaceAllAbsent(s, "\\\\", "\\");
  }

  /** A backslash followed by `n` comes back as a backslash followed by a newline. */
  lemma UnescapeEscapeBackslashN()
    ensures Escape("\\n") == "\\\\n"
    ensures Unescape(Escape("\\n")) == "\\\n"
  {
    EscapeIsCharwise("\\n");
    assert EscapeChars("\\n") == "\\\\" + EscapeChars("n");
    assert EscapeChars("n") == "n" + EscapeChars("");
    var e := "\\\\n";
    ReplaceAllMismatch(e, "\\n", "\n");
    assert e[1..] == "\\n";
    ReplaceAllMatch("", "\\n", "\n");
    var s1 := "\\\n";
    assert ReplaceAll(e, "\\n", "\n") == s1;
    assert s1[..2][1] == '\n';
    ReplaceAllMismatch(s1, "\\\"", "\"");
    assert s1[1..] == "\n";
    ReplaceAllMismatch(s1, "\\\\", "\\");
  }

  // ---------------------------------------------------------------------------
  // Numbers: `${n}` (decimal text of a natural number) and `parseInt(text, 10)`
  // ---------------------------------------------------------------------------

  function DigitChar(d: nat): (c: char)
    requires d < 10
    ensures IsDigit(c)
  {
    (48 + d) as char
  }

  /** The value of a decimal digit (zero for any other character, which a capture never holds). */
  function DigitValue(c: char): (d: nat)
    ensures d < 10
    ensures IsDigit(c) ==> d == c as int - 48
  {
    if IsDigit(c) then c as int - 48 else 0
  }

  /** The decimal text of `n`, without leading zeros. */
  function NatToString(n: nat): (r: string)
    ensures r != [] && AllDigits(r)
    ensures n > 0 ==> r[0] != '0'
    decreases n
  {
    if n < 10 then [DigitChar(n)] else NatToString(n / 10) + [DigitChar(n % 10)]
  }

  /** The value of a string of decimal digits, read left to right as `parseInt` does. */
  function ParseDigits(s: string): nat {
    ParseDigitsFrom(0, s)
  }

  /** The value of the digits `s` written after a prefix whose value is `acc`. */
  function ParseDigitsFrom(acc: nat, s: string): nat
    decreases |s|
  {
    if s == [] then acc else ParseDigitsFrom(acc * 10 + DigitValue(s[0]), s[1..])
  }

  /** Reading `a + b` reads `a`, then carries on with `b`. */
  lemma {:induction false} ParseDigitsFromAppend(acc: nat, a: string, b: string)
    ensures ParseDigitsFrom(acc, a + b) == ParseDigitsFrom(ParseDigitsFrom(acc, a), b)
    decreases |a|
  {
    if a != [] {
      assert (a + b)[0] == a[0] && (a + b)[1..] == a[1..] + b;
      ParseDigitsFromAppend(acc * 10 + DigitValue(a[0]), a[1..], b);
    } else {
      assert a + b == b;
    }
  }

  /** A written number reads back as itself. */
  lemma {:induction false} ParseNatToString(n: nat)
    ensures ParseDigits(NatToString(n)) == n
    decreases n
  {
    if n < 10 {
      assert ParseDigitsFrom(DigitValue(DigitChar(n)), []) == n;
    } else {
      ParseNatToString(n / 10);
      ParseDigitsFromAppend(0, NatToString(n / 10), [DigitChar(n % 10)]);
      assert ParseDigitsFrom(n / 10 * 10 + n % 10, []) == n;
    }
  }

  lemma DigitsHaveNoLineTerminator(s: string)
    requires AllDigits(s)
    ensures NoLineTerminator(s)
  {
  }

  // ---------------------------------------------------------------------------
  // The frame: `/^---\n([\s\S]*?)\n---\n([\s\S]*)$/`
  // ---------------------------------------------------------------------------

  const Opening: string := "---\n"
  const Closing: string := "\n---\n"

  /**
   * The lazy group ends at the first occurrence of the closing delimiter; the
   * rest of the text, whatever it holds, is the body.
   */
  function SplitAtClosing(s: string): Option<(string, string)>
    decreases |s|
  {
    if |s| >= |Closing| && s[..|Closing|] == Closing then Some(([], s[|Closing|..]))
    else if s == [] then None
    else match SplitAtClosing(s[1..])
      case Some((fm, body)) => Some(([s[0]] + fm, body))
      case None => None
  }

  /** The front matter and the body, when the text has the frame. */
  function SplitFrame(content: string): Option<(string, string)> {
    if |content| >= |Opening| && content[..|Opening|] == Opening then
      SplitAtClosing(content[|Opening|..])
    else None
  }

  /** Whether the closing delimiter starts at position `k` of `s`. */
  predicate ClosingAt(s: string, k: nat) {
    k + |Closing| <= |s| && s[k..k + |Closing|] == Closing
  }

  /** Past the first character, the delimiter positions of `s` are those of `s[1..]`, shifted. */
  lemma ClosingAtShift(s: string, k: nat)
    requires 1 <= k <= |s|
    ensures ClosingAt(s, k) <==> ClosingAt(s[1..], k - 1)
  {
    if k + |Closing| <= |s| {
      assert s[k..k + |Closing|] == s[1..][k - 1..k - 1 + |Closing|];
    }
  }

  /** The two parts of a split rebuild the text around the delimiter. */
  lemma {:induction false} SplitAtClosingSpec(s: string)
    ensures SplitAtClosing(s).Some? ==>
      s == SplitAtClosing(s).value.0 + Closing + SplitAtClosing(s).value.1
    decreases |s|
  {
    if |s| >= |Closing| && s[..|Closing|] == Closing {
      assert s == [] + Closing + s[|Closing|..];
    } else if s != [] {
      SplitAtClosingSpec(s[1..]);
      if SplitAtClosing(s[1..]).Some? {
        var (fm, body) := SplitAtClosing(s[1..]).value;
        assert s == [s[0]] + s[1..];
        assert s == ([s[0]] + fm) + Closing + body;
      }
    }
  }

  /** The lazy `[\s\S]*?`: the split is at the first delimiter, and fails only when there is none. */
  lemma {:induction false} SplitAtClosingFirst(s: string)
    ensures SplitAtClosing(s).None? ==> forall k :: 0 <= k <= |s| ==> !ClosingAt(s, k)
    ensures SplitAtClosing(s).Some? ==>
      && ClosingAt(s, |SplitAtClosing(s).value.0|)
      && forall k :: 0 <= k < |SplitAtClosing(s).value.0| ==> !ClosingAt(s, k)
    decreases |s|
  {
    if |s| >= |Closing| && s[..|Closing|] == Closing {
      assert ClosingAt(s, 0);
    } else if s != [] {
      SplitAtClosingFirst(s[1..]);
      assert !ClosingAt(s, 0);
      forall k | 1 <= k <= |s| {
        ClosingAtShift(s, k);
      }
    }
  }

  /** A text read with the frame is the opening, the front matter, the first closing delimiter and the body. */
  lemma SplitFrameSpec(content: string)
    ensures SplitFrame(content).Some? ==>
      var (fm, body) := SplitFrame(content).value;
      content == Opening + fm + Closing + body
  {
    if |content| >= |Opening| && content[..|Opening|] == Opening {
      SplitAtClosingSpec(content[|Opening|..]);
      assert content == Opening + content[|Opening|..];
    }
  }

  /** A text without the closing delimiter's newline cannot hide the delimiter. */
  lemma {:induction false} SplitAtClosingLast(line: string, body: string)
    requires '\n' !in line
    ensures SplitAtClosing(line + Closing + body) == Some((line, body))
    decreases |line|
  {
    var s := line + Closing + body;
    if line == [] {
      assert s == Closing + body;
      assert s[..|Closing|] == Closing && s[|Closing|..] == body;
    } else {
      assert s[..|Closing|] != Closing by { assert s[0] == line[0]; }
      assert s[1..] == line[1..] + Closing + body;
      assert line[0] in line && forall c :: c in line[1..] ==> c in line;
      SplitAtClosingLast(line[1..], body);
      assert line == [line[0]] + line[1..];
    }
  }

  /** The prefix of a split result, extended by `p`. */
  function PrependFrame(p: string, r: Option<(string, string)>): Option<(string, string)> {
    match r
    case Some((fm, body)) => Some((p + fm, body))
    case None => None
  }

  /** Where no delimiter starts, the scan moves one character on. */
  lemma SplitAtClosingStep(s: string)
    requires s != []
    requires s[0] != '\n' || (|s| > 1 && s[1] != '-')
    ensures SplitAtClosing(s) == PrependFrame([s[0]], SplitAtClosing(s[1..]))
  {
    if |s| >= |Closing| {
      assert s[..|Closing|][0] == s[0] && s[..|Closing|][1] == s[1];
    }
  }

  /** A delimiter cannot start at the end of a line whose successor does not begin with `-`. */
  lemma {:induction false} SplitAtClosingSkipLine(line: string, rest: string)
    requires '\n' !in line && rest != [] && rest[0] != '-'
    ensures SplitAtClosing(line + "\n" + rest) == PrependFrame(line + "\n", SplitAtClosing(rest))
    decreases |line|
  {
    var s := line + "\n" + rest;
    if line == [] {
      assert s == "\n" + rest && s[1..] == rest;
      SplitAtClosingStep(s);
    } else {
      assert s[0] == line[0] && s[1..] == line[1..] + "\n" + rest;
      SplitAtClosingStep(s);
      assert line[0] in line && forall c :: c in line[1..] ==> c in line;
      SplitAtClosingSkipLine(line[1..], rest);
      assert [line[0]] + (line[1..] + "\n") == line + "\n";
      match SplitAtClosing(rest)
      case Some((fm, body)) =>
        assert [line[0]] + (line[1..] + "\n" + fm) == line + "\n" + fm;
      case None =>
    }
  }

  // ---------------------------------------------------------------------------
  // Lines of the front matter
  // ---------------------------------------------------------------------------

  /** Lines joined by newlines. */
  function JoinLines(ls: seq<string>): string
    requires ls != []
    decreases |ls|
  {
    if |ls| == 1 then ls[0] else ls[0] + "\n" + JoinLines(ls[1..])
  }

  /** Every line free of line terminators, every line after the first non-empty. */
  predicate PlainLines(ls: seq<string>) {
    && (forall i :: 0 <= i < |ls| ==> NoLineTerminator(ls[i]))
    && (forall i :: 1 <= i < |ls| ==> ls[i] != [])
  }

  /** Every line free of `\n`, every line after the first non-empty. */
  predicate NewlineFreeLines(ls: seq<string>) {
    && (forall i :: 0 <= i < |ls| ==> '\n' !in ls[i])
    && (forall i :: 1 <= i < |ls| ==> ls[i] != [])
  }

  lemma PlainLinesNewlineFree(ls: seq<string>)
    requires PlainLines(ls)
    ensures NewlineFreeLines(ls)
  {
    forall i | 0 <= i < |ls| ensures '\n' !in ls[i] {
      assert forall j :: 0 <= j < |ls[i]| ==> !IsLineTerminator(ls[i][j]);
    }
  }

  /**
   * Framing is undone correctly when no line after the first starts with `-`; only `\n`
   * separates lines here, as the delimiter is `\n---\n`.
   */
  lemma {:induction false} SplitJoinLines(ls: seq<string>, body: string)
    requires ls != [] && NewlineFreeLines(ls)
    requires forall i :: 1 <= i < |ls| ==> ls[i][0] != '-'
    ensures SplitAtClosing(JoinLines(ls) + Closing + body) == Some((JoinLines(ls), body))
    decreases |ls|
  {
    if |ls| == 1 {
      SplitAtClosingLast(ls[0], body);
    } else {
      var tail := ls[1..];
      assert NewlineFreeLines(tail) by {
        assert forall i :: 0 <= i < |tail| ==> tail[i] == ls[i + 1];
      }
      SplitJoinLines(tail, body);
      var rest := JoinLines(tail) + Closing + body;
      assert tail[0] != [] && rest[0] == JoinLines(tail)[0];
      JoinLinesHead(tail);
      SplitAtClosingSkipLine(ls[0], rest);
      assert JoinLines(ls) + Closing + body == ls[0] + "\n" + rest;
    }
  }

  lemma JoinLinesHead(ls: seq<string>)
    requires ls != [] && ls[0] != []
    ensures JoinLines(ls) != [] && JoinLines(ls)[0] == ls[0][0]
  {
  }

  // ---------------------------------------------------------------------------
  // The field patterns: `/^key:\s*"([^"]+)"/m` and `/^key:\s*(\d+)/m`
  // ---------------------------------------------------------------------------

  datatype FieldKind = Quoted | Digits

  /** The text with its leading JavaScript whitespace removed (`\s*` is greedy). */
  function DropSpaces(s: string): string
    decreases |s|
  {
    if s != [] && IsJsSpace(s[0]) then DropSpaces(s[1..]) else s
  }

  /** The longest prefix without a quote (`[^"]+` is greedy). */
  function TakeNonQuote(s: string): string
    decreases |s|
  {
    if s == [] || s[0] == '"' then [] else [s[0]] + TakeNonQuote(s[1..])
  }

  /** The longest prefix of digits (`\d+` is greedy). */
  function TakeDigits(s: string): string
    decreases |s|
  {
    if s == [] || !IsDigit(s[0]) then [] else [s[0]] + TakeDigits(s[1..])
  }

  /** What `\s*` skips is whitespace, and what follows does not start with whitespace. */
  lemma {:induction false} DropSpacesSpec(s: string)
    ensures var r := DropSpaces(s);
      && |r| <= |s| && r == s[|s| - |r|..]
      && (r == [] || !IsJsSpace(r[0]))
      && forall i :: 0 <= i < |s| - |r| ==> IsJsSpace(s[i])
    decreases |s|
  {
    if s != [] && IsJsSpace(s[0]) {
      DropSpacesSpec(s[1..]);
    }
  }

  /** The non-quote run is a quote-free prefix that ends at a quote or at the end. */
  lemma {:induction false} TakeNonQuoteSpec(s: string)
    ensures var r := TakeNonQuote(s);
      && |r| <= |s| && r == s[..|r|]
      && '"' !in r
      && (|r| < |s| ==> s[|r|] == '"')
    decreases |s|
  {
    if !(s == [] || s[0] == '"') {
      TakeNonQuoteSpec(s[1..]);
    }
  }

  /** The digit run is a prefix of digits that ends at a non-digit or at the end. */
  lemma {:induction false} TakeDigitsSpec(s: string)
    ensures var r := TakeDigits(s);
      && |r| <= |s| && r == s[..|r|]
      && AllDigits(r)
      && (|r| < |s| ==> !IsDigit(s[|r|]))
    decreases |s|
  {
    if !(s == [] || !IsDigit(s[0])) {
      TakeDigitsSpec(s[1..]);
    }
  }

  /** A quoted value: `"`, then at least one non-quote character up to the next `"`. */
  function MatchValue(t: string, kind: FieldKind): Option<string> {
    var u := DropSpaces(t);
    match kind
    case Quoted =>
      if u != [] && u[0] == '"' then
        var c := TakeNonQuote(u[1..]);
        if c != [] && |c| < |u[1..]| then Some(c) else None
      else None
    case Digits =>
      var d := TakeDigits(u);
      if d != [] then Some(d) else None
  }

  /** The capture of the pattern anchored at the start of `t`. */
  function MatchHere(t: string, key: string, kind: FieldKind): Option<string> {
    if |key| <= |t| && t[..|key|] == key then MatchValue(t[|key|..], kind) else None
  }

  /**
   * `String.prototype.match` with the `m` flag: the first position, scanning
   * left to right, that is a line start and where the pattern matches.
   * `atStart` says whether the current position is a line start.
   */
  function Search(s: string, key: string, kind: FieldKind, atStart: bool): Option<string>
    decreases |s|
  {
    if atStart && MatchHere(s, key, kind).Some? then MatchHere(s, key, kind)
    else if s == [] then None
    else Search(s[1..], key, kind, IsLineTerminator(s[0]))
  }

  function Find(s: string, key: string, kind: FieldKind): Option<string> {
    Search(s, key, kind, true)
  }

  /** A capture is never empty; a number is digits, a quoted value has no quote. */
  predicate CaptureShape(r: Option<string>, kind: FieldKind) {
    r.Some? ==> r.value != [] && (kind == Digits ==> AllDigits(r.value)) && (kind == Quoted ==> '"' !in r.value)
  }

  lemma MatchHereShape(t: string, key: string, kind: FieldKind)
    ensures CaptureShape(MatchHere(t, key, kind), kind)
  {
    if |key| <= |t| && t[..|key|] == key {
      var u := DropSpaces(t[|key|..]);
      if kind == Quoted && u != [] {
        TakeNonQuoteSpec(u[1..]);
      } else {
        TakeDigitsSpec(u);
      }
    }
  }

  lemma {:induction false} SearchShape(s: string, key: string, kind: FieldKind, atStart: bool)
    ensures CaptureShape(Search(s, key, kind, atStart), kind)
    decreases |s|
  {
    MatchHereShape(s, key, kind);
    if s != [] {
      SearchShape(s[1..], key, kind, IsLineTerminator(s[0]));
    }
  }

  /** What every field pattern captures: at least one character, digits for a number, no quote for a string. */
  lemma FindShape(s: string, key: string, kind: FieldKind)
    ensures CaptureShape(Find(s, key, kind), kind)
  {
    SearchShape(s, key, kind, true);
  }

  /** Reference definition of the search over a text made of lines: line by line. */
  function SearchLines(ls: seq<string>, key: string, kind: FieldKind): Option<string>
    requires ls != []
    decreases |ls|
  {
    var here := MatchHere(JoinLines(ls), key, kind);
    if here.Some? then here
    else if |ls| == 1 then None
    else SearchLines(ls[1..], key, kind)
  }

  /**
   * Inside a line the anchor cannot match; the search resumes after the line's
   * terminator `sep`, whichever of JavaScript's line terminators it is.
   */
  lemma {:induction false} SearchInsideLine(line: string, sep: char, rest: string, key: string, kind: FieldKind)
    requires NoLineTerminator(line) && IsLineTerminator(sep)
    ensures Search(line + [sep] + rest, key, kind, false) == Search(rest, key, kind, true)
    decreases |line|
  {
    var s := line + [sep] + rest;
    if line == [] {
      assert s[1..] == rest;
    } else {
      assert s[1..] == line[1..] + [sep] + rest;
      SearchInsideLine(line[1..], sep, rest, key, kind);
    }
  }

  /** The anchor cannot match inside the last line either. */
  lemma {:induction false} SearchInsideLastLine(line: string, key: string, kind: FieldKind)
    requires NoLineTerminator(line)
    ensures Search(line, key, kind, false) == None
    decreases |line|
  {
    if line != [] {
      SearchInsideLastLine(line[1..], key, kind);
    }
  }

  /** A line where the pattern does not match is skipped as a whole, up to its terminator `sep`. */
  lemma FindSkipLine(line: string, sep: char, rest: string, key: string, kind: FieldKind)
    requires NoLineTerminator(line) && IsLineTerminator(sep)
    requires MatchHere(line + [sep] + rest, key, kind) == None
    ensures Find(line + [sep] + rest, key, kind) == Find(rest, key, kind)
  {
    var s := line + [sep] + rest;
    if line == [] {
      assert s[1..] == rest;
    } else {
      assert s[1..] == line[1..] + [sep] + rest;
      SearchInsideLine(line[1..], sep, rest, key, kind);
    }
  }

  /** On a text made of plain lines the scanner is the line-by-line search. */
  lemma {:induction false} FindInLines(ls: seq<string>, key: string, kind: FieldKind)
    requires ls != [] && PlainLines(ls)
    ensures Find(JoinLines(ls), key, kind) == SearchLines(ls, key, kind)
    decreases |ls|
  {
    if MatchHere(JoinLines(ls), key, kind).None? {
      if |ls| == 1 {
        if ls[0] != [] {
          SearchInsideLastLine(ls[0][1..], key, kind);
        }
      } else {
        var tail := ls[1..];
        assert PlainLines(tail) by {
          assert forall i :: 0 <= i < |tail| ==> tail[i] == ls[i + 1];
        }
        FindInLines(tail, key, kind);
        assert NoLineTerminator(ls[0]);
        assert JoinLines(ls) == ls[0] + ['\n'] + JoinLines(tail);
        FindSkipLine(ls[0], '\n', JoinLines(tail), key, kind);
      }
    }
  }

  /** A line that begins with another letter than the key does not match. */
  lemma MatchHereOtherKey(ls: seq<string>, key: string, kind: FieldKind)
    requires ls != [] && ls[0] != [] && key != [] && ls[0][0] != key[0]
    ensures MatchHere(JoinLines(ls), key, kind) == None
  {
    JoinLinesHead(ls);
    if |key| <= |JoinLines(ls)| {
      assert JoinLines(ls)[..|key|][0] == ls[0][0];
    }
  }

  /** A text that starts with the key is matched by its value pattern after the key. */
  lemma MatchHereKey(key: string, x: string, kind: FieldKind)
    ensures MatchHere(key + x, key, kind) == MatchValue(x, kind)
  {
    assert (key + x)[..|key|] == key;
    assert (key + x)[|key|..] == x;
  }

  /** One space before a text that does not begin with whitespace is skipped. */
  lemma DropOneSpace(x: string)
    requires x == [] || !IsJsSpace(x[0])
    ensures DropSpaces(" " + x) == x
  {
    assert (" " + x)[1..] == x;
  }

  /** `key "v"…`: the capture is the part of `v` up to its first quote, if that is not empty. */
  lemma MatchQuotedLine(key: string, v: string, rest: string)
    ensures MatchHere(key + (" \"" + (v + ("\"" + rest))), key, Quoted) ==
      (var c := TakeNonQuote(v); if c != [] then Some(c) else None)
  {
    var u := "\"" + (v + ("\"" + rest));
    assert " \"" + (v + ("\"" + rest)) == " " + u;
    MatchHereKey(key, " " + u, Quoted);
    MatchQuotedValue(v, rest);
  }

  lemma MatchQuotedValue(v: string, rest: string)
    ensures MatchValue(" " + ("\"" + (v + ("\"" + rest))), Quoted) ==
      (var c := TakeNonQuote(v); if c != [] then Some(c) else None)
  {
    var u := "\"" + (v + ("\"" + rest));
    DropOneSpace(u);
    assert u[0] == '"' && u[1..] == v + ("\"" + rest);
    TakeNonQuoteUpTo(v, rest);
  }

  /** The non-quote run stops at the first quote of `v`, or at the quote after it. */
  lemma {:induction false} TakeNonQuoteUpTo(v: string, rest: string)
    ensures TakeNonQuote(v + ("\"" + rest)) == TakeNonQuote(v)
    ensures |TakeNonQuote(v)| < |v + ("\"" + rest)|
    decreases |v|
  {
    if v != [] {
      assert (v + ("\"" + rest))[1..] == v[1..] + ("\"" + rest);
      TakeNonQuoteUpTo(v[1..], rest);
    }
  }

  /** `key digits…`: the capture is the digits. */
  lemma MatchDigitsLine(key: string, d: string, rest: string)
    requires d != [] && AllDigits(d)
    requires rest == [] || !IsDigit(rest[0])
    ensures MatchHere(key + (" " + (d + rest)), key, Digits) == Some(d)
  {
    MatchHereKey(key, " " + (d + rest), Digits);
    DropOneSpace(d + rest);
    TakeDigitsUpTo(d, rest);
  }

  lemma {:induction false} TakeDigitsUpTo(d: string, rest: string)
    requires AllDigits(d)
    requires rest == [] || !IsDigit(rest[0])
    ensures TakeDigits(d + rest) == d
    decreases |d|
  {
    if d != [] {
      assert (d + rest)[1..] == d[1..] + rest;
      TakeDigitsUpTo(d[1..], rest);
      assert d == [d[0]] + d[1..];
    } else {
      assert d + rest == rest;
    }
  }

  /** `key undefined`: no digits follow the key. */
  lemma MatchUndefinedLine(key: string, rest: string)
    ensures MatchHere(key + (" " + ("undefined" + rest)), key, Digits) == None
  {
    MatchHereKey(key, " " + ("undefined" + rest), Digits);
    DropOneSpace("undefined" + rest);
  }

  /** The first line that starts with the key's letter decides the search when no later line does. */
  lemma {:induction false} SearchLinesNone(ls: seq<string>, key: string, kind: FieldKind)
    requires ls != [] && key != []
    requires forall i :: 0 <= i < |ls| ==> ls[i] != [] && ls[i][0] != key[0]
    ensures SearchLines(ls, key, kind) == None
    decreases |ls|
  {
    MatchHereOtherKey(ls, key, kind);
    if |ls| > 1 {
      SearchLinesNone(ls[1..], key, kind);
    }
  }

  lemma SearchLinesFirst(ls: seq<string>, key: string, kind: FieldKind)
    requires ls != [] && key != []
    requires forall i :: 1 <= i < |ls| ==> ls[i] != [] && ls[i][0] != key[0]
    ensures SearchLines(ls, key, kind) == MatchHere(JoinLines(ls), key, kind)
  {
    if |ls| > 1 {
      SearchLinesNone(ls[1..], key, kind);
    }
  }

  lemma SearchLinesSkip(ls: seq<string>, key: string, kind: FieldKind)
    requires |ls| >= 2 && key != [] && ls[0] != [] && ls[0][0] != key[0]
    ensures SearchLines(ls, key, kind) == SearchLines(ls[1..], key, kind)
  {
    MatchHereOtherKey(ls, key, kind);
  }

  // ---------------------------------------------------------------------------
  // The writer template
  // ---------------------------------------------------------------------------

  /** The five front-matter lines, with the texts as they are interpolated. */
  function FieldLines(idText: string, titleText: string, createdText: string, updatedText: string,
                      orderText: string): (ls: seq<string>)
    ensures |ls| == 5
  {
    [ "id:" + (" \"" + (idText + "\"")),
      "title:" + (" \"" + (titleText + "\"")),
      "createdAt:" + (" " + createdText),
      "updatedAt:" + (" " + updatedText),
      "order:" + (" " + orderText) ]
  }

  /** The template literal of both writers: frame, five lines, body. */
  function Template(idText: string, titleText: string, createdText: string, updatedText: string,
                    orderText: string, body: string): string
  {
    Opening + JoinLines(FieldLines(idText, titleText, createdText, updatedText, orderText)) + Closing + body
  }

  /** `${memo.order}` of a memo whose order may be undefined. */
  function OrderText(order: Option<nat>): (r: string)
    ensures order.Some? ==> r == NatToString(order.value)
    ensures order.None? ==> r == "undefined"
  {
    match order
    case Some(n) => NatToString(n)
    case None => "undefined"
  }

  /** `saveMemoToFile` of backend/src/storage.ts: the file content it writes. */
  function Encode(m: Memo): string {
    Template(m.id, Escape(m.title), NatToString(m.createdAt), NatToString(m.updatedAt),
             NatToString(m.order), m.body)
  }

  /**
   * `saveMemoToFile` of src/storage.ts: the same template with a blank line before the
   * body. Its argument may come from a legacy store, so its order may be missing.
   */
  function EncodeBrowser(m: LegacyMemo): string {
    Template(m.id, Escape(m.title), NatToString(m.createdAt), NatToString(m.updatedAt),
             OrderText(m.order), "\n" + m.body)
  }

  // ---------------------------------------------------------------------------
  // The reader
  // ---------------------------------------------------------------------------

  /**
   * `parseMarkdownFile` of both storage files: `None` where the function returns
   * null. Each field is the first match of its pattern anywhere in the front matter.
   */
  function Decode(content: string): Option<Memo> {
    match SplitFrame(content)
    case None => None
    case Some((fm, body)) =>
      var id := Find(fm, "id:", Quoted);
      var title := Find(fm, "title:", Quoted);
      var createdAt := Find(fm, "createdAt:", Digits);
      var updatedAt := Find(fm, "updatedAt:", Digits);
      var order := Find(fm, "order:", Digits);
      if id.None? || title.None? || createdAt.None? || updatedAt.None? || order.None? then None
      else
        Some(Memo(id.value, Unescape(title.value), body, ParseDigits(createdAt.value),
                  ParseDigits(updatedAt.value), ParseDigits(order.value)))
  }

  /**
   * A memo is read only from a text that opens with `---` and whose front matter
   * has all five fields; its id is never empty and holds no quote, and its
   * timestamps and order are the values of their digit strings.
   */
  lemma DecodeSome(content: string)
    requires Decode(content).Some?
    ensures |content| >= |Opening| && content[..|Opening|] == Opening
    ensures var (fm, body) := SplitFrame(content).value;
      var m := Decode(content).value;
      && AllDigits(Find(fm, "createdAt:", Digits).value)
      && AllDigits(Find(fm, "updatedAt:", Digits).value)
      && AllDigits(Find(fm, "order:", Digits).value)
      && Find(fm, "id:", Quoted) == Some(m.id)
      && m.id != [] && '"' !in m.id
      && Find(fm, "title:", Quoted).Some? && m.title == Unescape(Find(fm, "title:", Quoted).value)
      && Find(fm, "createdAt:", Digits).Some? && m.createdAt == ParseDigits(Find(fm, "createdAt:", Digits).value)
      && Find(fm, "updatedAt:", Digits).Some? && m.updatedAt == ParseDigits(Find(fm, "updatedAt:", Digits).value)
      && Find(fm, "order:", Digits).Some? && m.order == ParseDigits(Find(fm, "order:", Digits).value)
      && m.body == body
  {
    var fm := SplitFrame(content).value.0;
    FindShape(fm, "id:", Quoted);
    FindShape(fm, "createdAt:", Digits);
    FindShape(fm, "updatedAt:", Digits);
    FindShape(fm, "order:", Digits);
  }

  /** Without the frame, or with any of the five fields missing, nothing is read. */
  lemma DecodeNone(content: string)
    requires SplitFrame(content).None? || (
      var fm := SplitFrame(content).value.0;
      || Find(fm, "id:", Quoted).None? || Find(fm, "title:", Quoted).None?
      || Find(fm, "createdAt:", Digits).None? || Find(fm, "updatedAt:", Digits).None?
      || Find(fm, "order:", Digits).None?)
    ensures Decode(content) == None
  {
  }

  // ---------------------------------------------------------------------------
  // Reading what the writer wrote
  // ---------------------------------------------------------------------------

  /** Texts that keep every field on its own line. */
  predicate FieldTextsPlain(idText: string, titleText: string, createdText: string,
                            updatedText: string, orderText: string) {
    NoLineTerminator(idText) && NoLineTerminator(titleText) && NoLineTerminator(createdText)
    && NoLineTerminator(updatedText) && NoLineTerminator(orderText)
  }

  lemma FieldLinesPlain(idText: string, titleText: string, createdText: string,
                        updatedText: string, orderText: string)
    requires FieldTextsPlain(idText, titleText, createdText, updatedText, orderText)
    ensures var ls := FieldLines(idText, titleText, createdText, updatedText, orderText);
      PlainLines(ls) && forall i :: 0 <= i < |ls| ==> ls[i] != []
  {
    var ls := FieldLines(idText, titleText, createdText, updatedText, orderText);
    assert NoLineTerminator(ls[0]) && NoLineTerminator(ls[1]) && NoLineTerminator(ls[2]);
    assert NoLineTerminator(ls[3]) && NoLineTerminator(ls[4]);
  }

  /** The frame around the template's lines is found where the writer put it. */
  lemma FrameOfTemplate(idText: string, titleText: string, createdText: string,
                        updatedText: string, orderText: string, body: string)
    requires FieldTextsPlain(idText, titleText, createdText, updatedText, orderText)
    ensures SplitFrame(Template(idText, titleText, createdText, updatedText, orderText, body))
      == Some((JoinLines(FieldLines(idText, titleText, createdText, updatedText, orderText)), body))
  {
    var ls := FieldLines(idText, titleText, createdText, updatedText, orderText);
    FieldLinesPlain(idText, titleText, createdText, updatedText, orderText);
    PlainLinesNewlineFree(ls);
    SplitJoinLines(ls, body);
    var content := Template(idText, titleText, createdText, updatedText, orderText, body);
    assert content == Opening + (JoinLines(ls) + Closing + body);
    assert content[..|Opening|] == Opening;
    assert content[|Opening|..] == JoinLines(ls) + Closing + body;
  }

  /** Line `k` of `ls` followed by the rest of the front matter. */
  lemma JoinLinesAt(ls: seq<string>, k: nat)
    requires k + 1 < |ls|
    ensures JoinLines(ls[k..]) == ls[k] + ("\n" + JoinLines(ls[k + 1..]))
  {
    assert ls[k..][1..] == ls[k + 1..];
  }

  /** Each line starts with its own letter: `i`, `t`, `c`, `u`, `o`. */
  lemma FieldLinesShape(idText: string, titleText: string, createdText: string,
                        updatedText: string, orderText: string)
    requires FieldTextsPlain(idText, titleText, createdText, updatedText, orderText)
    ensures var ls := FieldLines(idText, titleText, createdText, updatedText, orderText);
      && PlainLines(ls)
      && forall i :: 0 <= i < |ls| ==> ls[i] != [] && ls[i][0] == "itcuo"[i]
  {
    var ls := FieldLines(idText, titleText, createdText, updatedText, orderText);
    FieldLinesPlain(idText, titleText, createdText, updatedText, orderText);
    forall i | 0 <= i < |ls|
      ensures ls[i] != [] && ls[i][0] == "itcuo"[i]
    {
      if i == 0 {} else if i == 1 {} else if i == 2 {} else if i == 3 {} else {}
    }
  }

  /** The only line that starts with the key's letter is line `k`. */
  predicate OnlyLineForKey(ls: seq<string>, k: nat, key: string) {
    && k < |ls| && key != []
    && (forall i :: 0 <= i < |ls| ==> ls[i] != [])
    && (forall i :: 0 <= i < |ls| && i != k ==> ls[i][0] != key[0])
  }

  lemma {:induction false} SearchLinesFrom(ls: seq<string>, k: nat, key: string, kind: FieldKind)
    requires OnlyLineForKey(ls, k, key)
    ensures SearchLines(ls, key, kind) == MatchHere(JoinLines(ls[k..]), key, kind)
    decreases k
  {
    if k == 0 {
      assert ls[0..] == ls;
      SearchLinesFirst(ls, key, kind);
    } else {
      SearchLinesSkip(ls, key, kind);
      var tail := ls[1..];
      assert tail[k - 1..] == ls[k..];
      assert OnlyLineForKey(tail, k - 1, key) by {
        assert forall i :: 0 <= i < |tail| ==> tail[i] == ls[i + 1];
      }
      SearchLinesFrom(tail, k - 1, key, kind);
    }
  }

  /** A field is read from the one line that starts with its key's letter. */
  lemma FindField(ls: seq<string>, k: nat, key: string, kind: FieldKind)
    requires PlainLines(ls) && OnlyLineForKey(ls, k, key)
    ensures Find(JoinLines(ls), key, kind) == MatchHere(JoinLines(ls[k..]), key, kind)
  {
    FindInLines(ls, key, kind);
    SearchLinesFrom(ls, k, key, kind);
  }

  /** The capture of a quoted field whose text is `v`. */
  function QuotedCapture(v: string): (r: Option<string>)
    ensures r.Some? ==> r.value != [] && '"' !in r.value
    ensures r.None? <==> v == [] || v[0] == '"'
  {
    TakeNonQuoteSpec(v);
    var c := TakeNonQuote(v);
    if c != [] then Some(c) else None
  }

  /** A quoted line followed by the rest of the front matter. */
  lemma QuotedLineMatch(key: string, v: string, rest: string)
    ensures MatchHere((key + (" \"" + (v + "\""))) + rest, key, Quoted) == QuotedCapture(v)
  {
    assert (key + (" \"" + (v + "\""))) + rest == key + (" \"" + (v + ("\"" + rest)));
    MatchQuotedLine(key, v, rest);
    if v != [] && v[0] != '"' {
      assert TakeNonQuote(v) != [];
    }
  }

  /** A numeric line followed by the rest of the front matter. */
  lemma NumberLineMatch(key: string, d: string, rest: string)
    requires d != [] && AllDigits(d)
    requires rest == [] || !IsDigit(rest[0])
    ensures MatchHere((key + (" " + d)) + rest, key, Digits) == Some(d)
  {
    assert (key + (" " + d)) + rest == key + (" " + (d + rest));
    MatchDigitsLine(key, d, rest);
  }

  lemma UndefinedLineMatch(key: string, rest: string)
    ensures MatchHere((key + (" " + "undefined")) + rest, key, Digits) == None
  {
    assert (key + (" " + "undefined")) + rest == key + (" " + ("undefined" + rest));
    MatchUndefinedLine(key, rest);
  }

  /** A numeral or the text `undefined`, the two things `${order}` can produce. */
  predicate IsOrderText(t: string) {
    t == "undefined" || (t != [] && AllDigits(t))
  }

  lemma TemplateIdValue(idText: string, titleText: string, createdText: string,
                        updatedText: string, orderText: string)
    requires FieldTextsPlain(idText, titleText, createdText, updatedText, orderText)
    ensures Find(JoinLines(FieldLines(idText, titleText, createdText, updatedText, orderText)), "id:", Quoted)
      == QuotedCapture(idText)
  {
    var ls := FieldLines(idText, titleText, createdText, updatedText, orderText);
    FieldLinesShape(idText, titleText, createdText, updatedText, orderText);
    FindField(ls, 0, "id:", Quoted);
    JoinLinesAt(ls, 0);
    assert ls[0..] == ls;
    QuotedLineMatch("id:", idText, "\n" + JoinLines(ls[1..]));
  }

  lemma TemplateTitleValue(idText: string, titleText: string, createdText: string,
                           updatedText: string, orderText: string)
    requires FieldTextsPlain(idText, titleText, createdText, updatedText, orderText)
    ensures Find(JoinLines(FieldLines(idText, titleText, createdText, updatedText, orderText)), "title:", Quoted)
      == QuotedCapture(titleText)
  {
    var ls := FieldLines(idText, titleText, createdText, updatedText, orderText);
    FieldLinesShape(idText, titleText, createdText, updatedText, orderText);
    FindField(ls, 1, "title:", Quoted);
    JoinLinesAt(ls, 1);
    QuotedLineMatch("title:", titleText, "\n" + JoinLines(ls[2..]));
  }

  lemma TemplateCreatedValue(idText: string, titleText: string, createdText: string,
                             updatedText: string, orderText: string)
    requires FieldTextsPlain(idText, titleText, createdText, updatedText, orderText)
    requires createdText != [] && AllDigits(createdText)
    ensures Find(JoinLines(FieldLines(idText, titleText, createdText, updatedText, orderText)), "createdAt:", Digits)
      == Some(createdText)
  {
    var ls := FieldLines(idText, titleText, createdText, updatedText, orderText);
    FieldLinesShape(idText, titleText, createdText, updatedText, orderText);
    FindField(ls, 2, "createdAt:", Digits);
    JoinLinesAt(ls, 2);
    NumberLineMatch("createdAt:", createdText, "\n" + JoinLines(ls[3..]));
  }

  lemma TemplateUpdatedValue(idText: string, titleText: string, createdText: string,
                             updatedText: string, orderText: string)
    requires FieldTextsPlain(idText, titleText, createdText, updatedText, orderText)
    requires updatedText != [] && AllDigits(updatedText)
    ensures Find(JoinLines(FieldLines(idText, titleText, createdText, updatedText, orderText)), "updatedAt:", Digits)
      == Some(updatedText)
  {
    var ls := FieldLines(idText, titleText, createdText, updatedText, orderText);
    FieldLinesShape(idText, titleText, createdText, updatedText, orderText);
    FindField(ls, 3, "updatedAt:", Digits);
    JoinLinesAt(ls, 3);
    NumberLineMatch("updatedAt:", updatedText, "\n" + JoinLines(ls[4..]));
  }

  lemma TemplateOrderValue(idText: string, titleText: string, createdText: string,
                           updatedText: string, orderText: string)
    requires FieldTextsPlain(idText, titleText, createdText, updatedText, orderText)
    requires IsOrderText(orderText)
    ensures Find(JoinLines(FieldLines(idText, titleText, createdText, updatedText, orderText)), "order:", Digits)
      == (if orderText == "undefined" then None else Some(orderText))
  {
    var ls := FieldLines(idText, titleText, createdText, updatedText, orderText);
    FieldLinesShape(idText, titleText, createdText, updatedText, orderText);
    FindField(ls, 4, "order:", Digits);
    assert ls[4..] == [ls[4]];
    assert ls[4] + [] == ls[4];
    if orderText == "undefined" {
      UndefinedLineMatch("order:", []);
    } else {
      NumberLineMatch("order:", orderText, []);
    }
  }

  /**
   * What the reader makes of any text the writer template produces, as long as
   * every field stays on its own line: the id and title are cut at their first
   * quote and must not be empty there, and an undefined order is not read.
   */
  lemma DecodeTemplate(idText: string, titleText: string, createdText: string,
                       updatedText: string, orderText: string, body: string)
    requires FieldTextsPlain(idText, titleText, createdText, updatedText, orderText)
    requires createdText != [] && AllDigits(createdText)
    requires updatedText != [] && AllDigits(updatedText)
    requires IsOrderText(orderText)
    ensures Decode(Template(idText, titleText, createdText, updatedText, orderText, body)) ==
      var id, title := QuotedCapture(idText), QuotedCapture(titleText);
      if id.Some? && title.Some? && orderText != "undefined" then
        Some(Memo(id.value, Unescape(title.value), body, ParseDigits(createdText),
                  ParseDigits(updatedText), ParseDigits(orderText)))
      else None
  {
    FrameOfTemplate(idText, titleText, createdText, updatedText, orderText, body);
    TemplateIdValue(idText, titleText, createdText, updatedText, orderText);
    TemplateTitleValue(idText, titleText, createdText, updatedText, orderText);
    TemplateCreatedValue(idText, titleText, createdText, updatedText, orderText);
    TemplateUpdatedValue(idText, titleText, createdText, updatedText, orderText);
    TemplateOrderValue(idText, titleText, createdText, updatedText, orderText);
  }

  // ---------------------------------------------------------------------------
  // Round trips of memos
  // ---------------------------------------------------------------------------

  /** An id the reader gets back whole: not empty, no quote, on one line. */
  predicate StorableId(id: string) {
    id != [] && '"' !in id && NoLineTerminator(id)
  }

  /** A title whose escape stays on the title line (newlines themselves are escaped). */
  predicate OneLineTitle(title: string) {
    '\r' !in title && '\U{2028}' !in title && '\U{2029}' !in title
  }

  lemma {:induction false} TakeNonQuoteWhole(v: string)
    requires '"' !in v
    ensures TakeNonQuote(v) == v
    decreases |v|
  {
    if v != [] {
      assert forall c :: c in v[1..] ==> c in v;
      TakeNonQuoteWhole(v[1..]);
      assert v == [v[0]] + v[1..];
    }
  }

  lemma NumeralsPlain(n: nat)
    ensures NoLineTerminator(NatToString(n)) && IsOrderText(NatToString(n))
  {
    DigitsHaveNoLineTerminator(NatToString(n));
  }

  /**
   * What the backend reads back from the file it wrote for `m`: the title is cut at
   * the first quote of its escape and unescaped, and the memo is lost when that cut
   * is empty. Every other field comes back as it was.
   */
  lemma DecodeEncode(m: Memo)
    requires StorableId(m.id) && OneLineTitle(m.title)
    ensures Decode(Encode(m)) ==
      match QuotedCapture(Escape(m.title))
      case Some(c) => Some(m.(title := Unescape(c)))
      case None => None
  {
    var c, u, o := NatToString(m.createdAt), NatToString(m.updatedAt), NatToString(m.order);
    NumeralsPlain(m.createdAt);
    NumeralsPlain(m.updatedAt);
    NumeralsPlain(m.order);
    EscapeNoLineTerminator(m.title);
    DecodeTemplate(m.id, Escape(m.title), c, u, o, m.body);
    TakeNonQuoteWhole(m.id);
    ParseNatToString(m.createdAt);
    ParseNatToString(m.updatedAt);
    ParseNatToString(m.order);
    assert o != "undefined" by { assert o[0] != 'u'; }
  }

  /** An escape is empty exactly when its text is. */
  lemma EscapeEmpty(s: string)
    ensures Escape(s) == [] <==> s == []
  {
    EscapeIsCharwise(s);
  }

  /** A memo with a storable id and a title without quotes or backslashes is read back unchanged. */
  lemma RoundTrip(m: Memo)
    requires StorableId(m.id) && OneLineTitle(m.title)
    requires m.title != [] && '"' !in m.title && '\\' !in m.title
    ensures Decode(Encode(m)) == Some(m)
  {
    DecodeEncode(m);
    EscapeQuoteFree(m.title);
    TakeNonQuoteWhole(Escape(m.title));
    EscapeEmpty(m.title);
    UnescapeEscape(m.title);
  }

  /** A memo with an empty title is written but never read back. */
  lemma EmptyTitleLost(m: Memo)
    requires StorableId(m.id) && m.title == []
    ensures Decode(Encode(m)) == None
  {
    DecodeEncode(m);
    EscapeEmpty(m.title);
  }

  /** A quote in the title cuts it: `a"b` comes back as `a\`. */
  lemma QuoteInTitleCut(m: Memo)
    requires StorableId(m.id) && m.title == "a\"b"
    ensures Decode(Encode(m)) == Some(m.(title := "a\\"))
  {
    DecodeEncode(m);
    EscapeOfQuotedExample();
    CaptureOfQuotedExample();
    UnescapeOfCutExample();
  }

  lemma EscapeOfQuotedExample()
    ensures Escape("a\"b") == "a\\\"b"
  {
    EscapeIsCharwise("a\"b");
    assert EscapeChars("a\"b") == "a" + EscapeChars("\"b");
    assert EscapeChars("\"b") == "\\\"" + EscapeChars("b");
    assert EscapeChars("b") == "b" + EscapeChars("");
  }

  lemma CaptureOfQuotedExample()
    ensures QuotedCapture("a\\\"b") == Some("a\\")
  {
    var e := "a\\\"b";
    assert e[1..] == "\\\"b" && e[1..][1..] == "\"b";
    assert TakeNonQuote(e) == "a" + TakeNonQuote("\\\"b");
    assert TakeNonQuote("\\\"b") == "\\" + TakeNonQuote("\"b");
    assert TakeNonQuote("\"b") == [];
    assert TakeNonQuote(e) == "a\\";
  }

  lemma UnescapeOfCutExample()
    ensures Unescape("a\\") == "a\\"
  {
    var cut := "a\\";
    assert cut[1..] == "\\" && cut[..2] == cut && cut[0] == 'a';
    ReplaceAllMismatch(cut, "\\n", "\n");
    ReplaceAllMismatch(cut, "\\\"", "\"");
    ReplaceAllMismatch(cut, "\\\\", "\\");
  }

  /**
   * Under the `m` flag `^` also matches right after a `\r`, so a title holding
   * `\rorder: 9` plants an order line inside the title line. It comes before the real
   * `order:` line, and the memo is read back with order 9 whatever order it was saved with.
   */
  lemma CarriageReturnInTitleSetsOrder(m: Memo)
    requires StorableId(m.id) && m.title == "a\rorder: 9"
    ensures Decode(Encode(m)) == Some(m.(order := 9))
  {
    var t := m.title;
    var c, u, o := NatToString(m.createdAt), NatToString(m.updatedAt), NatToString(m.order);
    NumeralsPlain(m.createdAt);
    NumeralsPlain(m.updatedAt);
    NumeralsPlain(m.order);
    ParseNatToString(m.createdAt);
    ParseNatToString(m.updatedAt);
    EscapePlain(t);
    UnescapeEscape(t);
    assert Encode(m) == Template(m.id, t, c, u, o, m.body);
    PlantedFrame(m.id, c, u, o, m.body);
    var fm := JoinLines(FieldLines(m.id, t, c, u, o));
    PlantedId(m.id, c, u, o);
    PlantedTitle(m.id, c, u, o);
    PlantedOrder(m.id, c, u, o);
    PlantedNumbers(m.id, c, u, o);
    DecodeOfFields(Encode(m), fm, m.body, m.id, t, c, u, "9");
    ParseNine();
  }

  /** A frame and five captures decide what `parseMarkdownFile` returns. */
  lemma DecodeOfFields(content: string, fm: string, body: string, id: string, title: string,
                       c: string, u: string, o: string)
    requires SplitFrame(content) == Some((fm, body))
    requires Find(fm, "id:", Quoted) == Some(id) && Find(fm, "title:", Quoted) == Some(title)
    requires Find(fm, "createdAt:", Digits) == Some(c) && Find(fm, "updatedAt:", Digits) == Some(u)
    requires Find(fm, "order:", Digits) == Some(o)
    ensures Decode(content) == Some(Memo(id, Unescape(title), body, ParseDigits(c), ParseDigits(u), ParseDigits(o)))
  {
  }

  lemma ParseNine()
    ensures ParseDigits("9") == 9
  {
    assert "9"[1..] == [];
  }

  /** The numerals and the id of the planted example. */
  predicate PlantedTexts(id: string, c: string, u: string, o: string) {
    && StorableId(id)
    && c != [] && AllDigits(c) && NoLineTerminator(c)
    && u != [] && AllDigits(u) && NoLineTerminator(u)
    && NoLineTerminator(o)
  }

  lemma PlantedFrame(id: string, c: string, u: string, o: string, body: string)
    requires PlantedTexts(id, c, u, o)
    ensures SplitFrame(Template(id, "a\rorder: 9", c, u, o, body))
      == Some((JoinLines(FieldLines(id, "a\rorder: 9", c, u, o)), body))
  {
    var ls := FieldLines(id, "a\rorder: 9", c, u, o);
    assert NewlineFreeLines(ls) by {
      forall i | 0 <= i < |ls| ensures '\n' !in ls[i] {
        if i == 0 {
          assert forall j :: 0 <= j < |id| ==> !IsLineTerminator(id[j]);
        } else if i == 2 {
          assert forall j :: 0 <= j < |c| ==> !IsLineTerminator(c[j]);
        } else if i == 3 {
          assert forall j :: 0 <= j < |u| ==> !IsLineTerminator(u[j]);
        } else if i == 4 {
          assert forall j :: 0 <= j < |o| ==> !IsLineTerminator(o[j]);
        }
      }
    }
    SplitJoinLines(ls, body);
    var content := Template(id, "a\rorder: 9", c, u, o, body);
    assert content == Opening + (JoinLines(ls) + Closing + body);
    assert content[..|Opening|] == Opening && content[|Opening|..] == JoinLines(ls) + Closing + body;
  }

  /** The planted title line is `title: "a`, a `\r`, and `order: 9"`. */
  lemma PlantedShape(id: string, c: string, u: string, o: string)
    requires PlantedTexts(id, c, u, o)
    ensures var ls := FieldLines(id, "a\rorder: 9", c, u, o);
      && NoLineTerminator(ls[0]) && NoLineTerminator(ls[2])
      && ls[1] == "title: \"a" + ['\r'] + "order: 9\""
  {
    var ls := FieldLines(id, "a\rorder: 9", c, u, o);
    assert NoLineTerminator(ls[0]) by {
      assert forall j :: 0 <= j < |id| ==> !IsLineTerminator(id[j]);
    }
    assert NoLineTerminator(ls[2]) by {
      assert forall j :: 0 <= j < |c| ==> !IsLineTerminator(c[j]);
    }
  }

  /** The front matter split after its first line, with the planted line exposed. */
  lemma PlantedLines(id: string, c: string, u: string, o: string)
    requires PlantedTexts(id, c, u, o)
    ensures var ls := FieldLines(id, "a\rorder: 9", c, u, o);
      && JoinLines(ls) == ls[0] + ['\n'] + JoinLines(ls[1..])
      && JoinLines(ls[1..]) == "title: \"a" + ['\r'] + ("order: 9\"" + ['\n'] + JoinLines(ls[2..]))
  {
    var ls := FieldLines(id, "a\rorder: 9", c, u, o);
    PlantedShape(id, c, u, o);
    JoinLinesAt(ls, 0);
    JoinLinesAt(ls, 1);
    assert ls[0..] == ls;
    Regroup(ls[0], '\n', [], JoinLines(ls[1..]));
    Regroup("title: \"a", '\r', "order: 9\"", JoinLines(ls[2..]));
  }

  /** `a + [sep] + b` followed by a newline and `r`, regrouped. */
  lemma Regroup(a: string, sep: char, b: string, r: string)
    ensures (a + [sep] + b) + ("\n" + r) == a + [sep] + (b + ['\n'] + r)
    ensures a + ("\n" + r) == a + ['\n'] + r
  {
  }

  lemma PlantedId(id: string, c: string, u: string, o: string)
    requires PlantedTexts(id, c, u, o)
    ensures Find(JoinLines(FieldLines(id, "a\rorder: 9", c, u, o)), "id:", Quoted) == Some(id)
  {
    var ls := FieldLines(id, "a\rorder: 9", c, u, o);
    JoinLinesAt(ls, 0);
    assert ls[0..] == ls;
    assert JoinLines(ls) == ("id:" + (" \"" + (id + "\""))) + ("\n" + JoinLines(ls[1..]));
    QuotedLineMatch("id:", id, "\n" + JoinLines(ls[1..]));
    TakeNonQuoteWhole(id);
  }

  lemma PlantedTitle(id: string, c: string, u: string, o: string)
    requires PlantedTexts(id, c, u, o)
    ensures Find(JoinLines(FieldLines(id, "a\rorder: 9", c, u, o)), "title:", Quoted) == Some("a\rorder: 9")
  {
    var ls := FieldLines(id, "a\rorder: 9", c, u, o);
    PlantedShape(id, c, u, o);
    PlantedLines(id, c, u, o);
    MatchHereOtherStart(JoinLines(ls), "title:", Quoted);
    FindSkipLine(ls[0], '\n', JoinLines(ls[1..]), "title:", Quoted);
    JoinLinesAt(ls, 1);
    assert JoinLines(ls[1..]) == ("title:" + (" \"" + ("a\rorder: 9" + "\""))) + ("\n" + JoinLines(ls[2..]));
    QuotedLineMatch("title:", "a\rorder: 9", "\n" + JoinLines(ls[2..]));
    TakeNonQuoteWhole("a\rorder: 9");
  }

  lemma PlantedOrder(id: string, c: string, u: string, o: string)
    requires PlantedTexts(id, c, u, o)
    ensures Find(JoinLines(FieldLines(id, "a\rorder: 9", c, u, o)), "order:", Digits) == Some("9")
  {
    var ls := FieldLines(id, "a\rorder: 9", c, u, o);
    PlantedShape(id, c, u, o);
    PlantedLines(id, c, u, o);
    var r2 := JoinLines(ls[2..]);
    MatchHereOtherStart(JoinLines(ls), "order:", Digits);
    FindSkipLine(ls[0], '\n', JoinLines(ls[1..]), "order:", Digits);
    MatchHereOtherStart(JoinLines(ls[1..]), "order:", Digits);
    FindSkipLine("title: \"a", '\r', "order: 9\"" + ['\n'] + r2, "order:", Digits);
    assert "order: 9\"" + ['\n'] + r2 == ("order:" + (" " + "9")) + ("\"\n" + r2);
    NumberLineMatch("order:", "9", "\"\n" + r2);
  }

  lemma PlantedNumbers(id: string, c: string, u: string, o: string)
    requires PlantedTexts(id, c, u, o)
    ensures Find(JoinLines(FieldLines(id, "a\rorder: 9", c, u, o)), "createdAt:", Digits) == Some(c)
    ensures Find(JoinLines(FieldLines(id, "a\rorder: 9", c, u, o)), "updatedAt:", Digits) == Some(u)
  {
    var ls := FieldLines(id, "a\rorder: 9", c, u, o);
    PlantedShape(id, c, u, o);
    PlantedLines(id, c, u, o);
    var r2 := JoinLines(ls[2..]);
    SkipToRealLines(ls, "title: \"a", "order: 9\"", JoinLines(ls[1..]), r2, "createdAt:");
    SkipToRealLines(ls, "title: \"a", "order: 9\"", JoinLines(ls[1..]), r2, "updatedAt:");
    JoinLinesAt(ls, 2);
    JoinLinesAt(ls, 3);
    assert ls[4..] == [ls[4]];
    assert r2 == ("createdAt:" + (" " + c)) + ("\n" + JoinLines(ls[3..]));
    NumberLineMatch("createdAt:", c, "\n" + JoinLines(ls[3..]));
    Regroup(ls[2], '\n', [], JoinLines(ls[3..]));
    MatchHereOtherStart(r2, "updatedAt:", Digits);
    FindSkipLine(ls[2], '\n', JoinLines(ls[3..]), "updatedAt:", Digits);
    assert JoinLines(ls[3..]) == ("updatedAt:" + (" " + u)) + ("\n" + ls[4]);
    NumberLineMatch("updatedAt:", u, "\n" + ls[4]);
  }

  /** A text whose first character differs from the key's does not match at its start. */
  lemma MatchHereOtherStart(t: string, key: string, kind: FieldKind)
    requires t != [] && key != [] && t[0] != key[0]
    ensures MatchHere(t, key, kind) == None
  {
    if |key| <= |t| {
      assert t[..|key|][0] == t[0];
    }
  }

  /** A field whose key starts with neither `i`, `t` nor `o` is searched for past the planted line. */
  lemma SkipToRealLines(ls: seq<string>, a: string, pre: string, r1: string, r2: string, key: string)
    requires |ls| >= 3 && key != [] && key[0] != 'i' && key[0] != 't' && key[0] != 'o'
    requires ls[0] != [] && ls[0][0] == 'i' && NoLineTerminator(ls[0])
    requires a != [] && a[0] == 't' && NoLineTerminator(a)
    requires pre != [] && pre[0] == 'o' && NoLineTerminator(pre)
    requires JoinLines(ls) == ls[0] + ['\n'] + r1 && r1 == a + ['\r'] + (pre + ['\n'] + r2)
    ensures Find(JoinLines(ls), key, Digits) == Find(r2, key, Digits)
  {
    MatchHereOtherStart(JoinLines(ls), key, Digits);
    FindSkipLine(ls[0], '\n', r1, key, Digits);
    MatchHereOtherStart(r1, key, Digits);
    FindSkipLine(a, '\r', pre + ['\n'] + r2, key, Digits);
    MatchHereOtherStart(pre + ['\n'] + r2, key, Digits);
    FindSkipLine(pre, '\n', r2, key, Digits);
  }

  /** The browser's file for a memo is the backend's file for the same memo with a newline before its body. */
  lemma EncodeBrowserIsEncode(m: Memo)
    ensures EncodeBrowser(Lift(m)) == Encode(m.(body := "\n" + m.body))
  {
  }

  /** Reading back what the browser wrote adds a newline at the front of the body. */
  lemma BrowserRoundTrip(m: Memo)
    requires StorableId(m.id) && OneLineTitle(m.title)
    requires m.title != [] && '"' !in m.title && '\\' !in m.title
    ensures Decode(EncodeBrowser(Lift(m))) == Some(m.(body := "\n" + m.body))
  {
    EncodeBrowserIsEncode(m);
    RoundTrip(m.(body := "\n" + m.body));
  }

  /** A legacy memo without an order is written with `order: undefined` and never read back. */
  lemma LegacyWithoutOrderLost(m: LegacyMemo)
    requires m.order.None?
    requires NoLineTerminator(m.id) && OneLineTitle(m.title)
    ensures Decode(EncodeBrowser(m)) == None
  {
    NumeralsPlain(m.createdAt);
    NumeralsPlain(m.updatedAt);
    EscapeNoLineTerminator(m.title);
    DecodeTemplate(m.id, Escape(m.title), NatToString(m.createdAt), NatToString(m.updatedAt),
                   "undefined", "\n" + m.body);
  }
}
