/** Text in exported calendars (routes/calendar_routes.py): the escaping of TEXT values, and the
    content lines it is meant to keep apart, after section 3.3.11 of RFC 5545. */
module IcsText {
  import opened Text

  const CRLF := "\r\n"

  /** `str.replace`: leftmost occurrences, not overlapping. */
  function Replace(s: string, pattern: string, put: string): string
    requires pattern != ""
    decreases |s|
  {
    if |s| < |pattern| then s
    else if s[..|pattern|] == pattern then put + Replace(s[|pattern|..], pattern, put)
    else [s[0]] + Replace(s[1..], pattern, put)
  }

  function EscapePunctuation(s: string): string {
    Replace(Replace(Replace(s, "\\", "\\\\"), ";", "\\;"), ",", "\\,")
  }

  function EscapeNewlines(s: string): string {
    Replace(Replace(Replace(s, CRLF, "\\n"), "\n", "\\n"), "\r", "\\n")
  }

  /** The six replacements, one after the other over the whole text. */
  function Escape(text: string): string {
    EscapeNewlines(EscapePunctuation(text))
  }

  // ---------- One pass ----------

  function EscapeChar(c: char): string {
    match c
    case '\\' => "\\\\"
    case ';' => "\\;"
    case ',' => "\\,"
    case '\n' => "\\n"
    case '\r' => "\\n"
    case _ => [c]
  }

  function EscapeOnce(s: string): string
    decreases |s|
  {
    if s == "" then ""
    else if CRLF <= s then "\\n" + EscapeOnce(s[2..])
    else EscapeChar(s[0]) + EscapeOnce(s[1..])
  }

  lemma {:induction false} ReplaceCharDistributes(a: string, b: string, c: char, put: string)
    ensures Replace(a + b, [c], put) == Replace(a, [c], put) + Replace(b, [c], put)
    decreases |a|
  {
    if a == "" {
      assert a + b == b;
    } else {
      assert (a + b)[1..] == a[1..] + b;
      ReplaceCharDistributes(a[1..], b, c, put);
    }
  }

  lemma {:induction false} ReplaceAbsent(s: string, c: char, put: string)
    requires c !in s
    ensures Replace(s, [c], put) == s
    decreases |s|
  {
    if s != "" {
      assert s[0] in s && s == [s[0]] + s[1..];
      ReplaceAbsent(s[1..], c, put);
    }
  }

  lemma ReplaceSkipsChar(c: char, s: string, put: string)
    requires c != '\r'
    ensures Replace([c] + s, CRLF, put) == [c] + Replace(s, CRLF, put)
  {
    var t := [c] + s;
    assert t[0] == c && t[1..] == s;
    if |t| >= 2 { assert t[..2][0] == c; }
  }

  lemma {:induction false} ReplaceSkips(a: string, b: string, put: string)
    requires '\r' !in a
    ensures Replace(a + b, CRLF, put) == a + Replace(b, CRLF, put)
    decreases |a|
  {
    if a == "" {
      assert a + b == b;
    } else {
      assert a == [a[0]] + a[1..] && a[0] in a;
      assert a + b == [a[0]] + (a[1..] + b);
      ReplaceSkips(a[1..], b, put);
      ReplaceSkipsChar(a[0], a[1..] + b, put);
      assert [a[0]] + (a[1..] + Replace(b, CRLF, put)) == a + Replace(b, CRLF, put);
    }
  }

  function PunctuationChar(c: char): string {
    if c in {'\\', ';', ','} then ['\\', c] else [c]
  }

  lemma PunctuationOfChar(c: char)
    ensures EscapePunctuation([c]) == PunctuationChar(c)
  {
    if c == '\\' {
      assert Replace("\\", "\\", "\\\\") == "\\\\";
      ReplaceAbsent("\\\\", ';', "\\;");
      ReplaceAbsent("\\\\", ',', "\\,");
    } else if c == ';' {
      ReplaceAbsent(";", '\\', "\\\\");
      assert Replace(";", ";", "\\;") == "\\;";
      ReplaceAbsent("\\;", ',', "\\,");
    } else {
      ReplaceAbsent([c], '\\', "\\\\");
      ReplaceAbsent([c], ';', "\\;");
      if c == ',' {
        assert Replace(",", ",", "\\,") == "\\,";
      } else {
        ReplaceAbsent([c], ',', "\\,");
      }
    }
  }

  lemma PunctuationStep(c: char, rest: string)
    ensures EscapePunctuation([c] + rest) == PunctuationChar(c) + EscapePunctuation(rest)
  {
    var r1, c1 := Replace(rest, "\\", "\\\\"), Replace([c], "\\", "\\\\");
    ReplaceCharDistributes([c], rest, '\\', "\\\\");
    ReplaceCharDistributes(c1, r1, ';', "\\;");
    ReplaceCharDistributes(Replace(c1, ";", "\\;"), Replace(r1, ";", "\\;"), ',', "\\,");
    PunctuationOfChar(c);
  }

  /** Escaping punctuation never makes or hides a newline at the front. */
  lemma PunctuationFront(s: string)
    ensures s == "" <==> EscapePunctuation(s) == ""
    ensures s != "" ==> (EscapePunctuation(s)[0] == '\n' <==> s[0] == '\n')
  {
    if s != "" {
      assert s == [s[0]] + s[1..];
      PunctuationStep(s[0], s[1..]);
    }
  }

  /** The last four replacements act on pieces independently, once no pair straddles them. */
  lemma NewlinesStep(a: string, put: string, b: string)
    requires Replace(a + b, CRLF, "\\n") == put + Replace(b, CRLF, "\\n")
    ensures EscapeNewlines(a + b) == Replace(Replace(put, "\n", "\\n"), "\r", "\\n") + EscapeNewlines(b)
  {
    var b1 := Replace(b, CRLF, "\\n");
    ReplaceCharDistributes(put, b1, '\n', "\\n");
    ReplaceCharDistributes(Replace(put, "\n", "\\n"), Replace(b1, "\n", "\\n"), '\r', "\\n");
  }

  lemma EscapeStepBreak(rest: string)
    ensures Escape(CRLF + rest) == "\\n" + Escape(rest)
  {
    assert CRLF + rest == ['\r'] + (['\n'] + rest);
    PunctuationStep('\r', ['\n'] + rest);
    PunctuationStep('\n', rest);
    var tail := EscapePunctuation(rest);
    assert ['\r'] + (['\n'] + tail) == CRLF + tail;
    assert (CRLF + tail)[..2] == CRLF && (CRLF + tail)[2..] == tail;
    NewlinesStep(CRLF, "\\n", tail);
    ReplaceAbsent("\\n", '\n', "\\n");
    ReplaceAbsent("\\n", '\r', "\\n");
  }

  lemma EscapeStepReturn(rest: string)
    requires rest == "" || rest[0] != '\n'
    ensures Escape("\r" + rest) == "\\n" + Escape(rest)
  {
    PunctuationStep('\r', rest);
    PunctuationFront(rest);
    var tail := EscapePunctuation(rest);
    if tail != "" { assert ("\r" + tail)[..2] == ['\r', tail[0]]; }
    assert ("\r" + tail)[1..] == tail;
    NewlinesStep("\r", "\r", tail);
    ReplaceAbsent("\r", '\n', "\\n");
  }

  lemma EscapeStepChar(c: char, rest: string)
    requires c != '\r'
    ensures Escape([c] + rest) == EscapeChar(c) + Escape(rest)
  {
    PunctuationStep(c, rest);
    var tail := EscapePunctuation(rest);
    ReplaceSkips(PunctuationChar(c), tail, "\\n");
    NewlinesStep(PunctuationChar(c), PunctuationChar(c), tail);
    EscapedCharIsFinal(c);
  }

  lemma EscapeStep(s: string)
    requires s != ""
    ensures CRLF <= s ==> Escape(s) == "\\n" + Escape(s[2..])
    ensures !(CRLF <= s) ==> Escape(s) == EscapeChar(s[0]) + Escape(s[1..])
  {
    assert s == [s[0]] + s[1..];
    if CRLF <= s {
      assert s == CRLF + s[2..];
      EscapeStepBreak(s[2..]);
    } else if s[0] == '\r' {
      EscapeStepReturn(s[1..]);
    } else {
      EscapeStepChar(s[0], s[1..]);
    }
  }

  lemma EscapedCharIsFinal(c: char)
    requires c != '\r'
    ensures Replace(Replace(PunctuationChar(c), "\n", "\\n"), "\r", "\\n") == EscapeChar(c)
  {
    var p := PunctuationChar(c);
    if c == '\n' {
      ReplaceAbsent("\\n", '\r', "\\n");
    } else {
      ReplaceAbsent(p, '\n', "\\n");
      ReplaceAbsent(p, '\r', "\\n");
    }
  }

  /** The six sequential replacements are one left-to-right pass. */
  lemma {:induction false} EscapeIsOnePass(s: string)
    ensures Escape(s) == EscapeOnce(s)
    decreases |s|
  {
    if s != "" {
      EscapeStep(s);
      if CRLF <= s {
        EscapeIsOnePass(s[2..]);
      } else {
        EscapeIsOnePass(s[1..]);
      }
    }
  }

  /** What escaping does to each piece: a backslash before a backslash, a semicolon or a comma;
      backslash and n for each line break, a pair being one; all else as it is. */
  lemma EscapedPieces(c: char, rest: string)
    ensures Escape("") == ""
    ensures c in "\\;," ==> Escape([c] + rest) == ['\\', c] + Escape(rest)
    ensures Escape("\r\n" + rest) == "\\n" + Escape(rest)
    ensures c == '\n' || (c == '\r' && (rest == "" || rest[0] != '\n')) ==> Escape([c] + rest) == "\\n" + Escape(rest)
    ensures c !in "\\;,\r\n" ==> Escape([c] + rest) == [c] + Escape(rest)
  {
    EscapeStepBreak(rest);
    if c != '\r' {
      EscapeStepChar(c, rest);
    } else if rest == "" || rest[0] != '\n' {
      EscapeStepReturn(rest);
    }
  }

  // ---------- Decoding ----------

  /** The reader's side of section 3.3.11. */
  function Unescape(s: string): string
    decreases |s|
  {
    if |s| >= 2 && s[0] == '\\' && s[1] in {'n', 'N'} then "\n" + Unescape(s[2..])
    else if |s| >= 2 && s[0] == '\\' && s[1] in {'\\', ';', ','} then [s[1]] + Unescape(s[2..])
    else if s == "" then ""
    else [s[0]] + Unescape(s[1..])
  }

  /** Every line ending written as a single LF. */
  function LfOnly(s: string): string
    decreases |s|
  {
    if s == "" then ""
    else if CRLF <= s then "\n" + LfOnly(s[2..])
    else [if s[0] == '\r' then '\n' else s[0]] + LfOnly(s[1..])
  }

  lemma UnescapePrefix(first: string, c: char, rest: string)
    requires (first == ['\\', c] && c in {'\\', ';', ','}) || (first == "\\n" && c == '\n')
        || (first == [c] && c != '\\')
    ensures Unescape(first + rest) == [c] + Unescape(rest)
  {
    assert (first + rest)[|first|..] == rest;
  }

  /** Decoding an escaped text gives the text back, line endings normalised. */
  lemma {:induction false} UnescapeEscape(s: string)
    ensures Unescape(Escape(s)) == LfOnly(s)
    decreases |s|
  {
    if s != "" {
      EscapeStep(s);
      if CRLF <= s {
        UnescapeEscape(s[2..]);
        UnescapePrefix("\\n", '\n', Escape(s[2..]));
      } else {
        UnescapeEscape(s[1..]);
        UnescapePrefix(EscapeChar(s[0]), if s[0] == '\r' then '\n' else s[0], Escape(s[1..]));
      }
    }
  }

  /** Some backslash stands in front of a character it escapes. */
  ghost predicate HoldsEscape(s: string) {
    exists i :: 0 <= i < |s| - 1 && EscapeAt(s, i)
  }

  predicate EscapeAt(s: string, i: nat)
    requires i < |s| - 1
  {
    s[i] == '\\' && s[i + 1] in {'n', 'N', '\\', ';', ','}
  }

  lemma EscapeFurtherOn(s: string)
    requires s != "" && !(|s| >= 2 && EscapeAt(s, 0))
    ensures HoldsEscape(s) <==> HoldsEscape(s[1..])
  {
    if i :| 0 <= i < |s| - 1 && EscapeAt(s, i) {
      assert EscapeAt(s[1..], i - 1);
    }
    if i :| 0 <= i < |s[1..]| - 1 && EscapeAt(s[1..], i) {
      assert EscapeAt(s, i + 1);
    }
  }

  /** Decoding leaves a text as it is exactly when the text holds no escape, and else shortens it. */
  lemma {:induction false} UnescapeKeepsExactly(s: string)
    ensures Unescape(s) == s <==> !HoldsEscape(s)
    ensures |Unescape(s)| <= |s| && (HoldsEscape(s) ==> |Unescape(s)| < |s|)
    ensures Unescape(s) == "" <==> s == ""
    decreases |s|
  {
    if s != "" {
      if |s| >= 2 && EscapeAt(s, 0) {
        UnescapeKeepsExactly(s[2..]);
      } else {
        UnescapeKeepsExactly(s[1..]);
        EscapeFurtherOn(s);
        assert s == [s[0]] + s[1..];
      }
    }
  }

  /** An escaped text has no raw line ending of its own. */
  lemma {:induction false} EscapedHasNoBreak(s: string)
    ensures '\r' !in Escape(s) && '\n' !in Escape(s)
    decreases |s|
  {
    if s != "" {
      EscapeStep(s);
      if CRLF <= s {
        EscapedHasNoBreak(s[2..]);
      } else {
        EscapedHasNoBreak(s[1..]);
      }
    }
  }

  // ---------- Content lines ----------

  function Join(lines: seq<string>): string {
    if lines == [] then ""
    else if |lines| == 1 then lines[0]
    else lines[0] + CRLF + Join(lines[1..])
  }

  function Split(s: string): (r: seq<string>)
    ensures r != []
    decreases |s|
  {
    if s == "" then [""]
    else if CRLF <= s then [""] + Split(s[2..])
    else
      var rest := Split(s[1..]);
      [[s[0]] + rest[0]] + rest[1..]
  }

  lemma {:induction false} SplitAtBreak(line: string, rest: string)
    ensures Split(line + CRLF + rest) == Split(line) + Split(rest)
    decreases |line|
  {
    var whole := line + CRLF + rest;
    if line == "" {
      assert whole == CRLF + rest && whole[2..] == rest;
    } else if CRLF <= line {
      assert CRLF <= whole && whole[2..] == line[2..] + CRLF + rest;
      SplitAtBreak(line[2..], rest);
      assert [""] + (Split(line[2..]) + Split(rest)) == [""] + Split(line[2..]) + Split(rest);
    } else {
      NoPairAtFront(line, rest);
      assert whole[0] == line[0] && whole[1..] == line[1..] + CRLF + rest;
      SplitAtBreak(line[1..], rest);
      PrependToFirst(line[0], Split(line[1..]), Split(rest));
    }
  }

  lemma NoPairAtFront(line: string, rest: string)
    requires line != "" && !(CRLF <= line)
    ensures !(CRLF <= line + CRLF + rest)
  {
    var whole := line + CRLF + rest;
    if |line| == 1 {
      assert whole[1] == '\r';
    } else {
      assert whole[0] == line[0] && whole[1] == line[1];
    }
  }

  lemma PrependToFirst(c: char, a: seq<string>, b: seq<string>)
    requires a != []
    ensures [[c] + (a + b)[0]] + (a + b)[1..] == [[c] + a[0]] + a[1..] + b
  {
    assert (a + b)[1..] == a[1..] + b;
  }

  /** Past the front, a text has the line breaks of its tail. */
  lemma BreakFurtherOn(line: string)
    requires line != "" && !(CRLF <= line)
    ensures Contains(line, CRLF) <==> Contains(line[1..], CRLF)
  {
    assert |line| >= 2 ==> line[0..2] == line[..2];
    if i :| OccursAt(line, CRLF, i) {
      assert line[1..][i - 1..i + 1] == line[i..i + 2];
      assert OccursAt(line[1..], CRLF, i - 1);
    }
    if i :| OccursAt(line[1..], CRLF, i) {
      assert line[i + 1..i + 3] == line[1..][i..i + 2];
      assert OccursAt(line, CRLF, i + 1);
    }
  }

  lemma {:induction false} UnbrokenIsOneLine(line: string)
    ensures Split(line) == [line] <==> !Contains(line, CRLF)
    ensures |Split(line)| == 1 <==> !Contains(line, CRLF)
    decreases |line|
  {
    if line == "" {
    } else if CRLF <= line {
      assert line[0..2] == CRLF;
      assert OccursAt(line, CRLF, 0);
    } else {
      UnbrokenIsOneLine(line[1..]);
      BreakFurtherOn(line);
      assert line == [line[0]] + line[1..];
    }
  }

  lemma {:induction false} SplitCounts(lines: seq<string>)
    requires lines != []
    ensures |Split(Join(lines))| >= |lines|
    ensures |Split(Join(lines))| == |lines| ==> forall l :: l in lines ==> !Contains(l, CRLF)
  {
    UnbrokenIsOneLine(lines[0]);
    if |lines| > 1 {
      SplitAtBreak(lines[0], Join(lines[1..]));
      SplitCounts(lines[1..]);
    }
  }

  lemma {:induction false} CleanLinesSplitBack(lines: seq<string>)
    requires lines != [] && forall l :: l in lines ==> !Contains(l, CRLF)
    ensures Split(Join(lines)) == lines
  {
    UnbrokenIsOneLine(lines[0]);
    if |lines| > 1 {
      SplitAtBreak(lines[0], Join(lines[1..]));
      CleanLinesSplitBack(lines[1..]);
    } else {
      assert lines == [lines[0]];
    }
  }

  /** Joined lines split back to themselves exactly when none of them contains a line break. */
  lemma SplitInvertsJoin(lines: seq<string>)
    requires lines != []
    ensures Split(Join(lines)) == lines <==> forall l :: l in lines ==> !Contains(l, CRLF)
  {
    if forall l :: l in lines ==> !Contains(l, CRLF) {
      CleanLinesSplitBack(lines);
    } else {
      SplitCounts(lines);
    }
  }
}
