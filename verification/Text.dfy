/** The string operations the modelled code borrows from its runtime: stripping
    whitespace, lower-casing, and searching for a substring. */
module Text {

  /** The characters that `str.strip` removes. */
  predicate IsSpace(c: char) {
    || '\U{0009}' <= c <= '\U{000D}'
    || '\U{001C}' <= c <= '\U{0020}'
    || c in {'\U{0085}', '\U{00A0}', '\U{1680}', '\U{2028}', '\U{2029}', '\U{202F}', '\U{205F}', '\U{3000}'}
    || '\U{2000}' <= c <= '\U{200A}'
  }

  /** The ASCII ones: the space, and the control characters of tab, line, page and field separation. */
  lemma SpacesAre(c: char)
    requires c as int < 128
    ensures IsSpace(c) <==> c in " \t\n\r\U{000B}\U{000C}\U{001C}\U{001D}\U{001E}\U{001F}"
  {
  }

  function StripLeft(s: string): string {
    if s != "" && IsSpace(s[0]) then StripLeft(s[1..]) else s
  }

  function StripRight(s: string): string {
    if s != "" && IsSpace(s[|s| - 1]) then StripRight(s[..|s| - 1]) else s
  }

  function Strip(s: string): string {
    StripRight(StripLeft(s))
  }

  /** No whitespace at either end. */
  predicate Trimmed(s: string) {
    s != "" ==> !IsSpace(s[0]) && !IsSpace(s[|s| - 1])
  }

  lemma {:induction false} StripLeftSplits(s: string) returns (k: nat)
    ensures k <= |s| && StripLeft(s) == s[k..]
    ensures forall i :: 0 <= i < k ==> IsSpace(s[i])
    ensures k < |s| ==> !IsSpace(s[k])
  {
    if s != "" && IsSpace(s[0]) {
      var j := StripLeftSplits(s[1..]);
      k := j + 1;
      assert s[1..][j..] == s[k..];
      forall i | 0 <= i < k ensures IsSpace(s[i]) {
        if i > 0 { assert s[i] == s[1..][i - 1]; }
      }
    } else {
      k := 0;
      assert s[0..] == s;
    }
  }

  lemma {:induction false} StripRightSplits(s: string) returns (k: nat)
    ensures k <= |s| && StripRight(s) == s[..k]
    ensures forall i :: k <= i < |s| ==> IsSpace(s[i])
    ensures k > 0 ==> !IsSpace(s[k - 1])
  {
    if s != "" && IsSpace(s[|s| - 1]) {
      var t := s[..|s| - 1];
      k := StripRightSplits(t);
      assert t[..k] == s[..k];
    } else {
      k := |s|;
      assert s[..|s|] == s;
    }
  }

  /** What is stripped is whitespace at the two ends; what is left is trimmed. */
  lemma StripSplits(s: string) returns (lo: nat, hi: nat)
    ensures lo <= hi <= |s| && Strip(s) == s[lo..hi] && Trimmed(Strip(s))
    ensures forall i :: (0 <= i < lo || hi <= i < |s|) ==> IsSpace(s[i])
  {
    lo := StripLeftSplits(s);
    var t := s[lo..];
    var k := StripRightSplits(t);
    hi := lo + k;
    assert t[..k] == s[lo..hi];
    forall i | hi <= i < |s| ensures IsSpace(s[i]) {
      assert s[i] == t[i - lo];
    }
  }

  lemma TrimmedIsStripped(s: string)
    requires Trimmed(s)
    ensures Strip(s) == s
  {
  }

  /** Stripping from a character that is not whitespace keeps everything up to the last such character. */
  lemma StripKeepsSolidStart(s: string, n: nat) returns (hi: nat)
    requires 0 < n <= |s| && !IsSpace(s[0]) && !IsSpace(s[n - 1])
    ensures n <= hi <= |s| && Strip(s) == s[..hi]
  {
    assert StripLeft(s) == s;
    hi := StripRightSplits(s);
  }

  /** ASCII lower-casing. */
  function LowerChar(c: char): char {
    if 'A' <= c <= 'Z' then (c as int + 32) as char else c
  }

  function Lower(s: string): (r: string)
    ensures |r| == |s|
  {
    seq(|s|, i requires 0 <= i < |s| => LowerChar(s[i]))
  }

  /** A capital letter becomes the small one; every other character stays. */
  lemma LowerIs(s: string, i: nat)
    requires i < |s|
    ensures s[i] in "ABCDEFGHIJKLMNOPQRSTUVWXYZ" ==> Lower(s)[i] as int == s[i] as int + 32
    ensures s[i] !in "ABCDEFGHIJKLMNOPQRSTUVWXYZ" ==> Lower(s)[i] == s[i]
  {
    var letters := "ABCDEFGHIJKLMNOPQRSTUVWXYZ";
    assert forall k :: 0 <= k < 26 ==> letters[k] as int == 65 + k;
    if 'A' <= s[i] <= 'Z' {
      assert letters[s[i] as int - 65] == s[i];
    }
  }

  /** `name.strip().lower()`, how usernames are normalised at every entry point. */
  function Normalize(s: string): string {
    Lower(Strip(s))
  }

  lemma NormalizeIdempotent(s: string)
    ensures Normalize(Normalize(s)) == Normalize(s)
  {
    var _, _ := StripSplits(s);
    var n := Normalize(s);
    assert Trimmed(n);
    TrimmedIsStripped(n);
    assert Lower(n) == n;
  }

  /** A line that is left out when it has no value. */
  function OptionalLine(prefix: string, value: string): seq<string> {
    if value != "" then [prefix + value] else []
  }

  predicate OccursAt(s: string, pattern: string, i: int) {
    0 <= i <= |s| - |pattern| && s[i..i + |pattern|] == pattern
  }

  ghost predicate Contains(s: string, pattern: string) {
    exists i :: OccursAt(s, pattern, i)
  }

  function FindFrom(s: string, pattern: string, from: nat): (r: int)
    decreases |s| - from
  {
    if from + |pattern| > |s| then -1
    else if s[from..from + |pattern|] == pattern then from
    else FindFrom(s, pattern, from + 1)
  }

  /** `str.find`: the first occurrence, or -1. */
  function Find(s: string, pattern: string): (r: int) {
    FindFrom(s, pattern, 0)
  }

  lemma {:induction false} FindFromIsFirst(s: string, pattern: string, from: nat)
    ensures var r := FindFrom(s, pattern, from);
            && (r == -1 ==> forall i :: from <= i ==> !OccursAt(s, pattern, i))
            && (r != -1 ==> from <= r && OccursAt(s, pattern, r))
            && (r != -1 ==> forall i :: from <= i < r ==> !OccursAt(s, pattern, i))
    decreases |s| - from
  {
    if from + |pattern| <= |s| && s[from..from + |pattern|] != pattern {
      FindFromIsFirst(s, pattern, from + 1);
    }
  }

  lemma FindIsFirst(s: string, pattern: string)
    ensures var r := Find(s, pattern);
            && (r == -1 <==> !Contains(s, pattern))
            && (r != -1 ==> OccursAt(s, pattern, r) && forall i :: i < r ==> !OccursAt(s, pattern, i))
  {
    FindFromIsFirst(s, pattern, 0);
  }

  /** An occurrence with none before it is the one `Find` returns. */
  lemma FirstIsFind(s: string, pattern: string, at: int)
    requires OccursAt(s, pattern, at) && forall i :: i < at ==> !OccursAt(s, pattern, i)
    ensures Find(s, pattern) == at
  {
    FindIsFirst(s, pattern);
    var r := Find(s, pattern);
    assert OccursAt(s, pattern, r);
    assert !(r < at) && !(at < r);
  }
}
