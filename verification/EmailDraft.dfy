/** Draft documents and the merge that replaces a reply while keeping headers and the quoted
    chain (mcp_servers/email_server.py). A missing field is the empty string. */
module EmailDraft {
  import opened Text

  const SEPARATOR := "\n---\n"
  const MARKER_A := "---------- Previous message ----------"
  const MARKER_B := "-----Original Message-----"
  const MARKER_C := "----- Original Message -----"

  predicate IsMarker(m: string) {
    m == MARKER_A || m == MARKER_B || m == MARKER_C
  }

  ghost predicate HasMarker(s: string) {
    exists m, i :: IsMarker(m) && OccursAt(s, m, i)
  }

  // ---------- Building ----------

  datatype Draft = Draft(
    to: string, subject: string, body: string, cc: string, bcc: string,
    inReplyTo: string, references: string, sourceUid: string, sourceFolder: string)

  function AddressLines(d: Draft): seq<string> {
    ["To: " + d.to] + OptionalLine("Cc: ", d.cc) + OptionalLine("Bcc: ", d.bcc) + ["Subject: " + d.subject]
  }

  function ThreadLines(d: Draft): seq<string> {
    OptionalLine("In-Reply-To: ", d.inReplyTo) + OptionalLine("References: ", d.references)
    + OptionalLine("X-Source-UID: ", d.sourceUid) + OptionalLine("X-Source-Folder: ", d.sourceFolder)
  }

  function HeaderLines(d: Draft): seq<string> {
    AddressLines(d) + ThreadLines(d)
  }

  function JoinLines(lines: seq<string>): string {
    if lines == [] then "" else if |lines| == 1 then lines[0] else lines[0] + "\n" + JoinLines(lines[1..])
  }

  function HeaderBlock(d: Draft): string {
    JoinLines(HeaderLines(d))
  }

  method AppendOptional(lines: seq<string>, prefix: string, value: string) returns (r: seq<string>)
    ensures r == lines + OptionalLine(prefix, value)
  {
    r := lines;
    if value != "" { r := r + [prefix + value]; }
  }

  method BuildEmailDocumentContent(d: Draft) returns (content: string)
    ensures content == HeaderBlock(d) + SEPARATOR + d.body
  {
    var lines := ["To: " + d.to];
    lines := AppendOptional(lines, "Cc: ", d.cc);
    lines := AppendOptional(lines, "Bcc: ", d.bcc);
    lines := lines + ["Subject: " + d.subject];
    assert lines == AddressLines(d);
    ghost var addresses := lines;
    lines := AppendOptional(lines, "In-Reply-To: ", d.inReplyTo);
    lines := AppendOptional(lines, "References: ", d.references);
    lines := AppendOptional(lines, "X-Source-UID: ", d.sourceUid);
    lines := AppendOptional(lines, "X-Source-Folder: ", d.sourceFolder);
    assert lines == addresses + ThreadLines(d);
    content := JoinLines(lines) + SEPARATOR + d.body;
  }

  // ---------- Merging ----------

  function Head(content: string): string
    requires Find(content, SEPARATOR) >= 0
  {
    FindIsFirst(content, SEPARATOR);
    content[..Find(content, SEPARATOR)]
  }

  function Body(content: string): string
    requires Find(content, SEPARATOR) >= 0
  {
    FindIsFirst(content, SEPARATOR);
    content[Find(content, SEPARATOR) + |SEPARATOR|..]
  }

  function Earlier(a: int, b: int): int {
    if b != -1 && (a == -1 || b < a) then b else a
  }

  function QuoteIndex(body: string): int {
    Earlier(Earlier(Earlier(-1, Find(body, MARKER_A)), Find(body, MARKER_B)), Find(body, MARKER_C))
  }

  /** The earliest occurrence of any marker, or -1 when there is none. */
  lemma QuoteIndexIsFirst(body: string)
    ensures var k := QuoteIndex(body);
            && -1 <= k <= |body|
            && (k == -1 <==> !HasMarker(body))
            && (k != -1 ==> (exists m :: IsMarker(m) && OccursAt(body, m, k))
                            && forall m, i :: IsMarker(m) && i < k ==> !OccursAt(body, m, i))
  {
    FindIsFirst(body, MARKER_A);
    FindIsFirst(body, MARKER_B);
    FindIsFirst(body, MARKER_C);
  }

  /** Everything from the earliest marker on, trimmed. */
  function Quote(body: string): string {
    QuoteIndexIsFirst(body);
    if QuoteIndex(body) == -1 then "" else Strip(body[QuoteIndex(body)..])
  }

  function WithQuote(reply: string, quote: string): string {
    if quote == "" then reply else if reply == "" then quote else reply + "\n\n" + quote
  }

  function Merge(content: string, reply: string): string {
    if Find(content, SEPARATOR) == -1 then reply
    else
      FindIsFirst(content, SEPARATOR);
      Head(content) + SEPARATOR + WithQuote(Strip(reply), Quote(Body(content)))
  }

  /** The source's own steps: split once, scan the three markers keeping the earliest hit, glue. */
  method MergeEmailReplyBody(content: string, reply: string) returns (merged: string)
    ensures merged == Merge(content, reply)
  {
    FindIsFirst(content, SEPARATOR);
    var at := Find(content, SEPARATOR);
    if at == -1 { return reply; }
    var head, body := content[..at], content[at + |SEPARATOR|..];
    var markers := [MARKER_A, MARKER_B, MARKER_C];
    var quoteIndex := -1;
    for i := 0 to 3
      invariant quoteIndex ==
                if i == 0 then -1
                else if i == 1 then Earlier(-1, Find(body, MARKER_A))
                else if i == 2 then Earlier(Earlier(-1, Find(body, MARKER_A)), Find(body, MARKER_B))
                else QuoteIndex(body)
    {
      var found := Find(body, markers[i]);
      if found != -1 && (quoteIndex == -1 || found < quoteIndex) {
        quoteIndex := found;
      }
    }
    QuoteIndexIsFirst(body);
    var quote := if quoteIndex != -1 then Strip(body[quoteIndex..]) else "";
    var mergedBody := Strip(reply);
    if quote != "" {
      mergedBody := if mergedBody != "" then mergedBody + "\n\n" + quote else quote;
    }
    merged := head + SEPARATOR + mergedBody;
  }

  // ---------- Where the first separator is ----------

  /** Whatever follows the first separator, it stays the first. */
  lemma FirstSeparatorStays(head: string, body: string, other: string)
    requires Find(head + SEPARATOR + body, SEPARATOR) == |head|
    ensures Find(head + SEPARATOR + other, SEPARATOR) == |head|
  {
    var s, t := head + SEPARATOR + body, head + SEPARATOR + other;
    FindIsFirst(s, SEPARATOR);
    forall i | i < |head| ensures !OccursAt(t, SEPARATOR, i) {
      assert !OccursAt(s, SEPARATOR, i);
      if 0 <= i {
        assert s[i..i + 5] == t[i..i + 5];
      }
    }
    assert t[|head|..|head| + 5] == SEPARATOR;
    FirstIsFind(t, SEPARATOR, |head|);
  }

  lemma SplitsAt(head: string, body: string)
    requires Find(head + SEPARATOR + body, SEPARATOR) == |head|
    ensures Head(head + SEPARATOR + body) == head && Body(head + SEPARATOR + body) == body
  {
  }

  /** Content with a separator is its head, the separator, and its body. */
  lemma ContentSplits(content: string)
    requires Contains(content, SEPARATOR)
    ensures Find(content, SEPARATOR) >= 0
    ensures content == Head(content) + SEPARATOR + Body(content)
    ensures Find(content, SEPARATOR) == |Head(content)|
  {
    FindIsFirst(content, SEPARATOR);
    var at := Find(content, SEPARATOR);
    assert content == content[..at] + content[at..at + 5] + content[at + 5..];
  }

  // ---------- Where the first marker is ----------

  lemma MarkerShape(m: string)
    requires IsMarker(m)
    ensures |m| > 0 && '\n' !in m && !IsSpace(m[0]) && !IsSpace(m[|m| - 1])
  {
  }

  lemma OccursChar(s: string, pattern: string, i: int, k: int)
    requires OccursAt(s, pattern, i) && 0 <= k < |pattern|
    ensures s[i + k] == pattern[k]
  {
    assert s[i + k] == s[i..i + |pattern|][k];
  }

  lemma NotAcross(s: string, m: string, i: int, p: int)
    requires OccursAt(s, m, i) && '\n' !in m && 0 <= p < |s| && s[p] == '\n'
    ensures p < i || i + |m| <= p
  {
    if i <= p < i + |m| {
      OccursChar(s, m, i, p - i);
    }
  }

  lemma OccursInPart(s: string, lo: nat, hi: nat, m: string, i: int)
    requires lo <= hi <= |s| && OccursAt(s, m, i) && lo <= i && i + |m| <= hi
    ensures OccursAt(s[lo..hi], m, i - lo)
  {
    var part := s[lo..hi];
    assert forall k :: 0 <= k < |part| ==> part[k] == s[lo + k];
    assert part[i - lo..i - lo + |m|] == s[i..i + |m|];
  }

  /** Text from a marker on, trimmed, still starts with that marker. */
  lemma TrimmedFromMarker(tail: string, m: string)
    requires IsMarker(m) && OccursAt(tail, m, 0)
    ensures OccursAt(Strip(tail), m, 0) && Trimmed(Strip(tail))
  {
    MarkerShape(m);
    OccursChar(tail, m, 0, 0);
    OccursChar(tail, m, 0, |m| - 1);
    var hi := StripKeepsSolidStart(tail, |m|);
    var _, _ := StripSplits(tail);
    assert tail[0..hi] == tail[..hi];
    OccursInPart(tail, 0, hi, m, 0);
  }

  lemma OccursInTail(s: string, k: nat, m: string)
    requires OccursAt(s, m, k)
    ensures OccursAt(s[k..], m, 0)
  {
    assert s[k..|s|] == s[k..];
    OccursInPart(s, k, |s|, m, k);
  }

  lemma MarkerAtFront(s: string, m: string)
    requires IsMarker(m) && OccursAt(s, m, 0)
    ensures QuoteIndex(s) == 0
  {
    QuoteIndexIsFirst(s);
  }

  /** The quote starts at its own first marker and is trimmed. */
  lemma QuoteShape(body: string)
    ensures Quote(body) == "" <==> !HasMarker(body)
    ensures HasMarker(body) ==> QuoteIndex(Quote(body)) == 0 && Trimmed(Quote(body))
  {
    QuoteIndexIsFirst(body);
    if HasMarker(body) {
      var k := QuoteIndex(body);
      var m :| IsMarker(m) && OccursAt(body, m, k);
      OccursInTail(body, k, m);
      TrimmedFromMarker(body[k..], m);
      MarkerAtFront(Quote(body), m);
      MarkerShape(m);
    }
  }

  /** No marker straddles the blank line between a reply and the quote. */
  lemma MarkersInWithQuote(reply: string, quote: string, m: string, i: int)
    requires IsMarker(m) && OccursAt(reply + "\n\n" + quote, m, i)
    ensures i + |m| <= |reply| || i >= |reply| + 2
    ensures i + |m| <= |reply| ==> OccursAt(reply, m, i)
    ensures i >= |reply| + 2 ==> OccursAt(quote, m, i - |reply| - 2)
  {
    MarkerShape(m);
    var s := reply + "\n\n" + quote;
    NotAcross(s, m, i, |reply|);
    NotAcross(s, m, i, |reply| + 1);
    if i + |m| <= |reply| {
      assert s[0..|reply|] == reply;
      OccursInPart(s, 0, |reply|, m, i);
    } else {
      assert s[|reply| + 2..|s|] == quote;
      OccursInPart(s, |reply| + 2, |s|, m, i);
    }
  }

  /** An occurrence in a part is one in the whole. */
  lemma OccursInWhole(s: string, lo: nat, hi: nat, m: string, i: int)
    requires lo <= hi <= |s| && OccursAt(s[lo..hi], m, i)
    ensures OccursAt(s, m, i + lo)
  {
    var part := s[lo..hi];
    assert forall k :: 0 <= k < |part| ==> part[k] == s[lo + k];
    assert part[i..i + |m|] == s[i + lo..i + lo + |m|];
  }

  lemma SolidIsInside(s: string, lo: int, hi: int, p: int)
    requires 0 <= lo <= hi <= |s| && 0 <= p < |s| && !IsSpace(s[p])
    requires forall i :: (0 <= i < lo || hi <= i < |s|) ==> IsSpace(s[i])
    ensures lo <= p < hi
  {
  }

  /** Stripping neither adds nor removes a marker. */
  lemma StripKeepsMarkers(s: string)
    ensures HasMarker(Strip(s)) <==> HasMarker(s)
  {
    var lo, hi := StripSplits(s);
    if HasMarker(Strip(s)) {
      var m, i :| IsMarker(m) && OccursAt(Strip(s), m, i);
      OccursInWhole(s, lo, hi, m, i);
    }
    if HasMarker(s) {
      var m, i :| IsMarker(m) && OccursAt(s, m, i);
      MarkerShape(m);
      OccursChar(s, m, i, 0);
      OccursChar(s, m, i, |m| - 1);
      SolidIsInside(s, lo, hi, i);
      SolidIsInside(s, lo, hi, i + |m| - 1);
      OccursInPart(s, lo, hi, m, i);
    }
  }

  /** The quote starts no later than any marker, and never with whitespace. */
  lemma QuoteStartsBefore(s: string, m: string, i: int)
    requires IsMarker(m) && OccursAt(s, m, i)
    ensures 0 <= QuoteIndex(s) <= i < |s| && !IsSpace(s[QuoteIndex(s)])
  {
    QuoteIndexIsFirst(s);
    MarkerShape(m);
    var n :| IsMarker(n) && OccursAt(s, n, QuoteIndex(s));
    MarkerShape(n);
    OccursChar(s, n, QuoteIndex(s), 0);
  }

  lemma MarkersFollowReply(reply: string, quote: string, m: string, i: int)
    requires !HasMarker(reply) && IsMarker(m) && OccursAt(reply + "\n\n" + quote, m, i)
    ensures i >= |reply| + 2
  {
    MarkersInWithQuote(reply, quote, m, i);
  }

  lemma MarkerMovesBack(reply: string, quote: string, m: string)
    requires OccursAt(quote, m, 0)
    ensures OccursAt(reply + "\n\n" + quote, m, |reply| + 2)
  {
    var s, at := reply + "\n\n" + quote, |reply| + 2;
    assert s[at..at + |m|] == quote[0..|m|];
  }

  /** With no marker in the reply, the quote's own marker is the first of the merged body. */
  lemma QuoteFollowsReply(reply: string, quote: string)
    requires !HasMarker(reply) && quote != "" && QuoteIndex(quote) == 0
    ensures QuoteIndex(reply + "\n\n" + quote) == |reply| + 2
  {
    var s := reply + "\n\n" + quote;
    QuoteIndexIsFirst(quote);
    var m :| IsMarker(m) && OccursAt(quote, m, 0);
    MarkerMovesBack(reply, quote, m);
    QuoteStartsBefore(s, m, |reply| + 2);
    QuoteIndexIsFirst(s);
    var n :| IsMarker(n) && OccursAt(s, n, QuoteIndex(s));
    MarkersFollowReply(reply, quote, n, QuoteIndex(s));
  }

  /** With no marker in the reply, the quote of the merged body is the quote that was merged in. */
  lemma QuoteOfMerged(reply: string, quote: string)
    requires !HasMarker(reply)
    requires quote != "" ==> QuoteIndex(quote) == 0 && Trimmed(quote)
    ensures Quote(WithQuote(reply, quote)) == quote
  {
    if quote == "" {
      QuoteIndexIsFirst(reply);
    } else if reply == "" {
      assert quote[0..] == quote;
      TrimmedIsStripped(quote);
    } else {
      QuoteFollowsReply(reply, quote);
      assert (reply + "\n\n" + quote)[|reply| + 2..] == quote;
      TrimmedIsStripped(quote);
    }
  }

  lemma TrimmedTail(s: string, k: nat)
    requires k < |s| && !IsSpace(s[k]) && !IsSpace(s[|s| - 1])
    ensures Strip(s[k..]) == s[k..]
  {
    var tail := s[k..];
    assert tail[0] == s[k] && tail[|tail| - 1] == s[|s| - 1];
    TrimmedIsStripped(tail);
  }

  lemma WithQuoteEndsSolid(reply: string, quote: string)
    requires reply != "" && Trimmed(reply) && Trimmed(quote)
    ensures var s := WithQuote(reply, quote); s != "" && !IsSpace(s[|s| - 1])
  {
    if quote != "" {
      var s := WithQuote(reply, quote);
      assert s[|s| - 1] == quote[|quote| - 1];
    }
  }

  /** With a marker in the reply, the quote of the merged body is longer than what was merged in. */
  lemma QuoteGrows(reply: string, quote: string)
    requires HasMarker(reply) && Trimmed(reply) && Trimmed(quote)
    ensures |Quote(WithQuote(reply, quote))| > |quote|
  {
    var s := WithQuote(reply, quote);
    var m, i :| IsMarker(m) && OccursAt(reply, m, i);
    MarkerShape(m);
    assert s[0..|reply|] == reply;
    OccursInWhole(s, 0, |reply|, m, i);
    QuoteStartsBefore(s, m, i);
    WithQuoteEndsSolid(reply, quote);
    TrimmedTail(s, QuoteIndex(s));
  }

  // ---------- The laws ----------

  /** Merging keeps the header block, puts the trimmed reply first, and keeps the quoted chain. */
  lemma {:induction false} MergeKeepsHeadersAndQuote(content: string, reply: string)
    requires Contains(content, SEPARATOR)
    ensures Find(content, SEPARATOR) >= 0 && Find(Merge(content, reply), SEPARATOR) >= 0
    ensures Head(Merge(content, reply)) == Head(content)
    ensures Body(Merge(content, reply)) == WithQuote(Strip(reply), Quote(Body(content)))
    ensures !HasMarker(reply) ==> Quote(Body(Merge(content, reply))) == Quote(Body(content))
    ensures HasMarker(reply) ==> |Quote(Body(Merge(content, reply)))| > |Quote(Body(content))|
  {
    ContentSplits(content);
    var head, body := Head(content), Body(content);
    var merged := WithQuote(Strip(reply), Quote(body));
    FirstSeparatorStays(head, body, merged);
    SplitsAt(head, merged);
    QuoteShape(body);
    StripKeepsMarkers(reply);
    if HasMarker(reply) {
      var _, _ := StripSplits(reply);
      QuoteGrows(Strip(reply), Quote(body));
    } else {
      QuoteOfMerged(Strip(reply), Quote(body));
    }
  }

  /** Replacing a reply twice is replacing it once, exactly when the first reply held no quote
      marker; otherwise part of it is taken for quoted text and kept. */
  lemma {:induction false} LastReplyWins(content: string, first: string, second: string)
    requires Contains(content, SEPARATOR)
    ensures Merge(Merge(content, first), second) == Merge(content, second) <==> !HasMarker(first)
  {
    MergeKeepsHeadersAndQuote(content, first);
    var r := Strip(second);
    var q, q1 := Quote(Body(content)), Quote(Body(Merge(content, first)));
    var head := Head(content);
    assert Merge(Merge(content, first), second) == head + SEPARATOR + WithQuote(r, q1);
    if HasMarker(first) {
      assert |WithQuote(r, q1)| > |WithQuote(r, q)|;
    }
  }

  /** A text shows a separator if it holds one, or would with a line feed after it. */
  ghost predicate Shows(text: string) {
    Contains(text + "\n", SEPARATOR)
  }

  /** A block of lines followed by the separator splits back there exactly when it shows none itself. */
  lemma BlockSplits(block: string, body: string)
    ensures Find(block + SEPARATOR + body, SEPARATOR) == |block| <==> !Shows(block)
  {
    var content, line := block + SEPARATOR + body, block + "\n";
    FindIsFirst(content, SEPARATOR);
    if Contains(line, SEPARATOR) {
      var i :| OccursAt(line, SEPARATOR, i);
      assert content[i..i + 5] == line[i..i + 5] by {
        assert content[|block|] == SEPARATOR[0] == '\n';
      }
      assert OccursAt(content, SEPARATOR, i);
    } else {
      forall i | i < |block| ensures !OccursAt(content, SEPARATOR, i) {
        if 0 <= i && i + 5 <= |block| + 1 {
          assert !OccursAt(line, SEPARATOR, i);
          assert content[i..i + 5] == line[i..i + 5];
        } else if 0 <= i {
          // A later start would need a line feed where the separator has dashes.
          assert content[|block|] == '\n';
          assert content[i..i + 5][|block| - i] == content[|block|];
        }
      }
      assert content[|block|..|block| + 5] == SEPARATOR;
      FirstIsFind(content, SEPARATOR, |block|);
    }
  }

  // ---------- Which header fields show a separator ----------

  /** Nothing straddles the end of a line whose successor does not start with a dash. */
  lemma ShowsInParts(line: string, rest: string)
    requires rest != "" && rest[0] != '-'
    ensures Contains(line + "\n" + rest, SEPARATOR) <==> Shows(line) || Contains(rest, SEPARATOR)
  {
    var s, n := line + "\n" + rest, |line|;
    assert s[0..n + 1] == line + "\n" && s[n + 1..|s|] == rest;
    if Shows(line) {
      var i :| OccursAt(line + "\n", SEPARATOR, i);
      OccursInWhole(s, 0, n + 1, SEPARATOR, i);
    }
    if Contains(rest, SEPARATOR) {
      var i :| OccursAt(rest, SEPARATOR, i);
      OccursInWhole(s, n + 1, |s|, SEPARATOR, i);
    }
    if i :| OccursAt(s, SEPARATOR, i) {
      if i + 5 <= n + 1 {
        OccursInPart(s, 0, n + 1, SEPARATOR, i);
      } else if i >= n + 1 {
        OccursInPart(s, n + 1, |s|, SEPARATOR, i);
      } else {
        OccursChar(s, SEPARATOR, i, if i == n then 1 else n - i);
      }
    }
  }

  ghost predicate AnyShows(lines: seq<string>) {
    exists l :: l in lines && Shows(l)
  }

  /** Every line starts, and not with a dash: a property name does. */
  predicate Named(lines: seq<string>) {
    forall l :: l in lines ==> l != "" && l[0] != '-'
  }

  lemma {:induction false} JoinedShows(lines: seq<string>)
    requires lines != [] && Named(lines)
    ensures Shows(JoinLines(lines)) <==> AnyShows(lines)
  {
    if |lines| == 1 {
      assert lines == [lines[0]];
    } else {
      var rest := lines[1..];
      assert lines == [lines[0]] + rest && forall l :: l in rest ==> l in lines;
      JoinedShows(rest);
      assert JoinLines(lines) + "\n" == lines[0] + "\n" + (JoinLines(rest) + "\n");
      ShowsInParts(lines[0], JoinLines(rest) + "\n");
    }
  }

  /** A property name in front adds no separator and hides none. */
  lemma NamedFieldShows(prefix: string, value: string)
    requires '\n' !in prefix
    ensures Shows(prefix + value) <==> Shows(value)
  {
    var s, n := prefix + value + "\n", |prefix|;
    assert s[n..|s|] == value + "\n" && forall k :: 0 <= k < n ==> s[k] == prefix[k];
    if i :| OccursAt(s, SEPARATOR, i) {
      OccursChar(s, SEPARATOR, i, 0);
      OccursInPart(s, n, |s|, SEPARATOR, i);
    }
    if i :| OccursAt(value + "\n", SEPARATOR, i) {
      OccursInWhole(s, n, |s|, SEPARATOR, i);
    }
  }

  lemma FieldLineShows(prefix: string, value: string)
    requires '\n' !in prefix && prefix != "" && prefix[0] != '-'
    ensures Named([prefix + value]) && Named(OptionalLine(prefix, value))
    ensures AnyShows([prefix + value]) <==> Shows(value)
    ensures AnyShows(OptionalLine(prefix, value)) <==> Shows(value)
  {
    NamedFieldShows(prefix, value);
    assert (prefix + value)[0] == prefix[0];
    assert (prefix + value) in [prefix + value];
  }

  lemma LinesShow(a: seq<string>, b: seq<string>)
    ensures AnyShows(a + b) <==> AnyShows(a) || AnyShows(b)
    ensures Named(a) && Named(b) ==> Named(a + b)
  {
    assert forall l :: l in a || l in b ==> l in a + b;
  }

  /** Some header field holds a separator, or ends in its first four characters. */
  ghost predicate FieldShows(d: Draft) {
    || Shows(d.to) || Shows(d.cc) || Shows(d.bcc) || Shows(d.subject)
    || Shows(d.inReplyTo) || Shows(d.references) || Shows(d.sourceUid) || Shows(d.sourceFolder)
  }

  lemma AddressLinesShow(d: Draft)
    ensures Named(AddressLines(d))
    ensures AnyShows(AddressLines(d)) <==> Shows(d.to) || Shows(d.cc) || Shows(d.bcc) || Shows(d.subject)
  {
    var to, cc, bcc := ["To: " + d.to], OptionalLine("Cc: ", d.cc), OptionalLine("Bcc: ", d.bcc);
    var subject := ["Subject: " + d.subject];
    FieldLineShows("To: ", d.to);
    FieldLineShows("Cc: ", d.cc);
    FieldLineShows("Bcc: ", d.bcc);
    FieldLineShows("Subject: ", d.subject);
    LinesShow(to, cc);
    LinesShow(to + cc, bcc);
    LinesShow(to + cc + bcc, subject);
  }

  lemma ThreadLinesShow(d: Draft)
    ensures Named(ThreadLines(d))
    ensures AnyShows(ThreadLines(d))
            <==> Shows(d.inReplyTo) || Shows(d.references) || Shows(d.sourceUid) || Shows(d.sourceFolder)
  {
    var reply, refs := OptionalLine("In-Reply-To: ", d.inReplyTo), OptionalLine("References: ", d.references);
    var uid, folder := OptionalLine("X-Source-UID: ", d.sourceUid), OptionalLine("X-Source-Folder: ", d.sourceFolder);
    FieldLineShows("In-Reply-To: ", d.inReplyTo);
    FieldLineShows("References: ", d.references);
    FieldLineShows("X-Source-UID: ", d.sourceUid);
    FieldLineShows("X-Source-Folder: ", d.sourceFolder);
    LinesShow(reply, refs);
    LinesShow(reply + refs, uid);
    LinesShow(reply + refs + uid, folder);
  }

  /** A built document splits back into its header block and its body, whatever the body, exactly
      when no header field shows a separator. */
  lemma BuiltDocumentSplits(d: Draft)
    ensures var content := HeaderBlock(d) + SEPARATOR + d.body;
            && (Find(content, SEPARATOR) == |HeaderBlock(d)| <==> !FieldShows(d))
            && (!FieldShows(d) ==> Head(content) == HeaderBlock(d) && Body(content) == d.body)
  {
    AddressLinesShow(d);
    ThreadLinesShow(d);
    LinesShow(AddressLines(d), ThreadLines(d));
    JoinedShows(HeaderLines(d));
    BlockSplits(HeaderBlock(d), d.body);
    if !FieldShows(d) {
      SplitsAt(HeaderBlock(d), d.body);
    }
  }

  /** A field without line feeds shows none. */
  lemma SingleLineShowsNone(value: string)
    requires '\n' !in value
    ensures !Shows(value)
  {
    if i :| OccursAt(value + "\n", SEPARATOR, i) {
      OccursChar(value + "\n", SEPARATOR, i, 0);
    }
  }

  predicate SingleLine(d: Draft) {
    && '\n' !in d.to && '\n' !in d.subject && '\n' !in d.cc && '\n' !in d.bcc
    && '\n' !in d.inReplyTo && '\n' !in d.references && '\n' !in d.sourceUid && '\n' !in d.sourceFolder
  }

  /** With no line feed in any header field, the built document always splits back. */
  lemma SingleLineHeadersSplit(d: Draft)
    requires SingleLine(d)
    ensures var content := HeaderBlock(d) + SEPARATOR + d.body;
            && Find(content, SEPARATOR) == |HeaderBlock(d)|
            && Head(content) == HeaderBlock(d) && Body(content) == d.body
  {
    BuiltDocumentSplits(d);
    SingleLineShowsNone(d.to);
    SingleLineShowsNone(d.cc);
    SingleLineShowsNone(d.bcc);
    SingleLineShowsNone(d.subject);
    SingleLineShowsNone(d.inReplyTo);
    SingleLineShowsNone(d.references);
    SingleLineShowsNone(d.sourceUid);
    SingleLineShowsNone(d.sourceFolder);
  }
}
