/** Reading a built draft document back, field by field, and the merged body in plain text
    (mcp_servers/email_server.py). */
module EmailDraftFacts {
  import opened Wrappers
  import opened Text
  import opened Properties
  import opened EmailDraft

  // ---------- Lines ----------

  /** `text.split` at line feeds. */
  function SplitLines(text: string): (lines: seq<string>)
    ensures lines != []
  {
    if text == "" then [""]
    else
      var rest := SplitLines(text[1..]);
      if text[0] == '\n' then [""] + rest else [[text[0]] + rest[0]] + rest[1..]
  }

  lemma {:induction false} LinesHaveNoFeed(text: string)
    ensures forall l :: l in SplitLines(text) ==> '\n' !in l
  {
    if text != "" {
      LinesHaveNoFeed(text[1..]);
    }
  }

  lemma {:induction false} SplitAfterLine(line: string, rest: string)
    requires '\n' !in line
    ensures SplitLines(line + "\n" + rest) == [line] + SplitLines(rest)
    ensures SplitLines(line) == [line]
  {
    var text := line + "\n" + rest;
    if line == "" {
      assert text[1..] == rest;
    } else {
      SplitAfterLine(line[1..], rest);
      assert text[1..] == line[1..] + "\n" + rest;
      assert line == [line[0]] + line[1..];
    }
  }

  lemma {:induction false} CleanLinesSplit(lines: seq<string>)
    requires lines != [] && forall l :: l in lines ==> '\n' !in l
    ensures SplitLines(JoinLines(lines)) == lines
  {
    if |lines| == 1 {
      SplitAfterLine(lines[0], "");
      assert lines == [lines[0]];
    } else {
      CleanLinesSplit(lines[1..]);
      SplitAfterLine(lines[0], JoinLines(lines[1..]));
    }
  }

  /** Joined lines split back exactly when none of them has a line feed. */
  lemma LinesSplitBack(lines: seq<string>)
    requires lines != []
    ensures SplitLines(JoinLines(lines)) == lines <==> forall l :: l in lines ==> '\n' !in l
  {
    LinesHaveNoFeed(JoinLines(lines));
    if forall l :: l in lines ==> '\n' !in l {
      CleanLinesSplit(lines);
    }
  }

  // ---------- Headers ----------

  const NAMES := ["To: ", "Cc: ", "Bcc: ", "Subject: ", "In-Reply-To: ", "References: ", "X-Source-UID: ",
                  "X-Source-Folder: "]

  lemma NamesAreApart(i: nat, j: nat)
    requires i < |NAMES| && j < |NAMES| && i != j
    ensures Apart(NAMES[i], NAMES[j])
  {
    var p, n := NAMES[i], NAMES[j];
    assert p[0] != n[0] || p[9] != n[9];
  }

  function PartsOf(d: Draft): seq<seq<string>> {
    [["To: " + d.to], OptionalLine("Cc: ", d.cc), OptionalLine("Bcc: ", d.bcc), ["Subject: " + d.subject],
     OptionalLine("In-Reply-To: ", d.inReplyTo), OptionalLine("References: ", d.references),
     OptionalLine("X-Source-UID: ", d.sourceUid), OptionalLine("X-Source-Folder: ", d.sourceFolder)]
  }

  function Fields(d: Draft): seq<string> {
    [d.to, d.cc, d.bcc, d.subject, d.inReplyTo, d.references, d.sourceUid, d.sourceFolder]
  }

  /** The addressee and the subject are always there, the other headers when they have a value. */
  function Expected(d: Draft, i: nat): Option<string>
    requires i < |NAMES|
  {
    if i in {0, 3} then Some(Fields(d)[i]) else Present(Fields(d)[i])
  }

  lemma PartHasOneValue(d: Draft, j: nat, i: nat)
    requires i < |NAMES| && j < |NAMES|
    ensures Value(PartsOf(d)[j], NAMES[i]) == if i == j then Expected(d, i) else None
  {
    ValueOfLine(NAMES[j], Fields(d)[j], NAMES[i]);
    if i != j { NamesAreApart(j, i); }
  }

  lemma HeaderLinesAreFlat(d: Draft)
    ensures HeaderLines(d) == Flat(PartsOf(d), |NAMES|)
  {
    var ps := PartsOf(d);
    assert Flat(ps, 0) == [] && Flat(ps, 1) == ps[0];
    assert Flat(ps, 3) == Flat(ps, 2) + ps[2] && Flat(ps, 4) == Flat(ps, 3) + ps[3];
    assert Flat(ps, 5) == Flat(ps, 4) + ps[4] && Flat(ps, 6) == Flat(ps, 5) + ps[5];
    assert Flat(ps, 7) == Flat(ps, 6) + ps[6] && Flat(ps, 8) == Flat(ps, 7) + ps[7];
  }

  /** Every header of a draft stands under its own name. */
  lemma HeadersReadBack(d: Draft, i: nat)
    requires i < |NAMES|
    ensures Value(HeaderLines(d), NAMES[i]) == Expected(d, i)
  {
    HeaderLinesAreFlat(d);
    forall j | 0 <= j < |NAMES| ensures Value(PartsOf(d)[j], NAMES[i]) == if i == j then Expected(d, i) else None {
      PartHasOneValue(d, j, i);
    }
    ValueOfFlat(PartsOf(d), |NAMES|, i, NAMES[i]);
  }

  lemma HeadersAreSingleLines(d: Draft)
    requires forall i :: 0 <= i < |NAMES| ==> '\n' !in Fields(d)[i]
    ensures forall l :: l in HeaderLines(d) ==> '\n' !in l
  {
    var f := Fields(d);
    assert '\n' !in f[0] && '\n' !in f[1] && '\n' !in f[2] && '\n' !in f[3];
    assert '\n' !in f[4] && '\n' !in f[5] && '\n' !in f[6] && '\n' !in f[7];
  }

  /** A draft whose header fields are single lines is read back from its document: split at the
      separator, split the head into lines, and look up each name. */
  lemma DocumentReadsBack(d: Draft)
    requires forall i :: 0 <= i < |NAMES| ==> '\n' !in Fields(d)[i]
    ensures var content := HeaderBlock(d) + SEPARATOR + d.body;
            && Find(content, SEPARATOR) >= 0 && Body(content) == d.body
            && var lines := SplitLines(Head(content));
            && Value(lines, "To: ") == Some(d.to) && Value(lines, "Subject: ") == Some(d.subject)
            && Value(lines, "Cc: ") == Present(d.cc) && Value(lines, "Bcc: ") == Present(d.bcc)
            && Value(lines, "In-Reply-To: ") == Present(d.inReplyTo)
            && Value(lines, "References: ") == Present(d.references)
            && Value(lines, "X-Source-UID: ") == Present(d.sourceUid)
            && Value(lines, "X-Source-Folder: ") == Present(d.sourceFolder)
  {
    var f := Fields(d);
    assert '\n' !in f[0] && '\n' !in f[1] && '\n' !in f[2] && '\n' !in f[3];
    assert '\n' !in f[4] && '\n' !in f[5] && '\n' !in f[6] && '\n' !in f[7];
    SingleLineHeadersSplit(d);
    BuiltDocumentSplits(d);
    SplitsAt(HeaderBlock(d), d.body);
    HeadersAreSingleLines(d);
    LinesSplitBack(HeaderLines(d));
    forall i | 0 <= i < |NAMES| ensures Value(HeaderLines(d), NAMES[i]) == Expected(d, i) {
      HeadersReadBack(d, i);
    }
    assert NAMES[0] == "To: " && NAMES[1] == "Cc: " && NAMES[2] == "Bcc: " && NAMES[3] == "Subject: ";
    assert NAMES[4] == "In-Reply-To: " && NAMES[5] == "References: ";
    assert NAMES[6] == "X-Source-UID: " && NAMES[7] == "X-Source-Folder: ";
  }

  // ---------- Merging ----------

  /** Where the quoted chain begins: a marker, with none before it. */
  ghost predicate QuoteBegins(body: string, k: nat) {
    && (exists m :: m in MARKERS && OccursAt(body, m, k))
    && forall m, i :: m in MARKERS && i < k ==> !OccursAt(body, m, i)
  }

  const MARKERS := {"---------- Previous message ----------", "-----Original Message-----",
                    "----- Original Message -----"}

  /** Content without a separator is dropped for the bare reply. */
  lemma MergeWithoutHeaders(content: string, reply: string)
    requires !Contains(content, SEPARATOR)
    ensures Merge(content, reply) == reply
  {
    FindIsFirst(content, SEPARATOR);
  }

  lemma QuoteIs(body: string, k: nat)
    ensures !HasMarker(body) ==> Quote(body) == ""
    ensures QuoteBegins(body, k) ==> Quote(body) == Strip(body[k..]) && Quote(body) != ""
  {
    QuoteIndexIsFirst(body);
    QuoteShape(body);
    if QuoteBegins(body, k) {
      assert QuoteIndex(body) == k;
    }
  }

  /** Otherwise the merged text is the header block, the trimmed reply and, after a blank line, the
      quoted chain trimmed; with an empty reply the chain stands alone. */
  lemma MergedTextIs(head: string, body: string, reply: string, k: nat)
    requires Find(head + "\n---\n" + body, "\n---\n") == |head|
    ensures var merged := Merge(head + "\n---\n" + body, reply);
            && (!HasMarker(body) ==> merged == head + "\n---\n" + Strip(reply))
            && (QuoteBegins(body, k) && Strip(reply) != "" ==>
                  merged == head + "\n---\n" + (Strip(reply) + "\n\n" + Strip(body[k..])))
            && (QuoteBegins(body, k) && Strip(reply) == "" ==>
                  merged == head + "\n---\n" + Strip(body[k..]))
  {
    SplitsAt(head, body);
    QuoteIs(body, k);
  }
}
