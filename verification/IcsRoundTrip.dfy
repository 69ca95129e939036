/** Reading an exported calendar file back (routes/calendar_routes.py): a reader after RFC 5545
    that splits the lines, collects the events between their BEGIN and END, and decodes the
    properties of type TEXT, the uid among them (section 3.8.4.7). Export writes the uid without
    escaping it. Export does not fold lines, so none are unfolded. */
module IcsRoundTrip {
  import opened Wrappers
  import opened Text
  import opened IcsText
  import opened IcsExport
  import opened Properties

  // ---------- The reader ----------

  function Decoded(raw: Option<string>): Option<string> {
    if raw.Some? then Some(Unescape(raw.value)) else None
  }

  datatype Reading = Reading(
    uid: Option<string>, summary: Option<string>, description: Option<string>, location: Option<string>,
    rrule: Option<string>, startDay: Option<string>, endDay: Option<string>, start: Option<string>, end: Option<string>)

  function ReadEvent(lines: seq<string>): Reading {
    Reading(
      Decoded(Value(lines, "UID:")), Decoded(Value(lines, "SUMMARY:")), Decoded(Value(lines, "DESCRIPTION:")),
      Decoded(Value(lines, "LOCATION:")), Value(lines, "RRULE:"),
      Value(lines, "DTSTART;VALUE=DATE:"), Value(lines, "DTEND;VALUE=DATE:"),
      Value(lines, "DTSTART:"), Value(lines, "DTEND:"))
  }

  /** The events finished so far, and the lines of the one being read. */
  datatype Scan = Scan(finished: seq<seq<string>>, open: Option<seq<string>>)

  function ScanLine(s: Scan, l: string): Scan {
    if l == "BEGIN:VEVENT" then Scan(s.finished, Some([]))
    else if s.open == None then s
    else if l == "END:VEVENT" then Scan(s.finished + [s.open.value], None)
    else Scan(s.finished, Some(s.open.value + [l]))
  }

  function ScanLines(s: Scan, lines: seq<string>): Scan {
    if lines == [] then s else ScanLine(ScanLines(s, lines[..|lines| - 1]), lines[|lines| - 1])
  }

  function ReadAll(blocks: seq<seq<string>>): seq<Reading> {
    if blocks == [] then [] else ReadAll(blocks[..|blocks| - 1]) + [ReadEvent(blocks[|blocks| - 1])]
  }

  function ReadFile(text: string): (Option<string>, seq<Reading>) {
    var lines := Split(text);
    (Decoded(Value(lines, "X-WR-CALNAME:")), ReadAll(ScanLines(Scan([], None), lines).finished))
  }

  // ---------- What it should find ----------

  function Expected(ev: Event): Reading {
    var zone := if ev.isUtc then "Z" else "";
    Reading(
      Some(ev.uid), Some(LfOnly(ev.summary)), Present(LfOnly(ev.description)), Present(LfOnly(ev.location)),
      Present(ev.rrule),
      if ev.allDay then Some(ev.startStamp) else None, if ev.allDay then Some(ev.endStamp) else None,
      if ev.allDay then None else Some(ev.startStamp + zone), if ev.allDay then None else Some(ev.endStamp + zone))
  }

  /** What a reader does find: the uid decoded, though it was not encoded. */
  function Found(ev: Event): Reading {
    Expected(ev).(uid := Some(Unescape(ev.uid)))
  }

  function FoundAll(events: seq<Event>): (rs: seq<Reading>)
    ensures |rs| == |events| && forall i :: 0 <= i < |rs| ==> rs[i] == Found(events[i])
  {
    if events == [] then [] else FoundAll(events[..|events| - 1]) + [Found(events[|events| - 1])]
  }

  function ExpectedAll(events: seq<Event>): (rs: seq<Reading>)
    ensures |rs| == |events| && forall i :: 0 <= i < |rs| ==> rs[i] == Expected(events[i])
  {
    if events == [] then [] else ExpectedAll(events[..|events| - 1]) + [Expected(events[|events| - 1])]
  }

  // ---------- Properties ----------

  const NAMES := ["UID:", "SUMMARY:", "DTSTART;VALUE=DATE:", "DTEND;VALUE=DATE:", "DTSTART:", "DTEND:",
                  "DESCRIPTION:", "LOCATION:", "RRULE:"]

  lemma NamesAreApart(i: nat, j: nat)
    requires i < |NAMES| && j < |NAMES| && i != j
    ensures Apart(NAMES[i], NAMES[j])
  {
    var p, n := NAMES[i], NAMES[j];
    assert p[0] != n[0] || p[1] != n[1] || p[2] != n[2] || p[5] != n[5] || p[7] != n[7];
  }

  function Next(values: seq<Option<string>>, n: nat): seq<string>
    requires n < |values| <= |NAMES|
  {
    if values[n].Some? then [NAMES[n] + values[n].value] else []
  }

  /** The lines of the properties that have a value, in the order of the names. */
  function Lines(values: seq<Option<string>>, n: nat): seq<string>
    requires n <= |values| <= |NAMES|
  {
    if n == 0 then [] else Lines(values, n - 1) + Next(values, n - 1)
  }

  /** The next property's line is found under no other name. */
  lemma OtherValueOfNext(values: seq<Option<string>>, n: nat, i: nat)
    requires n < |values| <= |NAMES| && i < |values| && i != n
    ensures Value(Next(values, n), NAMES[i]) == None
  {
    if values[n].Some? {
      NamesAreApart(n, i);
      ValueOfLine(NAMES[n], values[n].value, NAMES[i]);
    }
  }

  lemma OwnValueOfNext(values: seq<Option<string>>, n: nat)
    requires n < |values| <= |NAMES|
    ensures Value(Next(values, n), NAMES[n]) == values[n]
  {
    if values[n].Some? {
      ValueOfLine(NAMES[n], values[n].value, NAMES[n]);
    }
  }

  function Parts(values: seq<Option<string>>): (parts: seq<seq<string>>)
    requires |values| <= |NAMES|
    ensures |parts| == |values| && forall i :: 0 <= i < |parts| ==> parts[i] == Next(values, i)
  {
    seq(|values|, i requires 0 <= i < |values| => Next(values, i))
  }

  lemma {:induction false} LinesAreFlat(values: seq<Option<string>>, n: nat)
    requires n <= |values| <= |NAMES|
    ensures Lines(values, n) == Flat(Parts(values), n)
  {
    if n > 0 { LinesAreFlat(values, n - 1); }
  }

  /** Every property is found under its own name. */
  lemma ValueOfLines(values: seq<Option<string>>, i: nat)
    requires i < |values| <= |NAMES|
    ensures Value(Lines(values, |values|), NAMES[i]) == values[i]
  {
    var parts := Parts(values);
    LinesAreFlat(values, |values|);
    forall j | 0 <= j < |parts| && j != i ensures Value(parts[j], NAMES[i]) == None {
      OtherValueOfNext(values, j, i);
    }
    OwnValueOfNext(values, i);
    ValueOfFlat(parts, |parts|, i, NAMES[i]);
  }

  function Escaped(text: string): Option<string> {
    if text == "" then None else Some(Escape(text))
  }

  function ValuesOf(ev: Event): seq<Option<string>> {
    var zone := if ev.isUtc then "Z" else "";
    [Some(ev.uid), Some(Escape(ev.summary)),
     if ev.allDay then Some(ev.startStamp) else None, if ev.allDay then Some(ev.endStamp) else None,
     if ev.allDay then None else Some(ev.startStamp + zone), if ev.allDay then None else Some(ev.endStamp + zone),
     Escaped(ev.description), Escaped(ev.location), Present(ev.rrule)]
  }

  /** An event's lines without its BEGIN and END. */
  function EventBody(ev: Event): seq<string> {
    Lines(ValuesOf(ev), 9)
  }

  lemma DateLinesAreLines(ev: Event)
    ensures Lines(ValuesOf(ev), 6) == Lines(ValuesOf(ev), 2) + DateLines(ev)
  {
    var vs := ValuesOf(ev);
    var two := Lines(vs, 2);
    if ev.allDay {
      assert Lines(vs, 6) == Lines(vs, 4)
          == two + ["DTSTART;VALUE=DATE:" + ev.startStamp] + ["DTEND;VALUE=DATE:" + ev.endStamp];
    } else {
      var zone := if ev.isUtc then "Z" else "";
      assert Lines(vs, 4) == two;
      assert Lines(vs, 6) == two + ["DTSTART:" + (ev.startStamp + zone)] + ["DTEND:" + (ev.endStamp + zone)];
      assert "DTSTART:" + (ev.startStamp + zone) == DateLines(ev)[0];
      assert "DTEND:" + (ev.endStamp + zone) == DateLines(ev)[1];
    }
  }

  lemma FirstLines(ev: Event)
    ensures Lines(ValuesOf(ev), 2) == ["UID:" + ev.uid] + ["SUMMARY:" + Escape(ev.summary)]
  {
    var vs := ValuesOf(ev);
    assert Lines(vs, 0) == [] && Lines(vs, 1) == ["UID:" + ev.uid];
  }

  lemma LastLine(ev: Event, n: nat, value: string)
    requires 6 <= n < 9 && ValuesOf(ev)[n] == Present(value)
    ensures Lines(ValuesOf(ev), n + 1) == Lines(ValuesOf(ev), n) + OptionalLine(NAMES[n], value)
  {
  }

  lemma LastLines(ev: Event)
    ensures EventBody(ev) == Lines(ValuesOf(ev), 6)
                             + OptionalLine("DESCRIPTION:", Escape(ev.description))
                             + OptionalLine("LOCATION:", Escape(ev.location))
                             + OptionalLine("RRULE:", ev.rrule)
  {
    EscapedEmptiness(ev.description);
    EscapedEmptiness(ev.location);
    LastLine(ev, 6, Escape(ev.description));
    LastLine(ev, 7, Escape(ev.location));
    LastLine(ev, 8, ev.rrule);
  }

  lemma Regroup<T>(a: seq<T>, b: seq<T>, c: seq<T>, d: seq<T>, e: seq<T>, f: seq<T>, g: seq<T>, h: seq<T>)
    ensures a + b + c + d + e + f + g + h == a + (b + c + d + e + f + g) + h
  {
    assert a + b + c + d + e + f + g == a + (b + c + d + e + f + g);
  }

  lemma EventLinesWrapBody(ev: Event)
    ensures EventLines(ev) == ["BEGIN:VEVENT"] + EventBody(ev) + ["END:VEVENT"]
  {
    FirstLines(ev);
    DateLinesAreLines(ev);
    LastLines(ev);
    Regroup(["BEGIN:VEVENT"], ["UID:" + ev.uid], ["SUMMARY:" + Escape(ev.summary)], DateLines(ev),
            OptionalLine("DESCRIPTION:", Escape(ev.description)), OptionalLine("LOCATION:", Escape(ev.location)),
            OptionalLine("RRULE:", ev.rrule), ["END:VEVENT"]);
  }

  lemma LfOnlyEmptiness(s: string)
    ensures LfOnly(s) == "" <==> s == ""
  {
  }

  /** Every property of an event but the uid reads back: texts with line endings as LF, the rest as
      they are. The uid reads back exactly when it holds no escape. */
  lemma EventReadsBack(ev: Event)
    ensures ReadEvent(EventBody(ev)) == Found(ev)
    ensures ReadEvent(EventBody(ev)) == Expected(ev) <==> !HoldsEscape(ev.uid)
  {
    UnescapeKeepsExactly(ev.uid);
    FindsEveryProperty(ev);
  }

  lemma FindsEveryProperty(ev: Event)
    ensures ReadEvent(EventBody(ev)) == Found(ev)
  {
    var vs := ValuesOf(ev);
    forall i: nat | i < 9 ensures Value(EventBody(ev), NAMES[i]) == vs[i] {
      ValueOfLines(vs, i);
    }
    UnescapeEscape(ev.summary);
    UnescapeEscape(ev.description);
    UnescapeEscape(ev.location);
    LfOnlyEmptiness(ev.description);
    LfOnlyEmptiness(ev.location);
    assert NAMES[0] == "UID:" && NAMES[1] == "SUMMARY:";
    assert NAMES[2] == "DTSTART;VALUE=DATE:" && NAMES[3] == "DTEND;VALUE=DATE:";
    assert NAMES[4] == "DTSTART:" && NAMES[5] == "DTEND:";
    assert NAMES[6] == "DESCRIPTION:" && NAMES[7] == "LOCATION:" && NAMES[8] == "RRULE:";
  }

  // ---------- Events ----------

  lemma {:induction false} ScanConcat(s: Scan, a: seq<string>, b: seq<string>)
    ensures ScanLines(s, a + b) == ScanLines(ScanLines(s, a), b)
  {
    if b == [] {
      assert a + b == a;
    } else {
      assert (a + b)[..|a + b| - 1] == a + b[..|b| - 1];
      ScanConcat(s, a, b[..|b| - 1]);
    }
  }

  predicate Marker(l: string) {
    l == "BEGIN:VEVENT" || l == "END:VEVENT"
  }

  lemma {:induction false} BodyHasNoMarker(values: seq<Option<string>>, n: nat)
    requires n <= |values| <= |NAMES|
    ensures forall l :: l in Lines(values, n) ==> !Marker(l)
  {
    if n > 0 {
      BodyHasNoMarker(values, n - 1);
      if values[n - 1].Some? {
        PropertyIsNoMarker(n - 1, values[n - 1].value);
      }
    }
  }

  lemma PropertyIsNoMarker(i: nat, value: string)
    requires i < |NAMES|
    ensures !Marker(NAMES[i] + value)
  {
    var l := NAMES[i] + value;
    assert l[0] == NAMES[i][0] && NAMES[i][0] in {'U', 'S', 'D', 'L', 'R'};
  }

  lemma {:induction false} ScanPlain(s: Scan, lines: seq<string>)
    requires s.open.Some? && forall l :: l in lines ==> !Marker(l)
    ensures ScanLines(s, lines) == Scan(s.finished, Some(s.open.value + lines))
  {
    if lines == [] {
      assert s.open.value + lines == s.open.value;
    } else {
      var front, last := lines[..|lines| - 1], lines[|lines| - 1];
      assert lines == front + [last];
      ScanPlain(s, front);
      assert last in lines;
      assert s.open.value + front + [last] == s.open.value + lines;
    }
  }

  lemma ScanOne(s: Scan, l: string)
    ensures ScanLines(s, [l]) == ScanLine(s, l)
  {
    assert [l][..0] == [];
  }

  lemma ScanEvent(s: Scan, ev: Event)
    requires s.open == None
    ensures ScanLines(s, EventLines(ev)) == Scan(s.finished + [EventBody(ev)], None)
  {
    var body, open := EventBody(ev), Scan(s.finished, Some([]));
    EventLinesWrapBody(ev);
    ScanConcat(s, ["BEGIN:VEVENT"] + body, ["END:VEVENT"]);
    ScanConcat(s, ["BEGIN:VEVENT"], body);
    ScanOne(s, "BEGIN:VEVENT");
    BodyHasNoMarker(ValuesOf(ev), 9);
    ScanPlain(open, body);
    assert [] + body == body;
    ScanOne(Scan(s.finished, Some(body)), "END:VEVENT");
  }

  function Bodies(events: seq<Event>): seq<seq<string>> {
    if events == [] then [] else Bodies(events[..|events| - 1]) + [EventBody(events[|events| - 1])]
  }

  lemma {:induction false} ScanEvents(s: Scan, events: seq<Event>)
    requires s.open == None
    ensures ScanLines(s, AllEventLines(events)) == Scan(s.finished + Bodies(events), None)
  {
    if events != [] {
      var front, last := events[..|events| - 1], events[|events| - 1];
      ScanEvents(s, front);
      ScanConcat(s, AllEventLines(front), EventLines(last));
      ScanEvent(ScanLines(s, AllEventLines(front)), last);
    } else {
      assert s.finished + Bodies(events) == s.finished;
    }
  }

  lemma {:induction false} ReadAllBodies(events: seq<Event>)
    ensures ReadAll(Bodies(events)) == FoundAll(events)
  {
    if events != [] {
      ReadAllBodies(events[..|events| - 1]);
      EventReadsBack(events[|events| - 1]);
    }
  }

  // ---------- The file ----------

  lemma HeaderReadsBack(name: string)
    ensures Value(Header(name), "X-WR-CALNAME:") == Some(Escape(name))
    ensures ScanLines(Scan([], None), Header(name)) == Scan([], None)
  {
    var h, none := Header(name), Scan([], None);
    var last := "X-WR-CALNAME:" + Escape(name);
    var first := ["BEGIN:VCALENDAR", "VERSION:2.0", "PRODID:-//Odysseus//Calendar//EN"];
    assert h == first + [last];
    ValueOfConcat(first, [last], "X-WR-CALNAME:");
    ValueOfLine("X-WR-CALNAME:", Escape(name), "X-WR-CALNAME:");
    assert first[1..][1..][1..] == [];
    ScanConcat(none, first, [last]);
    assert last[0] == 'X';
    ScanOne(none, last);
    ScanConcat(none, ["BEGIN:VCALENDAR", "VERSION:2.0"], ["PRODID:-//Odysseus//Calendar//EN"]);
    ScanConcat(none, ["BEGIN:VCALENDAR"], ["VERSION:2.0"]);
    ScanOne(none, "BEGIN:VCALENDAR");
    ScanOne(none, "VERSION:2.0");
    ScanOne(none, "PRODID:-//Odysseus//Calendar//EN");
    assert ["BEGIN:VCALENDAR"] + ["VERSION:2.0"] == ["BEGIN:VCALENDAR", "VERSION:2.0"];
    assert ["BEGIN:VCALENDAR", "VERSION:2.0"] + ["PRODID:-//Odysseus//Calendar//EN"] == first;
  }

  /** A reader of the exported text gets the calendar's name and every event in order, for any names,
      summaries, descriptions and locations whatever; and all of their properties as they were,
      line endings aside, exactly when no uid holds an escape. */
  lemma ExportRoundTrips(name: string, events: seq<Event>)
    requires forall ev :: ev in events ==> StampsClean(ev) && RawPartsClean(ev)
    ensures ReadFile(Join(CalendarLines(name, events))) == (Some(LfOnly(name)), FoundAll(events))
    ensures ReadFile(Join(CalendarLines(name, events))) == (Some(LfOnly(name)), ExpectedAll(events))
            <==> forall ev :: ev in events ==> !HoldsEscape(ev.uid)
  {
    FileIsFound(name, events);
    forall i | 0 <= i < |events| ensures Found(events[i]) == Expected(events[i]) <==> !HoldsEscape(events[i].uid) {
      UnescapeKeepsExactly(events[i].uid);
    }
    FoundAsExpected(events);
  }

  lemma FoundAsExpected(events: seq<Event>)
    ensures FoundAll(events) == ExpectedAll(events) <==> forall ev :: ev in events ==> Found(ev) == Expected(ev)
  {
    if FoundAll(events) == ExpectedAll(events) {
      forall ev | ev in events ensures Found(ev) == Expected(ev) {
        var i :| 0 <= i < |events| && events[i] == ev;
        assert FoundAll(events)[i] == ExpectedAll(events)[i];
      }
    }
  }

  lemma FileIsFound(name: string, events: seq<Event>)
    requires forall ev :: ev in events ==> StampsClean(ev) && RawPartsClean(ev)
    ensures ReadFile(Join(CalendarLines(name, events))) == (Some(LfOnly(name)), FoundAll(events))
  {
    var lines, none := CalendarLines(name, events), Scan([], None);
    var head, block := Header(name), AllEventLines(events);
    ExportReadsBack(name, events);
    HeaderReadsBack(name);
    ValueOfConcat(head + block, ["END:VCALENDAR"], "X-WR-CALNAME:");
    ValueOfConcat(head, block, "X-WR-CALNAME:");
    UnescapeEscape(name);
    ScanConcat(none, head + block, ["END:VCALENDAR"]);
    ScanConcat(none, head, block);
    ScanEvents(none, events);
    ScanOne(Scan([] + Bodies(events), None), "END:VCALENDAR");
    assert [] + Bodies(events) == Bodies(events);
    ReadAllBodies(events);
  }
}
