/** The exported calendar file (routes/calendar_routes.py). Rendering of dates is the runtime's;
    an event brings its two rendered stamps. */
module IcsExport {
  import opened Text
  import opened IcsText

  datatype Event = Event(
    uid: string, summary: string, description: string, location: string, rrule: string,
    allDay: bool, isUtc: bool, startStamp: string, endStamp: string)

  function DateLines(ev: Event): seq<string> {
    if ev.allDay then ["DTSTART;VALUE=DATE:" + ev.startStamp, "DTEND;VALUE=DATE:" + ev.endStamp]
    else if ev.isUtc then ["DTSTART:" + ev.startStamp + "Z", "DTEND:" + ev.endStamp + "Z"]
    else ["DTSTART:" + ev.startStamp, "DTEND:" + ev.endStamp]
  }

  function EventLines(ev: Event): seq<string> {
    ["BEGIN:VEVENT"] + ["UID:" + ev.uid] + ["SUMMARY:" + Escape(ev.summary)]
    + DateLines(ev)
    + OptionalLine("DESCRIPTION:", Escape(ev.description))
    + OptionalLine("LOCATION:", Escape(ev.location))
    + OptionalLine("RRULE:", ev.rrule)
    + ["END:VEVENT"]
  }

  function AllEventLines(events: seq<Event>): seq<string> {
    if events == [] then [] else AllEventLines(events[..|events| - 1]) + EventLines(events[|events| - 1])
  }

  function Header(name: string): seq<string> {
    ["BEGIN:VCALENDAR", "VERSION:2.0", "PRODID:-//Odysseus//Calendar//EN", "X-WR-CALNAME:" + Escape(name)]
  }

  function CalendarLines(name: string, events: seq<Event>): seq<string> {
    Header(name) + AllEventLines(events) + ["END:VCALENDAR"]
  }

  /** The file names its version and its product, as section 3.6 of RFC 5545 demands, and the calendar. */
  lemma FileIsFramed(name: string, events: seq<Event>)
    ensures var lines := CalendarLines(name, events);
            && |lines| >= 5 && lines[0] == "BEGIN:VCALENDAR" && lines[|lines| - 1] == "END:VCALENDAR"
            && lines[1] == "VERSION:2.0" && lines[2] == "PRODID:-//Odysseus//Calendar//EN"
            && lines[3] == "X-WR-CALNAME:" + Escape(name)
  {
  }

  method ExportDates(ev: Event) returns (lines: seq<string>)
    ensures lines == DateLines(ev)
  {
    if ev.allDay {
      lines := ["DTSTART;VALUE=DATE:" + ev.startStamp, "DTEND;VALUE=DATE:" + ev.endStamp];
    } else {
      var zone := if ev.isUtc then "Z" else "";
      assert "DTSTART:" + ev.startStamp + "" == "DTSTART:" + ev.startStamp;
      assert "DTEND:" + ev.endStamp + "" == "DTEND:" + ev.endStamp;
      lines := ["DTSTART:" + ev.startStamp + zone, "DTEND:" + ev.endStamp + zone];
    }
  }

  method ExportEvent(ev: Event) returns (lines: seq<string>)
    ensures lines == EventLines(ev)
  {
    lines := ["BEGIN:VEVENT"];
    lines := lines + ["UID:" + ev.uid];
    lines := lines + ["SUMMARY:" + Escape(ev.summary)];
    var dates := ExportDates(ev);
    lines := lines + dates;
    EscapedEmptiness(ev.description);
    EscapedEmptiness(ev.location);
    if ev.description != "" {
      lines := lines + ["DESCRIPTION:" + Escape(ev.description)];
    }
    if ev.location != "" {
      lines := lines + ["LOCATION:" + Escape(ev.location)];
    }
    if ev.rrule != "" {
      lines := lines + ["RRULE:" + ev.rrule];
    }
    lines := lines + ["END:VEVENT"];
  }

  lemma EscapedEmptiness(s: string)
    ensures Escape(s) == "" <==> s == ""
  {
    if s != "" { EscapeStep(s); }
  }

  lemma {:induction false} OneMoreEvent(events: seq<Event>, i: nat)
    requires i < |events|
    ensures AllEventLines(events[..i + 1]) == AllEventLines(events[..i]) + EventLines(events[i])
  {
    assert events[..i + 1][..i] == events[..i];
  }

  method EventBlock(events: seq<Event>) returns (lines: seq<string>)
    ensures lines == AllEventLines(events)
  {
    lines := [];
    for i := 0 to |events|
      invariant lines == AllEventLines(events[..i])
    {
      var eventLines := ExportEvent(events[i]);
      OneMoreEvent(events, i);
      lines := lines + eventLines;
    }
    assert events[..|events|] == events;
  }

  /** Every event's lines in turn between the calendar's own, then joined. */
  method Export(name: string, events: seq<Event>) returns (text: string)
    ensures text == Join(CalendarLines(name, events))
  {
    var block := EventBlock(events);
    text := Join(Header(name) + block + ["END:VCALENDAR"]);
  }

  lemma BreakHasReturn(line: string, i: int)
    requires OccursAt(line, CRLF, i)
    ensures line[i] == '\r'
  {
    assert line[i] == line[i..i + 2][0];
  }

  lemma NoReturnNoBreak(line: string)
    requires '\r' !in line
    ensures !Contains(line, CRLF)
  {
    forall i ensures !OccursAt(line, CRLF, i) {
      if OccursAt(line, CRLF, i) { BreakHasReturn(line, i); }
    }
  }

  /** A fixed property name in front adds no break and hides none. */
  lemma PrefixIsClean(prefix: string, value: string)
    requires '\r' !in prefix
    ensures Contains(prefix + value, CRLF) <==> Contains(value, CRLF)
  {
    var line := prefix + value;
    if Contains(line, CRLF) {
      var i :| OccursAt(line, CRLF, i);
      BreakHasReturn(line, i);
      assert forall k :: 0 <= k < |prefix| ==> line[k] == prefix[k];
      assert OccursAt(value, CRLF, i - |prefix|);
    }
    if Contains(value, CRLF) {
      var i :| OccursAt(value, CRLF, i);
      assert line[i + |prefix|..i + |prefix| + 2] == value[i..i + 2];
      assert OccursAt(line, CRLF, i + |prefix|);
    }
  }

  ghost predicate Clean(lines: seq<string>) {
    forall l :: l in lines ==> !Contains(l, CRLF)
  }

  lemma CleanConcat(a: seq<string>, b: seq<string>)
    ensures Clean(a + b) <==> Clean(a) && Clean(b)
  {
    assert forall l :: l in a || l in b ==> l in a + b;
  }

  lemma CleanOne(prefix: string, value: string)
    requires '\r' !in prefix
    ensures Clean([prefix + value]) <==> !Contains(value, CRLF)
    ensures '\r' !in value ==> Clean([prefix + value])
  {
    PrefixIsClean(prefix, value);
    assert (prefix + value) in [prefix + value];
    if '\r' !in value { NoReturnNoBreak(value); }
  }

  lemma CleanOptional(prefix: string, value: string)
    requires '\r' !in prefix
    ensures Clean(OptionalLine(prefix, value)) <==> !Contains(value, CRLF)
    ensures '\r' !in value ==> Clean(OptionalLine(prefix, value))
  {
    CleanOne(prefix, value);
    if value == "" { NoReturnNoBreak(value); }
  }

  /** The parts of an event written as they are, which nothing escapes. */
  ghost predicate RawPartsClean(ev: Event) {
    !Contains(ev.uid, CRLF) && !Contains(ev.rrule, CRLF)
  }

  predicate StampsClean(ev: Event) {
    '\r' !in ev.startStamp && '\r' !in ev.endStamp
  }

  lemma DateLinesClean(ev: Event)
    requires StampsClean(ev)
    ensures Clean(DateLines(ev))
  {
    forall l | l in DateLines(ev) ensures !Contains(l, CRLF) {
      NoReturnNoBreak(l);
    }
  }

  lemma EventLinesClean(ev: Event)
    requires StampsClean(ev)
    ensures Clean(EventLines(ev)) <==> RawPartsClean(ev)
  {
    EscapedHasNoBreak(ev.summary);
    EscapedHasNoBreak(ev.description);
    EscapedHasNoBreak(ev.location);
    var p0 := ["BEGIN:VEVENT"];
    NoReturnNoBreak("BEGIN:VEVENT");
    var p1 := p0 + ["UID:" + ev.uid];
    CleanOne("UID:", ev.uid);
    CleanConcat(p0, ["UID:" + ev.uid]);
    var p2 := p1 + ["SUMMARY:" + Escape(ev.summary)];
    CleanOne("SUMMARY:", Escape(ev.summary));
    CleanConcat(p1, ["SUMMARY:" + Escape(ev.summary)]);
    var p3 := p2 + DateLines(ev);
    DateLinesClean(ev);
    CleanConcat(p2, DateLines(ev));
    var d, l, r := OptionalLine("DESCRIPTION:", Escape(ev.description)),
        OptionalLine("LOCATION:", Escape(ev.location)), OptionalLine("RRULE:", ev.rrule);
    CleanOptional("DESCRIPTION:", Escape(ev.description));
    CleanOptional("LOCATION:", Escape(ev.location));
    CleanOptional("RRULE:", ev.rrule);
    CleanConcat(p3, d);
    CleanConcat(p3 + d, l);
    CleanConcat(p3 + d + l, r);
    NoReturnNoBreak("END:VEVENT");
    CleanConcat(p3 + d + l + r, ["END:VEVENT"]);
  }

  lemma {:induction false} AllEventLinesClean(events: seq<Event>)
    requires forall ev :: ev in events ==> StampsClean(ev)
    ensures Clean(AllEventLines(events)) <==> forall ev :: ev in events ==> RawPartsClean(ev)
  {
    if events != [] {
      var front, last := events[..|events| - 1], events[|events| - 1];
      assert events == front + [last];
      AllEventLinesClean(front);
      EventLinesClean(last);
      CleanConcat(AllEventLines(front), EventLines(last));
    }
  }

  /** The file reads back line for line exactly when no uid or rule carries a line break; names,
      summaries, descriptions and locations may be any text. */
  lemma ExportReadsBack(name: string, events: seq<Event>)
    requires forall ev :: ev in events ==> StampsClean(ev)
    ensures var lines := CalendarLines(name, events);
            Split(Join(lines)) == lines <==> forall ev :: ev in events ==> RawPartsClean(ev)
  {
    AllEventLinesClean(events);
    var head := Header(name);
    HeaderClean(name);
    CleanConcat(head, AllEventLines(events));
    NoReturnNoBreak("END:VCALENDAR");
    CleanConcat(head + AllEventLines(events), ["END:VCALENDAR"]);
    SplitInvertsJoin(CalendarLines(name, events));
  }

  lemma HeaderClean(name: string)
    ensures Clean(Header(name))
  {
    EscapedHasNoBreak(name);
    forall l | l in Header(name) ensures !Contains(l, CRLF) {
      NoReturnNoBreak(l);
    }
  }
}
