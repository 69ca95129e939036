/** Moving a calendar: what an import makes of an exported file (routes/calendar_routes.py). The
    export writes no deleted occurrences of a series, so none arrive. Rendering and reading times is
    the runtime's and a library's work, a parameter here; rules are taken to be in the library's
    canonical form already. */
module IcsTransfer {
  import opened Wrappers
  import opened Text
  import opened IcsText
  import opened IcsExport
  import opened IcsRoundTrip
  import opened IcsImport

  datatype StoredEvent = StoredEvent(uid: string, row: Row)

  /** `strftime` to the day and to the second, and the library's readings of the two. */
  datatype Clock = Clock(day: int -> string, second: int -> string, readDay: string -> int, readSecond: string -> int)

  ghost predicate Faithful(c: Clock) {
    && (forall t :: c.readDay(c.day(t)) == t / DAY && '\r' !in c.day(t))
    && (forall t :: c.readSecond(c.second(t)) == t && '\r' !in c.second(t) && !EndsInZ(c.second(t)))
  }

  predicate EndsInZ(s: string) {
    s != "" && s[|s| - 1] == 'Z'
  }

  // ---------- Out and in ----------

  function Outgoing(c: Clock, e: StoredEvent): IcsExport.Event {
    var r := e.row;
    IcsExport.Event(
      e.uid, r.summary, r.description, r.location, r.rrule, r.allDay, r.isUtc,
      if r.allDay then c.day(r.dtstart) else c.second(r.dtstart),
      if r.allDay then c.day(r.dtend) else c.second(r.dtend))
  }

  /** A date, a UTC time if it ends in Z, or a floating time. */
  function TimeOf(c: Clock, day: Option<string>, time: Option<string>): Option<Time> {
    if day.Some? then Some(DateOnly(c.readDay(day.value)))
    else if time == None then None
    else if EndsInZ(time.value) then Some(Zoned(c.readSecond(time.value[..|time.value| - 1]), 0))
    else Some(Floating(c.readSecond(time.value)))
  }

  function Incoming(c: Clock, r: Reading): Component {
    Vevent(r.uid.GetOr(""), r.summary.GetOr(""), TimeOf(c, r.startDay, r.start), TimeOf(c, r.endDay, r.end),
           r.description.GetOr(""), r.location.GetOr(""), r.rrule.GetOr(""))
  }

  function Arrival(c: Clock, e: StoredEvent): Component {
    Incoming(c, Found(Outgoing(c, e)))
  }

  function OutgoingAll(c: Clock, es: seq<StoredEvent>): seq<IcsExport.Event> {
    if es == [] then [] else OutgoingAll(c, es[..|es| - 1]) + [Outgoing(c, es[|es| - 1])]
  }

  function IncomingAll(c: Clock, rs: seq<Reading>): seq<Component> {
    if rs == [] then [] else IncomingAll(c, rs[..|rs| - 1]) + [Incoming(c, rs[|rs| - 1])]
  }

  // ---------- One event ----------

  function WholeDays(t: int): int { t / DAY * DAY }

  /** What arrives for a stored row: texts with LF line endings, whole days and no zone for an all-day
      event, a positive duration, and no deleted occurrences. */
  function Arrived(r: Row): Row {
    var start := if r.allDay then WholeDays(r.dtstart) else r.dtstart;
    var end := if r.allDay then WholeDays(r.dtend) else r.dtend;
    Row(LfOnly(r.summary), start, EnsurePositiveDuration(start, end, r.allDay), r.allDay, r.isUtc && !r.allDay,
        LfOnly(r.description), LfOnly(r.location), r.rrule, [])
  }

  /** The row as it is read: of its deleted occurrences, those that are not blank. */
  function AsRead(r: Row): Row {
    r.(exdates := Recurrence.Exdates(r.exdates))
  }

  /** Nothing that moving rewrites: texts with LF line endings, a positive duration, whole days and
      no zone for an all-day event. */
  predicate Plain(r: Row) {
    && '\r' !in r.summary && '\r' !in r.description && '\r' !in r.location
    && r.dtstart < r.dtend
    && (r.allDay ==> r.dtstart % DAY == 0 && r.dtend % DAY == 0 && !r.isUtc)
  }

  lemma {:induction false} LfKeepsExactly(s: string)
    ensures LfOnly(s) == s <==> '\r' !in s
    ensures '\r' !in LfOnly(s)
    decreases |s|
  {
    if s != "" {
      if CRLF <= s {
        LfKeepsExactly(s[2..]);
        assert s[0] in s;
      } else {
        assert s == [s[0]] + s[1..] && s[0] in s;
        LfKeepsExactly(s[1..]);
      }
    }
  }

  /** A row arrives as it was exactly when it is plain and no occurrence of it was deleted. */
  lemma ArrivesUnchangedExactly(r: Row)
    ensures Arrived(r) == AsRead(r) <==> Plain(r) && Recurrence.Exdates(r.exdates) == []
  {
    LfKeepsExactly(r.summary);
    LfKeepsExactly(r.description);
    LfKeepsExactly(r.location);
  }

  /** The file can be read line by line, and the event carries a uid. */
  ghost predicate Portable(e: StoredEvent) {
    e.uid != "" && !Contains(e.uid, CRLF) && !Contains(e.row.rrule, CRLF)
  }

  function ArrivedTime(r: Row, t: int): Time {
    if r.allDay then DateOnly(t / DAY) else if r.isUtc then Zoned(t, 0) else Floating(t)
  }

  lemma ArrivalIs(c: Clock, e: StoredEvent)
    requires Faithful(c)
    ensures Arrival(c, e) == Vevent(
              Unescape(e.uid), LfOnly(e.row.summary),
              Some(ArrivedTime(e.row, e.row.dtstart)), Some(ArrivedTime(e.row, e.row.dtend)),
              LfOnly(e.row.description), LfOnly(e.row.location), e.row.rrule)
  {
    ZoneComesOff(c, e.row.dtstart);
    ZoneComesOff(c, e.row.dtend);
  }

  lemma EventArrives(c: Clock, e: StoredEvent)
    requires Faithful(c) && Portable(e)
    ensures var arrived := Arrival(c, e);
            && arrived.uid != "" && arrived.summary == Arrived(e.row).summary
            && arrived.start.Some? && NaiveStart(arrived.start.value) == Arrived(e.row).dtstart
            && NewRow(arrived) == Some(Arrived(e.row))
  {
    UnescapeKeepsExactly(e.uid);
    ArrivalIs(c, e);
  }

  lemma ZoneComesOff(c: Clock, t: int)
    requires Faithful(c)
    ensures TimeOf(c, None, Some(c.second(t) + "Z")) == Some(Zoned(t, 0))
    ensures TimeOf(c, None, Some(c.second(t) + "")) == Some(Floating(t))
    ensures TimeOf(c, Some(c.day(t)), None) == Some(DateOnly(t / DAY))
  {
    var z := c.second(t) + "Z";
    assert z[..|z| - 1] == c.second(t) && c.second(t) + "" == c.second(t);
  }

  // ---------- All of them ----------

  function Arriving(c: Clock, es: seq<StoredEvent>): seq<Component> {
    if es == [] then [] else Arriving(c, es[..|es| - 1]) + [Arrival(c, es[|es| - 1])]
  }

  function ArrivedAll(es: seq<StoredEvent>): (rows: seq<Row>)
    ensures |rows| == |es| && forall i :: 0 <= i < |rows| ==> rows[i] == Arrived(es[i].row)
  {
    seq(|es|, i requires 0 <= i < |es| => Arrived(es[i].row))
  }

  function AsReadAll(es: seq<StoredEvent>): (rows: seq<Row>)
    ensures |rows| == |es| && forall i :: 0 <= i < |rows| ==> rows[i] == AsRead(es[i].row)
  {
    seq(|es|, i requires 0 <= i < |es| => AsRead(es[i].row))
  }

  /** A stored row that the duplicate check takes for this event. */
  predicate Alike(r: Row, e: StoredEvent) {
    r.dtstart == Arrived(e.row).dtstart && r.summary == Arrived(e.row).summary
  }

  ghost predicate Met(stored: seq<Row>, e: StoredEvent) {
    exists k :: 0 <= k < |stored| && Alike(stored[k], e)
  }

  lemma ArrivalMeetsStored(c: Clock, stored: seq<Row>, e: StoredEvent)
    requires Faithful(c) && Portable(e)
    ensures Adds(stored, Arrival(c, e)) <==> !Met(stored, e)
  {
    var arrived := Arrival(c, e);
    EventArrives(c, e);
    assert forall k :: 0 <= k < |stored| ==> (Matches(stored[k], arrived) <==> Alike(stored[k], e));
  }

  lemma ArrivalIsAppended(q: Query, c: Clock, stored: seq<Row>, front: seq<StoredEvent>, last: StoredEvent)
    requires Answers(q) && Faithful(c) && Portable(last) && !Met(stored, last)
    ensures Step(q, stored, Tally(stored + ArrivedAll(front), |front|, 0, 0), Arrival(c, last))
         == Some(Tally(stored + ArrivedAll(front + [last]), |front| + 1, 0, 0))
  {
    var arrived := Arrival(c, last);
    EventArrives(c, last);
    ArrivalMeetsStored(c, stored, last);
    AnswerFindsMatch(q, stored, arrived);
    assert stored + ArrivedAll(front) + [Arrived(last.row)] == stored + ArrivedAll(front + [last]);
  }

  lemma ArrivingStep(c: Clock, front: seq<StoredEvent>, last: StoredEvent)
    ensures Arriving(c, front + [last]) == Arriving(c, front) + [Arrival(c, last)]
  {
    assert (front + [last])[..|front|] == front;
  }

  lemma ImportOneMore(q: Query, stored: seq<Row>, cs: seq<Component>, c: Component)
    ensures ImportAll(q, stored, cs + [c]) ==
              var t := ImportAll(q, stored, cs); if t == None then None else Step(q, stored, t.value, c)
  {
    assert (cs + [c])[..|cs|] == cs;
  }

  lemma {:induction false} StrangersAreAppended(q: Query, c: Clock, stored: seq<Row>, es: seq<StoredEvent>)
    requires Answers(q) && Faithful(c) && forall e :: e in es ==> Portable(e) && !Met(stored, e)
    ensures ImportAll(q, stored, Arriving(c, es)) == Some(Tally(stored + ArrivedAll(es), |es|, 0, 0))
  {
    if es == [] {
      assert stored + ArrivedAll(es) == stored;
    } else {
      var front, last := es[..|es| - 1], es[|es| - 1];
      assert es == front + [last] && last in es && forall e :: e in front ==> e in es;
      StrangersAreAppended(q, c, stored, front);
      ArrivingStep(c, front, last);
      ImportOneMore(q, stored, Arriving(c, front), Arrival(c, last));
      ArrivalIsAppended(q, c, stored, front, last);
    }
  }

  lemma {:induction false} ArrivalsAreAccepted(c: Clock, stored: seq<Row>, es: seq<StoredEvent>)
    requires Faithful(c) && forall e :: e in es ==> Portable(e)
    ensures Accepted(stored, Arriving(c, es))
  {
    if es != [] {
      var front, last := es[..|es| - 1], es[|es| - 1];
      assert es == front + [last] && last in es && forall e :: e in front ==> e in es;
      ArrivalsAreAccepted(c, stored, front);
      ArrivingStep(c, front, last);
      EventArrives(c, last);
    }
  }

  /** The arrivals already met are not added. */
  lemma {:induction false} ArrivalsAdd(c: Clock, stored: seq<Row>, es: seq<StoredEvent>)
    requires Faithful(c) && forall e :: e in es ==> Portable(e)
    ensures Added(stored, Arriving(c, es)) <= |es|
    ensures (exists e :: e in es && Met(stored, e)) ==> Added(stored, Arriving(c, es)) < |es|
  {
    if es != [] {
      var front, last := es[..|es| - 1], es[|es| - 1];
      assert es == front + [last] && last in es && forall e :: e in front ==> e in es;
      ArrivalsAdd(c, stored, front);
      ArrivingStep(c, front, last);
      AddedOneMore(stored, Arriving(c, front), Arrival(c, last));
      ArrivalMeetsStored(c, stored, last);
    }
  }

  lemma AddedOneMore(stored: seq<Row>, cs: seq<Component>, c: Component)
    ensures Added(stored, cs + [c]) == Added(stored, cs) + if Adds(stored, c) then 1 else 0
  {
    assert (cs + [c])[..|cs|] == cs;
  }

  lemma {:induction false} ArrivalsAreRead(c: Clock, es: seq<StoredEvent>)
    ensures IncomingAll(c, FoundAll(OutgoingAll(c, es))) == Arriving(c, es)
  {
    if es != [] {
      ArrivalsAreRead(c, es[..|es| - 1]);
      var front := OutgoingAll(c, es[..|es| - 1]);
      assert OutgoingAll(c, es)[..|OutgoingAll(c, es)| - 1] == front;
    }
  }

  lemma {:induction false} OutgoingIsClean(c: Clock, es: seq<StoredEvent>)
    requires Faithful(c) && forall e :: e in es ==> Portable(e)
    ensures forall ev :: ev in OutgoingAll(c, es) ==> StampsClean(ev) && RawPartsClean(ev)
  {
    if es != [] {
      assert es[|es| - 1] in es && forall e :: e in es[..|es| - 1] ==> e in es;
      OutgoingIsClean(c, es[..|es| - 1]);
    }
  }

  /** The rows an import of the exported file leaves, none of whose events meets a stored row: the
      stored ones, and what arrives for each event, in order. */
  ghost predicate Moved(q: Query, c: Clock, name: string, es: seq<StoredEvent>, stored: seq<Row>, rows: seq<Row>) {
    var text := Join(CalendarLines(name, OutgoingAll(c, es)));
    var imported := ImportAll(q, stored, IncomingAll(c, ReadFile(text).1));
    imported.Some? && imported.value.rows == rows
  }

  /** Exporting a calendar and importing the file always succeeds. It adds what arrives for each
      event, in order, and touches nothing else, if and only if no stored row of the target has the
      start and summary of one of the arrivals. Into an empty calendar that is every file: events of
      one file are never taken for duplicates of each other. */
  lemma TransferAddsAll(q: Query, c: Clock, name: string, es: seq<StoredEvent>, stored: seq<Row>)
    requires Answers(q) && Faithful(c) && forall e :: e in es ==> Portable(e)
    ensures exists rows :: Moved(q, c, name, es, stored, rows)
    ensures Moved(q, c, name, es, stored, stored + ArrivedAll(es)) <==> forall e :: e in es ==> !Met(stored, e)
    ensures (exists e :: e in es && Met(stored, e)) ==>
              forall rows :: Moved(q, c, name, es, stored, rows) ==> |rows| < |stored| + |es|
  {
    OutgoingIsClean(c, es);
    FileIsFound(name, OutgoingAll(c, es));
    ArrivalsAreRead(c, es);
    ArrivalsAdd(c, stored, es);
    ArrivalsAreAccepted(c, stored, es);
    ImportSucceedsExactly(q, stored, Arriving(c, es));
    assert Moved(q, c, name, es, stored, ImportAll(q, stored, Arriving(c, es)).value.rows);
    if forall e :: e in es ==> !Met(stored, e) {
      StrangersAreAppended(q, c, stored, es);
    } else {
      ImportAdds(q, stored, Arriving(c, es));
    }
  }

  lemma AllArriveUnchanged(es: seq<StoredEvent>)
    ensures ArrivedAll(es) == AsReadAll(es)
            <==> forall e :: e in es ==> Plain(e.row) && Recurrence.Exdates(e.row.exdates) == []
  {
    forall i | 0 <= i < |es|
      ensures Arrived(es[i].row) == AsRead(es[i].row)
              <==> Plain(es[i].row) && Recurrence.Exdates(es[i].row.exdates) == []
    {
      ArrivesUnchangedExactly(es[i].row);
    }
    if ArrivedAll(es) == AsReadAll(es) {
      forall e | e in es ensures Plain(e.row) && Recurrence.Exdates(e.row.exdates) == [] {
        var i :| 0 <= i < |es| && es[i] == e;
        assert ArrivedAll(es)[i] == AsReadAll(es)[i];
      }
    }
  }

  /** Every row is recreated as it is read, in order, and nothing else happens, if and only if no
      event meets a stored row, every event is plain, and no occurrence of any was deleted. */
  lemma TransferIsExact(q: Query, c: Clock, name: string, es: seq<StoredEvent>, stored: seq<Row>)
    requires Answers(q) && Faithful(c) && forall e :: e in es ==> Portable(e)
    ensures Moved(q, c, name, es, stored, stored + AsReadAll(es))
            <==> forall e :: e in es ==> !Met(stored, e) && Plain(e.row) && Recurrence.Exdates(e.row.exdates) == []
  {
    TransferAddsAll(q, c, name, es, stored);
    AllArriveUnchanged(es);
    if Moved(q, c, name, es, stored, stored + AsReadAll(es)) {
      assert |stored + AsReadAll(es)| == |stored| + |es|;
      assert Moved(q, c, name, es, stored, stored + ArrivedAll(es));
      assert ArrivedAll(es) == (stored + ArrivedAll(es))[|stored|..];
      assert AsReadAll(es) == (stored + AsReadAll(es))[|stored|..];
    }
  }
}
