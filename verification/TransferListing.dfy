/** What a moved series lists (routes/calendar_routes.py): its deleted occurrences come back, because
    the exported file does not carry them. Reading the rule column is a parameter. */
module TransferListing {
  import opened IcsImport
  import opened IcsTransfer
  import R = Recurrence
  import D = OccurrenceDeletion

  /** How the rule column of an event that starts at a given time is read. */
  type Reading = (string, int) -> R.Rule

  /** Where an event is stored. */
  datatype Place = Place(uid: string, owner: string, calendarId: string, calendarName: string)

  /** The event that the listing makes of a row. */
  function Listed(at: Place, rule: Reading, r: Row): R.Event {
    R.Event(at.uid, at.owner, at.calendarId, at.calendarName, false, r.dtstart, r.dtend, r.allDay,
            rule(r.rrule, r.dtstart), r.exdates)
  }

  lemma {:induction false} SameCountsSameNaive(a: R.Event, b: R.Event, f: R.Format, start: int, end: int, n: nat)
    requires a.rule.Series? && a.rule == b.rule
    requires forall i: nat :: R.Counts(a, f, start, end, i) <==> R.Counts(b, f, start, end, i)
    ensures R.Naive(a, f, start, end, n) == R.Naive(b, f, start, end, n)
  {
    if n > 0 {
      SameCountsSameNaive(a, b, f, start, end, n - 1);
      assert R.Counts(a, f, start, end, n - 1) <==> R.Counts(b, f, start, end, n - 1);
    }
  }

  /** All that a window should show of a series, before the limit. */
  function Shown(ev: R.Event, f: R.Format, start: int, end: int): seq<int>
    requires ev.rule.Series?
  {
    R.Naive(ev, f, start, end, R.Horizon(ev, end))
  }

  /** A moved series shows the same starts in every window if and only if no occurrence of the rule
      had been deleted. */
  lemma MovedSeriesListsTheSameExactly(here: Place, there: Place, rule: Reading, r: Row, f: R.Format)
    requires Plain(r)
    requires var ev := Listed(here, rule, r); ev.rule.Series? && R.WellFormed(ev)
    ensures var ev, moved := Listed(here, rule, r), Listed(there, rule, Arrived(r));
            && moved.rule == ev.rule && R.WellFormed(moved)
            && ((forall start, end :: Shown(ev, f, start, end) == Shown(moved, f, start, end))
                <==> forall i: nat :: R.In(ev.rule, i) ==> !R.Excluded(ev, f, ev.rule.at(i)))
  {
    var ev, moved := Listed(here, rule, r), Listed(there, rule, Arrived(r));
    PlainRowArrives(r);
    assert moved.rule == ev.rule && R.Exdates(moved.storedExdates) == [];
    if forall i: nat :: R.In(ev.rule, i) ==> !R.Excluded(ev, f, ev.rule.at(i)) {
      forall start, end ensures Shown(ev, f, start, end) == Shown(moved, f, start, end) {
        assert forall i: nat :: R.Counts(ev, f, start, end, i) <==> R.Counts(moved, f, start, end, i);
        SameCountsSameNaive(ev, moved, f, start, end, R.Horizon(ev, end));
      }
    } else {
      var i: nat :| R.In(ev.rule, i) && R.Excluded(ev, f, ev.rule.at(i));
      var t := ev.rule.at(i);
      R.NaiveIsExact(ev, f, t, t + 1, t);
      R.NaiveIsExact(moved, f, t, t + 1, t);
      assert t in Shown(moved, f, t, t + 1) && t !in Shown(ev, f, t, t + 1);
    }
  }

  lemma PlainRowArrives(r: Row)
    requires Plain(r)
    ensures Arrived(r) == r.(exdates := [])
  {
    ArrivesUnchangedExactly(r.(exdates := []));
  }

  /** Delete an occurrence, move the calendar: it was listed no more in any window, and now it is
      listed again in every window that holds it and is not truncated. */
  lemma DeletedOccurrenceReturns(
      here: Place, there: Place, rule: Reading, r: Row, f: R.Format, i: nat, start: int, end: int)
    requires Plain(r) && R.FixedWidth(f)
    requires var ev := Listed(here, rule, r);
             && ev.rule.Series? && R.WellFormed(ev) && R.In(ev.rule, i) && R.InWindow(ev, start, end, ev.rule.at(i))
    requires !R.Truncated(Listed(there, rule, Arrived(r)), f, start, end)
    ensures var ev := Listed(here, rule, r);
            var t := ev.rule.at(i);
            var gone := r.(exdates := D.WithExdate(r.exdates, R.KeyAt(ev, f, t)));
            && Listed(here, rule, gone) == D.Deleted(ev, R.KeyAt(ev, f, t))
            && (forall o :: o in R.NaiveRow(Listed(here, rule, gone), f, start, end) ==> o.start != t)
            && exists o :: o in R.NaiveRow(Listed(there, rule, Arrived(gone)), f, start, end) && o.start == t
  {
    var ev := Listed(here, rule, r);
    var t := ev.rule.at(i);
    var key := R.KeyAt(ev, f, t);
    var gone := r.(exdates := D.WithExdate(r.exdates, key));
    var moved := Listed(there, rule, Arrived(gone));
    D.KeyIsSolid(ev, f, t);
    forall o | o in R.NaiveRow(Listed(here, rule, gone), f, start, end) ensures o.start != t {
      D.DeletedIsNeverListed(ev, f, key, start, end, o);
    }
    assert Arrived(gone) == Arrived(r);
    PlainRowArrives(r);
    R.NaiveIsExact(moved, f, start, end, t);
    D.UntruncatedRow(moved, f, start, end);
    var all := Shown(moved, f, start, end);
    var k :| 0 <= k < |all| && all[k] == t;
    assert R.NaiveRow(moved, f, start, end)[k] == R.Rendered(moved, f, t, false);
  }
}
