/** What an import stores and counts, in the fields of the file and of the rows
    (routes/calendar_routes.py). */
module ImportFacts {
  import opened Wrappers
  import opened IcsImport

  /** A date or time as it is written on its own clock, in seconds: a date is its midnight. */
  function Written(t: Time): int {
    match t
    case DateOnly(day) => 86400 * day
    case Floating(wall) => wall
    case Zoned(wall, _) => wall
  }

  /** The stored start and the offset make the written time; floating times and dates are stored as
      they are written; and the flags say which it was. */
  lemma StoredStartIs(c: Component)
    requires Dated(c) && NewRow(c).Some?
    ensures var r := NewRow(c).value;
            && r.dtstart + (if c.start.value.Zoned? then c.start.value.offset else 0) == Written(c.start.value)
            && (r.isUtc <==> c.start.value.Zoned?) && (r.allDay <==> c.start.value.DateOnly?)
            && r.summary == c.summary && r.description == c.description && r.location == c.location
            && r.rrule == c.rrule && r.exdates == []
  {
  }

  /** A timed event's end, when it comes after the start, is stored the same way; else, and when there
      is none, the event lasts an hour. */
  lemma StoredEndIs(c: Component)
    requires Dated(c) && !c.start.value.DateOnly? && NewRow(c).Some?
    ensures var r := NewRow(c).value;
            && (c.end == None ==> r.dtend == r.dtstart + 3600)
            && (c.end.Some? ==>
                  var shift := if c.end.value.Zoned? then c.end.value.offset else 0;
                  if Written(c.end.value) - shift > r.dtstart then r.dtend + shift == Written(c.end.value)
                  else r.dtend == r.dtstart + 3600)
  {
  }

  /** An all-day event ends on the midnight that begins its end's day, on the end's own clock, when
      that comes after its start; else, and when there is none, it lasts a day. */
  lemma StoredLastDayIs(c: Component, midnight: int)
    requires Dated(c) && c.start.value.DateOnly? && NewRow(c).Some?
    requires c.end.Some? ==> midnight % 86400 == 0 && midnight <= Written(c.end.value) < midnight + 86400
    ensures var r := NewRow(c).value;
            && (c.end == None ==> r.dtend == r.dtstart + 86400)
            && (c.end.Some? ==> r.dtend == if midnight > r.dtstart then midnight else r.dtstart + 86400)
  {
  }

  /** The moment a zoned time names: two spellings of one instant differ in clock and offset alike. */
  predicate SameInstant(a: Time, b: Time) {
    a == b || (a.Zoned? && b.Zoned? && a.wall - b.wall == a.offset - b.offset)
  }

  /** Two spellings of one event make the same row, and are duplicates of the same rows. */
  lemma SameInstantSameRow(c: Component, d: Component, r: Row)
    requires Dated(c) && Dated(d) && !c.start.value.DateOnly?
    requires d == c.(start := d.start, end := d.end) && SameInstant(c.start.value, d.start.value)
    requires c.end == d.end || (c.end.Some? && d.end.Some? && SameInstant(c.end.value, d.end.value))
    ensures NewRow(c) == NewRow(d) && (Matches(r, c) <==> Matches(r, d))
  {
  }

  /** A stored row is a duplicate exactly when it has the summary and the moment of the start. */
  lemma MatchesExactly(r: Row, c: Component)
    requires Dated(c)
    ensures Matches(r, c) <==>
              && r.summary == c.summary
              && r.dtstart + (if c.start.value.Zoned? then c.start.value.offset else 0) == Written(c.start.value)
  {
  }

  /** What a repair does to a row: the default span if it had none, an hour or a day. */
  lemma RepairIs(r: Row)
    ensures Repaired(r) == r.(dtend := if r.dtend > r.dtstart then r.dtend
                                       else r.dtstart + if r.allDay then 86400 else 3600)
  {
  }

  // ---------- Whole imports ----------

  /** The new rows of the events that are added, in the order of the file. */
  ghost function AddedRows(stored: seq<Row>, cs: seq<Component>): seq<Row> {
    if cs == [] then []
    else
      var c := cs[|cs| - 1];
      AddedRows(stored, cs[..|cs| - 1]) + if Adds(stored, c) && NewRow(c).Some? then [NewRow(c).value] else []
  }

  /** An import appends exactly those rows. */
  lemma {:induction false} ImportAppends(q: Query, stored: seq<Row>, cs: seq<Component>)
    requires Answers(q) && ImportAll(q, stored, cs).Some?
    ensures ImportAll(q, stored, cs).value.rows[|stored|..] == AddedRows(stored, cs)
  {
    if cs != [] {
      var front, last := cs[..|cs| - 1], cs[|cs| - 1];
      ImportAppends(q, stored, front);
      var t := ImportAll(q, stored, front).value;
      if Dated(last) {
        AnswerFindsMatch(q, stored, last);
      }
      StepAppends(q, stored, t, last);
    }
  }

  lemma StepAppends(q: Query, stored: seq<Row>, t: Tally, c: Component)
    requires |stored| <= |t.rows| && Step(q, stored, t, c).Some?
    requires Dated(c) ==> (q(stored, c) < |stored| <==> HasMatch(stored, c))
    ensures Step(q, stored, t, c).value.rows[|stored|..]
         == t.rows[|stored|..] + if Adds(stored, c) && NewRow(c).Some? then [NewRow(c).value] else []
  {
    var n := Step(q, stored, t, c).value;
    if Adds(stored, c) {
      assert n.rows == t.rows + [NewRow(c).value];
    }
  }

  function Vevents(cs: seq<Component>): nat {
    if cs == [] then 0 else Vevents(cs[..|cs| - 1]) + if cs[|cs| - 1].Vevent? then 1 else 0
  }

  /** How many of the first n rows differ. */
  function Changed(a: seq<Row>, b: seq<Row>, n: nat): nat
    requires n <= |a| && n <= |b|
  {
    if n == 0 then 0 else Changed(a, b, n - 1) + if a[n - 1] != b[n - 1] then 1 else 0
  }

  /** Every event of the file is counted once, as imported or as skipped. */
  lemma {:induction false} EveryEventIsCounted(q: Query, stored: seq<Row>, cs: seq<Component>)
    requires ImportAll(q, stored, cs).Some?
    ensures ImportAll(q, stored, cs).value.imported + ImportAll(q, stored, cs).value.skipped == Vevents(cs)
  {
    if cs != [] {
      EveryEventIsCounted(q, stored, cs[..|cs| - 1]);
    }
  }

  lemma {:induction false} ChangedOnce(a: seq<Row>, b: seq<Row>, n: nat, k: nat, r: Row)
    requires n <= |a| && |a| <= |b| && k < |a| && b[k] == a[k] && r != a[k]
    ensures Changed(a, b[k := r], n) == Changed(a, b, n) + if k < n then 1 else 0
  {
    if n > 0 {
      ChangedOnce(a, b, n - 1, k, r);
    }
  }

  lemma {:induction false} AppendingChangesNone(a: seq<Row>, b: seq<Row>, n: nat, r: Row)
    requires n <= |a| <= |b|
    ensures Changed(a, b + [r], n) == Changed(a, b, n)
  {
    if n > 0 {
      AppendingChangesNone(a, b, n - 1, r);
    }
  }

  /** A row changes at most once: what is repaired has a duration from then on. */
  lemma {:induction false} RepairedIsTheChange(q: Query, stored: seq<Row>, cs: seq<Component>)
    requires ImportAll(q, stored, cs).Some?
    ensures var t := ImportAll(q, stored, cs).value; t.repaired == Changed(stored, t.rows, |stored|)
  {
    if cs == [] {
      NoneChanged(stored, |stored|);
    } else {
      var front, c := cs[..|cs| - 1], cs[|cs| - 1];
      RepairedIsTheChange(q, stored, front);
      ImportKeepsRows(q, stored, front);
      var t, n := ImportAll(q, stored, front).value, ImportAll(q, stored, cs).value;
      if Dated(c) {
        var k := q(stored, c);
        if c.uid != "" && k < |stored| {
          if Repaired(t.rows[k]) != t.rows[k] {
            ChangedOnce(stored, t.rows, |stored|, k, Repaired(t.rows[k]));
          } else {
            assert n.rows == t.rows;
          }
        } else {
          AppendingChangesNone(stored, t.rows, |stored|, NewRow(c).value);
        }
      }
    }
  }

  lemma {:induction false} NoneChanged(a: seq<Row>, n: nat)
    requires n <= |a|
    ensures Changed(a, a, n) == 0
  {
    if n > 0 {
      NoneChanged(a, n - 1);
    }
  }
}
