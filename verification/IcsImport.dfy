/** Importing a calendar file (routes/calendar_routes.py). Times are whole seconds; a zoned time
    brings its offset from UTC. Parsing the file is a library's work: an import starts from the
    components it found. The rows an import adds stay pending until its one commit, so the duplicate
    check sees only the rows that were stored before. */
module IcsImport {
  import opened Wrappers
  import Recurrence

  datatype Time = DateOnly(day: int) | Floating(wall: int) | Zoned(wall: int, offset: int)

  datatype Component =
    | Vevent(uid: string, summary: string, start: Option<Time>, end: Option<Time>, description: string,
        location: string, rrule: string)
    | OtherComponent

  /** A stored event; `exdates` are the dates or minutes of its deleted occurrences. */
  datatype Row = Row(
    summary: string, dtstart: int, dtend: int, allDay: bool, isUtc: bool, description: string, location: string,
    rrule: string, exdates: seq<string>)

  const DAY := 86400
  const HOUR := 3600

  /** How a start is stored: zoned times as UTC, dates as midnight, floating times as they are. */
  function NaiveStart(t: Time): int {
    match t
    case DateOnly(d) => d * DAY
    case Floating(w) => w
    case Zoned(w, o) => w - o
  }

  /** An end that does not come after its start is replaced by the default span. */
  function EnsurePositiveDuration(start: int, end: int, allDay: bool): (r: int)
    ensures r > start
    ensures end > start ==> r == end
    ensures end <= start ==> r == start + (if allDay then DAY else HOUR)
  {
    if end <= start then start + (if allDay then DAY else HOUR) else end
  }

  /** Midnight of the day an end falls on, by its own wall clock. */
  function MidnightOf(t: Time): int {
    match t
    case DateOnly(d) => d * DAY
    case Floating(w) => w / DAY * DAY
    case Zoned(w, _) => w / DAY * DAY
  }

  /** The end before clamping. A timed event whose end is a bare date cannot be compared, and the import fails. */
  function StoredEnd(start: Time, end: Option<Time>): Option<int> {
    if start.DateOnly? then
      Some(if end.Some? then MidnightOf(end.value) else NaiveStart(start) + DAY)
    else if end == None then Some(NaiveStart(start) + HOUR)
    else if end.value.DateOnly? then None
    else Some(NaiveStart(end.value))
  }

  function NewRow(c: Component): (row: Option<Row>)
    requires c.Vevent? && c.start.Some?
    ensures row == None <==> !c.start.value.DateOnly? && c.end.Some? && c.end.value.DateOnly?
    ensures row.Some? ==> row.value.dtstart < row.value.dtend
  {
    var start := c.start.value;
    var end := StoredEnd(start, c.end);
    if end == None then None
    else
      Some(Row(c.summary, NaiveStart(start), EnsurePositiveDuration(NaiveStart(start), end.value, start.DateOnly?),
               start.DateOnly?, start.Zoned?, c.description, c.location, c.rrule, []))
  }

  predicate Dated(c: Component) { c.Vevent? && c.start.Some? }

  predicate Matches(r: Row, c: Component)
    requires Dated(c)
  {
    r.dtstart == NaiveStart(c.start.value) && r.summary == c.summary
  }

  predicate Positive(r: Row) { r.dtstart < r.dtend }

  /** The duplicate query: some stored row with the component's start and summary, or the number of
      rows when there is none. It asks for no order, so which row it answers with is open. */
  type Query = (seq<Row>, Component) -> nat

  ghost predicate IsAnswer(rows: seq<Row>, c: Component, k: nat)
    requires Dated(c)
  {
    && k <= |rows|
    && (k < |rows| ==> Matches(rows[k], c))
    && (k == |rows| ==> forall j :: 0 <= j < |rows| ==> !Matches(rows[j], c))
  }

  ghost predicate Answers(q: Query) {
    forall rows, c :: Dated(c) ==> IsAnswer(rows, c, q(rows, c))
  }

  function Repaired(r: Row): Row {
    r.(dtend := EnsurePositiveDuration(r.dtstart, r.dtend, r.allDay))
  }

  datatype Tally = Tally(rows: seq<Row>, imported: nat, skipped: nat, repaired: nat)

  /** One component; none when the import fails. The query sees the rows as they were stored, the
      repair falls on the row as it now is. */
  function Step(q: Query, stored: seq<Row>, t: Tally, c: Component): (n: Option<Tally>)
    requires |stored| <= |t.rows|
    ensures n.Some? ==> |stored| <= |n.value.rows|
  {
    if c.OtherComponent? then Some(t)
    else if c.start == None then Some(t.(skipped := t.skipped + 1))
    else
      var k := q(stored, c);
      if c.uid != "" && k < |stored| then
        var fixed := Repaired(t.rows[k]);
        Some(Tally(t.rows[k := fixed], t.imported, t.skipped + 1, t.repaired + if fixed != t.rows[k] then 1 else 0))
      else
        var row := NewRow(c);
        if row == None then None else Some(t.(rows := t.rows + [row.value], imported := t.imported + 1))
  }

  function ImportAll(q: Query, stored: seq<Row>, cs: seq<Component>): (t: Option<Tally>)
    ensures t.Some? ==> |stored| <= |t.value.rows|
  {
    if cs == [] then Some(Tally(stored, 0, 0, 0))
    else
      var t := ImportAll(q, stored, cs[..|cs| - 1]);
      if t == None then None else Step(q, stored, t.value, cs[|cs| - 1])
  }

  class TargetCalendar {
    var rows: seq<Row>

    constructor (rows: seq<Row>)
      ensures this.rows == rows
    {
      this.rows := rows;
    }

    /** Walks the components in one transaction; a failure rolls every row back. */
    method ImportIcs(q: Query, cs: seq<Component>) returns (counts: Option<(nat, nat, nat)>)
      modifies this
      ensures var t := ImportAll(q, old(rows), cs);
              if t == None then counts == None && rows == old(rows)
              else rows == t.value.rows && counts == Some((t.value.imported, t.value.skipped, t.value.repaired))
    {
      var stored := rows;
      var imported, skipped, repaired := 0, 0, 0;
      for i := 0 to |cs|
        invariant ImportAll(q, stored, cs[..i]) == Some(Tally(rows, imported, skipped, repaired))
      {
        assert cs[..i + 1][..i] == cs[..i];
        var c := cs[i];
        if c.Vevent? {
          if c.start == None {
            skipped := skipped + 1;
          } else {
            var k := q(stored, c);
            if c.uid != "" && k < |stored| {
              var fixed := Repaired(rows[k]);
              if fixed.dtend != rows[k].dtend {
                rows := rows[k := fixed];
                repaired := repaired + 1;
              }
              assert rows[k := fixed] == rows;
              skipped := skipped + 1;
            } else {
              var row := NewRow(c);
              if row == None {
                rows := stored;
                FailureIsFinal(q, stored, cs, i + 1);
                return None;
              }
              rows := rows + [row.value];
              imported := imported + 1;
            }
          }
        }
      }
      assert cs[..|cs|] == cs;
      return Some((imported, skipped, repaired));
    }
  }

  lemma {:induction false} FailureIsFinal(q: Query, rows: seq<Row>, cs: seq<Component>, i: nat)
    requires i <= |cs| && ImportAll(q, rows, cs[..i]) == None
    ensures ImportAll(q, rows, cs) == None
    decreases |cs| - i
  {
    if i == |cs| {
      assert cs[..i] == cs;
    } else {
      assert cs[..i + 1][..i] == cs[..i];
      FailureIsFinal(q, rows, cs, i + 1);
    }
  }

  // ---------- When an import succeeds ----------

  ghost predicate HasMatch(rows: seq<Row>, c: Component)
    requires Dated(c)
  {
    exists k :: 0 <= k < |rows| && Matches(rows[k], c)
  }

  /** The component will be added: it has a start, and no stored row stands in its way. */
  ghost predicate Adds(rows: seq<Row>, c: Component) {
    Dated(c) && (c.uid == "" || !HasMatch(rows, c))
  }

  ghost predicate Accepted(rows: seq<Row>, cs: seq<Component>) {
    forall c :: c in cs && Adds(rows, c) ==> NewRow(c).Some?
  }

  lemma AnswerFindsMatch(q: Query, rows: seq<Row>, c: Component)
    requires Answers(q) && Dated(c)
    ensures IsAnswer(rows, c, q(rows, c))
    ensures q(rows, c) < |rows| <==> HasMatch(rows, c)
  {
    assert IsAnswer(rows, c, q(rows, c));
  }

  /** Whatever the query answers, an import fails exactly when an event it would add cannot be stored. */
  lemma {:induction false} ImportSucceedsExactly(q: Query, rows: seq<Row>, cs: seq<Component>)
    requires Answers(q)
    ensures ImportAll(q, rows, cs).Some? <==> Accepted(rows, cs)
  {
    if cs != [] {
      var front, last := cs[..|cs| - 1], cs[|cs| - 1];
      assert cs == front + [last];
      ImportSucceedsExactly(q, rows, front);
      if Dated(last) {
        AnswerFindsMatch(q, rows, last);
      }
      assert Accepted(rows, cs) <==> Accepted(rows, front) && (Adds(rows, last) ==> NewRow(last).Some?);
    }
  }

  // ---------- What an import leaves behind ----------

  /** Rows after a step: the old ones, in place and at most lengthened to a positive span, then at
      most one positive new one. */
  lemma StepKeepsRows(q: Query, stored: seq<Row>, t: Tally, c: Component)
    requires |stored| <= |t.rows| && Step(q, stored, t, c).Some?
    ensures var n := Step(q, stored, t, c).value;
            && |t.rows| <= |n.rows| <= |t.rows| + 1
            && (forall k :: 0 <= k < |t.rows| ==>
                  n.rows[k] == t.rows[k] || (!Positive(t.rows[k]) && n.rows[k] == Repaired(t.rows[k])))
            && (|n.rows| > |t.rows| ==> Positive(n.rows[|t.rows|]))
  {
  }

  /** A stored row changes only by the repair of a duplicate; an added row is positive. */
  lemma {:induction false} ImportKeepsRows(q: Query, rows: seq<Row>, cs: seq<Component>)
    requires ImportAll(q, rows, cs).Some?
    ensures var after := ImportAll(q, rows, cs).value.rows;
            && (forall k :: 0 <= k < |rows| ==>
                  after[k] == rows[k] || (!Positive(rows[k]) && after[k] == Repaired(rows[k])))
            && (forall k :: |rows| <= k < |after| ==> Positive(after[k]))
  {
    if cs != [] {
      ImportKeepsRows(q, rows, cs[..|cs| - 1]);
      StepKeepsRows(q, rows, ImportAll(q, rows, cs[..|cs| - 1]).value, cs[|cs| - 1]);
    }
  }

  /** A row the query answers with for some event that has a uid. */
  ghost predicate Picked(q: Query, rows: seq<Row>, cs: seq<Component>, k: nat) {
    exists c :: c in cs && Dated(c) && c.uid != "" && q(rows, c) == k
  }

  lemma PickedOneMore(q: Query, rows: seq<Row>, front: seq<Component>, last: Component, k: nat)
    ensures Picked(q, rows, front + [last], k)
            <==> Picked(q, rows, front, k) || (Dated(last) && last.uid != "" && q(rows, last) == k)
  {
    if Picked(q, rows, front, k) {
      var c :| c in front && Dated(c) && c.uid != "" && q(rows, c) == k;
      assert c in front + [last];
    }
    if Dated(last) && last.uid != "" && q(rows, last) == k {
      assert last in front + [last];
    }
  }

  lemma StepRepairs(q: Query, stored: seq<Row>, t: Tally, c: Component, k: nat)
    requires |stored| <= |t.rows| && Step(q, stored, t, c).Some? && k < |stored|
    ensures Step(q, stored, t, c).value.rows[k]
         == if Dated(c) && c.uid != "" && q(stored, c) == k then Repaired(t.rows[k]) else t.rows[k]
  {
  }

  /** Exactly the rows the query answered with are repaired. */
  lemma {:induction false} RepairsThePicked(q: Query, rows: seq<Row>, cs: seq<Component>, k: nat)
    requires ImportAll(q, rows, cs).Some? && k < |rows|
    ensures ImportAll(q, rows, cs).value.rows[k] == if Picked(q, rows, cs, k) then Repaired(rows[k]) else rows[k]
  {
    if cs != [] {
      var front, last := cs[..|cs| - 1], cs[|cs| - 1];
      assert cs == front + [last];
      RepairsThePicked(q, rows, front, k);
      PickedOneMore(q, rows, front, last, k);
      StepRepairs(q, rows, ImportAll(q, rows, front).value, last, k);
    }
  }

  ghost predicate Shown(rows: seq<Row>, c: Component)
    requires Dated(c)
  {
    exists k :: 0 <= k < |rows| && Matches(rows[k], c) && Positive(rows[k])
  }

  lemma StepShows(q: Query, stored: seq<Row>, t: Tally, c: Component, other: Component)
    requires Answers(q) && Dated(other) && |stored| <= |t.rows| && Step(q, stored, t, c).Some?
    requires forall k :: 0 <= k < |stored| ==>
               t.rows[k].dtstart == stored[k].dtstart && t.rows[k].summary == stored[k].summary
    requires Shown(t.rows, other) || c == other
    ensures Shown(Step(q, stored, t, c).value.rows, other)
  {
    var n := Step(q, stored, t, c).value;
    StepKeepsRows(q, stored, t, c);
    if Shown(t.rows, other) {
      var k :| 0 <= k < |t.rows| && Matches(t.rows[k], other) && Positive(t.rows[k]);
      assert n.rows[k] == t.rows[k];
    } else {
      AnswerFindsMatch(q, stored, c);
      var k := q(stored, c);
      var at := if c.uid != "" && k < |stored| then k else |t.rows|;
      assert Matches(n.rows[at], c) && Positive(n.rows[at]);
    }
  }

  lemma {:induction false} ImportShows(q: Query, rows: seq<Row>, cs: seq<Component>, c: Component)
    requires Answers(q) && ImportAll(q, rows, cs).Some? && c in cs && Dated(c)
    ensures Shown(ImportAll(q, rows, cs).value.rows, c)
  {
    var front, last := cs[..|cs| - 1], cs[|cs| - 1];
    assert cs == front + [last];
    var t := ImportAll(q, rows, front).value;
    ImportKeepsRows(q, rows, front);
    if c in front {
      ImportShows(q, rows, front, c);
    }
    StepShows(q, rows, t, last, c);
  }

  /** Every event of an imported file, new, duplicate, or stored long ago with no duration, has a
      matching row that passes the listing's overlap test in every window that contains its start. */
  lemma ImportedEventsAreVisible(q: Query, rows: seq<Row>, cs: seq<Component>, c: Component, start: int, end: int)
    requires Answers(q) && ImportAll(q, rows, cs).Some? && c in cs && Dated(c)
    requires start <= NaiveStart(c.start.value) < end
    ensures exists r ::
              && r in ImportAll(q, rows, cs).value.rows && Matches(r, c)
              && Recurrence.Overlaps(r.dtstart, r.dtend, start, end)
  {
    ImportShows(q, rows, cs, c);
    var after := ImportAll(q, rows, cs).value.rows;
    var k :| 0 <= k < |after| && Matches(after[k], c) && Positive(after[k]);
    assert after[k] in after;
  }

  // ---------- How many rows an import adds ----------

  ghost function Added(rows: seq<Row>, cs: seq<Component>): nat {
    if cs == [] then 0 else Added(rows, cs[..|cs| - 1]) + if Adds(rows, cs[|cs| - 1]) then 1 else 0
  }

  /** An import adds a row for each event that has no uid or no stored match, repeats within the
      file included: those are not duplicates to it. */
  lemma {:induction false} ImportAdds(q: Query, rows: seq<Row>, cs: seq<Component>)
    requires Answers(q) && ImportAll(q, rows, cs).Some?
    ensures var t := ImportAll(q, rows, cs).value;
            t.imported == Added(rows, cs) && |t.rows| == |rows| + Added(rows, cs)
  {
    if cs != [] {
      ImportAdds(q, rows, cs[..|cs| - 1]);
      if Dated(cs[|cs| - 1]) {
        AnswerFindsMatch(q, rows, cs[|cs| - 1]);
      }
    }
  }

  lemma {:induction false} AddedIsZero(rows: seq<Row>, cs: seq<Component>)
    ensures Added(rows, cs) == 0 <==> forall c :: c in cs ==> !Adds(rows, c)
  {
    if cs != [] {
      AddedIsZero(rows, cs[..|cs| - 1]);
      assert cs == cs[..|cs| - 1] + [cs[|cs| - 1]];
    }
  }

  // ---------- Importing again ----------

  /** After an import only events without a uid are still to be added, and they can be. */
  lemma OnceIsEnough(p: Query, rows: seq<Row>, cs: seq<Component>)
    requires Answers(p) && ImportAll(p, rows, cs).Some?
    ensures var once := ImportAll(p, rows, cs).value.rows;
            && (forall c :: c in cs ==> (Adds(once, c) <==> Dated(c) && c.uid == ""))
            && Accepted(once, cs)
  {
    var once := ImportAll(p, rows, cs).value.rows;
    forall c | c in cs && Dated(c) ensures HasMatch(once, c) {
      ImportShows(p, rows, cs, c);
    }
    ImportSucceedsExactly(p, rows, cs);
  }

  /** Every row without duration that this event matches is its only match. */
  ghost predicate Unambiguous(rows: seq<Row>, c: Component)
    requires Dated(c)
  {
    forall i, j :: 0 <= i < |rows| && 0 <= j < |rows| && i != j && Matches(rows[i], c) && Matches(rows[j], c) ==>
      Positive(rows[i])
  }

  /** No import of the file, whatever its query answers, changes the rows. */
  ghost predicate Idempotent(rows: seq<Row>, cs: seq<Component>) {
    forall p: Query, q: Query :: Answers(p) && Answers(q) ==> SecondChangesNothing(p, q, rows, cs)
  }

  ghost predicate SecondChangesNothing(p: Query, q: Query, rows: seq<Row>, cs: seq<Component>) {
    && ImportAll(p, rows, cs).Some?
    && var once := ImportAll(p, rows, cs).value.rows;
    && ImportAll(q, once, cs).Some?
    && ImportAll(q, once, cs).value.rows == once
  }

  /** A second import succeeds, and adds exactly the events with a start and no uid. */
  lemma SecondImport(p: Query, q: Query, rows: seq<Row>, cs: seq<Component>)
    requires Answers(p) && Answers(q) && ImportAll(p, rows, cs).Some?
    ensures var once := ImportAll(p, rows, cs).value.rows;
            && ImportAll(q, once, cs).Some?
            && ImportAll(q, once, cs).value.imported == Added(once, cs)
            && |ImportAll(q, once, cs).value.rows| == |once| + Added(once, cs)
            && (Added(once, cs) == 0 <==> forall c :: c in cs && Dated(c) ==> c.uid != "")
            && (forall k :: 0 <= k < |once| && Positive(once[k]) ==> ImportAll(q, once, cs).value.rows[k] == once[k])
  {
    var once := ImportAll(p, rows, cs).value.rows;
    OnceIsEnough(p, rows, cs);
    ImportSucceedsExactly(q, once, cs);
    ImportAdds(q, once, cs);
    AddedIsZero(once, cs);
    ImportKeepsRows(q, once, cs);
  }

  /** With unambiguous matches, every match is positive after one import. */
  lemma MatchesArePositive(p: Query, rows: seq<Row>, cs: seq<Component>, c: Component, k: nat)
    requires Answers(p) && ImportAll(p, rows, cs).Some? && c in cs && Dated(c) && c.uid != "" && Unambiguous(rows, c)
    requires k < |ImportAll(p, rows, cs).value.rows| && Matches(ImportAll(p, rows, cs).value.rows[k], c)
    ensures Positive(ImportAll(p, rows, cs).value.rows[k])
  {
    ImportKeepsRows(p, rows, cs);
    if k < |rows| && !Positive(rows[k]) {
      assert Matches(rows[k], c);
      AnswerFindsMatch(p, rows, c);
      assert p(rows, c) == k;
      RepairsThePicked(p, rows, cs, k);
    }
  }

  lemma UnambiguousIsEnough(p: Query, q: Query, rows: seq<Row>, cs: seq<Component>)
    requires Answers(p) && Answers(q) && Accepted(rows, cs)
    requires forall c :: c in cs && Dated(c) ==> c.uid != "" && Unambiguous(rows, c)
    ensures SecondChangesNothing(p, q, rows, cs)
  {
    ImportSucceedsExactly(p, rows, cs);
    SecondImport(p, q, rows, cs);
    var once := ImportAll(p, rows, cs).value.rows;
    var again := ImportAll(q, once, cs).value.rows;
    forall k: nat | k < |once| ensures again[k] == once[k] {
      RepairsThePicked(q, once, cs, k);
      if Picked(q, once, cs, k) {
        var c :| c in cs && Dated(c) && c.uid != "" && q(once, c) == k;
        AnswerFindsMatch(q, once, c);
        MatchesArePositive(p, rows, cs, c, k);
      }
    }
  }

  /** A query that keeps its answer once the first import has repaired what it answered with. */
  ghost predicate Steady(p: Query, q: Query, rows: seq<Row>, cs: seq<Component>) {
    ImportAll(p, rows, cs).Some? ==>
      forall c :: c in cs && Dated(c) && p(rows, c) < |rows| ==> q(ImportAll(p, rows, cs).value.rows, c) == p(rows, c)
  }

  /** With answers that do not change between the imports, carrying uids is enough: a second import
      of the file changes nothing, ambiguous rows included. */
  lemma SteadyReimport(p: Query, q: Query, rows: seq<Row>, cs: seq<Component>)
    requires Answers(p) && Answers(q) && Accepted(rows, cs) && Steady(p, q, rows, cs)
    requires forall c :: c in cs && Dated(c) ==> c.uid != ""
    ensures SecondChangesNothing(p, q, rows, cs)
  {
    ImportSucceedsExactly(p, rows, cs);
    SecondImport(p, q, rows, cs);
    ImportKeepsRows(p, rows, cs);
    var once := ImportAll(p, rows, cs).value.rows;
    var again := ImportAll(q, once, cs).value.rows;
    forall k: nat | k < |once| ensures again[k] == once[k] {
      RepairsThePicked(q, once, cs, k);
      if Picked(q, once, cs, k) && k < |rows| {
        var c :| c in cs && Dated(c) && c.uid != "" && q(once, c) == k;
        AnswerFindsMatch(q, once, c);
        AnswerFindsMatch(p, rows, c);
        assert Matches(rows[k], c) && p(rows, c) == k;
        RepairsThePicked(p, rows, cs, k);
      }
    }
  }

  /** The first row that matches. */
  function FirstMatch(rows: seq<Row>, c: Component): (k: nat)
    requires Dated(c)
    ensures IsAnswer(rows, c, k)
  {
    if rows == [] then 0
    else
      var k := FirstMatch(rows[..|rows| - 1], c);
      if k < |rows| - 1 || Matches(rows[|rows| - 1], c) then k else |rows|
  }

  /** A query that answers with row i whenever it can. */
  function Prefer(i: nat): Query {
    (rows: seq<Row>, c: Component) =>
      if !Dated(c) then 0 else if i < |rows| && Matches(rows[i], c) then i else FirstMatch(rows, c)
  }

  lemma PreferAnswers(i: nat)
    ensures Answers(Prefer(i))
  {
  }

  /** Two matches, one without duration: the first import may repair the other, the second this one. */
  lemma AmbiguityShows(rows: seq<Row>, cs: seq<Component>, c: Component, i: nat, j: nat)
    requires Accepted(rows, cs) && c in cs && Dated(c) && c.uid != ""
    requires i < |rows| && j < |rows| && i != j && Matches(rows[i], c) && Matches(rows[j], c) && !Positive(rows[i])
    ensures !SecondChangesNothing(Prefer(j), Prefer(i), rows, cs)
  {
    var p, q := Prefer(j), Prefer(i);
    PreferAnswers(j);
    PreferAnswers(i);
    ImportSucceedsExactly(p, rows, cs);
    RepairsThePicked(p, rows, cs, i);
    var once := ImportAll(p, rows, cs).value.rows;
    assert !Picked(p, rows, cs, i);
    assert once[i] == rows[i];
    SecondImport(p, q, rows, cs);
    assert q(once, c) == i;
    assert Picked(q, once, cs, i);
    RepairsThePicked(q, once, cs, i);
  }

  /** Importing a file again changes nothing, whatever the unordered query answers either time, if
      and only if every event with a start has a uid, and every stored row without duration that
      such an event matches is its only match. */
  lemma ReimportIsIdempotent(rows: seq<Row>, cs: seq<Component>)
    requires Accepted(rows, cs)
    ensures Idempotent(rows, cs) <==> forall c :: c in cs && Dated(c) ==> c.uid != "" && Unambiguous(rows, c)
  {
    if forall c :: c in cs && Dated(c) ==> c.uid != "" && Unambiguous(rows, c) {
      forall p: Query, q: Query | Answers(p) && Answers(q) ensures SecondChangesNothing(p, q, rows, cs) {
        UnambiguousIsEnough(p, q, rows, cs);
      }
    } else {
      var c :| c in cs && Dated(c) && !(c.uid != "" && Unambiguous(rows, c));
      if c.uid == "" {
        var p := Prefer(0);
        PreferAnswers(0);
        ImportSucceedsExactly(p, rows, cs);
        SecondImport(p, p, rows, cs);
        assert !SecondChangesNothing(p, p, rows, cs);
      } else {
        var i, j :| 0 <= i < |rows| && 0 <= j < |rows| && i != j && Matches(rows[i], c) && Matches(rows[j], c)
                    && !Positive(rows[i]);
        AmbiguityShows(rows, cs, c, i, j);
        PreferAnswers(i);
        PreferAnswers(j);
      }
    }
  }
}
