/** Listing calendar events in a window (routes/calendar_routes.py). Times are whole seconds; the
    occurrences of a well-formed rule are a given strictly increasing sequence, endless unless
    it has a count, starting no earlier than the event; rendering times is a parameter. */
module Recurrence {
  import opened Wrappers
  import opened Text
  import opened Collections

  /** What the rule column holds: nothing, only whitespace, something no rule, or a rule. */
  datatype Rule =
    | NoRule
    | BlankRule
    | Malformed
    | Series(at: nat -> int, count: Option<nat>)

  datatype Event = Event(
    uid: string, owner: string, calendarId: string, calendarName: string, cancelled: bool,
    dtstart: int, dtend: int, allDay: bool, rule: Rule, storedExdates: seq<string>)

  /** `strftime` to the day and to the minute. */
  datatype Format = Format(day: int -> string, minute: int -> string)

  ghost predicate FixedWidth(f: Format) {
    forall t :: |f.day(t)| == 10 && |f.minute(t)| == 16 && !IsSpace(f.day(t)[0]) && !IsSpace(f.minute(t)[0])
  }

  datatype Occurrence = Occurrence(
    uid: string, seriesUid: string, start: int, end: int, isRecurrence: bool, truncated: bool)

  const LIMIT := 1000

  predicate In(r: Rule, i: nat) {
    r.Series? && (r.count == None || i < r.count.value)
  }

  ghost predicate WellFormed(ev: Event) {
    ev.rule.Series? ==>
      && (forall i: nat :: In(ev.rule, i) ==> ev.rule.at(i) >= ev.dtstart)
      && (forall i: nat, j: nat :: i < j && In(ev.rule, j) ==> ev.rule.at(i) < ev.rule.at(j))
  }

  function Duration(ev: Event): int { ev.dtend - ev.dtstart }

  predicate Overlaps(from: int, to: int, start: int, end: int) {
    from < end && to > start
  }

  predicate InWindow(ev: Event, start: int, end: int, t: int) {
    Overlaps(t, t + Duration(ev), start, end)
  }

  /** The stored list as it is read back, blank entries dropped. */
  function Exdates(stored: seq<string>): seq<string> {
    if stored == [] then []
    else Exdates(stored[..|stored| - 1]) + if Strip(stored[|stored| - 1]) != "" then [stored[|stored| - 1]] else []
  }

  function KeyAt(ev: Event, f: Format, t: int): string {
    if ev.allDay then f.day(t) else f.minute(t)
  }

  predicate Excluded(ev: Event, f: Format, t: int) {
    KeyAt(ev, f, t) in Exdates(ev.storedExdates)
  }

  function Base(ev: Event): Occurrence {
    Occurrence(ev.uid, ev.uid, ev.dtstart, ev.dtend, false, false)
  }

  function Rendered(ev: Event, f: Format, t: int, truncated: bool): Occurrence {
    Occurrence(ev.uid + "::" + KeyAt(ev, f, t), ev.uid, t, t + Duration(ev), true, truncated)
  }

  function RenderedAll(ev: Event, f: Format, ts: seq<int>, truncated: bool): (r: seq<Occurrence>)
    ensures |r| == |ts|
  {
    seq(|ts|, i requires 0 <= i < |ts| => Rendered(ev, f, ts[i], truncated))
  }

  // ---------- The naive form: look at every occurrence ----------

  predicate Counts(ev: Event, f: Format, start: int, end: int, i: nat) {
    In(ev.rule, i) && InWindow(ev, start, end, ev.rule.at(i)) && !Excluded(ev, f, ev.rule.at(i))
  }

  /** The starts, among the first n occurrences, that overlap the window and are not excluded. */
  function Naive(ev: Event, f: Format, start: int, end: int, n: nat): seq<int>
    requires ev.rule.Series?
  {
    if n == 0 then []
    else if Counts(ev, f, start, end, n - 1) then Naive(ev, f, start, end, n - 1) + [ev.rule.at(n - 1)]
    else Naive(ev, f, start, end, n - 1)
  }

  /** From position n on there is no occurrence, or none before the window's end. */
  predicate PastEnd(ev: Event, end: int, n: nat)
    requires ev.rule.Series?
  {
    In(ev.rule, n) ==> ev.rule.at(n) >= end
  }

  /** Some overlapping occurrence, excluded or not, comes after the limit has been kept. */
  ghost predicate Truncated(ev: Event, f: Format, start: int, end: int)
    requires ev.rule.Series?
  {
    exists i: nat :: In(ev.rule, i) && InWindow(ev, start, end, ev.rule.at(i)) && |Naive(ev, f, start, end, i)| >= LIMIT
  }

  lemma {:induction false} GrowsByOne(ev: Event, i: nat)
    requires WellFormed(ev) && In(ev.rule, i)
    ensures ev.rule.at(i) >= ev.dtstart + i
  {
    if i > 0 {
      GrowsByOne(ev, i - 1);
    }
  }

  /** Occurrences are at least a second apart, so even an endless rule is past the window by this position. */
  function Horizon(ev: Event, end: int): nat {
    if end > ev.dtstart then end - ev.dtstart else 0
  }

  lemma HorizonIsPastEnd(ev: Event, end: int)
    requires WellFormed(ev) && ev.rule.Series?
    ensures PastEnd(ev, end, Horizon(ev, end))
  {
    if In(ev.rule, Horizon(ev, end)) { GrowsByOne(ev, Horizon(ev, end)); }
  }

  /** The naive answer for a row: of a rule, its first overlapping, unexcluded occurrences; of anything
      else, the event itself if it overlaps. A whitespace-only rule is listed whenever it starts
      before the window ends. */
  ghost function NaiveRow(ev: Event, f: Format, start: int, end: int): seq<Occurrence> {
    match ev.rule
    case Series(_, _) =>
      RenderedAll(ev, f, Take(Naive(ev, f, start, end, Horizon(ev, end)), LIMIT), Truncated(ev, f, start, end))
    case BlankRule => if ev.dtstart < end then [Base(ev)] else []
    case _ => if Overlaps(ev.dtstart, ev.dtend, start, end) then [Base(ev)] else []
  }

  // ---------- What the naive form means ----------

  lemma NothingCountsPastEnd(ev: Event, f: Format, start: int, end: int, n: nat, i: nat)
    requires WellFormed(ev) && ev.rule.Series? && PastEnd(ev, end, n) && i >= n
    ensures !(In(ev.rule, i) && InWindow(ev, start, end, ev.rule.at(i)))
  {
  }

  lemma {:induction false} NaiveIsPrefix(ev: Event, f: Format, start: int, end: int, a: nat, b: nat)
    requires ev.rule.Series? && a <= b
    ensures Naive(ev, f, start, end, a) <= Naive(ev, f, start, end, b)
    decreases b
  {
    if a < b {
      NaiveIsPrefix(ev, f, start, end, a, b - 1);
    }
  }

  /** Past the end of the window nothing is added any more. */
  lemma {:induction false} NaiveSettles(ev: Event, f: Format, start: int, end: int, a: nat, b: nat)
    requires WellFormed(ev) && ev.rule.Series? && a <= b && PastEnd(ev, end, a)
    ensures Naive(ev, f, start, end, a) == Naive(ev, f, start, end, b)
    decreases b
  {
    if a < b {
      NaiveSettles(ev, f, start, end, a, b - 1);
      NothingCountsPastEnd(ev, f, start, end, a, b - 1);
    }
  }

  ghost predicate Increasing(s: seq<int>) {
    forall j, k :: 0 <= j < k < |s| ==> s[j] < s[k]
  }

  lemma {:induction false} NaiveMembers(ev: Event, f: Format, start: int, end: int, n: nat)
    requires ev.rule.Series?
    ensures forall t :: t in Naive(ev, f, start, end, n) <==>
              exists i: nat :: i < n && Counts(ev, f, start, end, i) && ev.rule.at(i) == t
  {
    if n > 0 {
      NaiveMembers(ev, f, start, end, n - 1);
    }
  }

  lemma {:induction false} NaiveIncreases(ev: Event, f: Format, start: int, end: int, n: nat)
    requires WellFormed(ev) && ev.rule.Series?
    ensures Increasing(Naive(ev, f, start, end, n))
  {
    if n > 0 {
      var front := Naive(ev, f, start, end, n - 1);
      NaiveIncreases(ev, f, start, end, n - 1);
      NaiveMembers(ev, f, start, end, n - 1);
      forall j | 0 <= j < |front| && In(ev.rule, n - 1) ensures front[j] < ev.rule.at(n - 1) {
        assert front[j] in front;
        var i: nat :| i < n - 1 && Counts(ev, f, start, end, i) && ev.rule.at(i) == front[j];
      }
    }
  }

  /** The kept starts of a rule, untruncated: each once, in order, exactly the overlapping
      occurrences that are not excluded, wherever the rule puts them. */
  lemma NaiveIsExact(ev: Event, f: Format, start: int, end: int, t: int)
    requires WellFormed(ev) && ev.rule.Series?
    ensures t in Naive(ev, f, start, end, Horizon(ev, end)) <==>
              exists i: nat :: In(ev.rule, i) && ev.rule.at(i) == t && InWindow(ev, start, end, t)
                  && !Excluded(ev, f, t)
    ensures Increasing(Naive(ev, f, start, end, Horizon(ev, end)))
  {
    var h := Horizon(ev, end);
    HorizonIsPastEnd(ev, end);
    NaiveIncreases(ev, f, start, end, h);
    NaiveMembers(ev, f, start, end, h);
    if i: nat :| In(ev.rule, i) && ev.rule.at(i) == t && InWindow(ev, start, end, t) && !Excluded(ev, f, t) {
      if i >= h { NothingCountsPastEnd(ev, f, start, end, h, i); }
      assert Counts(ev, f, start, end, i);
    }
  }

  /** Nothing is dropped at the limit unless the answer says so. */
  lemma {:induction false} UntruncatedIsComplete(ev: Event, f: Format, start: int, end: int, n: nat)
    requires WellFormed(ev) && ev.rule.Series? && !Truncated(ev, f, start, end)
    ensures |Naive(ev, f, start, end, n)| <= LIMIT
  {
    if n > 0 {
      UntruncatedIsComplete(ev, f, start, end, n - 1);
    }
  }

  /** A truncated rule lists exactly the limit, and every item says so. */
  lemma TruncatedIsFlagged(ev: Event, f: Format, start: int, end: int)
    requires WellFormed(ev) && ev.rule.Series?
    ensures Truncated(ev, f, start, end) <==> exists o :: o in NaiveRow(ev, f, start, end) && o.truncated
    ensures Truncated(ev, f, start, end) ==> |NaiveRow(ev, f, start, end)| == 1000
  {
    var row := NaiveRow(ev, f, start, end);
    if Truncated(ev, f, start, end) {
      var i: nat :| In(ev.rule, i) && InWindow(ev, start, end, ev.rule.at(i)) && |Naive(ev, f, start, end, i)| >= LIMIT;
      var h := Horizon(ev, end);
      HorizonIsPastEnd(ev, end);
      if i >= h {
        NothingCountsPastEnd(ev, f, start, end, h, i);
      }
      NaiveIsPrefix(ev, f, start, end, i, h);
      assert |row| == LIMIT;
      assert row[0] in row && row[0].truncated;
    }
  }

  lemma {:induction false} ExdatesKeepSolid(stored: seq<string>)
    ensures forall k :: k in Exdates(stored) <==> k in stored && Strip(k) != ""
  {
    if stored != [] {
      ExdatesKeepSolid(stored[..|stored| - 1]);
      assert stored == stored[..|stored| - 1] + [stored[|stored| - 1]];
    }
  }

  // ---------- What is to be listed, in the fields of the rows ----------

  predicate ExcludedOn(ev: Event, f: Format, t: int) {
    var key := if ev.allDay then f.day(t) else f.minute(t);
    key in ev.storedExdates && Strip(key) != ""
  }

  /** The item is due in the window for this event. A series: some occurrence of the rule that
      overlaps and whose date or minute is not excluded, under the series' uid, a double colon and
      that date or minute. Anything else: the event itself, if it overlaps; with a rule that is only
      whitespace, if it starts before the window ends. */
  ghost predicate Due(ev: Event, f: Format, start: int, end: int, o: Occurrence) {
    && o.seriesUid == ev.uid && (o.isRecurrence <==> ev.rule.Series?)
    && match ev.rule
       case Series(at, count) =>
         && (exists i: nat :: (count == None || i < count.value) && at(i) == o.start)
         && o.end == o.start + (ev.dtend - ev.dtstart) && o.start < end && o.end > start
         && !ExcludedOn(ev, f, o.start)
         && o.uid == ev.uid + "::" + (if ev.allDay then f.day(o.start) else f.minute(o.start))
       case BlankRule => o.uid == ev.uid && o.start == ev.dtstart && o.end == ev.dtend && ev.dtstart < end
       case _ =>
         o.uid == ev.uid && o.start == ev.dtstart && o.end == ev.dtend && ev.dtstart < end && ev.dtend > start
  }

  /** The row is one of the caller's own, not cancelled, in the calendar asked for, by id or name. */
  predicate Asked(ev: Event, owner: string, calendar: string) {
    !ev.cancelled && ev.owner == owner && calendar in {"", ev.calendarId, ev.calendarName}
  }

  /** Every item listed for an event is due, and every one that is due is listed, once, unless the
      limit is reached; then there are a thousand, and they say so. */
  lemma RowListsExactly(ev: Event, f: Format, start: int, end: int)
    requires WellFormed(ev)
    ensures var os := NaiveRow(ev, f, start, end);
            && (forall o :: o in os ==> Due(ev, f, start, end, o))
            && (forall i, j :: 0 <= i < j < |os| ==> os[i].start < os[j].start)
            && ((forall o :: Due(ev, f, start, end, o) && !o.truncated ==> o in os)
                || (|os| == 1000 && forall o :: o in os ==> o.truncated))
  {
    ExdatesKeepSolid(ev.storedExdates);
    if ev.rule.Series? {
      SeriesListsExactly(ev, f, start, end);
    } else {
      OneItemListed(ev, f, start, end);
    }
  }

  lemma OneItemListed(ev: Event, f: Format, start: int, end: int)
    requires !ev.rule.Series?
    ensures var os := NaiveRow(ev, f, start, end);
            |os| <= 1 && forall o :: o in os <==> Due(ev, f, start, end, o) && !o.truncated
  {
    forall o ensures o in NaiveRow(ev, f, start, end) <==> Due(ev, f, start, end, o) && !o.truncated {
      if Due(ev, f, start, end, o) && !o.truncated {
        assert o == Base(ev);
      }
    }
  }

  lemma ItemIsDue(ev: Event, f: Format, start: int, end: int, o: Occurrence)
    requires WellFormed(ev) && ev.rule.Series? && o in NaiveRow(ev, f, start, end)
    ensures Due(ev, f, start, end, o) && (o.truncated <==> Truncated(ev, f, start, end))
  {
    var all := Naive(ev, f, start, end, Horizon(ev, end));
    var kept, cut := Take(all, LIMIT), Truncated(ev, f, start, end);
    var k :| 0 <= k < |kept| && o == Rendered(ev, f, kept[k], cut);
    assert kept[k] in all;
    NaiveIsExact(ev, f, start, end, kept[k]);
    ExdatesKeepSolid(ev.storedExdates);
  }

  lemma DueIsKept(ev: Event, f: Format, start: int, end: int, o: Occurrence)
    requires WellFormed(ev) && ev.rule.Series? && Due(ev, f, start, end, o)
    ensures o.start in Naive(ev, f, start, end, Horizon(ev, end)) && o == Rendered(ev, f, o.start, o.truncated)
  {
    ExdatesKeepSolid(ev.storedExdates);
    NaiveIsExact(ev, f, start, end, o.start);
  }

  lemma DueIsThere(ev: Event, f: Format, start: int, end: int, o: Occurrence)
    requires WellFormed(ev) && ev.rule.Series? && !Truncated(ev, f, start, end)
    requires Due(ev, f, start, end, o) && !o.truncated
    ensures o in NaiveRow(ev, f, start, end)
  {
    var all := Naive(ev, f, start, end, Horizon(ev, end));
    UntruncatedIsComplete(ev, f, start, end, Horizon(ev, end));
    DueIsKept(ev, f, start, end, o);
    var k :| 0 <= k < |all| && all[k] == o.start;
    assert NaiveRow(ev, f, start, end)[k] == Rendered(ev, f, all[k], false);
  }

  lemma RowIncreases(ev: Event, f: Format, start: int, end: int)
    requires WellFormed(ev) && ev.rule.Series?
    ensures var os := NaiveRow(ev, f, start, end); forall i, j :: 0 <= i < j < |os| ==> os[i].start < os[j].start
  {
    NaiveIncreases(ev, f, start, end, Horizon(ev, end));
  }

  lemma SeriesListsExactly(ev: Event, f: Format, start: int, end: int)
    requires WellFormed(ev) && ev.rule.Series?
    ensures var os := NaiveRow(ev, f, start, end);
            && (forall o :: o in os ==> Due(ev, f, start, end, o))
            && (forall i, j :: 0 <= i < j < |os| ==> os[i].start < os[j].start)
            && ((forall o :: Due(ev, f, start, end, o) && !o.truncated ==> o in os)
                || (|os| == 1000 && forall o :: o in os ==> o.truncated))
  {
    RowIncreases(ev, f, start, end);
    TruncatedIsFlagged(ev, f, start, end);
    forall o | o in NaiveRow(ev, f, start, end)
      ensures Due(ev, f, start, end, o) && (o.truncated <==> Truncated(ev, f, start, end))
    {
      ItemIsDue(ev, f, start, end, o);
    }
    if !Truncated(ev, f, start, end) {
      forall o | Due(ev, f, start, end, o) && !o.truncated ensures o in NaiveRow(ev, f, start, end) {
        DueIsThere(ev, f, start, end, o);
      }
    }
  }

  /** Some occurrence of the rule overlaps the window and starts after this time. */
  ghost predicate MoreAfter(ev: Event, start: int, end: int, t: int)
    requires ev.rule.Series?
  {
    exists i: nat :: (ev.rule.count == None || i < ev.rule.count.value)
        && t < ev.rule.at(i) < end && ev.rule.at(i) + (ev.dtend - ev.dtstart) > start
  }

  /** Items are flagged exactly when there are a thousand of them and the rule goes on in the window
      after the last, be it with an excluded occurrence. */
  lemma CutExactly(ev: Event, f: Format, start: int, end: int)
    requires WellFormed(ev) && ev.rule.Series?
    ensures var os := NaiveRow(ev, f, start, end);
            && |os| <= 1000
            && ((exists o :: o in os && o.truncated) <==> |os| == 1000 && MoreAfter(ev, start, end, os[999].start))
  {
    TruncatedIsFlagged(ev, f, start, end);
    if |NaiveRow(ev, f, start, end)| == 1000 {
      CutIsAfterTheLast(ev, f, start, end);
    }
  }

  /** And then nothing due before the last of them is missing. */
  lemma CutKeepsTheFirst(ev: Event, f: Format, start: int, end: int, o: Occurrence)
    requires WellFormed(ev) && ev.rule.Series? && Truncated(ev, f, start, end)
    requires Due(ev, f, start, end, o) && o.truncated
    ensures var os := NaiveRow(ev, f, start, end); |os| == 1000 && (o.start <= os[999].start ==> o in os)
  {
    var all, os := Naive(ev, f, start, end, Horizon(ev, end)), NaiveRow(ev, f, start, end);
    TruncatedIsFlagged(ev, f, start, end);
    NaiveIncreases(ev, f, start, end, Horizon(ev, end));
    DueIsKept(ev, f, start, end, o);
    var k :| 0 <= k < |all| && all[k] == o.start;
    if o.start <= os[999].start {
      InKeptPart(all, k, 999);
      assert os[k] == Rendered(ev, f, all[k], true);
    }
  }

  lemma InKeptPart(all: seq<int>, k: nat, last: nat)
    requires Increasing(all) && k < |all| && last < |all| && all[k] <= all[last]
    ensures k <= last
  {
  }

  lemma CutIsAfterTheLast(ev: Event, f: Format, start: int, end: int)
    requires WellFormed(ev) && ev.rule.Series? && |Naive(ev, f, start, end, Horizon(ev, end))| >= 1000
    ensures var last := Naive(ev, f, start, end, Horizon(ev, end))[999];
            Truncated(ev, f, start, end) <==> MoreAfter(ev, start, end, last)
  {
    var h := Horizon(ev, end);
    var all := Naive(ev, f, start, end, h);
    HorizonIsPastEnd(ev, end);
    NaiveIncreases(ev, f, start, end, h);
    NaiveMembers(ev, f, start, end, h);
    assert all[999] in all;
    var m: nat :| m < h && Counts(ev, f, start, end, m) && ev.rule.at(m) == all[999];
    forall i: nat | In(ev.rule, i) && InWindow(ev, start, end, ev.rule.at(i))
      ensures |Naive(ev, f, start, end, i)| >= 1000 <==> all[999] < ev.rule.at(i)
    {
      if i >= h { NothingCountsPastEnd(ev, f, start, end, h, i); }
      KeptBefore(ev, f, start, end, i, h, m);
    }
  }

  /** Of a thousand kept starts, the last comes before occurrence i exactly if all were kept by then. */
  lemma KeptBefore(ev: Event, f: Format, start: int, end: int, i: nat, h: nat, m: nat)
    requires WellFormed(ev) && ev.rule.Series? && In(ev.rule, i) && i <= h && m < h
    requires |Naive(ev, f, start, end, h)| >= 1000 && Counts(ev, f, start, end, m)
    requires ev.rule.at(m) == Naive(ev, f, start, end, h)[999]
    ensures |Naive(ev, f, start, end, i)| >= 1000 <==> ev.rule.at(m) < ev.rule.at(i)
  {
    var some, all := Naive(ev, f, start, end, i), Naive(ev, f, start, end, h);
    NaiveIsPrefix(ev, f, start, end, i, h);
    NaiveIncreases(ev, f, start, end, h);
    NaiveMembers(ev, f, start, end, i);
    if |some| >= 1000 {
      assert some[999] in some;
    }
    if m < i {
      var k :| 0 <= k < |some| && some[k] == ev.rule.at(m);
      assert all[k] == all[999];
    }
  }

  // ---------- The expander ----------

  /** `_expand_rrule`: seek to the window's start less the duration, stop at its end, stop at the limit. */
  method ExpandSeries(ev: Event, f: Format, start: int, end: int) returns (starts: seq<int>, truncated: bool)
    requires WellFormed(ev) && ev.rule.Series?
    ensures starts == Take(Naive(ev, f, start, end, Horizon(ev, end)), LIMIT)
    ensures truncated <==> Truncated(ev, f, start, end)
  {
    var first := Seek(ev, f, start, end, start - Duration(ev));
    var last: nat;
    starts, truncated, last := Collect(ev, f, start, end, first);
    if truncated {
      StoppedAtLimit(ev, f, start, end, last);
    } else {
      RanToTheEnd(ev, f, start, end, last);
    }
  }

  /** Every overlapping occurrence before position i came before the limit was reached. */
  ghost predicate BelowLimit(ev: Event, f: Format, start: int, end: int, i: nat)
    requires ev.rule.Series?
  {
    i == 0 ||
    (BelowLimit(ev, f, start, end, i - 1)
     && (In(ev.rule, i - 1) && InWindow(ev, start, end, ev.rule.at(i - 1)) ==>
         |Naive(ev, f, start, end, i - 1)| < LIMIT))
  }

  lemma {:induction false} BelowLimitAt(ev: Event, f: Format, start: int, end: int, i: nat, j: nat)
    requires ev.rule.Series? && BelowLimit(ev, f, start, end, i)
    requires j < i && In(ev.rule, j) && InWindow(ev, start, end, ev.rule.at(j))
    ensures |Naive(ev, f, start, end, j)| < LIMIT
    decreases i
  {
    if j < i - 1 {
      BelowLimitAt(ev, f, start, end, i - 1, j);
    }
  }

  /** The expansion loop from a position before which nothing overlaps; `last` is where it stops. */
  method Collect(ev: Event, f: Format, start: int, end: int, first: nat)
    returns (starts: seq<int>, truncated: bool, last: nat)
    requires WellFormed(ev) && ev.rule.Series?
    requires Naive(ev, f, start, end, first) == [] && BelowLimit(ev, f, start, end, first)
    ensures starts == Naive(ev, f, start, end, last) && |starts| <= LIMIT
    ensures truncated ==> In(ev.rule, last) && InWindow(ev, start, end, ev.rule.at(last)) && |starts| == LIMIT
    ensures !truncated ==> PastEnd(ev, end, last) && BelowLimit(ev, f, start, end, last)
  {
    var exdates := Exdates(ev.storedExdates);
    starts, truncated, last := [], false, first;
    while In(ev.rule, last) && ev.rule.at(last) < end
      invariant starts == Naive(ev, f, start, end, last) && |starts| <= LIMIT
      invariant BelowLimit(ev, f, start, end, last)
      decreases Horizon(ev, end) - last
    {
      var t := ev.rule.at(last);
      GrowsByOne(ev, last);
      if t + Duration(ev) > start {
        if |starts| >= LIMIT {
          truncated := true;
          return;
        }
        if KeyAt(ev, f, t) !in exdates {
          starts := starts + [t];
        }
      }
      last := last + 1;
    }
  }

  /** `xafter(..., inc=True)`: the first position not before the given time. */
  method Seek(ev: Event, f: Format, ghost start: int, ghost end: int, from: int) returns (i: nat)
    requires WellFormed(ev) && ev.rule.Series? && from == start - Duration(ev)
    ensures In(ev.rule, i) ==> ev.rule.at(i) >= from
    ensures forall j: nat :: j < i ==> In(ev.rule, j) && ev.rule.at(j) < from
    ensures Naive(ev, f, start, end, i) == [] && BelowLimit(ev, f, start, end, i)
  {
    i := 0;
    while In(ev.rule, i) && ev.rule.at(i) < from
      invariant forall j: nat :: j < i ==> In(ev.rule, j) && ev.rule.at(j) < from
      invariant Naive(ev, f, start, end, i) == [] && BelowLimit(ev, f, start, end, i)
      decreases Horizon(ev, from) - i
    {
      GrowsByOne(ev, i);
      i := i + 1;
    }
  }

  lemma StoppedAtLimit(ev: Event, f: Format, start: int, end: int, i: nat)
    requires WellFormed(ev) && ev.rule.Series? && In(ev.rule, i) && InWindow(ev, start, end, ev.rule.at(i))
    requires |Naive(ev, f, start, end, i)| == LIMIT
    ensures Naive(ev, f, start, end, i) == Take(Naive(ev, f, start, end, Horizon(ev, end)), LIMIT)
    ensures Truncated(ev, f, start, end)
  {
    var h := Horizon(ev, end);
    HorizonIsPastEnd(ev, end);
    if i >= h {
      NothingCountsPastEnd(ev, f, start, end, h, i);
    }
    NaiveIsPrefix(ev, f, start, end, i, h);
  }

  lemma RanToTheEnd(ev: Event, f: Format, start: int, end: int, i: nat)
    requires WellFormed(ev) && ev.rule.Series? && PastEnd(ev, end, i)
    requires |Naive(ev, f, start, end, i)| <= LIMIT && BelowLimit(ev, f, start, end, i)
    ensures Naive(ev, f, start, end, i) == Take(Naive(ev, f, start, end, Horizon(ev, end)), LIMIT)
    ensures !Truncated(ev, f, start, end)
  {
    var h := Horizon(ev, end);
    HorizonIsPastEnd(ev, end);
    if i <= h {
      NaiveSettles(ev, f, start, end, i, h);
    } else {
      NaiveSettles(ev, f, start, end, h, i);
    }
    forall j: nat | In(ev.rule, j) && InWindow(ev, start, end, ev.rule.at(j))
      ensures |Naive(ev, f, start, end, j)| < LIMIT
    {
      if j >= i {
        NothingCountsPastEnd(ev, f, start, end, i, j);
      } else {
        BelowLimitAt(ev, f, start, end, i, j);
      }
    }
  }

  method ExpandRrule(ev: Event, f: Format, start: int, end: int) returns (r: seq<Occurrence>)
    requires WellFormed(ev)
    ensures Fetched(ev, start, end) ==> r == NaiveRow(ev, f, start, end)
  {
    match ev.rule
    case NoRule => r := [Base(ev)];
    case BlankRule => r := [Base(ev)];
    case Malformed =>
      r := if ev.dtstart < end && ev.dtend > start then [Base(ev)] else [];
    case Series(_, _) =>
      var starts, truncated := ExpandSeries(ev, f, start, end);
      r := [];
      for i := 0 to |starts|
        invariant r == RenderedAll(ev, f, starts, truncated)[..i]
      {
        r := r + [Rendered(ev, f, starts[i], truncated)];
      }
      assert r == RenderedAll(ev, f, starts, truncated);
  }

  // ---------- The listing ----------

  /** The SQL time condition: rows without a rule must overlap, rows with one must start before the end. */
  predicate Fetched(ev: Event, start: int, end: int) {
    if ev.rule.NoRule? then ev.dtstart < end && ev.dtend > start else ev.dtstart < end
  }

  /** The caller's own, uncancelled events, in the asked-for calendar if one is named. */
  predicate InScope(ev: Event, owner: string, calendar: string) {
    && !ev.cancelled && ev.owner == owner
    && (calendar == "" || ev.calendarId == calendar || ev.calendarName == calendar)
  }

  /** The naive listing: every event in scope, no time condition in the query. */
  ghost function NaiveListing(rows: seq<Event>, f: Format, owner: string, calendar: string, start: int, end: int)
    : seq<Occurrence>
  {
    if rows == [] then []
    else
      var ev := rows[|rows| - 1];
      var front := NaiveListing(rows[..|rows| - 1], f, owner, calendar, start, end);
      if InScope(ev, owner, calendar) then front + NaiveRow(ev, f, start, end) else front
  }

  /** A row the query leaves out has nothing to show in the window. */
  lemma UnfetchedIsEmpty(ev: Event, f: Format, start: int, end: int)
    requires WellFormed(ev) && !Fetched(ev, start, end)
    ensures NaiveRow(ev, f, start, end) == []
  {
  }

  /** Some item of this series is listed and says that the limit was reached. */
  ghost predicate Flagged(os: seq<Occurrence>, uid: string) {
    exists shown :: shown in os && shown.seriesUid == uid && shown.truncated
  }

  lemma {:induction false} ListedIsDue(
      rows: seq<Event>, f: Format, owner: string, calendar: string, start: int, end: int, o: Occurrence)
    requires forall ev :: ev in rows ==> WellFormed(ev)
    requires o in NaiveListing(rows, f, owner, calendar, start, end)
    ensures exists ev :: ev in rows && Asked(ev, owner, calendar) && Due(ev, f, start, end, o)
  {
    var front, last := rows[..|rows| - 1], rows[|rows| - 1];
    assert rows == front + [last] && last in rows;
    if o in NaiveListing(front, f, owner, calendar, start, end) {
      ListedIsDue(front, f, owner, calendar, start, end, o);
    } else {
      RowListsExactly(last, f, start, end);
    }
  }

  lemma {:induction false} DueIsListed(
      rows: seq<Event>, f: Format, owner: string, calendar: string, start: int, end: int, ev: Event, o: Occurrence)
    requires forall other :: other in rows ==> WellFormed(other)
    requires ev in rows && Asked(ev, owner, calendar) && Due(ev, f, start, end, o) && !o.truncated
    ensures var os := NaiveListing(rows, f, owner, calendar, start, end); o in os || Flagged(os, ev.uid)
  {
    var front, last := rows[..|rows| - 1], rows[|rows| - 1];
    assert rows == front + [last];
    ListingGrows(front, last, f, owner, calendar, start, end);
    if ev in front {
      DueIsListed(front, f, owner, calendar, start, end, ev, o);
    } else {
      RowListsExactly(last, f, start, end);
      var os := NaiveRow(last, f, start, end);
      if o !in os {
        assert os[0] in os && Due(last, f, start, end, os[0]);
      }
    }
  }

  /** No event is listed twice at one time. */
  ghost predicate ListedOnce(os: seq<Occurrence>) {
    forall i, j :: 0 <= i < j < |os| && os[i].seriesUid == os[j].seriesUid ==> os[i].start < os[j].start
  }

  ghost predicate DistinctUids(rows: seq<Event>) {
    forall i, j :: 0 <= i < j < |rows| ==> rows[i].uid != rows[j].uid
  }

  lemma {:induction false} EachIsListedOnce(
      rows: seq<Event>, f: Format, owner: string, calendar: string, start: int, end: int)
    requires (forall ev :: ev in rows ==> WellFormed(ev)) && DistinctUids(rows)
    ensures ListedOnce(NaiveListing(rows, f, owner, calendar, start, end))
  {
    if rows != [] {
      var front, last := rows[..|rows| - 1], rows[|rows| - 1];
      assert rows == front + [last] && last in rows;
      EachIsListedOnce(front, f, owner, calendar, start, end);
      ListingGrows(front, last, f, owner, calendar, start, end);
      var a, b := NaiveListing(front, f, owner, calendar, start, end), NaiveRow(last, f, start, end);
      RowListsExactly(last, f, start, end);
      forall o | o in a ensures o.seriesUid != last.uid {
        ListedIsDue(front, f, owner, calendar, start, end, o);
      }
      OnceInBoth(a, b, last.uid);
    }
  }

  lemma OnceInBoth(a: seq<Occurrence>, b: seq<Occurrence>, uid: string)
    requires ListedOnce(a) && forall o :: o in a ==> o.seriesUid != uid
    requires (forall o :: o in b ==> o.seriesUid == uid) && forall i, j :: 0 <= i < j < |b| ==> b[i].start < b[j].start
    ensures ListedOnce(a + b)
  {
    assert forall i :: 0 <= i < |a| ==> a[i] in a;
    assert forall j :: 0 <= j < |b| ==> b[j] in b;
  }

  lemma ListingGrows(front: seq<Event>, last: Event, f: Format, owner: string, calendar: string, start: int, end: int)
    ensures var row := if Asked(last, owner, calendar) then NaiveRow(last, f, start, end) else [];
            NaiveListing(front + [last], f, owner, calendar, start, end)
            == NaiveListing(front, f, owner, calendar, start, end) + row
  {
    assert (front + [last])[..|front|] == front;
  }

  /** The listing shows what is due for the rows asked for, and nothing else. */
  lemma ListingIsExact(rows: seq<Event>, f: Format, owner: string, calendar: string, start: int, end: int)
    requires forall ev :: ev in rows ==> WellFormed(ev)
    ensures var os := NaiveListing(rows, f, owner, calendar, start, end);
            && (forall o :: o in os ==>
                  exists ev :: ev in rows && Asked(ev, owner, calendar) && Due(ev, f, start, end, o))
            && (forall ev, o ::
                  ev in rows && Asked(ev, owner, calendar) && Due(ev, f, start, end, o) && !o.truncated ==>
                    o in os || Flagged(os, ev.uid))
  {
    forall o | o in NaiveListing(rows, f, owner, calendar, start, end)
      ensures exists ev :: ev in rows && Asked(ev, owner, calendar) && Due(ev, f, start, end, o)
    {
      ListedIsDue(rows, f, owner, calendar, start, end, o);
    }
    forall ev, o | ev in rows && Asked(ev, owner, calendar) && Due(ev, f, start, end, o) && !o.truncated
      ensures var os := NaiveListing(rows, f, owner, calendar, start, end); o in os || Flagged(os, ev.uid)
    {
      DueIsListed(rows, f, owner, calendar, start, end, ev, o);
    }
  }

  /** The rows come in the query's order, by start; the final sort of the answer is left out. */
  method ListEvents(rows: seq<Event>, f: Format, owner: string, calendar: string, start: int, end: int)
    returns (expanded: seq<Occurrence>, truncated: bool)
    requires forall ev :: ev in rows ==> WellFormed(ev)
    ensures expanded == NaiveListing(rows, f, owner, calendar, start, end)
    ensures truncated <==> exists o :: o in expanded && o.truncated
    ensures forall o :: o in expanded ==>
              exists ev :: ev in rows && Asked(ev, owner, calendar) && Due(ev, f, start, end, o)
    ensures forall ev, o :: ev in rows && Asked(ev, owner, calendar) && Due(ev, f, start, end, o) && !o.truncated ==>
              o in expanded || Flagged(expanded, ev.uid)
    ensures DistinctUids(rows) ==> ListedOnce(expanded)
    ensures !truncated ==> forall ev, o ::
              ev in rows && Asked(ev, owner, calendar) && Due(ev, f, start, end, o) && !o.truncated ==> o in expanded
  {
    ListingIsExact(rows, f, owner, calendar, start, end);
    if DistinctUids(rows) {
      EachIsListedOnce(rows, f, owner, calendar, start, end);
    }
    expanded, truncated := [], false;
    for i := 0 to |rows|
      invariant expanded == NaiveListing(rows[..i], f, owner, calendar, start, end)
    {
      assert rows[..i + 1][..i] == rows[..i];
      if InScope(rows[i], owner, calendar) {
        if Fetched(rows[i], start, end) {
          var r := ExpandRrule(rows[i], f, start, end);
          expanded := expanded + r;
        } else {
          UnfetchedIsEmpty(rows[i], f, start, end);
        }
      }
    }
    assert rows[..|rows|] == rows;
    for i := 0 to |expanded|
      invariant truncated <==> exists o :: o in expanded[..i] && o.truncated
    {
      assert expanded[..i + 1] == expanded[..i] + [expanded[i]];
      truncated := truncated || expanded[i].truncated;
    }
    assert expanded[..|expanded|] == expanded;
  }

  /** Every listed item overlaps the window, except that a row whose rule is only whitespace may
      have ended before it. */
  lemma ListedItemsOverlap(ev: Event, f: Format, start: int, end: int)
    requires WellFormed(ev)
    ensures (forall o :: o in NaiveRow(ev, f, start, end) ==> Overlaps(o.start, o.end, start, end))
            <==> !(ev.rule.BlankRule? && ev.dtstart < end && ev.dtend <= start)
  {
    if ev.rule.Series? {
      NaiveMembers(ev, f, start, end, Horizon(ev, end));
      var kept := Take(Naive(ev, f, start, end, Horizon(ev, end)), LIMIT);
      forall o | o in NaiveRow(ev, f, start, end) ensures Overlaps(o.start, o.end, start, end) {
        var i :| 0 <= i < |kept| && o == Rendered(ev, f, kept[i], Truncated(ev, f, start, end));
        assert kept[i] in Naive(ev, f, start, end, Horizon(ev, end));
      }
    } else if ev.rule.BlankRule? && ev.dtstart < end {
      assert Base(ev) in NaiveRow(ev, f, start, end);
    }
  }
}
