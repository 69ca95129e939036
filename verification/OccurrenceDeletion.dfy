/** Deleting one occurrence of a series by the compound uid the listing gave it
    (routes/calendar_routes.py). Ownership is checked as the route does; sync with remote
    calendars is left out. */
module OccurrenceDeletion {
  import opened Wrappers
  import opened Text
  import opened Collections
  import opened Ordering
  import opened Recurrence

  const MARK := "::"

  datatype UidError = EmptyUid | MissingBase

  /** The series a uid belongs to: everything before the first double colon. */
  function ResolveBaseUid(uid: string): Result<string, UidError> {
    FindIsFirst(uid, MARK);
    if uid == "" then Err(EmptyUid)
    else if Find(uid, MARK) == -1 then Ok(uid)
    else if Find(uid, MARK) == 0 then Err(MissingBase)
    else Ok(uid[..Find(uid, MARK)])
  }

  function Clip(s: string, n: nat): string {
    if |s| <= n then s else s[..n]
  }

  /** The date, or the date and minute, after the first double colon. */
  function OccurrenceExdateKey(uid: string, allDay: bool): string {
    FindIsFirst(uid, MARK);
    if Find(uid, MARK) == -1 then ""
    else Clip(uid[Find(uid, MARK) + 2..], if allDay then 10 else 16)
  }

  // ---------- Printing and splitting a compound uid ----------

  /** The first double colon of a printed uid is the printed one exactly when the base has none and
      does not end in a colon. */
  lemma FirstMark(base: string, suffix: string)
    ensures Find(base + MARK + suffix, MARK) == |base| <==> !Contains(base + ":", MARK)
  {
    var uid, edge := base + MARK + suffix, base + ":";
    FindIsFirst(uid, MARK);
    assert uid[|base|..|base| + 2] == MARK;
    if Contains(edge, MARK) {
      var i :| OccursAt(edge, MARK, i);
      assert uid[i..i + 2] == edge[i..i + 2];
      assert OccursAt(uid, MARK, i);
    } else {
      forall i | i < |base| ensures !OccursAt(uid, MARK, i) {
        assert !OccursAt(edge, MARK, i);
        if 0 <= i { assert uid[i..i + 2] == edge[i..i + 2]; }
      }
      FirstIsFind(uid, MARK, |base|);
    }
  }

  /** Splitting inverts printing exactly for a base that is not empty, has no double colon and
      does not end in a colon. */
  lemma SplitInvertsPrint(base: string, suffix: string)
    ensures ResolveBaseUid(base + MARK + suffix) == Ok(base) <==> base != "" && !Contains(base + ":", MARK)
    ensures !Contains(base + ":", MARK) && |suffix| <= 10 ==> OccurrenceExdateKey(base + MARK + suffix, true) == suffix
    ensures !Contains(base + ":", MARK) && |suffix| <= 16 ==> OccurrenceExdateKey(base + MARK + suffix, false) == suffix
  {
    var uid := base + MARK + suffix;
    FirstMark(base, suffix);
    FindIsFirst(uid, MARK);
    assert uid[|base|..|base| + 2] == MARK;
    assert OccursAt(uid, MARK, |base|);
    assert uid[|base| + 2..] == suffix && uid[..|base|] == base;
    if ResolveBaseUid(uid) == Ok(base) {
      assert |uid[..Find(uid, MARK)]| == Find(uid, MARK);
    }
  }

  predicate ColonsAt(uid: string, i: int) {
    0 <= i < |uid| - 1 && uid[i] == ':' && uid[i + 1] == ':'
  }

  lemma ColonsAreTheMark(uid: string, i: int)
    ensures OccursAt(uid, MARK, i) <==> ColonsAt(uid, i)
  {
    if 0 <= i <= |uid| - 2 {
      assert uid[i..i + 2] == [uid[i], uid[i + 1]];
    }
  }

  /** A uid without two colons in a row is its own series and names no occurrence; only the empty
      one is refused. */
  lemma PlainUid(uid: string)
    requires forall i :: !ColonsAt(uid, i)
    ensures ResolveBaseUid(uid) == if uid == "" then Err(EmptyUid) else Ok(uid)
    ensures OccurrenceExdateKey(uid, true) == OccurrenceExdateKey(uid, false) == ""
  {
    FindIsFirst(uid, MARK);
    if i :| OccursAt(uid, MARK, i) {
      ColonsAreTheMark(uid, i);
    }
  }

  /** Otherwise the first two colons in a row end the base, which may not be empty; the occurrence is
      what follows them, up to ten characters of it for an all-day series and sixteen for others. */
  lemma CompoundUid(uid: string, n: nat, allDay: bool)
    requires ColonsAt(uid, n) && forall i :: i < n ==> !ColonsAt(uid, i)
    ensures ResolveBaseUid(uid) == if n == 0 then Err(MissingBase) else Ok(uid[..n])
    ensures var key, width := OccurrenceExdateKey(uid, allDay), if allDay then 10 else 16;
            && key <= uid[n + 2..]
            && (|key| == width || (|key| < width && key == uid[n + 2..]))
  {
    ColonsAreTheMark(uid, n);
    forall i | i < n ensures !OccursAt(uid, MARK, i) {
      ColonsAreTheMark(uid, i);
    }
    FirstIsFind(uid, MARK, n);
  }

  // ---------- The delete ----------

  /** The stored keys with one more, if it is not among them. */
  function WithKey(read: seq<string>, key: string): seq<string> {
    if key in read then read else read + [key]
  }

  /** The stored list after excluding a key: what could be read back, the key added once, sorted. */
  function WithExdate(stored: seq<string>, key: string): seq<string> {
    var read := Exdates(stored);
    Sort(StringLe, WithKey(read, key))
  }

  datatype Outcome =
    | BadUid(error: UidError)
    | NotFound
    | InvalidOccurrence
    | OccurrenceDeleted(exdate: string)
    | SeriesDeleted

  class EventStore {
    var events: map<string, Event>

    constructor (events: map<string, Event>)
      ensures this.events == events
    {
      this.events := events;
    }

    method DeleteEvent(uid: string, owner: string, scope: string) returns (r: Outcome)
      modifies this
      ensures match ResolveBaseUid(uid)
              case Err(e) => r == BadUid(e) && events == old(events)
              case Ok(base) =>
                if base !in old(events) || (owner != "" && old(events)[base].owner != owner) then
                  r == NotFound && events == old(events)
                else
                  var ev := old(events)[base];
                  if scope in {"occurrence", "instance"} && Find(uid, MARK) != -1 && !ev.rule.NoRule? then
                    var key := OccurrenceExdateKey(uid, ev.allDay);
                    if key == "" then r == InvalidOccurrence && events == old(events)
                    else r == OccurrenceDeleted(key)
                         && events == old(events)[base := ev.(storedExdates := WithExdate(ev.storedExdates, key))]
                  else r == SeriesDeleted && events == old(events) - {base}
    {
      var resolved := ResolveBaseUid(uid);
      if resolved.Err? { return BadUid(resolved.error); }
      var base := resolved.value;
      if base !in events { return NotFound; }
      var ev := events[base];
      if owner != "" && ev.owner != owner { return NotFound; }
      if scope in {"occurrence", "instance"} && Find(uid, MARK) != -1 && !ev.rule.NoRule? {
        var key := OccurrenceExdateKey(uid, ev.allDay);
        if key == "" { return InvalidOccurrence; }
        var exdates := Exdates(ev.storedExdates);
        if key !in exdates {
          exdates := exdates + [key];
        }
        events := events[base := ev.(storedExdates := Sort(StringLe, exdates))];
        return OccurrenceDeleted(key);
      }
      events := events - {base};
      return SeriesDeleted;
    }
  }

  // ---------- What it does to the listing ----------

  lemma {:induction false} ExdatesCount(stored: seq<string>, k: string)
    ensures multiset(Exdates(stored))[k] == if Strip(k) != "" then multiset(stored)[k] else 0
  {
    if stored != [] {
      var front, last := stored[..|stored| - 1], stored[|stored| - 1];
      assert stored == front + [last];
      ExdatesCount(front, k);
    }
  }

  /** Reading back after the delete gives the old keys and the new one. */
  lemma {:induction false} ReadBack(stored: seq<string>, key: string)
    requires Strip(key) != ""
    ensures forall k :: k in Exdates(WithExdate(stored, key)) <==> k in Exdates(stored) || k == key
  {
    var read := Exdates(stored);
    var next := if key in read then read else read + [key];
    SortKeepsElements(StringLe, next);
    ExdatesKeepSolid(stored);
    ExdatesKeepSolid(WithExdate(stored, key));
  }

  lemma WithKeyCount(read: seq<string>, key: string, k: string)
    ensures multiset(WithKey(read, key))[k]
         == if k == key && multiset(read)[key] == 0 then 1 else multiset(read)[k]
  {
    assert key in read <==> multiset(read)[key] > 0;
  }

  /** Reading back what one delete stored and adding the key again gives the same keys. */
  lemma SameKeysAgain(stored: seq<string>, key: string)
    ensures var once := WithExdate(stored, key); multiset(WithKey(Exdates(once), key)) == multiset(once)
  {
    var once := WithExdate(stored, key);
    forall k ensures multiset(WithKey(Exdates(once), key))[k] == multiset(once)[k] {
      WithKeyCount(Exdates(once), key, k);
      WithKeyCount(Exdates(stored), key, k);
      WithKeyCount(Exdates(stored), key, key);
      ExdatesCount(once, k);
      ExdatesCount(once, key);
      ExdatesCount(stored, k);
    }
  }

  /** Deleting the same occurrence again leaves the stored list as it is, whatever the key. */
  lemma WithExdateIsIdempotent(stored: seq<string>, key: string)
    ensures WithExdate(WithExdate(stored, key), key) == WithExdate(stored, key)
  {
    var once := WithExdate(stored, key);
    SameKeysAgain(stored, key);
    StringOrderIsTotal();
    SortIsCanonical(StringLe, WithKey(Exdates(once), key), once);
    SortIsSorted(StringLe, WithKey(Exdates(stored), key));
    SortedIsFixed(StringLe, once);
  }

  /** The stored list in full: each readable key as often as it was stored, the new one once if it was
      not there, in the order of the dictionary. */
  lemma StoredExactly(stored: seq<string>, key: string)
    ensures forall k :: multiset(WithExdate(stored, key))[k] ==
                          if Strip(k) != "" && k in stored then multiset(stored)[k] else if k == key then 1 else 0
    ensures forall i, j :: 0 <= i < j < |WithExdate(stored, key)| ==>
              WithExdate(stored, key)[i] == WithExdate(stored, key)[j]
              || Precedes(WithExdate(stored, key)[i], WithExdate(stored, key)[j])
  {
    var after := WithExdate(stored, key);
    StringOrderIsTotal();
    SortIsSorted(StringLe, WithKey(Exdates(stored), key));
    forall k
      ensures multiset(after)[k] ==
                if Strip(k) != "" && k in stored then multiset(stored)[k] else if k == key then 1 else 0
    {
      WithKeyCount(Exdates(stored), key, k);
      ExdatesCount(stored, k);
    }
    forall i, j | 0 <= i < j < |after| ensures after[i] == after[j] || Precedes(after[i], after[j]) {
      StringOrderIsLexicographic(after[i], after[j]);
    }
  }

  lemma KeyIsSolid(ev: Event, f: Format, t: int)
    requires FixedWidth(f)
    ensures Strip(KeyAt(ev, f, t)) != "" && |KeyAt(ev, f, t)| == if ev.allDay then 10 else 16
  {
    var key := KeyAt(ev, f, t);
    assert |f.day(t)| == 10 && |f.minute(t)| == 16;
    var hi := StripKeepsSolidStart(key, 1);
  }

  function Without(ev: Event, f: Format, ts: seq<int>, key: string): seq<int> {
    if ts == [] then []
    else
      var front := Without(ev, f, ts[..|ts| - 1], key);
      if KeyAt(ev, f, ts[|ts| - 1]) == key then front else front + [ts[|ts| - 1]]
  }

  function Deleted(ev: Event, key: string): Event {
    ev.(storedExdates := WithExdate(ev.storedExdates, key))
  }

  lemma {:induction false} CountsLosesTheKey(ev: Event, f: Format, key: string, start: int, end: int, i: nat)
    requires ev.rule.Series? && Strip(key) != ""
    ensures Counts(Deleted(ev, key), f, start, end, i)
            <==> Counts(ev, f, start, end, i) && KeyAt(ev, f, ev.rule.at(i)) != key
  {
    ReadBack(ev.storedExdates, key);
  }

  lemma WithoutStep(ev: Event, f: Format, ts: seq<int>, t: int, key: string)
    ensures Without(ev, f, ts + [t], key) ==
              if KeyAt(ev, f, t) == key then Without(ev, f, ts, key) else Without(ev, f, ts, key) + [t]
  {
    assert (ts + [t])[..|ts|] == ts;
  }

  lemma {:induction false} NaiveOfFewer(ev: Event, fewer: Event, f: Format, key: string, start: int, end: int, n: nat)
    requires ev.rule.Series? && fewer.rule == ev.rule
    requires forall i: nat ::
               Counts(fewer, f, start, end, i) <==> Counts(ev, f, start, end, i) && KeyAt(ev, f, ev.rule.at(i)) != key
    ensures Naive(fewer, f, start, end, n) == Without(ev, f, Naive(ev, f, start, end, n), key)
  {
    if n > 0 {
      NaiveOfFewer(ev, fewer, f, key, start, end, n - 1);
      WithoutStep(ev, f, Naive(ev, f, start, end, n - 1), ev.rule.at(n - 1), key);
      var counted := Counts(ev, f, start, end, n - 1);
      assert Counts(fewer, f, start, end, n - 1) <==> counted && KeyAt(ev, f, ev.rule.at(n - 1)) != key;
    }
  }

  lemma {:induction false} NaiveLosesTheKey(ev: Event, f: Format, key: string, start: int, end: int, n: nat)
    requires ev.rule.Series? && Strip(key) != ""
    ensures Naive(Deleted(ev, key), f, start, end, n) == Without(ev, f, Naive(ev, f, start, end, n), key)
  {
    forall i: nat
      ensures Counts(Deleted(ev, key), f, start, end, i)
              <==> Counts(ev, f, start, end, i) && KeyAt(ev, f, ev.rule.at(i)) != key
    {
      CountsLosesTheKey(ev, f, key, start, end, i);
    }
    NaiveOfFewer(ev, Deleted(ev, key), f, key, start, end, n);
  }

  lemma {:induction false} WithoutIsShorter(ev: Event, f: Format, ts: seq<int>, key: string)
    ensures |Without(ev, f, ts, key)| <= |ts|
  {
    if ts != [] { WithoutIsShorter(ev, f, ts[..|ts| - 1], key); }
  }

  /** The delete never makes a listing reach the limit that did not. */
  lemma StaysUntruncated(ev: Event, f: Format, key: string, start: int, end: int)
    requires ev.rule.Series? && Strip(key) != "" && !Truncated(ev, f, start, end)
    ensures !Truncated(Deleted(ev, key), f, start, end)
  {
    var after := Deleted(ev, key);
    forall i: nat | In(after.rule, i) && InWindow(after, start, end, after.rule.at(i))
      ensures |Naive(after, f, start, end, i)| < LIMIT
    {
      assert In(ev.rule, i) && InWindow(ev, start, end, ev.rule.at(i));
      NaiveLosesTheKey(ev, f, key, start, end, i);
      WithoutIsShorter(ev, f, Naive(ev, f, start, end, i), key);
      assert |Naive(ev, f, start, end, i)| < LIMIT;
    }
  }

  /** A listed occurrence's uid resolves to its series and yields its own date or minute. */
  lemma ListedUidResolves(ev: Event, f: Format, o: Occurrence, from: int, to: int)
    requires ev.rule.Series? && FixedWidth(f) && o in NaiveRow(ev, f, from, to)
    requires ev.uid != "" && !Contains(ev.uid + ":", MARK)
    ensures ResolveBaseUid(o.uid) == Ok(ev.uid)
    ensures OccurrenceExdateKey(o.uid, ev.allDay) == KeyAt(ev, f, o.start) && Strip(KeyAt(ev, f, o.start)) != ""
  {
    KeyIsSolid(ev, f, o.start);
    SplitInvertsPrint(ev.uid, KeyAt(ev, f, o.start));
  }

  lemma UntruncatedRow(ev: Event, f: Format, start: int, end: int)
    requires WellFormed(ev) && ev.rule.Series? && !Truncated(ev, f, start, end)
    ensures NaiveRow(ev, f, start, end) == RenderedAll(ev, f, Naive(ev, f, start, end, Horizon(ev, end)), false)
  {
    UntruncatedIsComplete(ev, f, start, end, Horizon(ev, end));
  }

  /** Deleting a listed occurrence: in every window that was not truncated, the series lists what
      it listed before, less exactly the occurrences of that date or minute. */
  lemma {:induction false} DeletingRemovesExactlyTheKey(ev: Event, f: Format, key: string, start: int, end: int)
    requires WellFormed(ev) && ev.rule.Series? && Strip(key) != ""
    requires !Truncated(ev, f, start, end)
    ensures NaiveRow(Deleted(ev, key), f, start, end) == WithoutKey(ev, f, NaiveRow(ev, f, start, end), key)
  {
    var after, all := Deleted(ev, key), Naive(ev, f, start, end, Horizon(ev, end));
    StaysUntruncated(ev, f, key, start, end);
    UntruncatedRow(ev, f, start, end);
    UntruncatedRow(after, f, start, end);
    NaiveLosesTheKey(ev, f, key, start, end, Horizon(ev, end));
    RenderingIgnoresExdates(ev, f, key, Without(ev, f, all, key));
    RenderingWithout(ev, f, all, key);
  }

  function WithoutKey(ev: Event, f: Format, os: seq<Occurrence>, key: string): seq<Occurrence> {
    if os == [] then []
    else
      var front := WithoutKey(ev, f, os[..|os| - 1], key);
      if KeyAt(ev, f, os[|os| - 1].start) == key then front else front + [os[|os| - 1]]
  }

  lemma {:induction false} RenderingWithout(ev: Event, f: Format, ts: seq<int>, key: string)
    ensures RenderedAll(ev, f, Without(ev, f, ts, key), false) == WithoutKey(ev, f, RenderedAll(ev, f, ts, false), key)
  {
    if ts != [] {
      var front := ts[..|ts| - 1];
      RenderingWithout(ev, f, front, key);
      assert RenderedAll(ev, f, ts, false)[..|ts| - 1] == RenderedAll(ev, f, front, false);
      var w, t := Without(ev, f, front, key), ts[|ts| - 1];
      assert RenderedAll(ev, f, w + [t], false) == RenderedAll(ev, f, w, false) + [Rendered(ev, f, t, false)];
    }
  }

  lemma RenderingIgnoresExdates(ev: Event, f: Format, key: string, ts: seq<int>)
    ensures RenderedAll(Deleted(ev, key), f, ts, false) == RenderedAll(ev, f, ts, false)
  {
    forall i | 0 <= i < |ts| ensures Rendered(Deleted(ev, key), f, ts[i], false) == Rendered(ev, f, ts[i], false) {
    }
  }

  /** So the deleted occurrence is never listed again, in any window. */
  lemma DeletedIsNeverListed(ev: Event, f: Format, key: string, start: int, end: int, o: Occurrence)
    requires WellFormed(ev) && ev.rule.Series? && Strip(key) != ""
    requires o in NaiveRow(Deleted(ev, key), f, start, end)
    ensures KeyAt(ev, f, o.start) != key
  {
    var after := Deleted(ev, key);
    var all := Naive(after, f, start, end, Horizon(after, end));
    var kept := Take(all, LIMIT);
    var i :| 0 <= i < |kept| && o == Rendered(after, f, kept[i], Truncated(after, f, start, end));
    NaiveMembers(after, f, start, end, Horizon(after, end));
    assert kept[i] in all;
    ReadBack(ev.storedExdates, key);
  }

  // ---------- Over the whole store ----------

  /** The rows in the query's order. */
  function InOrder(events: map<string, Event>, order: seq<string>): (rows: seq<Event>)
    requires forall u :: u in order ==> u in events
    ensures |rows| == |order| && forall i :: 0 <= i < |order| ==> rows[i] == events[order[i]]
  {
    seq(|order|, i requires 0 <= i < |order| => events[order[i]])
  }

  /** Every event is stored under its uid, and the order names each of them once. */
  ghost predicate Kept(events: map<string, Event>, order: seq<string>) {
    && (forall u :: u in events ==> events[u].uid == u && WellFormed(events[u]))
    && (forall u :: u in order <==> u in events)
    && (forall i, j :: 0 <= i < j < |order| ==> order[i] != order[j])
  }

  /** A listing less the items of one series that carry one uid. */
  function Except(os: seq<Occurrence>, series: string, uid: string): seq<Occurrence> {
    if os == [] then []
    else
      var o, front := os[|os| - 1], Except(os[..|os| - 1], series, uid);
      if o.seriesUid == series && o.uid == uid then front else front + [o]
  }

  lemma {:induction false} ExceptConcat(a: seq<Occurrence>, b: seq<Occurrence>, series: string, uid: string)
    ensures Except(a + b, series, uid) == Except(a, series, uid) + Except(b, series, uid)
  {
    if b == [] {
      assert a + b == a;
    } else {
      assert (a + b)[..|a + b| - 1] == a + b[..|b| - 1];
      ExceptConcat(a, b[..|b| - 1], series, uid);
    }
  }

  lemma {:induction false} ExceptOther(os: seq<Occurrence>, series: string, uid: string)
    requires forall o :: o in os ==> o.seriesUid != series
    ensures Except(os, series, uid) == os
  {
    if os != [] {
      assert os == os[..|os| - 1] + [os[|os| - 1]];
      ExceptOther(os[..|os| - 1], series, uid);
    }
  }

  /** Within a series, carrying the printed uid and having the key are one thing. */
  lemma {:induction false} ExceptIsWithoutKey(ev: Event, f: Format, os: seq<Occurrence>, key: string)
    requires forall o :: o in os ==> o.seriesUid == ev.uid && o.uid == ev.uid + MARK + KeyAt(ev, f, o.start)
    ensures Except(os, ev.uid, ev.uid + MARK + key) == WithoutKey(ev, f, os, key)
  {
    if os != [] {
      var front, o := os[..|os| - 1], os[|os| - 1];
      assert os == front + [o];
      ExceptIsWithoutKey(ev, f, front, key);
      var head := ev.uid + MARK;
      assert (head + KeyAt(ev, f, o.start))[|head|..] == KeyAt(ev, f, o.start) && (head + key)[|head|..] == key;
    }
  }

  lemma RowBelongsToSeries(ev: Event, f: Format, start: int, end: int, o: Occurrence)
    requires o in NaiveRow(ev, f, start, end)
    ensures o.seriesUid == ev.uid
    ensures o.isRecurrence <==> ev.rule.Series?
    ensures o.isRecurrence ==> o.uid == ev.uid + MARK + KeyAt(ev, f, o.start)
  {
  }

  /** Every row of the store lists what it did, less the deleted uid in its own series. */
  lemma RowAfterDelete(ev: Event, target: Event, f: Format, key: string, start: int, end: int)
    requires WellFormed(ev) && target.rule.Series? && Strip(key) != ""
    requires ev.uid == target.uid ==> ev == target && !Truncated(target, f, start, end)
    ensures NaiveRow(if ev == target then Deleted(ev, key) else ev, f, start, end)
         == Except(NaiveRow(ev, f, start, end), target.uid, target.uid + MARK + key)
  {
    var os := NaiveRow(ev, f, start, end);
    forall o | o in os
      ensures o.seriesUid == ev.uid
      ensures ev.rule.Series? ==> o.uid == ev.uid + MARK + KeyAt(ev, f, o.start)
    {
      RowBelongsToSeries(ev, f, start, end, o);
    }
    if ev == target {
      DeletingRemovesExactlyTheKey(ev, f, key, start, end);
      ExceptIsWithoutKey(ev, f, os, key);
    } else {
      ExceptOther(os, target.uid, target.uid + MARK + key);
    }
  }

  lemma {:induction false} ListingAfterDelete(
      rows: seq<Event>, after: seq<Event>, target: Event, f: Format, key: string,
      owner: string, calendar: string, start: int, end: int)
    requires |after| == |rows| && target.rule.Series? && Strip(key) != "" && !Truncated(target, f, start, end)
    requires forall i :: 0 <= i < |rows| ==>
               && WellFormed(rows[i]) && (rows[i].uid == target.uid ==> rows[i] == target)
               && after[i] == if rows[i] == target then Deleted(target, key) else rows[i]
    ensures NaiveListing(after, f, owner, calendar, start, end)
         == Except(NaiveListing(rows, f, owner, calendar, start, end), target.uid, target.uid + MARK + key)
  {
    if rows != [] {
      var n := |rows| - 1;
      ListingAfterDelete(rows[..n], after[..n], target, f, key, owner, calendar, start, end);
      RowAfterDelete(rows[n], target, f, key, start, end);
      ExceptConcat(NaiveListing(rows[..n], f, owner, calendar, start, end), NaiveRow(rows[n], f, start, end),
                   target.uid, target.uid + MARK + key);
    }
  }

  lemma {:induction false} ListedComesFromRow(
      rows: seq<Event>, f: Format, owner: string, calendar: string, start: int, end: int, o: Occurrence)
      returns (i: nat)
    requires o in NaiveListing(rows, f, owner, calendar, start, end)
    ensures i < |rows| && InScope(rows[i], owner, calendar) && o in NaiveRow(rows[i], f, start, end)
  {
    var n := |rows| - 1;
    if o in NaiveListing(rows[..n], f, owner, calendar, start, end) {
      i := ListedComesFromRow(rows[..n], f, owner, calendar, start, end, o);
    } else {
      i := n;
    }
  }

  /** A recurring item of a listing leads back to its series and to its key. */
  lemma ListedLeadsBack(events: map<string, Event>, order: seq<string>, f: Format, owner: string, calendar: string,
                        from: int, to: int, o: Occurrence)
    requires Kept(events, order) && FixedWidth(f)
    requires o in NaiveListing(InOrder(events, order), f, owner, calendar, from, to)
    requires o.isRecurrence && o.seriesUid != "" && !Contains(o.seriesUid + ":", MARK)
    ensures o.seriesUid in events
    ensures var target := events[o.seriesUid];
            && target.rule.Series? && target.owner == owner && target.uid == o.seriesUid
            && var key := KeyAt(target, f, o.start);
            && Strip(key) != "" && o.uid == target.uid + MARK + key
            && ResolveBaseUid(o.uid) == Ok(target.uid) && Find(o.uid, MARK) != -1
            && OccurrenceExdateKey(o.uid, target.allDay) == key
  {
    var rows := InOrder(events, order);
    var i := ListedComesFromRow(rows, f, owner, calendar, from, to, o);
    assert order[i] in order;
    RowBelongsToSeries(rows[i], f, from, to, o);
    ListedUidResolves(rows[i], f, o, from, to);
    FirstMark(rows[i].uid, KeyAt(rows[i], f, o.start));
  }

  /** The rows of the store after one event is replaced. */
  lemma RowsAfterDelete(events: map<string, Event>, order: seq<string>, target: Event, key: string)
    requires Kept(events, order) && target.uid in events && events[target.uid] == target
    ensures var rows, after := InOrder(events, order), InOrder(events[target.uid := Deleted(target, key)], order);
            forall i :: 0 <= i < |rows| ==>
              && WellFormed(rows[i]) && (rows[i].uid == target.uid ==> rows[i] == target)
              && after[i] == if rows[i] == target then Deleted(target, key) else rows[i]
  {
    assert forall i :: 0 <= i < |order| ==> order[i] in order;
  }

  /** The uid of a recurring item of one's listing deletes that occurrence and nothing else. */
  method DeleteListed(store: EventStore, order: seq<string>, f: Format, owner: string, calendar: string,
                      from: int, to: int, o: Occurrence)
      returns (r: Outcome)
    requires Kept(store.events, order) && FixedWidth(f)
    requires o in NaiveListing(InOrder(store.events, order), f, owner, calendar, from, to)
    requires o.isRecurrence && o.seriesUid != "" && !Contains(o.seriesUid + ":", MARK)
    modifies store
    ensures r.OccurrenceDeleted? && o.seriesUid in old(store.events)
    ensures var target := old(store.events)[o.seriesUid];
            store.events == old(store.events)[target.uid := Deleted(target, KeyAt(target, f, o.start))]
  {
    ListedLeadsBack(store.events, order, f, owner, calendar, from, to, o);
    assert Strip("") == "";
    r := store.DeleteEvent(o.uid, owner, "occurrence");
  }

  /** And every window in which its series was not truncated then lists everything but those items. */
  method DeleteShown(store: EventStore, order: seq<string>, f: Format, owner: string, calendar: string,
                     from: int, to: int, o: Occurrence, ghost start: int, ghost end: int)
      returns (r: Outcome)
    requires Kept(store.events, order) && FixedWidth(f)
    requires o in NaiveListing(InOrder(store.events, order), f, owner, calendar, from, to)
    requires o.isRecurrence && o.seriesUid != "" && !Contains(o.seriesUid + ":", MARK)
    requires o.seriesUid in store.events && store.events[o.seriesUid].rule.Series? ==>
               !Truncated(store.events[o.seriesUid], f, start, end)
    modifies store
    ensures r.OccurrenceDeleted? && Kept(store.events, order)
    ensures NaiveListing(InOrder(store.events, order), f, owner, calendar, start, end)
         == Except(NaiveListing(InOrder(old(store.events), order), f, owner, calendar, start, end), o.seriesUid, o.uid)
  {
    ghost var events := store.events;
    ListedLeadsBack(events, order, f, owner, calendar, from, to, o);
    r := DeleteListed(store, order, f, owner, calendar, from, to, o);
    DeleteKeepsRest(events, order, f, owner, calendar, start, end, o);
  }

  method Listing(store: EventStore, order: seq<string>, f: Format, owner: string, calendar: string,
                 start: int, end: int)
      returns (os: seq<Occurrence>)
    requires Kept(store.events, order) && FixedWidth(f)
    ensures os == NaiveListing(InOrder(store.events, order), f, owner, calendar, start, end)
  {
    RowsAreWellFormed(store.events, order);
    var flagged;
    os, flagged := ListEvents(InOrder(store.events, order), f, owner, calendar, start, end);
  }

  /** List a window, delete one of the recurring occurrences it shows by the uid it came with, and
      list any window in which its series was not truncated: it shows what it would have shown
      before, less exactly the items of that series with that uid. All other series, and all other
      occurrences of this one, are as they were. */
  method ListThenDelete(store: EventStore, order: seq<string>, f: Format, owner: string, calendar: string,
                        from: int, to: int, pick: nat, start: int, end: int)
      returns (shown: seq<Occurrence>, r: Outcome, before: seq<Occurrence>, after: seq<Occurrence>)
    requires Kept(store.events, order) && FixedWidth(f)
    requires pick < |NaiveListing(InOrder(store.events, order), f, owner, calendar, from, to)|
    requires var o := NaiveListing(InOrder(store.events, order), f, owner, calendar, from, to)[pick];
             && o.isRecurrence && o.seriesUid != "" && !Contains(o.seriesUid + ":", MARK)
             && (o.seriesUid in store.events && store.events[o.seriesUid].rule.Series? ==>
                   !Truncated(store.events[o.seriesUid], f, start, end))
    modifies store
    ensures pick < |shown| && r.OccurrenceDeleted?
    ensures before == NaiveListing(InOrder(old(store.events), order), f, owner, calendar, start, end)
    ensures after == Except(before, shown[pick].seriesUid, shown[pick].uid)
  {
    shown := Listing(store, order, f, owner, calendar, from, to);
    before := Listing(store, order, f, owner, calendar, start, end);
    r := DeleteShown(store, order, f, owner, calendar, from, to, shown[pick], start, end);
    after := Listing(store, order, f, owner, calendar, start, end);
  }

  lemma RowsAreWellFormed(events: map<string, Event>, order: seq<string>)
    requires (forall u :: u in order ==> u in events) && forall u :: u in events ==> WellFormed(events[u])
    ensures forall ev :: ev in InOrder(events, order) ==> WellFormed(ev)
  {
    assert forall i :: 0 <= i < |order| ==> order[i] in order;
  }

  lemma DeleteKeepsRest(events: map<string, Event>, order: seq<string>, f: Format, owner: string, calendar: string,
                        start: int, end: int, o: Occurrence)
    requires Kept(events, order) && o.seriesUid in events
    requires var target := events[o.seriesUid];
             && target.rule.Series? && !Truncated(target, f, start, end)
             && Strip(KeyAt(target, f, o.start)) != "" && o.uid == target.uid + MARK + KeyAt(target, f, o.start)
    ensures var target := events[o.seriesUid];
            var changed := events[target.uid := Deleted(target, KeyAt(target, f, o.start))];
            NaiveListing(InOrder(changed, order), f, owner, calendar, start, end)
            == Except(NaiveListing(InOrder(events, order), f, owner, calendar, start, end), o.seriesUid, o.uid)
  {
    var target, key := events[o.seriesUid], KeyAt(events[o.seriesUid], f, o.start);
    RowsAfterDelete(events, order, target, key);
    ListingAfterDelete(InOrder(events, order), InOrder(events[target.uid := Deleted(target, key)], order),
                       target, f, key, owner, calendar, start, end);
  }
}
