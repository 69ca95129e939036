/** First use of the default calendar by any number of callers at once
    (routes/calendar_routes.py), on a database that admits concurrent writers: each caller looks
    for the owner's calendar, then tries slot after slot. An insert that loses reads its slot's row
    with a row lock, which the caller keeps until its transaction ends, when it likes. */
module DefaultCalendarRuns {
  import opened Wrappers
  import opened Totals
  import opened DefaultCalendar

  /** A row is visible to others once its writer has committed. */
  datatype Stored = Stored(calendar: Calendar, writer: Option<nat>)

  datatype Caller =
    | Begin
    | Trying(slot: nat)
    | Lost(slot: nat)         // its insert was refused, the occupant is still to be read and locked
    | Returned(id: string)    // has its calendar, transaction still open
    | Committed(id: string)
    | RolledBack

  /** `locks` says which caller holds the lock on a row. */
  datatype State = State(rows: map<string, Stored>, locks: map<string, nat>, callers: seq<Caller>)

  datatype Event =
    | Look(caller: nat) | Insert(caller: nat) | Lock(caller: nat) | Commit(caller: nat) | Rollback(caller: nat)

  predicate Visible(s: State, id: string, owner: string) {
    id in s.rows && s.rows[id].writer == None && s.rows[id].calendar.owner == owner
  }

  /** An insert waits while another transaction has the same id uncommitted, a locking read while
      another caller holds the lock on its row. */
  ghost predicate Enabled(s: State, uuid5: string -> string, owner: string, e: Event) {
    && e.caller < |s.callers|
    && var c := s.callers[e.caller];
    match e
    case Look(_) => c == Begin
    case Insert(_) =>
      c.Trying? && (var id := SlotId(uuid5, owner, c.slot); id in s.rows ==> s.rows[id].writer == None)
    case Lock(_) =>
      c.Lost? && (var id := SlotId(uuid5, owner, c.slot);
                  && id in s.rows && s.rows[id].writer == None
                  && (id in s.locks ==> s.locks[id] == e.caller))
    case Commit(_) => c.Returned?
    case Rollback(_) => c.Trying? || c.Lost? || c.Returned?
  }

  function Published(rows: map<string, Stored>, i: nat): map<string, Stored> {
    map id | id in rows :: if rows[id].writer == Some(i) then rows[id].(writer := None) else rows[id]
  }

  function Withdrawn(rows: map<string, Stored>, i: nat): map<string, Stored> {
    map id | id in rows && rows[id].writer != Some(i) :: rows[id]
  }

  function Released(locks: map<string, nat>, i: nat): map<string, nat> {
    map id | id in locks && locks[id] != i :: locks[id]
  }

  ghost function Next(s: State, uuid5: string -> string, owner: string, e: Event): State
    requires Enabled(s, uuid5, owner, e)
  {
    var i, c := e.caller, s.callers[e.caller];
    match e
    case Look(_) =>
      if exists id :: Visible(s, id, owner) then
        var id :| Visible(s, id, owner);
        s.(callers := s.callers[i := Returned(id)])
      else s.(callers := s.callers[i := Trying(0)])
    case Insert(_) =>
      var id := SlotId(uuid5, owner, c.slot);
      if id in s.rows then s.(callers := s.callers[i := Lost(c.slot)])
      else s.(rows := s.rows[id := Stored(DefaultFor(owner), Some(i))], callers := s.callers[i := Returned(id)])
    case Lock(_) =>
      var id := SlotId(uuid5, owner, c.slot);
      var next := if s.rows[id].calendar.owner == owner then Returned(id) else Trying(c.slot + 1);
      s.(locks := s.locks[id := i], callers := s.callers[i := next])
    case Commit(_) => State(Published(s.rows, i), Released(s.locks, i), s.callers[i := Committed(c.id)])
    case Rollback(_) => State(Withdrawn(s.rows, i), Released(s.locks, i), s.callers[i := RolledBack])
  }

  /** First use: committed rows of other owners only, and any number of callers about to begin. */
  predicate FirstUse(s: State, owner: string) {
    && (forall id | id in s.rows :: s.rows[id].writer == None && s.rows[id].calendar.owner != owner)
    && s.locks == map[]
    && (forall c | c in s.callers :: c == Begin)
  }

  function Calendars(s: State): Table {
    map id | id in s.rows :: s.rows[id].calendar
  }

  // ---------- Transactions ----------

  /** A row is seen by others only once the caller that inserted it commits, and goes only if that
      caller rolls back; either way none of its rows is left uncommitted. */
  lemma RowsFollowTheirWriter(s: State, uuid5: string -> string, owner: string, e: Event, id: string)
    requires Enabled(s, uuid5, owner, e)
    ensures var n := Next(s, uuid5, owner, e);
            && (id in s.rows && id in n.rows ==> n.rows[id].calendar == s.rows[id].calendar)
            && (id in n.rows && n.rows[id].writer == None ==>
                  id in s.rows && (s.rows[id].writer == None || (e.Commit? && s.rows[id].writer == Some(e.caller))))
            && (id in s.rows && id !in n.rows ==> e.Rollback? && s.rows[id].writer == Some(e.caller))
            && (e.Commit? || e.Rollback? ==> !(id in n.rows && n.rows[id].writer == Some(e.caller)))
  {
  }

  /** A row lock is taken only when no other caller holds it, and given up only by its holder's end. */
  lemma LocksAreExclusive(s: State, uuid5: string -> string, owner: string, e: Event, id: string)
    requires Enabled(s, uuid5, owner, e)
    ensures var n := Next(s, uuid5, owner, e);
            && (id in n.locks && !(id in s.locks && s.locks[id] == n.locks[id]) ==>
                  e.Lock? && n.locks[id] == e.caller && id !in s.locks)
            && (id in s.locks && id !in n.locks ==> (e.Commit? || e.Rollback?) && s.locks[id] == e.caller)
            && (e.Commit? || e.Rollback? ==> !(id in n.locks && n.locks[id] == e.caller))
  {
  }

  // ---------- What every step keeps ----------

  predicate InPlace(rows: map<string, Stored>, id: string) {
    id in rows && rows[id].writer == None
  }

  /** What a caller may hold: slots up to the first free one, and only the row in that slot. */
  predicate CallerConverges(
      rows: map<string, Stored>, c: Caller, i: nat, uuid5: string -> string, owner: string, k: nat) {
    var target := SlotId(uuid5, owner, k);
    match c
    case Trying(slot) => slot <= k
    case Lost(slot) => slot <= k && InPlace(rows, SlotId(uuid5, owner, slot))
    case Returned(id) => id == target && target in rows
        && (rows[target].writer == None || rows[target].writer == Some(i))
    case Committed(id) => id == target && InPlace(rows, target)
    case _ => true
  }

  /** The original rows and, at most, one row more: the default in the first free slot. */
  ghost predicate RowsConverge(rows: map<string, Stored>, start: Table, owner: string, target: string) {
    && (forall id :: id in rows <==> id in start || (id == target && target in rows))
    && (forall id :: id in start ==> rows[id] == Stored(start[id], None))
    && (target in rows ==> rows[target].calendar == DefaultFor(owner))
  }

  /** Slot k is the first free one for this owner, who has no calendar yet. */
  ghost predicate Vacant(start: Table, uuid5: string -> string, owner: string, k: nat) {
    && FirstFree(start, uuid5, owner, k)
    && (forall id :: id in start ==> start[id].owner != owner)
  }

  /** A lock is held by a caller that is past the slot of its row, or about to end. */
  ghost predicate LockConverges(s: State, uuid5: string -> string, owner: string, id: string)
    requires id in s.locks
  {
    && s.locks[id] < |s.callers|
    && var c := s.callers[s.locks[id]];
    c.Returned? || exists j: nat :: j < SlotOf(c) && id == SlotId(uuid5, owner, j)
  }

  function SlotOf(c: Caller): int {
    match c
    case Trying(slot) => slot
    case Lost(slot) => slot
    case _ => -1
  }

  ghost predicate Converging(s: State, start: Table, uuid5: string -> string, owner: string, k: nat) {
    var target := SlotId(uuid5, owner, k);
    && Vacant(start, uuid5, owner, k)
    && RowsConverge(s.rows, start, owner, target)
    && (target in s.rows && s.rows[target].writer.Some? ==>
          var w := s.rows[target].writer.value;
          w < |s.callers| && s.callers[w] == Returned(target))
    && (forall i :: 0 <= i < |s.callers| ==> CallerConverges(s.rows, s.callers[i], i, uuid5, owner, k))
    && (forall id :: id in s.locks ==> LockConverges(s, uuid5, owner, id))
  }

  lemma {:induction false} FirstUseConverges(s: State, uuid5: string -> string, owner: string) returns (k: nat)
    requires Injective(uuid5) && FirstUse(s, owner)
    ensures FirstFree(Calendars(s), uuid5, owner, k) && Converging(s, Calendars(s), uuid5, owner, k)
  {
    k := SomeSlotIsFree(Calendars(s), uuid5, owner);
    assert forall i :: 0 <= i < |s.callers| ==> s.callers[i] in s.callers;
  }

  /** Rows in place stay, and no other caller's row changes hands. */
  lemma StepKeepsOthers(s: State, start: Table, uuid5: string -> string, owner: string, k: nat, e: Event, j: nat)
    requires Converging(s, start, uuid5, owner, k) && Enabled(s, uuid5, owner, e)
    requires j < |s.callers| && j != e.caller
    ensures var n := Next(s, uuid5, owner, e); CallerConverges(n.rows, n.callers[j], j, uuid5, owner, k)
  {
    assert CallerConverges(s.rows, s.callers[j], j, uuid5, owner, k);
    assert CallerConverges(s.rows, s.callers[e.caller], e.caller, uuid5, owner, k);
  }

  lemma StepKeepsCaller(s: State, start: Table, uuid5: string -> string, owner: string, k: nat, e: Event)
    requires Converging(s, start, uuid5, owner, k) && Enabled(s, uuid5, owner, e)
    ensures var n := Next(s, uuid5, owner, e); CallerConverges(n.rows, n.callers[e.caller], e.caller, uuid5, owner, k)
  {
    var c := s.callers[e.caller];
    assert CallerConverges(s.rows, c, e.caller, uuid5, owner, k);
    match e
    case Look(_) =>
      assert forall id :: id in start ==> !Visible(s, id, owner);
    case Lock(_) =>
      var id := SlotId(uuid5, owner, c.slot);
      if id in start {
        assert c.slot < k && s.rows[id] == Stored(start[id], None);
      }
    case _ =>
  }

  lemma StepKeepsRows(s: State, start: Table, uuid5: string -> string, owner: string, k: nat, e: Event)
    requires Converging(s, start, uuid5, owner, k) && Enabled(s, uuid5, owner, e)
    ensures var n, target := Next(s, uuid5, owner, e), SlotId(uuid5, owner, k);
            && RowsConverge(n.rows, start, owner, target)
            && (target in n.rows && n.rows[target].writer.Some? ==>
                  n.rows[target].writer.value < |n.callers|
                  && n.callers[n.rows[target].writer.value] == Returned(target))
  {
    assert CallerConverges(s.rows, s.callers[e.caller], e.caller, uuid5, owner, k);
  }

  lemma StepKeepsLocks(s: State, uuid5: string -> string, owner: string, e: Event, id: string)
    requires forall l :: l in s.locks ==> LockConverges(s, uuid5, owner, l)
    requires Enabled(s, uuid5, owner, e) && id in Next(s, uuid5, owner, e).locks
    ensures LockConverges(Next(s, uuid5, owner, e), uuid5, owner, id)
  {
    var n, c := Next(s, uuid5, owner, e), s.callers[e.caller];
    if e.Lock? && id == SlotId(uuid5, owner, c.slot) {
      assert n.locks[id] == e.caller;
      var slot: nat := c.slot;
      assert n.callers[e.caller].Trying? ==> slot < SlotOf(n.callers[e.caller]);
    } else {
      assert LockConverges(s, uuid5, owner, id) && n.locks[id] == s.locks[id];
      if s.locks[id] == e.caller && !c.Returned? {
        var j: nat :| j < SlotOf(c) && id == SlotId(uuid5, owner, j);
        assert n.callers[e.caller].Returned? || j < SlotOf(n.callers[e.caller]);
      }
    }
  }

  lemma StepConverges(s: State, start: Table, uuid5: string -> string, owner: string, k: nat, e: Event)
    requires Converging(s, start, uuid5, owner, k) && Enabled(s, uuid5, owner, e)
    ensures Converging(Next(s, uuid5, owner, e), start, uuid5, owner, k)
    ensures |Next(s, uuid5, owner, e).callers| == |s.callers|
  {
    var n := Next(s, uuid5, owner, e);
    StepKeepsRows(s, start, uuid5, owner, k, e);
    forall j | 0 <= j < |n.callers| ensures CallerConverges(n.rows, n.callers[j], j, uuid5, owner, k) {
      if j == e.caller {
        StepKeepsCaller(s, start, uuid5, owner, k, e);
      } else {
        StepKeepsOthers(s, start, uuid5, owner, k, e, j);
      }
    }
    forall id | id in n.locks ensures LockConverges(n, uuid5, owner, id) {
      StepKeepsLocks(s, uuid5, owner, e, id);
    }
  }

  // ---------- Runs ----------

  ghost predicate IsRun(s: State, uuid5: string -> string, owner: string, events: seq<Event>)
    decreases events
  {
    events != [] ==>
      && Enabled(s, uuid5, owner, events[0])
      && IsRun(Next(s, uuid5, owner, events[0]), uuid5, owner, events[1..])
  }

  ghost function After(s: State, uuid5: string -> string, owner: string, events: seq<Event>): State
    requires IsRun(s, uuid5, owner, events)
    decreases events
  {
    if events == [] then s else After(Next(s, uuid5, owner, events[0]), uuid5, owner, events[1..])
  }

  lemma {:induction false} RunConverges(s: State, start: Table, uuid5: string -> string, owner: string, k: nat,
          events: seq<Event>)
    requires Converging(s, start, uuid5, owner, k) && IsRun(s, uuid5, owner, events)
    ensures Converging(After(s, uuid5, owner, events), start, uuid5, owner, k)
    ensures |After(s, uuid5, owner, events).callers| == |s.callers|
    decreases events
  {
    if events != [] {
      StepConverges(s, start, uuid5, owner, k, events[0]);
      RunConverges(Next(s, uuid5, owner, events[0]), start, uuid5, owner, k, events[1..]);
    }
  }

  /** In every interleaving all callers are given the same calendar, the one a single caller would
      have been given; the owner has that calendar or none; no other row changes. */
  lemma CallersConverge(s: State, uuid5: string -> string, owner: string, events: seq<Event>) returns (k: nat)
    requires Injective(uuid5) && FirstUse(s, owner) && IsRun(s, uuid5, owner, events)
    ensures FirstFree(Calendars(s), uuid5, owner, k)
    ensures var end, target := After(s, uuid5, owner, events), SlotId(uuid5, owner, k);
            && (forall c :: c in end.callers && (c.Returned? || c.Committed?) ==> c.id == target)
            && (forall id :: id in end.rows && end.rows[id].calendar.owner == owner ==> id == target)
            && (Calendars(end) == Calendars(s) || Calendars(end) == Calendars(s)[target := DefaultFor(owner)])
            && ((exists c :: c in end.callers && c.Committed?) ==> Visible(end, target, owner))
  {
    k := FirstUseConverges(s, uuid5, owner);
    RunConverges(s, Calendars(s), uuid5, owner, k, events);
    var end, target := After(s, uuid5, owner, events), SlotId(uuid5, owner, k);
    if target in end.rows {
      assert Calendars(end) == Calendars(s)[target := DefaultFor(owner)];
    } else {
      assert Calendars(end) == Calendars(s);
    }
  }

  // ---------- Termination ----------

  predicate Ended(c: Caller) { c.Committed? || c.RolledBack? }

  /** Steps a caller can still make when k is the first free slot: two for each slot it loses. */
  function Left(c: Caller, k: nat): int {
    match c
    case Begin => 2 * k + 4
    case Trying(slot) => 2 * (k - slot) + 3
    case Lost(slot) => 2 * (k - slot) + 2
    case Returned(_) => 1
    case _ => 0
  }

  function TotalLeft(callers: seq<Caller>, k: nat): int {
    Total((c: Caller) => Left(c, k), callers)
  }

  lemma NobodyIsOverdrawn(s: State, start: Table, uuid5: string -> string, owner: string, k: nat)
    requires Converging(s, start, uuid5, owner, k)
    ensures forall c :: c in s.callers ==> Left(c, k) >= 0
  {
    forall c | c in s.callers ensures Left(c, k) >= 0 {
      var i :| 0 <= i < |s.callers| && s.callers[i] == c;
      assert CallerConverges(s.rows, s.callers[i], i, uuid5, owner, k);
    }
  }

  /** A step moves one caller, and that one gets closer to its end. */
  lemma StepMovesOneCaller(s: State, uuid5: string -> string, owner: string, k: nat, e: Event)
    requires Enabled(s, uuid5, owner, e)
    requires SlotOf(s.callers[e.caller]) <= k
    ensures var callers := Next(s, uuid5, owner, e).callers;
            && |callers| == |s.callers|
            && callers == s.callers[e.caller := callers[e.caller]]
            && Left(callers[e.caller], k) < Left(s.callers[e.caller], k)
  {
  }

  lemma StepUsesOneUp(s: State, start: Table, uuid5: string -> string, owner: string, k: nat, e: Event)
    requires Converging(s, start, uuid5, owner, k) && Enabled(s, uuid5, owner, e)
    ensures 0 <= TotalLeft(Next(s, uuid5, owner, e).callers, k) < TotalLeft(s.callers, k)
  {
    var n, work := Next(s, uuid5, owner, e), (c: Caller) => Left(c, k);
    StepConverges(s, start, uuid5, owner, k, e);
    NobodyIsOverdrawn(n, start, uuid5, owner, k);
    assert CallerConverges(s.rows, s.callers[e.caller], e.caller, uuid5, owner, k);
    StepMovesOneCaller(s, uuid5, owner, k, e);
    TotalChanges(work, s.callers, e.caller, n.callers[e.caller]);
    TotalIsNatural(work, n.callers);
  }

  /** No schedule goes on for ever: a run is no longer than the work it started with. */
  lemma {:induction false} RunsAreBounded(s: State, start: Table, uuid5: string -> string, owner: string, k: nat,
          events: seq<Event>)
    requires Converging(s, start, uuid5, owner, k) && IsRun(s, uuid5, owner, events)
    ensures |events| <= TotalLeft(s.callers, k)
    decreases events
  {
    if events == [] {
      NobodyIsOverdrawn(s, start, uuid5, owner, k);
      TotalIsNatural((c: Caller) => Left(c, k), s.callers);
    } else {
      StepUsesOneUp(s, start, uuid5, owner, k, events[0]);
      StepConverges(s, start, uuid5, owner, k, events[0]);
      RunsAreBounded(Next(s, uuid5, owner, events[0]), start, uuid5, owner, k, events[1..]);
    }
  }

  /** A caller that has come as far through the slots as any other. */
  lemma {:induction false} GreatestSlot(callers: seq<Caller>, n: nat) returns (i: nat)
    requires 0 < n <= |callers|
    ensures i < n && forall j :: 0 <= j < n ==> SlotOf(callers[j]) <= SlotOf(callers[i])
  {
    if n == 1 { return 0; }
    i := GreatestSlot(callers, n - 1);
    if SlotOf(callers[n - 1]) > SlotOf(callers[i]) { i := n - 1; }
  }

  /** When nobody is about to end, no row is uncommitted and nobody holds the lock on the row of a
      slot that no caller has passed. */
  lemma FurthestIsNotBlocked(s: State, start: Table, uuid5: string -> string, owner: string, k: nat, i: nat)
    requires Injective(uuid5) && Converging(s, start, uuid5, owner, k)
    requires i < |s.callers| && (s.callers[i].Trying? || s.callers[i].Lost?)
    requires forall j :: 0 <= j < |s.callers| ==>
        !s.callers[j].Returned? && SlotOf(s.callers[j]) <= SlotOf(s.callers[i])
    ensures Enabled(s, uuid5, owner, if s.callers[i].Trying? then Insert(i) else Lock(i))
  {
    var slot := s.callers[i].slot;
    var id := SlotId(uuid5, owner, slot);
    assert CallerConverges(s.rows, s.callers[i], i, uuid5, owner, k);
    if id in s.locks {
      assert LockConverges(s, uuid5, owner, id);
      var j: nat :| j < SlotOf(s.callers[s.locks[id]]) && id == SlotId(uuid5, owner, j);
      SlotsDiffer(uuid5, owner, j, slot);
    }
  }

  /** While a caller has not ended, some caller can move without rolling back: one about to end, or
      one that has not looked yet, or the one furthest through the slots. Locks are taken in the
      order of the slots, so nobody further ahead can be waiting for it. */
  lemma SomeoneCanMove(s: State, start: Table, uuid5: string -> string, owner: string, k: nat, u: nat)
    returns (e: Event)
    requires Injective(uuid5) && Converging(s, start, uuid5, owner, k) && u < |s.callers| && !Ended(s.callers[u])
    ensures Enabled(s, uuid5, owner, e) && !e.Rollback?
  {
    if r: nat :| r < |s.callers| && s.callers[r].Returned? {
      return Commit(r);
    }
    if s.callers[u] == Begin {
      return Look(u);
    }
    var i := GreatestSlot(s.callers, |s.callers|);
    assert SlotOf(s.callers[u]) >= 0;
    FurthestIsNotBlocked(s, start, uuid5, owner, k, i);
    e := if s.callers[i].Trying? then Insert(i) else Lock(i);
  }

  ghost predicate AllEnded(s: State) {
    forall i :: 0 <= i < |s.callers| ==> Ended(s.callers[i])
  }

  /** From every reachable state there is a continuation, with no rollback, that ends every call. */
  lemma {:induction false} EveryoneCanEnd(s: State, start: Table, uuid5: string -> string, owner: string, k: nat)
    returns (events: seq<Event>)
    requires Injective(uuid5) && Converging(s, start, uuid5, owner, k)
    ensures IsRun(s, uuid5, owner, events) && (forall e :: e in events ==> !e.Rollback?)
    ensures AllEnded(After(s, uuid5, owner, events))
    decreases TotalLeft(s.callers, k)
  {
    events := [];
    if !AllEnded(s) {
      var u :| 0 <= u < |s.callers| && !Ended(s.callers[u]);
      var e := SomeoneCanMove(s, start, uuid5, owner, k, u);
      StepUsesOneUp(s, start, uuid5, owner, k, e);
      StepConverges(s, start, uuid5, owner, k, e);
      var rest := EveryoneCanEnd(Next(s, uuid5, owner, e), start, uuid5, owner, k);
      events := [e] + rest;
      assert events[0] == e && events[1..] == rest;
    }
  }
}
