/** The transcript cache over whole runs: without failed writes every read is exact, whichever
    objects messages are added through, and after any failures one read closes the gap. The count
    column is exact only as far as the cached transcripts are. */
module SessionRuns {
  import opened Wrappers
  import opened Collections
  import opened SessionCache

  datatype Op =
    | Create(sid: string)
    | Get(sid: string)
    | Add(sid: string, role: string, id: string)
    | HeldAdd(sid: string, role: string, id: string, current: bool)   // through a Session object, cached or stale
    | Truncate(sid: string, keep: int)
    | Replace(sid: string, rows: seq<Row>)
    | Delete(sid: string)
    | Evict(sid: string)

  function Apply(s: State, op: Op): State {
    match op
    case Create(sid) => AfterCreate(s, sid).0
    case Get(sid) => AfterGet(s, sid).0
    case Add(sid, role, id) => AfterAdd(s, sid, role, id, true).0
    case HeldAdd(sid, role, id, current) => AfterHeldAdd(s, sid, role, id, true, current)
    case Truncate(sid, keep) => AfterTruncate(s, sid, keep, true).0
    case Replace(sid, rows) => AfterReplace(s, sid, rows, true).0
    case Delete(sid) => AfterDelete(s, sid).0
    case Evict(sid) => s.(cache := s.cache - {sid})
  }

  function Roles(rows: seq<Row>): (roles: seq<string>)
    ensures |roles| == |rows|
  {
    seq(|rows|, i requires 0 <= i < |rows| => rows[i].role)
  }

  function Ids(rows: seq<Row>): (ids: seq<string>)
    ensures |ids| == |rows|
  {
    seq(|rows|, i requires 0 <= i < |rows| => rows[i].id)
  }

  /** The steps are the manager's own operations; one that adds through a held object is given it. */
  method Perform(m: SessionManager, held: Session, op: Op)
    requires m.Valid()
    requires op.HeldAdd? ==> held.id == op.sid && (op.current <==> m.Current(held))
    modifies m, m.sessions.Values, held
    ensures m.Valid() && m.View() == Apply(old(m.View()), op)
  {
    match op
    case Create(sid) => var _ := m.CreateSession(sid);
    case Get(sid) => var _ := m.GetSession(sid);
    case Add(sid, role, id) => var _ := m.AddMessage(sid, role, id, true);
    case HeldAdd(_, role, id, _) => m.AddMessageTo(held, role, id, true);
    case Truncate(sid, keep) => var _ := m.TruncateMessages(sid, keep, true);
    case Replace(sid, rows) =>
      assert Zip(Ids(rows), Roles(rows)) == rows;
      var _ := m.ReplaceMessages(sid, Roles(rows), Ids(rows), true);
    case Delete(sid) => var _ := m.DeleteSession(sid);
    case Evict(sid) => m.Evict(sid);
  }

  function Run(s: State, ops: seq<Op>): State
    decreases ops
  {
    if ops == [] then s else Run(Apply(s, ops[0]), ops[1..])
  }

  // ---------- The reference: transcripts with no cache at all ----------

  type Transcripts = map<string, seq<Row>>

  function Step(t: Transcripts, op: Op): Transcripts {
    match op
    case Create(sid) => if sid in t then t else t[sid := []]
    case Add(sid, role, id) => if sid in t then t[sid := t[sid] + [Row(id, role)]] else t
    case HeldAdd(sid, role, id, _) => if sid in t then t[sid := t[sid] + [Row(id, role)]] else t
    case Truncate(sid, keep) => if sid in t && keep >= 0 then t[sid := Take(t[sid], keep)] else t
    case Replace(sid, rows) => if sid in t then t[sid := rows] else t
    case Delete(sid) => t - {sid}
    case _ => t
  }

  function Reference(t: Transcripts, ops: seq<Op>): Transcripts
    decreases ops
  {
    if ops == [] then t else Reference(Step(t, ops[0]), ops[1..])
  }

  function Rows(s: State): Transcripts {
    map sid | sid in s.store :: s.store[sid].rows
  }

  // ---------- Refinement ----------

  /** A cached transcript is the stored one, or visibly shorter. */
  ghost predicate Consistent(s: State) {
    && s.cache.Keys <= s.store.Keys
    && (forall sid :: sid in s.cache ==>
          || s.cache[sid].history == FromRows(s.store[sid].rows)
          || |s.cache[sid].history| < |s.store[sid].rows|)
  }

  /** The start-up cache: non-empty sessions, known by their count only. */
  lemma BootIsConsistent(store: map<string, Stored>, discovered: set<string>)
    requires discovered <= store.Keys
    requires forall sid :: sid in discovered ==> store[sid].rows != []
    ensures Consistent(State(map sid | sid in discovered :: Cached([], |store[sid].rows|), store))
  {
  }

  /** Reading a consistent session yields exactly its rows and leaves the store alone. */
  lemma {:induction false} GetIsExact(s: State, sid: string)
    requires Consistent(s)
    ensures AfterGet(s, sid).1 <==> sid in s.store
    ensures AfterGet(s, sid).0.store == s.store && Consistent(AfterGet(s, sid).0)
    ensures sid in s.store ==> AfterGet(s, sid).0.cache[sid].history == FromRows(s.store[sid].rows)
  {
  }

  lemma AddRefines(s: State, op: Op)
    requires Consistent(s) && op.Add?
    ensures Consistent(Apply(s, op)) && Rows(Apply(s, op)) == Step(Rows(s), op)
  {
    var Add(sid, role, id) := op;
    GetIsExact(s, sid);
    if sid in s.store {
      assert FromRows(s.store[sid].rows + [Row(id, role)]) == FromRows(s.store[sid].rows) + [Message(role, Some(id))];
    }
    assert Rows(Apply(s, op)) == Step(Rows(s), op);
  }

  /** A message added through a stale object, or to an entry whose transcript was never loaded,
      leaves the entry visibly shorter than the rows, so the next read loads it. */
  lemma HeldAddRefines(s: State, op: Op)
    requires Consistent(s) && op.HeldAdd?
    ensures Consistent(Apply(s, op)) && Rows(Apply(s, op)) == Step(Rows(s), op)
  {
    var HeldAdd(sid, role, id, current) := op;
    if sid in s.store {
      assert FromRows(s.store[sid].rows + [Row(id, role)])
          == FromRows(s.store[sid].rows) + [Message(role, Some(id))];
    }
    assert Rows(Apply(s, op)) == Step(Rows(s), op);
  }

  lemma TruncateRefines(s: State, op: Op)
    requires Consistent(s) && op.Truncate?
    ensures Consistent(Apply(s, op)) && Rows(Apply(s, op)) == Step(Rows(s), op)
  {
    var Truncate(sid, keep) := op;
    GetIsExact(s, sid);
    var g := AfterGet(s, sid).0;
    if sid in s.store && keep >= 0 {
      assert FromRows(Take(s.store[sid].rows, keep)) == Take(FromRows(s.store[sid].rows), keep);
      assert Apply(s, op) == Truncated(g, sid, keep);
    } else {
      assert Apply(s, op) == g;
    }
    assert Rows(Apply(s, op)) == Step(Rows(s), op);
  }

  lemma ReplaceRefines(s: State, op: Op)
    requires Consistent(s) && op.Replace?
    ensures Consistent(Apply(s, op)) && Rows(Apply(s, op)) == Step(Rows(s), op)
  {
    var Replace(sid, rows) := op;
    GetIsExact(s, sid);
    assert Rows(Apply(s, op)) == Step(Rows(s), op);
  }

  lemma {:induction false} StepRefines(s: State, op: Op)
    requires Consistent(s)
    ensures Consistent(Apply(s, op)) && Rows(Apply(s, op)) == Step(Rows(s), op)
  {
    if op.Add? {
      AddRefines(s, op);
    } else if op.HeldAdd? {
      HeldAddRefines(s, op);
    } else if op.Truncate? {
      TruncateRefines(s, op);
    } else if op.Replace? {
      ReplaceRefines(s, op);
    } else {
      GetIsExact(s, op.sid);
      assert Rows(Apply(s, op)) == Step(Rows(s), op);
    }
  }

  lemma {:induction false} RunRefines(s: State, ops: seq<Op>)
    requires Consistent(s)
    ensures Consistent(Run(s, ops)) && Rows(Run(s, ops)) == Reference(Rows(s), ops)
    decreases ops
  {
    if ops != [] {
      StepRefines(s, ops[0]);
      RunRefines(Apply(s, ops[0]), ops[1..]);
    }
  }

  /** In any run without a failed write, whatever was evicted and whatever objects messages were
      added through, reading a session gives the reference transcript, row for row. */
  lemma CacheIsInvisible(s: State, ops: seq<Op>, sid: string)
    requires Consistent(s)
    ensures var end, reference := Run(s, ops), Reference(Rows(s), ops);
            && (AfterGet(end, sid).1 <==> sid in reference)
            && (sid in reference ==>
                  && sid in end.store && end.store[sid].rows == reference[sid]
                  && AfterGet(end, sid).0.cache[sid] == Cached(FromRows(reference[sid]), |reference[sid]|))
  {
    RunRefines(s, ops);
    GetIsExact(Run(s, ops), sid);
  }

  // ---------- The count column ----------

  predicate CountsRows(s: State, sid: string) {
    sid in s.store ==> s.store[sid].messageCount == |s.store[sid].rows|
  }

  /** Whether the column counts the rows after a step: whatever writes it through the manager makes
      it exact; a message added through an object does so exactly if that object is the cached one
      and had its whole transcript; anything else leaves it. */
  predicate CountsAfter(s: State, op: Op, sid: string, before: bool) {
    if op.sid != sid then before
    else
      match op
      case Create(_) => sid in s.store ==> before
      case Add(_, _, _) => true
      case HeldAdd(_, _, _, current) =>
        sid in s.store ==> current && sid in s.cache && |s.cache[sid].history| == |s.store[sid].rows|
      case Truncate(_, keep) => keep < 0 ==> before
      case Replace(_, _) => true
      case Delete(_) => true
      case _ => before
  }

  lemma StepCounts(s: State, op: Op, sid: string)
    requires Consistent(s)
    ensures CountsRows(Apply(s, op), sid) <==> CountsAfter(s, op, sid, CountsRows(s, sid))
  {
    GetIsExact(s, op.sid);
    if op.Truncate? && op.keep >= 0 && op.sid in s.store {
      assert Apply(s, op) == Truncated(AfterGet(s, op.sid).0, op.sid, op.keep);
    }
  }

  predicate CountsAfterAll(s: State, ops: seq<Op>, sid: string, before: bool)
    decreases ops
  {
    if ops == [] then before
    else CountsAfterAll(Apply(s, ops[0]), ops[1..], sid, CountsAfter(s, ops[0], sid, before))
  }

  /** Over any run without a failed write, the column of a session counts its rows if and only if
      the last operation to write it was one that gets it right. */
  lemma {:induction false} ColumnCountsExactly(s: State, ops: seq<Op>, sid: string)
    requires Consistent(s)
    ensures CountsRows(Run(s, ops), sid) <==> CountsAfterAll(s, ops, sid, CountsRows(s, sid))
    decreases ops
  {
    if ops != [] {
      StepCounts(s, ops[0], sid);
      StepRefines(s, ops[0]);
      ColumnCountsExactly(Apply(s, ops[0]), ops[1..], sid);
    }
  }

  /** From any state, failed writes included: the write of a held object leaves the column equal to
      the number of rows if and only if, before it, the session was cached and its transcript was as
      long as the rows, if the object is the cached one, or one longer, if it is a stale one. */
  lemma HeldAddCountsExactly(s: State, sid: string, role: string, id: string, current: bool)
    requires sid in s.store
    ensures var end := AfterHeldAdd(s, sid, role, id, true, current);
            && end.store[sid].rows == s.store[sid].rows + [Row(id, role)]
            && (end.store[sid].messageCount == |end.store[sid].rows|
                <==> sid in s.cache && |s.cache[sid].history| == |s.store[sid].rows| + if current then 0 else 1)
  {
  }

  /** So no failed write is needed to put the column wrong: a message added through an object whose
      entry was evicted writes a count of zero beside its row. */
  lemma EvictedObjectZeroesTheColumn(s: State, sid: string, role: string, first: string, second: string)
    requires Consistent(s) && sid !in s.store
    ensures var end := Run(s, [Create(sid), HeldAdd(sid, role, first, true), Evict(sid),
        HeldAdd(sid, role, second, false)]);
            sid in end.store && end.store[sid] == Stored(0, [Row(first, role), Row(second, role)])
  {
    var ops := [Create(sid), HeldAdd(sid, role, first, true), Evict(sid), HeldAdd(sid, role, second, false)];
    var s1 := Apply(s, ops[0]);
    var s2 := Apply(s1, ops[1]);
    var s3 := Apply(s2, ops[2]);
    assert s2.store[sid] == Stored(1, [Row(first, role)]);
    var s4 := Apply(s3, ops[3]);
    assert [Row(first, role)] + [Row(second, role)] == [Row(first, role), Row(second, role)];
    assert ops[1..][1..] == ops[2..] && ops[2..][1..] == ops[3..] && ops[3..][1..] == [];
    assert Run(s, ops) == Run(s1, ops[1..]) == Run(s2, ops[2..]) == Run(s3, ops[3..]) == Run(s4, []);
  }

  // ---------- Hydration, from any state at all ----------

  /** Whatever failed before and whatever the count column says, one read leaves a transcript no
      shorter than the rows, equal to them if it loaded them, and the next read loads nothing. */
  lemma HydrationClosesTheGap(s: State, sid: string)
    requires sid in s.store
    ensures var (g, found) := AfterGet(s, sid);
            && found && g.store == s.store
            && |g.cache[sid].history| >= |s.store[sid].rows|
            && g.cache[sid].messageCount == |s.store[sid].rows|
            && (Reloads(s, sid) ==> g.cache[sid].history == FromRows(s.store[sid].rows))
            && (!Reloads(s, sid) ==> g.cache[sid].history == s.cache[sid].history)
            && !Reloads(g, sid)
            && AfterGet(g, sid) == (g, true)
  {
    GetTwiceIsGet(s, sid);
  }

  /** A stored message leaves the count column exact if and only if the transcript it was added
      to matched the rows in length; earlier failed writes are what breaks that. */
  lemma AddCountsExactly(s: State, sid: string, role: string, id: string)
    requires sid in s.store
    ensures var end := AfterAdd(s, sid, role, id, true).0;
            && end.store[sid].rows == s.store[sid].rows + [Row(id, role)]
            && (end.store[sid].messageCount == |end.store[sid].rows|
                <==> sid !in s.cache || |s.cache[sid].history| <= |s.store[sid].rows|)
  {
    HydrationClosesTheGap(s, sid);
  }

  /** A failed write keeps the message in memory only, and each one so kept pushes the next
      written count one too high. */
  lemma FailedWriteDriftsTheColumn(s: State, sid: string, role: string, lost: string, id: string)
    requires Consistent(s) && sid in s.store
    ensures var failed := AfterAdd(s, sid, role, lost, false).0;
            var end := AfterAdd(failed, sid, role, id, true).0;
            && failed.store == s.store
            && failed.cache[sid].history == FromRows(s.store[sid].rows) + [Message(role, None)]
            && end.store[sid].messageCount == |end.store[sid].rows| + 1
  {
    GetIsExact(s, sid);
  }
}
