/** The transcript cache of `SessionManager` (core/session_manager.py, core/models.py).

    Rows are kept per session in timestamp order, which is insertion order. A message is
    its role and, once stored, the id of its row; content goes through a persist function
    that is not part of this model. Each operation takes what the database decides: the
    ids of new rows, and whether the write went through. */
module SessionCache {
  import opened Wrappers
  import opened Collections

  datatype Row = Row(id: string, role: string)
  datatype Message = Message(role: string, rowId: Option<string>)

  /** A stored session: the denormalized count column beside the rows it should count. */
  datatype Stored = Stored(messageCount: int, rows: seq<Row>)
  datatype Cached = Cached(history: seq<Message>, messageCount: int)

  datatype State = State(cache: map<string, Cached>, store: map<string, Stored>)

  function FromRow(r: Row): Message { Message(r.role, Some(r.id)) }

  function FromRows(rows: seq<Row>): (h: seq<Message>)
    ensures |h| == |rows|
  {
    seq(|rows|, i requires 0 <= i < |rows| => FromRow(rows[i]))
  }

  function Zip(ids: seq<string>, roles: seq<string>): seq<Row>
    requires |ids| == |roles|
  {
    seq(|roles|, i requires 0 <= i < |roles| => Row(ids[i], roles[i]))
  }

  // ---------- Operations on values ----------

  /** A full load; an empty session becomes a metadata-only entry that trusts the column. */
  function Load(d: Stored): Cached {
    if d.rows == [] then Cached([], d.messageCount) else Cached(FromRows(d.rows), |d.rows|)
  }

  /** Whether `get_session` reads the rows. */
  predicate Reloads(s: State, sid: string) {
    sid !in s.cache || (sid in s.store && |s.cache[sid].history| < |s.store[sid].rows|)
  }

  /** `get_session`; false is the KeyError of a session that is nowhere to be loaded from. */
  function AfterGet(s: State, sid: string): (State, bool) {
    if sid in s.store then
      var d := s.store[sid];
      var c := if Reloads(s, sid) then FromRows(d.rows) else s.cache[sid].history;
      (s.(cache := s.cache[sid := Cached(c, |d.rows|)]), true)
    else if sid in s.cache && s.cache[sid].messageCount <= |s.cache[sid].history| then
      (s, true)
    else
      (s, false)
  }

  /** The two steps `get_session` is made of: building an entry from the rows, and refreshing its count. */
  function Loaded(s: State, sid: string): State
    requires sid in s.store
  {
    s.(cache := s.cache[sid := Load(s.store[sid])])
  }

  function Synced(s: State, sid: string): State
    requires sid in s.cache
  {
    if sid in s.store then s.(cache := s.cache[sid := Cached(s.cache[sid].history, |s.store[sid].rows|)]) else s
  }

  /** Load if absent, refresh the count, load again if the transcript is short of it. */
  lemma GetIsLoadSyncLoad(s: State, sid: string)
    requires sid in s.store || sid in s.cache
    ensures var synced := Synced(if sid in s.cache then s else Loaded(s, sid), sid);
            var short := |synced.cache[sid].history| < synced.cache[sid].messageCount;
            && (sid in s.store || !short <==> AfterGet(s, sid).1)
            && (sid in s.store ==> AfterGet(s, sid).0 == if short then Loaded(synced, sid) else synced)
            && (sid !in s.store ==> AfterGet(s, sid).0 == s == synced)
  {
    if sid in s.store {
      var first := if sid in s.cache then s else Loaded(s, sid);
      var synced := Synced(first, sid);
      assert synced.cache == s.cache[sid := synced.cache[sid]];
    }
  }

  lemma GetTwiceIsGet(s: State, sid: string)
    requires AfterGet(s, sid).1
    ensures AfterGet(AfterGet(s, sid).0, sid) == AfterGet(s, sid)
  {
    var g := AfterGet(s, sid).0;
    assert AfterGet(g, sid).0.cache == g.cache;
  }

  function AfterCreate(s: State, sid: string): (State, bool) {
    if sid in s.store then (s, false)
    else (State(s.cache[sid := Cached([], 0)], s.store[sid := Stored(0, [])]), true)
  }

  /** `Session.add_message` on an object a caller holds, which is the cached one or, after an
      eviction or a reload, a stale one. The message goes to that object; then its row is stored, if
      `ok`, and the column takes the length of whatever transcript is cached now. */
  function AfterHeldAdd(s: State, sid: string, role: string, id: string, ok: bool, current: bool): State {
    if sid !in s.store then s.(cache := s.cache - {sid})
    else
      var cache :=
        if current && sid in s.cache then
          var h := s.cache[sid].history + [Message(role, if ok then Some(id) else None)];
          s.cache[sid := Cached(h, |h|)]
        else s.cache;
      var counted := if sid in cache then |cache[sid].history| else 0;
      State(cache, if ok then s.store[sid := Stored(counted, s.store[sid].rows + [Row(id, role)])] else s.store)
  }

  /** Overwriting an object's transcript shows in the cache if it is the cached one. */
  function Put(cache: map<string, Cached>, sid: string, current: bool, h: seq<Message>): map<string, Cached> {
    if current then cache[sid := Cached(h, |h|)] else cache
  }

  /** The three writes it takes: append without an id, store the row, note the row's id. */
  lemma HeldAddInSteps(s: State, sid: string, role: string, id: string, ok: bool, current: bool, before: seq<Message>)
    requires current ==> sid in s.cache && s.cache[sid].history == before
    ensures var end := AfterHeldAdd(s, sid, role, id, ok, current);
            var appended := Put(s.cache, sid, current, before + [Message(role, None)]);
            var counted := if sid in appended then |appended[sid].history| else 0;
            && (sid !in s.store ==> end == State(appended - {sid}, s.store))
            && (sid in s.store && !ok ==> end == State(appended, s.store))
            && (sid in s.store && ok ==>
                  end == State(Put(appended, sid, current, before + [Message(role, Some(id))]),
                               s.store[sid := Stored(counted, s.store[sid].rows + [Row(id, role)])]))
  {
    var appended := Put(s.cache, sid, current, before + [Message(role, None)]);
    var noted := before + [Message(role, Some(id))];
    assert appended - {sid} == s.cache - {sid};
    assert Put(appended, sid, current, noted) == Put(s.cache, sid, current, noted);
  }

  /** The manager's own `add_message` reads the session first, so it holds the cached object. */
  function AfterAdd(s: State, sid: string, role: string, id: string, ok: bool): (State, bool) {
    var (g, found) := AfterGet(s, sid);
    if found then (AfterHeldAdd(g, sid, role, id, ok, true), true) else (s, false)
  }

  function AfterTruncate(s: State, sid: string, keep: int, ok: bool): (State, bool) {
    var (g, found) := AfterGet(s, sid);
    if !found || keep < 0 || !ok then (g, false) else (Truncated(g, sid, keep), true)
  }

  function Truncated(g: State, sid: string, keep: nat): State
    requires sid in g.cache
  {
    var c := g.cache[sid];
    var cache := g.cache[sid := Cached(Take(c.history, keep), c.messageCount)];
    if sid !in g.store then State(cache, g.store)
    else
      var kept := Take(g.store[sid].rows, keep);
      State(cache, g.store[sid := Stored(|kept|, kept)])
  }

  function AfterReplace(s: State, sid: string, rows: seq<Row>, ok: bool): (State, bool) {
    var (g, found) := AfterGet(s, sid);
    if !found || sid !in g.store || !ok then (g, false)
    else (Replaced(g, sid, rows), true)
  }

  function Replaced(g: State, sid: string, rows: seq<Row>): State {
    State(g.cache[sid := Cached(FromRows(rows), |rows|)], g.store[sid := Stored(|rows|, rows)])
  }

  function AfterDelete(s: State, sid: string): (State, bool) {
    (State(s.cache - {sid}, s.store - {sid}), sid in s.store || sid in s.cache)
  }

  // ---------- The classes ----------

  class Session {
    const id: string
    var history: seq<Message>
    var messageCount: int

    constructor (id: string, history: seq<Message>, messageCount: int)
      ensures this.id == id && this.history == history && this.messageCount == messageCount
    {
      this.id, this.history, this.messageCount := id, history, messageCount;
    }
  }

  class SessionManager {
    var sessions: map<string, Session>
    var store: map<string, Stored>

    ghost predicate Valid()
      reads this, sessions.Values
    {
      && (forall a, b :: a in sessions && b in sessions && a != b ==> sessions[a] != sessions[b])
      && (forall a :: a in sessions ==> sessions[a].id == a)
    }

    ghost function View(): State
      reads this, sessions.Values
    {
      State(map sid | sid in sessions :: Cached(sessions[sid].history, sessions[sid].messageCount), store)
    }

    constructor ()
      ensures Valid() && View() == State(map[], map[])
    {
      sessions, store := map[], map[];
    }

    method GetSession(sid: string) returns (r: Option<Session>)
      requires Valid()
      modifies this`sessions, sessions.Values
      ensures Valid() && store == old(store)
      ensures (View(), r.Some?) == AfterGet(old(View()), sid)
      ensures r.Some? ==> sid in sessions && r.value == sessions[sid]
      ensures forall a :: a in sessions && a != sid ==> a in old(sessions) && sessions[a] == old(sessions[a])
      ensures sid in sessions && !(sid in old(sessions) && sessions[sid] == old(sessions[sid])) ==> fresh(sessions[sid])
      ensures sid in old(sessions) ==> sid in sessions
    {
      ghost var start := View();
      if sid !in sessions {
        if sid !in store { return None; }
        LoadSessionFromDb(sid);
      }
      GetIsLoadSyncLoad(start, sid);
      SyncSessionMetadata(sid);
      var cached := sessions[sid];
      if |cached.history| < cached.messageCount {
        if sid !in store { return None; }
        LoadSessionFromDb(sid);
      }
      return Some(sessions[sid]);
    }

    /** Replaces the cached object by one built from the rows. */
    method LoadSessionFromDb(sid: string)
      requires Valid() && sid in store
      modifies this`sessions
      ensures Valid() && store == old(store)
      ensures sid in sessions && fresh(sessions[sid])
      ensures sessions == old(sessions)[sid := sessions[sid]]
      ensures View() == Loaded(old(View()), sid)
    {
      var d := store[sid];
      var history := [];
      for i := 0 to |d.rows|
        invariant history == FromRows(d.rows)[..i]
      {
        history := history + [Message(d.rows[i].role, Some(d.rows[i].id))];
      }
      assert history == FromRows(d.rows);
      if history == [] {
        Adopt(sid, [], d.messageCount);
      } else {
        Adopt(sid, history, |history|);
      }
    }

    /** Cache a new object under this id. */
    method Adopt(sid: string, history: seq<Message>, messageCount: int)
      requires Valid()
      modifies this`sessions
      ensures Valid() && sid in sessions && fresh(sessions[sid])
      ensures sessions == old(sessions)[sid := sessions[sid]]
      ensures View() == State(old(View()).cache[sid := Cached(history, messageCount)], store)
    {
      var session := new Session(sid, history, messageCount);
      sessions := sessions[sid := session];
      assert View().cache == old(View()).cache[sid := Cached(history, messageCount)];
    }

    /** Counts the rows rather than trusting the column; leaves an entry without a row alone. */
    method SyncSessionMetadata(sid: string)
      requires Valid() && sid in sessions
      modifies sessions[sid]
      ensures Valid() && sessions == old(sessions) && store == old(store)
      ensures View() == Synced(old(View()), sid)
    {
      if sid !in store { return; }
      sessions[sid].messageCount := |store[sid].rows|;
      assert View().cache == Synced(old(View()), sid).cache;
    }

    method CreateSession(sid: string) returns (ok: bool)
      requires Valid()
      modifies this
      ensures Valid() && (View(), ok) == AfterCreate(old(View()), sid)
    {
      if sid in store { return false; }
      store := store[sid := Stored(0, [])];
      assert View().cache == old(View()).cache;
      Adopt(sid, [], 0);
      return true;
    }

    /** The object is the one cached under its id. */
    ghost predicate Current(session: Session)
      reads this
    {
      session.id in sessions && sessions[session.id] == session
    }

    /** Overwrite the transcript of an object in place: the cached one or a stale one. */
    method SetHistory(session: Session, history: seq<Message>)
      requires Valid()
      modifies session
      ensures Valid() && session.history == history && session.messageCount == |history|
      ensures View() == State(Put(old(View()).cache, session.id, Current(session), history), store)
    {
      session.history := history;
      session.messageCount := |history|;
      assert View().cache == Put(old(View()).cache, session.id, Current(session), history);
    }

    /** `Session.add_message`, on whatever session object the caller holds. */
    method AddMessageTo(session: Session, role: string, id: string, ok: bool)
      requires Valid()
      modifies this, session
      ensures Valid()
      ensures session.history
           == old(session.history) + [Message(role, if ok && session.id in old(store) then Some(id) else None)]
      ensures session.messageCount == |session.history|
      ensures View() == AfterHeldAdd(old(View()), session.id, role, id, ok, old(Current(session)))
    {
      var before := session.history;
      HeldAddInSteps(View(), session.id, role, id, ok, Current(session), before);
      SetHistory(session, before + [Message(role, None)]);
      var stored := PersistMessage(session.id, role, id, ok);
      if stored {
        SetHistory(session, before + [Message(role, Some(id))]);
      }
    }

    method PersistMessage(sid: string, role: string, id: string, ok: bool) returns (stored: bool)
      requires Valid()
      modifies this
      ensures Valid()
      ensures stored == (ok && sid in old(store))
      ensures sessions == if sid in old(store) then old(sessions) else old(sessions) - {sid}
      ensures View().cache == if sid in old(store) then old(View()).cache else old(View()).cache - {sid}
      ensures store == if stored
                       then old(store)[sid := Stored(if sid in old(sessions) then old(|sessions[sid].history|) else 0,
                                                     old(store)[sid].rows + [Row(id, role)])]
                       else old(store)
    {
      if sid !in store {
        sessions := sessions - {sid};
        assert View().cache == old(View()).cache - {sid};
        return false;
      }
      if !ok { return false; }
      var counted := if sid in sessions then |sessions[sid].history| else 0;
      store := store[sid := Stored(counted, store[sid].rows + [Row(id, role)])];
      return true;
    }

    method AddMessage(sid: string, role: string, id: string, ok: bool) returns (found: bool)
      requires Valid()
      modifies this, sessions.Values
      ensures Valid() && (View(), found) == AfterAdd(old(View()), sid, role, id, ok)
    {
      var session := GetSession(sid);
      if session == None { return false; }
      AddMessageTo(session.value, role, id, ok);
      return true;
    }

    method TruncateMessages(sid: string, keep: int, ok: bool) returns (done: bool)
      requires Valid()
      modifies this, sessions.Values
      ensures Valid() && (View(), done) == AfterTruncate(old(View()), sid, keep, ok)
    {
      var session := GetSession(sid);
      if session == None { return false; }
      if keep < 0 { return false; }
      if !ok { return false; }
      CutTranscript(sid, keep);
      return true;
    }

    method CutTranscript(sid: string, keep: nat)
      requires Valid() && sid in sessions
      modifies this, sessions[sid]
      ensures Valid() && View() == Truncated(old(View()), sid, keep)
    {
      SetTranscript(sid, Take(sessions[sid].history, keep), sessions[sid].messageCount);
      if sid in store {
        var rows := DropRowsFrom(store[sid].rows, keep);
        store := store[sid := Stored(if keep < |store[sid].rows| then keep else |store[sid].rows|, rows)];
      }
    }

    /** Overwrite the cached object's transcript in place. */
    method SetTranscript(sid: string, history: seq<Message>, messageCount: int)
      requires Valid() && sid in sessions
      modifies sessions[sid]
      ensures Valid() && sessions == old(sessions) && store == old(store)
      ensures View() == State(old(View()).cache[sid := Cached(history, messageCount)], store)
    {
      sessions[sid].history := history;
      sessions[sid].messageCount := messageCount;
      assert View().cache == old(View()).cache[sid := Cached(history, messageCount)];
    }

    /** Delete the rows from position keep on, one at a time. */
    static method DropRowsFrom(all: seq<Row>, keep: nat) returns (rows: seq<Row>)
      ensures rows == Take(all, keep)
    {
      rows := all;
      while |rows| > keep
        invariant rows == all || (keep <= |rows| <= |all| && rows == all[..|rows|])
      {
        rows := rows[..|rows| - 1];
      }
    }

    method ReplaceMessages(sid: string, roles: seq<string>, ids: seq<string>, ok: bool) returns (done: bool)
      requires Valid() && |ids| == |roles|
      modifies this, sessions.Values
      ensures Valid()
      ensures (View(), done) == AfterReplace(old(View()), sid, Zip(ids, roles), ok)
      ensures done <==> ok && sid in old(store)
      ensures done ==>
                && sid in store && sid in sessions
                && store[sid].messageCount == sessions[sid].messageCount == |roles|
                && |store[sid].rows| == |sessions[sid].history| == |roles|
                && forall i :: 0 <= i < |roles| ==>
                     && store[sid].rows[i].id == ids[i] && store[sid].rows[i].role == roles[i]
                     && sessions[sid].history[i].role == roles[i] && sessions[sid].history[i].rowId == Some(ids[i])
    {
      var session := GetSession(sid);
      if session == None { return false; }
      if sid !in store { return false; }
      if !ok { return false; }
      WriteTranscript(sid, roles, ids);
      assert sid in View().cache && View().cache[sid] == Cached(sessions[sid].history, sessions[sid].messageCount);
      return true;
    }

    /** Delete every row, then write the new transcript to the rows and to the cached object. */
    method WriteTranscript(sid: string, roles: seq<string>, ids: seq<string>)
      requires Valid() && sid in sessions && |ids| == |roles|
      modifies this, sessions[sid]
      ensures Valid() && View() == Replaced(old(View()), sid, Zip(ids, roles))
    {
      var rows, messages := [], [];
      for i := 0 to |roles|
        invariant rows == Zip(ids, roles)[..i] && messages == FromRows(Zip(ids, roles))[..i]
      {
        rows := rows + [Row(ids[i], roles[i])];
        messages := messages + [Message(roles[i], Some(ids[i]))];
      }
      assert rows == Zip(ids, roles) && messages == FromRows(Zip(ids, roles));
      SetTranscript(sid, messages, |roles|);
      store := store[sid := Stored(|roles|, rows)];
    }

    method DeleteSession(sid: string) returns (removed: bool)
      requires Valid()
      modifies this
      ensures Valid() && (View(), removed) == AfterDelete(old(View()), sid)
    {
      var known := sid in store;
      store := store - {sid};
      var cached := sid in sessions;
      sessions := sessions - {sid};
      assert View().cache == old(View()).cache - {sid};
      return known || cached;
    }

    /** Drop the cached object; the rows stay. */
    method Evict(sid: string)
      requires Valid()
      modifies this`sessions
      ensures Valid() && View() == old(View()).(cache := old(View()).cache - {sid})
    {
      sessions := sessions - {sid};
    }
  }
}
