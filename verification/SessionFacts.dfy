/** What each operation on the transcript cache does, message by message (core/session_manager.py). */
module SessionFacts {
  import opened Wrappers
  import opened SessionCache

  /** A transcript is these rows: as many messages, each with its row's role and id, in order. */
  ghost predicate Transcribes(h: seq<Message>, rows: seq<Row>) {
    && |h| == |rows|
    && forall i :: 0 <= i < |rows| ==> h[i].role == rows[i].role && h[i].rowId == Some(rows[i].id)
  }

  lemma RowsTranscribe(rows: seq<Row>)
    ensures Transcribes(FromRows(rows), rows)
  {
  }

  ghost predicate OthersUntouched(s: State, t: State, sid: string) {
    && s.cache.Keys - {sid} == t.cache.Keys - {sid} && s.store.Keys - {sid} == t.store.Keys - {sid}
    && (forall other :: other in s.cache && other != sid ==> other in t.cache && t.cache[other] == s.cache[other])
    && (forall other :: other in s.store && other != sid ==> other in t.store && t.store[other] == s.store[other])
  }

  /** A load caches the rows and their number; of an empty session, the column, whatever it says. */
  lemma LoadExactly(s: State, sid: string)
    requires sid in s.store
    ensures var t := Loaded(s, sid);
            && t.store == s.store && OthersUntouched(s, t, sid) && sid in t.cache
            && Transcribes(t.cache[sid].history, s.store[sid].rows)
            && t.cache[sid].messageCount
               == if |s.store[sid].rows| > 0 then |s.store[sid].rows| else s.store[sid].messageCount
  {
  }

  /** Reading leaves the store alone and loads exactly what is missing or short. */
  lemma GetExactly(s: State, sid: string)
    ensures var (g, found) := AfterGet(s, sid);
            && g.store == s.store && OthersUntouched(s, g, sid)
            && (found <==> sid in s.store || (sid in s.cache && |s.cache[sid].history| >= s.cache[sid].messageCount))
            && (!found ==> g == s)
            && (sid in s.store ==>
                  && sid in g.cache && g.cache[sid].messageCount == |s.store[sid].rows|
                  && if sid in s.cache && |s.cache[sid].history| >= |s.store[sid].rows|
                     then g.cache[sid].history == s.cache[sid].history
                     else Transcribes(g.cache[sid].history, s.store[sid].rows))
  {
  }

  /** A message added through the manager is the last of the transcript and, if its write went
      through, the last of the rows. */
  lemma AddExactly(s: State, sid: string, role: string, id: string, ok: bool)
    requires sid in s.store
    ensures var (end, found) := AfterAdd(s, sid, role, id, ok);
            var before := AfterGet(s, sid).0.cache[sid].history;
            && found && OthersUntouched(s, end, sid) && sid in end.cache && sid in end.store
            && end.cache[sid].history[..|before|] == before && |end.cache[sid].history| == |before| + 1
            && end.cache[sid].history[|before|].role == role
            && end.cache[sid].history[|before|].rowId == (if ok then Some(id) else None)
            && (!ok ==> end.store == s.store)
            && (ok ==> end.store[sid].rows[..|s.store[sid].rows|] == s.store[sid].rows
                       && |end.store[sid].rows| == |s.store[sid].rows| + 1
                       && end.store[sid].rows[|s.store[sid].rows|].id == id
                       && end.store[sid].rows[|s.store[sid].rows|].role == role)
  {
  }

  /** Truncating keeps the first rows and the first messages, in place, and counts the rows. */
  lemma TruncateExactly(s: State, sid: string, keep: int, ok: bool)
    requires sid in s.store
    ensures var (end, done) := AfterTruncate(s, sid, keep, ok);
            var g := AfterGet(s, sid).0;
            && (done <==> keep >= 0 && ok) && OthersUntouched(s, end, sid) && (!done ==> end == g)
            && (done ==>
                  && sid in end.store && sid in end.cache
                  && |end.store[sid].rows| == (if keep < |s.store[sid].rows| then keep else |s.store[sid].rows|)
                  && end.store[sid].rows <= s.store[sid].rows && end.store[sid].messageCount == |end.store[sid].rows|
                  && end.cache[sid].history <= g.cache[sid].history
                  && |end.cache[sid].history| == if keep < |g.cache[sid].history| then keep else |g.cache[sid].history|)
  {
  }

  /** Replacing stores and caches the new messages, each under its id, in the order given. */
  lemma ReplaceExactly(s: State, sid: string, roles: seq<string>, ids: seq<string>, ok: bool)
    requires |ids| == |roles|
    ensures var (end, done) := AfterReplace(s, sid, Zip(ids, roles), ok);
            && (done <==> sid in s.store && ok) && OthersUntouched(s, end, sid)
            && (!done ==> end == AfterGet(s, sid).0)
            && (done ==>
                  && sid in end.store && sid in end.cache
                  && end.store[sid].messageCount == end.cache[sid].messageCount == |roles|
                  && |end.store[sid].rows| == |end.cache[sid].history| == |roles|
                  && forall i :: 0 <= i < |roles| ==>
                       && end.store[sid].rows[i].id == ids[i] && end.store[sid].rows[i].role == roles[i]
                       && end.cache[sid].history[i].role == roles[i] && end.cache[sid].history[i].rowId == Some(ids[i]))
  {
  }

  /** Creating succeeds exactly for a new id and touches that session only. */
  lemma CreateExactly(s: State, sid: string)
    ensures var (end, ok) := AfterCreate(s, sid);
            && (ok <==> sid !in s.store) && (!ok ==> end == s) && OthersUntouched(s, end, sid)
            && (ok ==> sid in end.store && sid in end.cache
                       && end.store[sid].rows == [] && end.store[sid].messageCount == 0
                       && end.cache[sid].history == [] && end.cache[sid].messageCount == 0)
  {
  }

  /** Deleting touches that session only, and answers whether there was anything to delete. */
  lemma DeleteExactly(s: State, sid: string)
    ensures var (end, removed) := AfterDelete(s, sid);
            && (removed <==> sid in s.store || sid in s.cache) && OthersUntouched(s, end, sid)
            && sid !in end.store && sid !in end.cache
  {
  }
}
