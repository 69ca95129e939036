/** The per-owner mutex rows that email-account changes lock (core/database.py), on a database
    with row locks. A lock is taken key by key: look the row up, insert it if it is missing,
    and lock the winner's row if another transaction inserted it first. Locks and uncommitted
    rows last until the transaction ends. */
module OwnerLocks {
  import opened Wrappers
  import opened Ordering
  import opened Totals

  // ---------- Which keys, in which order ----------

  function Distinct(s: seq<string>): seq<string> {
    if s == [] then []
    else
      var rest := Distinct(s[..|s| - 1]);
      var x := s[|s| - 1];
      if x in rest then rest else rest + [x]
  }

  /** A missing owner and the empty owner are one scope, which is also the scope of no owner at all. */
  function Scopes(owners: seq<Option<string>>): seq<string> {
    if owners == [] then [""]
    else Distinct(seq(|owners|, i requires 0 <= i < |owners| => owners[i].GetOr("")))
  }

  function LockKeys(owners: seq<Option<string>>): seq<string> {
    Sort(StringLe, Scopes(owners))
  }

  ghost predicate Ascending(keys: seq<string>) {
    forall i, j :: 0 <= i < j < |keys| ==> StringLt(keys[i], keys[j])
  }

  lemma {:induction false} DistinctHasNoRepeats(s: seq<string>)
    ensures forall x :: multiset(Distinct(s))[x] <= 1
    ensures forall x :: x in Distinct(s) <==> x in s
  {
    if s != [] {
      var front := s[..|s| - 1];
      assert s == front + [s[|s| - 1]];
      DistinctHasNoRepeats(front);
    }
  }

  /** The lock order is strictly ascending and covers exactly the requested scopes. */
  lemma LockKeysAreOrdered(owners: seq<Option<string>>)
    ensures Ascending(LockKeys(owners))
    ensures forall k :: k in LockKeys(owners) <==>
              (owners == [] && k == "") || exists i :: 0 <= i < |owners| && owners[i].GetOr("") == k
  {
    var scopes, keys := Scopes(owners), LockKeys(owners);
    StringOrderIsTotal();
    SortIsSorted(StringLe, scopes);
    SortKeepsElements(StringLe, scopes);
    if owners != [] {
      var named := seq(|owners|, i requires 0 <= i < |owners| => owners[i].GetOr(""));
      DistinctHasNoRepeats(named);
      forall k ensures k in keys <==> exists i :: 0 <= i < |owners| && owners[i].GetOr("") == k {
        if k in named { var i :| 0 <= i < |named| && named[i] == k; assert owners[i].GetOr("") == k; }
        if i :| 0 <= i < |owners| && owners[i].GetOr("") == k { assert named[i] == k; }
      }
    }
    assert multiset(keys) == multiset(scopes);
    forall i, j | 0 <= i < j < |keys| ensures StringLt(keys[i], keys[j]) {
      RepeatsCountTwice(keys, i, j);
    }
  }

  // ---------- The protocol ----------

  datatype Phase = LookUp | InsertRow | LockWinner

  datatype Transaction = Transaction(
    keys: seq<string>, taken: nat, phase: Phase, inserted: set<string>, done: bool)

  datatype State = State(rows: set<string>, txs: seq<Transaction>)   // rows: the committed mutex rows

  datatype Event = Advance(tx: nat) | Commit(tx: nat) | Abort(tx: nat)

  ghost predicate Holds(t: Transaction, k: string) {
    !t.done && exists p :: 0 <= p < t.taken && p < |t.keys| && t.keys[p] == k
  }

  ghost predicate HeldByAnother(s: State, i: nat, k: string) {
    exists j :: 0 <= j < |s.txs| && j != i && Holds(s.txs[j], k)
  }

  ghost predicate Enabled(s: State, e: Event) {
    && e.tx < |s.txs|
    && var t := s.txs[e.tx];
    && !t.done
    && match e
       case Commit(_) => t.taken == |t.keys|
       case Abort(_) => true
       case Advance(i) =>
         && t.taken < |t.keys|
         && var k := t.keys[t.taken];
         match t.phase
         case LookUp => k in s.rows ==> !HeldByAnother(s, i, k)
         case InsertRow => k !in s.rows ==> !HeldByAnother(s, i, k)
         case LockWinner => !HeldByAnother(s, i, k)
  }

  /** A transaction waits exactly for another one that holds its next key: at the lookup if the row is
      there to be locked, at the insert if it is not there yet, and for the winner's row. */
  lemma WaitsExactly(s: State, i: nat)
    requires i < |s.txs| && !s.txs[i].done && s.txs[i].taken < |s.txs[i].keys|
    ensures var t := s.txs[i];
            var k := t.keys[t.taken];
            !Enabled(s, Advance(i)) <==>
              && (t.phase == LookUp ==> k in s.rows) && (t.phase == InsertRow ==> k !in s.rows)
              && exists j, p :: 0 <= j < |s.txs| && j != i && !s.txs[j].done
                                && 0 <= p < s.txs[j].taken && p < |s.txs[j].keys| && s.txs[j].keys[p] == k
  {
    var t := s.txs[i];
    var k := t.keys[t.taken];
    if j, p :| 0 <= j < |s.txs| && j != i && !s.txs[j].done
               && 0 <= p < s.txs[j].taken && p < |s.txs[j].keys| && s.txs[j].keys[p] == k {
      assert Holds(s.txs[j], k) && HeldByAnother(s, i, k);
    }
  }

  ghost function Next(s: State, e: Event): State
    requires Enabled(s, e)
  {
    var t := s.txs[e.tx];
    match e
    case Commit(i) => State(s.rows + t.inserted, s.txs[i := t.(done := true)])
    case Abort(i) => s.(txs := s.txs[i := t.(done := true)])
    case Advance(i) =>
      var k := t.keys[t.taken];
      var locked := t.(taken := t.taken + 1, phase := LookUp);
      match t.phase
      case LookUp => s.(txs := s.txs[i := if k in s.rows then locked else t.(phase := InsertRow)])
      case InsertRow =>
        s.(txs := s.txs[i := if k in s.rows then t.(phase := LockWinner) else locked.(inserted := t.inserted + {k})])
      case LockWinner => s.(txs := s.txs[i := locked])
  }

  ghost predicate Valid(s: State) {
    && (forall i :: 0 <= i < |s.txs| ==> Ascending(s.txs[i].keys) && s.txs[i].taken <= |s.txs[i].keys|)
    && (forall i, j, k :: 0 <= i < j < |s.txs| && Holds(s.txs[i], k) ==> !Holds(s.txs[j], k))
    && (forall i :: 0 <= i < |s.txs| && !s.txs[i].done && s.txs[i].phase == LockWinner ==>
          s.txs[i].taken < |s.txs[i].keys| && s.txs[i].keys[s.txs[i].taken] in s.rows)
    && (forall i, k :: 0 <= i < |s.txs| && Holds(s.txs[i], k) ==> k in s.rows || k in s.txs[i].inserted)
  }

  function Begin(owners: seq<Option<string>>): Transaction {
    Transaction(LockKeys(owners), 0, LookUp, {}, false)
  }

  /** Any number of transactions, each asking for any owners, over any committed rows. */
  ghost predicate Initial(s: State) {
    forall i :: 0 <= i < |s.txs| ==> exists owners :: s.txs[i] == Begin(owners)
  }

  lemma {:induction false} InitialIsValid(s: State)
    requires Initial(s)
    ensures Valid(s)
  {
    forall i | 0 <= i < |s.txs| ensures Ascending(s.txs[i].keys) && s.txs[i].taken == 0 && s.txs[i].phase == LookUp {
      var owners :| s.txs[i] == Begin(owners);
      LockKeysAreOrdered(owners);
    }
    assert forall i, k :: 0 <= i < |s.txs| ==> !Holds(s.txs[i], k);
  }

  /** A step leaves every other transaction's locks alone and takes at most one free key. */
  lemma StepHolds(s: State, e: Event, j: nat, k: string)
    requires Valid(s) && Enabled(s, e) && j < |s.txs|
    ensures j != e.tx ==> (Holds(Next(s, e).txs[j], k) <==> Holds(s.txs[j], k))
    ensures j == e.tx && Holds(Next(s, e).txs[j], k) && !Holds(s.txs[j], k) ==>
              e.Advance? && k == s.txs[j].keys[s.txs[j].taken] && !HeldByAnother(s, j, k)
              && (k in s.rows || k in Next(s, e).txs[j].inserted)
  {
    if j == e.tx && Holds(Next(s, e).txs[j], k) && !Holds(s.txs[j], k) {
      var t, u := s.txs[j], Next(s, e).txs[j];
      var p :| 0 <= p < u.taken && p < |u.keys| && u.keys[p] == k;
      assert p == t.taken;
    }
  }

  lemma StepKeepsValid(s: State, e: Event)
    requires Valid(s) && Enabled(s, e)
    ensures Valid(Next(s, e))
  {
    var n := Next(s, e);
    forall i, j, k | 0 <= i < j < |n.txs| && Holds(n.txs[i], k) ensures !Holds(n.txs[j], k) {
      StepHolds(s, e, i, k);
      StepHolds(s, e, j, k);
    }
    forall i, k | 0 <= i < |n.txs| && Holds(n.txs[i], k) ensures k in n.rows || k in n.txs[i].inserted {
      StepHolds(s, e, i, k);
    }
  }

  /** What a transaction inserted are keys it has taken. */
  ghost predicate InsertsItsOwn(t: Transaction) {
    forall k :: k in t.inserted ==> exists p :: 0 <= p < t.taken && p < |t.keys| && t.keys[p] == k
  }

  lemma StepInsertsItsOwn(s: State, e: Event)
    requires Valid(s) && Enabled(s, e) && forall i :: 0 <= i < |s.txs| ==> InsertsItsOwn(s.txs[i])
    ensures forall i :: 0 <= i < |s.txs| ==> InsertsItsOwn(Next(s, e).txs[i])
  {
    var n, t, u := Next(s, e), s.txs[e.tx], Next(s, e).txs[e.tx];
    assert InsertsItsOwn(t);
    forall k | k in u.inserted ensures exists p :: 0 <= p < u.taken && p < |u.keys| && u.keys[p] == k {
      if k !in t.inserted {
        assert u.keys[t.taken] == k && t.taken < u.taken;
      }
    }
  }

  /** A commit leaves a row for each of the transaction's keys and no other new one; until then, and
      after an abort, its inserts are seen by nobody. */
  lemma CommitLeavesItsRows(s: State, e: Event)
    requires Valid(s) && Enabled(s, e) && InsertsItsOwn(s.txs[e.tx])
    ensures !e.Commit? ==> Next(s, e).rows == s.rows
    ensures e.Commit? ==> Next(s, e).rows == s.rows + set k | k in s.txs[e.tx].keys
  {
    if e.Commit? {
      var t := s.txs[e.tx];
      forall k | k in t.keys ensures k in s.rows || k in t.inserted {
        assert Holds(t, k);
      }
    }
  }

  // ---------- Deadlock freedom ----------

  predicate Holding(t: Transaction) {
    !t.done && 0 < t.taken <= |t.keys|
  }

  function LastKey(t: Transaction): string {
    if 0 < t.taken <= |t.keys| then t.keys[t.taken - 1] else ""
  }

  /** Among the transactions holding a lock, one whose last key is greatest; n if none holds any. */
  lemma {:induction false} GreatestHolder(txs: seq<Transaction>, n: nat) returns (i: nat)
    requires n <= |txs|
    ensures i <= n
    ensures i == n ==> forall j :: 0 <= j < n ==> !Holding(txs[j])
    ensures i < n ==> Holding(txs[i])
                      && forall j :: 0 <= j < n && Holding(txs[j]) ==> StringLe(LastKey(txs[j]), LastKey(txs[i]))
  {
    if n == 0 { return 0; }
    i := GreatestHolder(txs, n - 1);
    var t := txs[n - 1];
    if !Holding(t) {
      i := if i == n - 1 then n else i;
    } else if i == n - 1 {
      StringLeTotal(LastKey(t), LastKey(t));
    } else {
      var m := i;
      StringLeTotal(LastKey(txs[m]), LastKey(t));
      StringLeTotal(LastKey(t), LastKey(t));
      i := if StringLe(LastKey(t), LastKey(txs[m])) then m else n - 1;
      forall j | 0 <= j < n && Holding(txs[j]) ensures StringLe(LastKey(txs[j]), LastKey(txs[i])) {
        if j < n - 1 && i == n - 1 {
          StringLeTransitive(LastKey(txs[j]), LastKey(txs[m]), LastKey(t));
        }
      }
    }
  }

  lemma FreeKeyEnables(s: State, i: nat)
    requires Valid(s) && i < |s.txs| && !s.txs[i].done
    requires s.txs[i].taken < |s.txs[i].keys| ==> !HeldByAnother(s, i, s.txs[i].keys[s.txs[i].taken])
    ensures Enabled(s, Advance(i)) || Enabled(s, Commit(i))
  {
  }

  /** What a transaction holds comes no later than the last key it took. */
  lemma HeldIsAtMostLast(t: Transaction, k: string)
    requires Ascending(t.keys) && t.taken <= |t.keys| && Holds(t, k)
    ensures t.taken > 0 && StringLe(k, t.keys[t.taken - 1])
  {
    var p :| 0 <= p < t.taken && p < |t.keys| && t.keys[p] == k;
    if p < t.taken - 1 {
      assert StringLt(t.keys[p], t.keys[t.taken - 1]);
    } else {
      StringLeTotal(k, k);
    }
  }

  /** While any transaction is unfinished, one of them can take its next step or commit. */
  lemma SomeoneCanMove(s: State, u: nat) returns (i: nat)
    requires Valid(s) && u < |s.txs| && !s.txs[u].done
    ensures i < |s.txs| && (Enabled(s, Advance(i)) || Enabled(s, Commit(i)))
  {
    i := GreatestHolder(s.txs, |s.txs|);
    if i == |s.txs| {
      i := u;
    } else if s.txs[i].taken < |s.txs[i].keys| {
      var t := s.txs[i];
      var next, last := t.keys[t.taken], t.keys[t.taken - 1];
      assert StringLt(last, next);
      forall j | 0 <= j < |s.txs| && j != i ensures !Holds(s.txs[j], next) {
        if Holds(s.txs[j], next) {
          HeldIsAtMostLast(s.txs[j], next);
          StringLeTransitive(next, LastKey(s.txs[j]), last);
          StringLeTotal(next, last);
        }
      }
    }
    FreeKeyEnables(s, i);
  }

  // ---------- Runs ----------

  ghost predicate IsRun(s: State, events: seq<Event>)
    decreases events
  {
    events != [] ==> Enabled(s, events[0]) && IsRun(Next(s, events[0]), events[1..])
  }

  ghost function After(s: State, events: seq<Event>): State
    requires IsRun(s, events)
    decreases events
  {
    if events == [] then s else After(Next(s, events[0]), events[1..])
  }

  lemma {:induction false} RunKeepsValid(s: State, events: seq<Event>)
    requires Valid(s) && IsRun(s, events)
    ensures Valid(After(s, events)) && |After(s, events).txs| == |s.txs|
    decreases events
  {
    if events != [] {
      StepKeepsValid(s, events[0]);
      RunKeepsValid(Next(s, events[0]), events[1..]);
    }
  }

  /** No two transactions ever hold one key, and no reachable state is stuck. */
  lemma ExclusiveAndDeadlockFree(s: State, events: seq<Event>)
    requires Initial(s) && IsRun(s, events)
    ensures var end := After(s, events);
            && (forall i, j, k :: 0 <= i < j < |end.txs| && Holds(end.txs[i], k) ==> !Holds(end.txs[j], k))
            && ((exists u :: 0 <= u < |end.txs| && !end.txs[u].done) ==>
                  exists i: nat :: i < |end.txs| && (Enabled(end, Advance(i)) || Enabled(end, Commit(i))))
  {
    InitialIsValid(s);
    RunKeepsValid(s, events);
    var end := After(s, events);
    if u :| 0 <= u < |end.txs| && !end.txs[u].done {
      var i := SomeoneCanMove(end, u);
    }
  }

  /** Steps a transaction can still make: three per key it has yet to lock, and one to end. */
  function Left(t: Transaction): int {
    if t.done then 0
    else 1 + 3 * (|t.keys| - t.taken) + match t.phase case LookUp => 2 case InsertRow => 1 case LockWinner => 0
  }

  function TotalLeft(txs: seq<Transaction>): int {
    Total(Left, txs)
  }

  lemma StepUsesOneUp(s: State, e: Event)
    requires Valid(s) && Enabled(s, e)
    ensures 0 <= TotalLeft(Next(s, e).txs) < TotalLeft(s.txs)
  {
    StepKeepsValid(s, e);
    var n := Next(s, e);
    TotalChanges(Left, s.txs, e.tx, n.txs[e.tx]);
    assert n.txs == s.txs[e.tx := n.txs[e.tx]];
    TotalIsNatural(Left, n.txs);
  }

  /** Every run is bounded by the work it started with, so no schedule goes on for ever. */
  lemma {:induction false} RunsAreBounded(s: State, events: seq<Event>)
    requires Valid(s) && IsRun(s, events)
    ensures |events| <= TotalLeft(s.txs)
    decreases events
  {
    if events == [] {
      TotalIsNatural(Left, s.txs);
    } else {
      StepUsesOneUp(s, events[0]);
      StepKeepsValid(s, events[0]);
      RunsAreBounded(Next(s, events[0]), events[1..]);
    }
  }

  ghost predicate AllDone(s: State) {
    forall i :: 0 <= i < |s.txs| ==> s.txs[i].done
  }

  /** From every valid state there is a continuation, without a single abort, that finishes everyone. */
  lemma {:induction false} EveryoneCanFinish(s: State) returns (events: seq<Event>)
    requires Valid(s)
    ensures IsRun(s, events) && forall e :: e in events ==> !e.Abort?
    ensures |After(s, events).txs| == |s.txs| && AllDone(After(s, events))
    decreases TotalLeft(s.txs)
  {
    events := [];
    if !AllDone(s) {
      var u :| 0 <= u < |s.txs| && !s.txs[u].done;
      var i := SomeoneCanMove(s, u);
      var e := if Enabled(s, Advance(i)) then Advance(i) else Commit(i);
      StepUsesOneUp(s, e);
      StepKeepsValid(s, e);
      var rest := EveryoneCanFinish(Next(s, e));
      events := [e] + rest;
      assert events[1..] == rest;
      assert events[0] == e;
      assert After(s, events) == After(Next(s, e), rest);
    } else {
      assert After(s, events) == s;
    }
  }

  /** The sorting is what does it: with two keys asked for in opposite orders, both transactions
      can come to wait for each other. */
  lemma OppositeOrdersCanStick(a: string, b: string)
    requires a != b
    ensures var s := State({a, b}, [Transaction([a, b], 0, LookUp, {}, false),
        Transaction([b, a], 0, LookUp, {}, false)]);
            && IsRun(s, [Advance(0), Advance(1)])
            && var stuck := After(s, [Advance(0), Advance(1)]);
            && !stuck.txs[0].done && !stuck.txs[1].done
            && forall i :: !Enabled(stuck, Advance(i)) && !Enabled(stuck, Commit(i))
  {
    var s := State({a, b}, [Transaction([a, b], 0, LookUp, {}, false), Transaction([b, a], 0, LookUp, {}, false)]);
    var events := [Advance(0), Advance(1)];
    var s1 := Next(s, Advance(0));
    assert s1 == State({a, b}, [Transaction([a, b], 1, LookUp, {}, false), Transaction([b, a], 0, LookUp, {}, false)]);
    assert Enabled(s1, Advance(1));
    var s2 := Next(s1, Advance(1));
    assert s2 == State({a, b}, [Transaction([a, b], 1, LookUp, {}, false), Transaction([b, a], 1, LookUp, {}, false)]);
    assert events[1..] == [Advance(1)] && events[1..][1..] == [];
    assert After(s, events) == s2;
    assert s2.txs[0].keys[0] == a && s2.txs[1].keys[0] == b;
    assert Holds(s2.txs[0], a) && Holds(s2.txs[1], b);
    assert HeldByAnother(s2, 1, a) && HeldByAnother(s2, 0, b);
  }
}
