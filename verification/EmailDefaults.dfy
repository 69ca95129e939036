/** Default email accounts: the owner rename that merges two owners' accounts
    (routes/auth_routes.py) and the migration that normalises duplicates (core/database.py). */
module EmailDefaults {
  import opened Wrappers
  import opened Text
  import opened Ordering

  datatype Account = Account(
    id: string, owner: Option<string>, isDefault: bool, createdAt: Option<int>, details: string)

  /** A missing owner and the empty one are the same scope. */
  function Scope(a: Account): string { a.owner.GetOr("") }

  ghost predicate UniqueIds(rows: seq<Account>) {
    forall i, j :: 0 <= i < j < |rows| ==> rows[i].id != rows[j].id
  }

  /** The partial unique index: at most one default per owner scope. */
  ghost predicate OneDefaultPerScope(rows: seq<Account>) {
    forall i, j :: 0 <= i < j < |rows| && rows[i].isDefault && rows[j].isDefault ==> Scope(rows[i]) != Scope(rows[j])
  }

  // ---------- Age ----------

  datatype Stamp = Stamp(createdAt: Option<int>, id: string)

  function StampOf(a: Account): Stamp { Stamp(a.createdAt, a.id) }

  /** Where the database puts a missing creation time is a setting of the database. */
  predicate CreatedBefore(a: Option<int>, b: Option<int>, nullsFirst: bool) {
    match (a, b)
    case (None, None) => false
    case (None, Some(_)) => nullsFirst
    case (Some(_), None) => !nullsFirst
    case (Some(x), Some(y)) => x < y
  }

  predicate OlderOrSame(a: Stamp, b: Stamp, nullsFirst: bool) {
    CreatedBefore(a.createdAt, b.createdAt, nullsFirst) || (a.createdAt == b.createdAt && StringLe(a.id, b.id))
  }

  lemma {:induction false} AgeIsTotal(nullsFirst: bool)
    ensures TotalOrder((a: Stamp, b: Stamp) => OlderOrSame(a, b, nullsFirst))
  {
    var le := (a: Stamp, b: Stamp) => OlderOrSame(a, b, nullsFirst);
    StringOrderIsTotal();
    forall a, b ensures (le(a, b) || le(b, a)) && (le(a, b) && le(b, a) ==> a == b) {
      StringLeTotal(a.id, b.id);
    }
    forall a, b, c | le(a, b) && le(b, c) ensures le(a, c) {
      if a.createdAt == b.createdAt == c.createdAt {
        StringLeTransitive(a.id, b.id, c.id);
      }
    }
  }

  lemma AgeCompares(a: Stamp, b: Stamp, nullsFirst: bool)
    ensures OlderOrSame(a, b, nullsFirst) || OlderOrSame(b, a, nullsFirst)
    ensures OlderOrSame(a, b, nullsFirst) && OlderOrSame(b, a, nullsFirst) ==> a == b
    ensures OlderOrSame(a, a, nullsFirst)
  {
    StringLeTotal(a.id, b.id);
    StringLeTotal(a.id, a.id);
  }

  // ---------- The rename transaction ----------

  predicate OwnedBy(a: Account, name: string) {
    a.owner.Some? && Lower(a.owner.value) == name
  }

  function DefaultStamps(rows: seq<Account>, name: string): seq<Stamp> {
    if rows == [] then []
    else
      var a := rows[|rows| - 1];
      DefaultStamps(rows[..|rows| - 1], name) + if a.isDefault && OwnedBy(a, name) then [StampOf(a)] else []
  }

  function OldestFirst(rows: seq<Account>, name: string, nullsFirst: bool): seq<Stamp> {
    Sort((a: Stamp, b: Stamp) => OlderOrSame(a, b, nullsFirst), DefaultStamps(rows, name))
  }

  /** Keep the destination's oldest default if it has one, else the source's oldest. */
  function ToClear(source: seq<Stamp>, destination: seq<Stamp>): seq<Stamp> {
    if destination != [] then destination[1..] + source
    else if source != [] then source[1..]
    else []
  }

  function ClearedRow(a: Account, doomed: seq<Stamp>): Account {
    if exists s :: s in doomed && s.id == a.id then a.(isDefault := false) else a
  }

  function Cleared(rows: seq<Account>, doomed: seq<Stamp>): (r: seq<Account>)
    ensures |r| == |rows|
  {
    seq(|rows|, i requires 0 <= i < |rows| => ClearedRow(rows[i], doomed))
  }

  function RelabelRow(a: Account, oldName: string, newName: string): Account {
    if OwnedBy(a, oldName) then a.(owner := Some(newName)) else a
  }

  /** The rows part-way through the update, which may visit them in any order. */
  function Relabelled(rows: seq<Account>, oldName: string, newName: string, visited: set<nat>): (r: seq<Account>)
    ensures |r| == |rows|
  {
    seq(|rows|, i requires 0 <= i < |rows| => if i in visited then RelabelRow(rows[i], oldName, newName) else rows[i])
  }

  function Below(n: nat): (visited: set<nat>)
    ensures forall i: nat :: i in visited <==> i < n
  {
    if n == 0 then {} else Below(n - 1) + {n - 1}
  }

  function ClearedForRename(rows: seq<Account>, oldName: string, newName: string, nullsFirst: bool): seq<Account> {
    Cleared(rows, ToClear(OldestFirst(rows, oldName, nullsFirst), OldestFirst(rows, newName, nullsFirst)))
  }

  function Renamed(rows: seq<Account>, oldName: string, newName: string, nullsFirst: bool): seq<Account> {
    Relabelled(ClearedForRename(rows, oldName, newName, nullsFirst), oldName, newName, Below(|rows|))
  }

  // ---------- The migration ----------

  /** A default keeps its flag unless its scope has an older one; missing creation times come last. */
  ghost predicate HasOlder(rows: seq<Account>, a: Account) {
    exists b :: b in rows && b.isDefault && Scope(b) == Scope(a) && b.id != a.id
        && OlderOrSame(StampOf(b), StampOf(a), false)
  }

  ghost function Normalized(rows: seq<Account>): (r: seq<Account>)
    ensures |r| == |rows|
  {
    seq(|rows|, i requires 0 <= i < |rows| => rows[i].(isDefault := rows[i].isDefault && !HasOlder(rows, rows[i])))
  }

  datatype Entry = Entry(scope: string, stamp: Stamp)

  predicate EntryLe(a: Entry, b: Entry) {
    StringLt(a.scope, b.scope) || (a.scope == b.scope && OlderOrSame(a.stamp, b.stamp, false))
  }

  lemma {:induction false} EntryOrderIsTotal()
    ensures TotalOrder(EntryLe)
  {
    AgeIsTotal(false);
    var le := (a: Stamp, b: Stamp) => OlderOrSame(a, b, false);
    forall a, b ensures (EntryLe(a, b) || EntryLe(b, a)) && (EntryLe(a, b) && EntryLe(b, a) ==> a == b) {
      StringLeTotal(a.scope, b.scope);
      assert le(a.stamp, b.stamp) || le(b.stamp, a.stamp);
      assert le(a.stamp, b.stamp) && le(b.stamp, a.stamp) ==> a.stamp == b.stamp;
    }
    forall a, b, c | EntryLe(a, b) && EntryLe(b, c) ensures EntryLe(a, c) {
      StringLeTotal(a.scope, b.scope);
      StringLeTotal(b.scope, c.scope);
      StringLeTotal(a.scope, c.scope);
      if StringLe(a.scope, b.scope) && StringLe(b.scope, c.scope) { StringLeTransitive(a.scope, b.scope, c.scope); }
      assert le(a.stamp, b.stamp) && le(b.stamp, c.stamp) ==> le(a.stamp, c.stamp);
    }
  }

  function DefaultEntries(rows: seq<Account>): seq<Entry> {
    if rows == [] then []
    else
      var a := rows[|rows| - 1];
      DefaultEntries(rows[..|rows| - 1]) + if a.isDefault then [Entry(Scope(a), StampOf(a))] else []
  }

  lemma {:induction false} EntriesAreDefaults(rows: seq<Account>)
    ensures forall e :: e in DefaultEntries(rows) <==>
              exists i :: 0 <= i < |rows| && rows[i].isDefault && e == Entry(Scope(rows[i]), StampOf(rows[i]))
  {
    if rows != [] {
      var front, last := rows[..|rows| - 1], rows[|rows| - 1];
      EntriesAreDefaults(front);
      forall e ensures e in DefaultEntries(rows) <==>
                exists i :: 0 <= i < |rows| && rows[i].isDefault && e == Entry(Scope(rows[i]), StampOf(rows[i])) {
        if e in DefaultEntries(front) {
          var i :| 0 <= i < |front| && front[i].isDefault && e == Entry(Scope(front[i]), StampOf(front[i]));
          assert rows[i] == front[i];
        } else if e in DefaultEntries(rows) {
          assert e == Entry(Scope(rows[|rows| - 1]), StampOf(rows[|rows| - 1]));
        }
        if i :| 0 <= i < |rows| && rows[i].isDefault && e == Entry(Scope(rows[i]), StampOf(rows[i])) {
          if i < |front| { assert rows[i] == front[i]; }
        }
      }
    }
  }

  lemma {:induction false} EntriesDoNotRepeat(rows: seq<Account>)
    requires UniqueIds(rows)
    ensures forall e :: multiset(DefaultEntries(rows))[e] <= 1
  {
    if rows != [] {
      var front, last := rows[..|rows| - 1], rows[|rows| - 1];
      EntriesDoNotRepeat(front);
      EntriesAreDefaults(front);
      assert Entry(Scope(last), StampOf(last)) !in DefaultEntries(front);
    }
  }

  // ---------- The table ----------

  class AccountTable {
    var rows: seq<Account>

    constructor (rows: seq<Account>)
      ensures this.rows == rows
    {
      this.rows := rows;
    }

    method DefaultsOf(name: string, nullsFirst: bool) returns (stamps: seq<Stamp>)
      ensures stamps == OldestFirst(rows, name, nullsFirst)
    {
      var found := [];
      for i := 0 to |rows|
        invariant found == DefaultStamps(rows[..i], name)
      {
        assert rows[..i + 1][..i] == rows[..i];
        if rows[i].isDefault && OwnedBy(rows[i], name) {
          found := found + [StampOf(rows[i])];
        }
      }
      assert rows[..|rows|] == rows;
      stamps := Sort((a: Stamp, b: Stamp) => OlderOrSame(a, b, nullsFirst), found);
    }

    method ClearDefaults(doomed: seq<Stamp>)
      modifies this
      ensures rows == Cleared(old(rows), doomed)
    {
      ghost var start := rows;
      for i := 0 to |rows|
        invariant |rows| == |start|
        invariant forall j :: 0 <= j < |rows| ==> rows[j] == if j < i then ClearedRow(start[j], doomed) else start[j]
      {
        rows := rows[i := ClearedRow(rows[i], doomed)];
      }
    }

    /** The owner-migration transaction, row by row. */
    method RenameOwner(oldName: string, newName: string, nullsFirst: bool)
      modifies this
      ensures rows == Renamed(old(rows), oldName, newName, nullsFirst)
    {
      var source := DefaultsOf(oldName, nullsFirst);
      var destination := DefaultsOf(newName, nullsFirst);
      var doomed :=
        if destination != [] then destination[1..] + source
        else if source != [] then source[1..] else [];
      if doomed != [] {
        ClearDefaults(doomed);
      }
      ClearingNothing(old(rows));
      RelabelOwner(oldName, newName);
    }

    method RelabelOwner(oldName: string, newName: string)
      modifies this
      ensures rows == Relabelled(old(rows), oldName, newName, Below(|old(rows)|))
    {
      ghost var start := rows;
      for i := 0 to |rows|
        invariant rows == Relabelled(start, oldName, newName, Below(i))
      {
        rows := rows[i := RelabelRow(rows[i], oldName, newName)];
      }
    }

    /** The start-up migration: walk the defaults in order, keep the first of each scope, clear the rest. */
    method NormalizeDefaults()
      requires UniqueIds(rows)
      modifies this
      ensures rows == Normalized(old(rows))
    {
      var entries := Sort(EntryLe, DefaultEntries(rows));
      var seen: set<string> := {};
      var duplicates: seq<Stamp> := [];
      for i := 0 to |entries|
        invariant seen == set j | 0 <= j < i :: entries[j].scope
        invariant forall s :: s in duplicates <==>
                    exists j, k :: 0 <= j < k < i && entries[k].stamp == s && entries[j].scope == entries[k].scope
      {
        if entries[i].scope in seen {
          duplicates := duplicates + [entries[i].stamp];
        } else {
          seen := seen + {entries[i].scope};
        }
      }
      DuplicatesHaveOlder(rows, entries, duplicates);
      ClearDefaults(duplicates);
      assert rows == Normalized(old(rows));
    }
  }

  lemma ClearingNothing(rows: seq<Account>)
    ensures Cleared(rows, []) == rows
  {
  }

  /** The rows the walk marks are the defaults that have an older one in their scope. */
  lemma {:induction false} DuplicatesHaveOlder(rows: seq<Account>, entries: seq<Entry>, duplicates: seq<Stamp>)
    requires UniqueIds(rows) && entries == Sort(EntryLe, DefaultEntries(rows))
    requires forall s :: s in duplicates <==>
               exists j, k :: 0 <= j < k < |entries| && entries[k].stamp == s && entries[j].scope == entries[k].scope
    ensures Cleared(rows, duplicates) == Normalized(rows)
  {
    EntryOrderIsTotal();
    SortIsSorted(EntryLe, DefaultEntries(rows));
    SortKeepsElements(EntryLe, DefaultEntries(rows));
    EntriesAreDefaults(rows);
    EntriesDoNotRepeat(rows);
    forall i | 0 <= i < |rows|
      ensures ClearedRow(rows[i], duplicates) == rows[i].(isDefault := rows[i].isDefault && !HasOlder(rows, rows[i]))
    {
      RowIsMarkedExactly(rows, entries, duplicates, i);
    }
  }

  lemma RowIsMarkedExactly(rows: seq<Account>, entries: seq<Entry>, duplicates: seq<Stamp>, i: nat)
    requires UniqueIds(rows) && i < |rows| && SortedBy(EntryLe, entries) && TotalOrder(EntryLe)
    requires forall e :: e in entries <==>
               exists i :: 0 <= i < |rows| && rows[i].isDefault && e == Entry(Scope(rows[i]), StampOf(rows[i]))
    requires forall e :: multiset(entries)[e] <= 1
    requires forall s :: s in duplicates <==>
               exists j, k :: 0 <= j < k < |entries| && entries[k].stamp == s && entries[j].scope == entries[k].scope
    ensures ClearedRow(rows[i], duplicates) == rows[i].(isDefault := rows[i].isDefault && !HasOlder(rows, rows[i]))
  {
    if rows[i].isDefault && HasOlder(rows, rows[i]) {
      OlderIsMarked(rows, entries, i);
      assert StampOf(rows[i]) in duplicates;
    } else if s :| s in duplicates && s.id == rows[i].id {
      MarkedHasOlder(rows, entries, i, s);
    }
  }

  lemma MarkedHasOlder(rows: seq<Account>, entries: seq<Entry>, i: nat, s: Stamp)
    requires UniqueIds(rows) && i < |rows| && s.id == rows[i].id && SortedBy(EntryLe, entries)
    requires forall e :: e in entries <==>
               exists i :: 0 <= i < |rows| && rows[i].isDefault && e == Entry(Scope(rows[i]), StampOf(rows[i]))
    requires forall e :: multiset(entries)[e] <= 1
    requires exists j, k :: 0 <= j < k < |entries| && entries[k].stamp == s && entries[j].scope == entries[k].scope
    ensures rows[i].isDefault && HasOlder(rows, rows[i])
  {
    var j, k :| 0 <= j < k < |entries| && entries[k].stamp == s && entries[j].scope == entries[k].scope;
    RepeatsCountTwice(entries, j, k);
    assert EntryLe(entries[j], entries[k]);
    assert entries[j] in entries && entries[k] in entries;
    var x :| 0 <= x < |rows| && rows[x].isDefault && entries[j] == Entry(Scope(rows[x]), StampOf(rows[x]));
    var y :| 0 <= y < |rows| && rows[y].isDefault && entries[k] == Entry(Scope(rows[y]), StampOf(rows[y]));
    assert y == i && x != y;
    assert rows[x] in rows;
  }

  lemma OlderIsMarked(rows: seq<Account>, entries: seq<Entry>, i: nat)
    requires i < |rows| && rows[i].isDefault && HasOlder(rows, rows[i]) && SortedBy(EntryLe, entries)
    requires TotalOrder(EntryLe)
    requires forall e :: e in entries <==>
               exists i :: 0 <= i < |rows| && rows[i].isDefault && e == Entry(Scope(rows[i]), StampOf(rows[i]))
    ensures exists j, k :: 0 <= j < k < |entries| && entries[k].stamp == StampOf(rows[i])
                          && entries[j].scope == entries[k].scope
  {
    var a := rows[i];
    var b :| b in rows && b.isDefault && Scope(b) == Scope(a) && b.id != a.id
        && OlderOrSame(StampOf(b), StampOf(a), false);
    var ea, eb := Entry(Scope(a), StampOf(a)), Entry(Scope(b), StampOf(b));
    assert ea in entries && eb in entries;
    var k :| 0 <= k < |entries| && entries[k] == ea;
    var j :| 0 <= j < |entries| && entries[j] == eb;
    assert EntryLe(eb, ea) && eb != ea;
    assert !EntryLe(ea, eb);
    assert j < k;
  }
}
