/** What the owner rename and the migration leave behind: at most one default per owner, the
    oldest one, and nothing else changed. */
module EmailDefaultsLaws {
  import opened Wrappers
  import opened Text
  import opened Ordering
  import opened EmailDefaults

  predicate DefaultOf(a: Account, name: string) {
    a.isDefault && OwnedBy(a, name)
  }

  ghost predicate Oldest(rows: seq<Account>, name: string, i: nat, nullsFirst: bool)
    requires i < |rows|
  {
    forall j :: 0 <= j < |rows| && DefaultOf(rows[j], name) ==>
        OlderOrSame(StampOf(rows[i]), StampOf(rows[j]), nullsFirst)
  }

  lemma {:induction false} StampsAreDefaults(rows: seq<Account>, name: string)
    ensures forall s :: s in DefaultStamps(rows, name) <==>
              exists i :: 0 <= i < |rows| && DefaultOf(rows[i], name) && s == StampOf(rows[i])
  {
    if rows != [] {
      var front, last := rows[..|rows| - 1], rows[|rows| - 1];
      StampsAreDefaults(front, name);
      forall s ensures s in DefaultStamps(rows, name) <==>
                exists i :: 0 <= i < |rows| && DefaultOf(rows[i], name) && s == StampOf(rows[i]) {
        if s in DefaultStamps(front, name) {
          var i :| 0 <= i < |front| && DefaultOf(front[i], name) && s == StampOf(front[i]);
          assert rows[i] == front[i];
        } else if s in DefaultStamps(rows, name) {
          assert s == StampOf(rows[|rows| - 1]);
        }
        if i :| 0 <= i < |rows| && DefaultOf(rows[i], name) && s == StampOf(rows[i]) {
          if i < |front| { assert rows[i] == front[i]; }
        }
      }
    }
  }

  lemma {:induction false} StampsDoNotRepeat(rows: seq<Account>, name: string)
    requires UniqueIds(rows)
    ensures forall s :: multiset(DefaultStamps(rows, name))[s] <= 1
  {
    if rows != [] {
      var front, last := rows[..|rows| - 1], rows[|rows| - 1];
      StampsDoNotRepeat(front, name);
      StampsAreDefaults(front, name);
      assert StampOf(last) !in DefaultStamps(front, name);
    }
  }

  ghost predicate Listed(stamps: seq<Stamp>, id: string) {
    exists s :: s in stamps && s.id == id
  }

  /** A list of one owner's defaults, each once, oldest first. */
  ghost predicate IsOldestFirst(rows: seq<Account>, name: string, nullsFirst: bool, list: seq<Stamp>) {
    && (forall x, y :: 0 <= x < y < |list| ==> OlderOrSame(list[x], list[y], nullsFirst) && list[x] != list[y])
    && (forall s :: s in list <==> exists j :: 0 <= j < |rows| && DefaultOf(rows[j], name) && s == StampOf(rows[j]))
  }

  lemma ListIsOldestFirst(rows: seq<Account>, name: string, nullsFirst: bool)
    requires UniqueIds(rows)
    ensures IsOldestFirst(rows, name, nullsFirst, OldestFirst(rows, name, nullsFirst))
  {
    var le := (a: Stamp, b: Stamp) => OlderOrSame(a, b, nullsFirst);
    var stamps := DefaultStamps(rows, name);
    var list := OldestFirst(rows, name, nullsFirst);
    AgeIsTotal(nullsFirst);
    SortIsSorted(le, stamps);
    SortKeepsElements(le, stamps);
    StampsAreDefaults(rows, name);
    StampsDoNotRepeat(rows, name);
    assert multiset(list) == multiset(stamps);
    forall x, y | 0 <= x < y < |list| ensures OlderOrSame(list[x], list[y], nullsFirst) && list[x] != list[y] {
      assert le(list[x], list[y]);
      RepeatsCountTwice(list, x, y);
    }
  }

  lemma ListedIsDefault(rows: seq<Account>, name: string, i: nat, nullsFirst: bool, list: seq<Stamp>)
    requires UniqueIds(rows) && i < |rows| && IsOldestFirst(rows, name, nullsFirst, list)
    ensures DefaultOf(rows[i], name) <==> Listed(list, rows[i].id)
    ensures forall s :: s in list && s.id == rows[i].id ==> s == StampOf(rows[i])
  {
    forall s | s in list && s.id == rows[i].id ensures s == StampOf(rows[i]) && DefaultOf(rows[i], name) {
      var j :| 0 <= j < |rows| && DefaultOf(rows[j], name) && s == StampOf(rows[j]);
      assert j == i;
    }
    if DefaultOf(rows[i], name) {
      assert StampOf(rows[i]) in list;
    }
  }

  lemma HeadIsOldest(rows: seq<Account>, name: string, i: nat, nullsFirst: bool, list: seq<Stamp>, k: nat)
    requires i < |rows| && IsOldestFirst(rows, name, nullsFirst, list)
    requires DefaultOf(rows[i], name) && k < |list| && list[k] == StampOf(rows[i])
    ensures Oldest(rows, name, i, nullsFirst) <==> k == 0
  {
    assert list[0] in list;
    var h :| 0 <= h < |rows| && DefaultOf(rows[h], name) && list[0] == StampOf(rows[h]);
    if k == 0 {
      forall j | 0 <= j < |rows| && DefaultOf(rows[j], name)
        ensures OlderOrSame(StampOf(rows[i]), StampOf(rows[j]), nullsFirst)
      {
        assert StampOf(rows[j]) in list;
        var n :| 0 <= n < |list| && list[n] == StampOf(rows[j]);
        AgeCompares(list[0], list[n], nullsFirst);
      }
    } else {
      AgeCompares(list[0], list[k], nullsFirst);
      assert !OlderOrSame(StampOf(rows[i]), StampOf(rows[h]), nullsFirst);
    }
  }

  /** The oldest-first list starts with the oldest default and lists every other one after it. */
  lemma ListStartsWithOldest(rows: seq<Account>, name: string, i: nat, nullsFirst: bool)
    requires UniqueIds(rows) && i < |rows|
    ensures var list := OldestFirst(rows, name, nullsFirst);
            && (DefaultOf(rows[i], name) <==> Listed(list, rows[i].id))
            && (DefaultOf(rows[i], name) ==>
                list != [] && (Listed(list[1..], rows[i].id) <==> !Oldest(rows, name, i, nullsFirst)))
            && (!DefaultOf(rows[i], name) && list != [] ==> !Listed(list[1..], rows[i].id))
  {
    var list := OldestFirst(rows, name, nullsFirst);
    ListIsOldestFirst(rows, name, nullsFirst);
    ListedIsDefault(rows, name, i, nullsFirst, list);
    if DefaultOf(rows[i], name) {
      var k :| 0 <= k < |list| && list[k].id == rows[i].id;
      assert list[k] in list;
      HeadIsOldest(rows, name, i, nullsFirst, list, k);
      if k > 0 { assert list[1..][k - 1] == list[k]; }
      if k == 0 {
        forall s | s in list[1..] ensures s.id != rows[i].id {
          var m :| 0 <= m < |list| - 1 && list[1..][m] == s;
          assert list[m + 1] in list && list[0] != list[m + 1];
        }
      }
    } else if list != [] {
      assert forall s :: s in list[1..] ==> s in list;
    }
  }

  // ---------- The rename ----------

  ghost predicate HasDefault(rows: seq<Account>, name: string) {
    exists i :: 0 <= i < |rows| && DefaultOf(rows[i], name)
  }

  /** The one default to keep: the destination's oldest, or the source's oldest if the destination has none. */
  ghost predicate Survives(rows: seq<Account>, oldName: string, newName: string, nullsFirst: bool, i: nat)
    requires i < |rows|
  {
    || (DefaultOf(rows[i], newName) && Oldest(rows, newName, i, nullsFirst))
    || (DefaultOf(rows[i], oldName) && !HasDefault(rows, newName) && Oldest(rows, oldName, i, nullsFirst))
  }

  lemma ListIsEmptyWithoutDefault(rows: seq<Account>, name: string, nullsFirst: bool)
    requires UniqueIds(rows)
    ensures OldestFirst(rows, name, nullsFirst) != [] <==> HasDefault(rows, name)
  {
    ListIsOldestFirst(rows, name, nullsFirst);
    var list := OldestFirst(rows, name, nullsFirst);
    if list != [] { assert list[0] in list; }
    if i :| 0 <= i < |rows| && DefaultOf(rows[i], name) { assert StampOf(rows[i]) in list; }
  }

  lemma ListedInConcat(a: seq<Stamp>, b: seq<Stamp>, id: string)
    ensures Listed(a + b, id) <==> Listed(a, id) || Listed(b, id)
  {
    if s :| s in a && s.id == id { assert s in a + b; }
    if s :| s in b && s.id == id { assert s in a + b; }
  }

  /** Clearing leaves a default of either owner exactly if it is the one to keep, and every other default as it was. */
  lemma ClearKeepsSurvivor(rows: seq<Account>, oldName: string, newName: string, nullsFirst: bool, i: nat)
    requires UniqueIds(rows) && oldName != newName && i < |rows|
    ensures var after := ClearedForRename(rows, oldName, newName, nullsFirst)[i];
            && after == rows[i].(isDefault := after.isDefault)
            && (OwnedBy(rows[i], oldName) || OwnedBy(rows[i], newName) ==>
                  (after.isDefault <==> Survives(rows, oldName, newName, nullsFirst, i)))
            && (!OwnedBy(rows[i], oldName) && !OwnedBy(rows[i], newName) ==> after == rows[i])
  {
    var source, destination := OldestFirst(rows, oldName, nullsFirst), OldestFirst(rows, newName, nullsFirst);
    ListStartsWithOldest(rows, oldName, i, nullsFirst);
    ListStartsWithOldest(rows, newName, i, nullsFirst);
    ListIsEmptyWithoutDefault(rows, newName, nullsFirst);
    if destination != [] {
      ListedInConcat(destination[1..], source, rows[i].id);
    }
    assert ClearedForRename(rows, oldName, newName, nullsFirst)[i]
        == if Listed(ToClear(source, destination), rows[i].id) then rows[i].(isDefault := false) else rows[i];
  }

  /** After the rename, the merged owner's only default is the one to keep. */
  lemma MergedOwnersDefault(rows: seq<Account>, oldName: string, newName: string, nullsFirst: bool, i: nat)
    requires UniqueIds(rows) && oldName != newName && Lower(newName) == newName && i < |rows|
    ensures var after := Renamed(rows, oldName, newName, nullsFirst);
            DefaultOf(after[i], newName) <==> Survives(rows, oldName, newName, nullsFirst, i)
  {
    ClearKeepsSurvivor(rows, oldName, newName, nullsFirst, i);
  }

  /** There is exactly one to keep if either side had a default, and none otherwise. */
  lemma {:induction false} OldestExists(rows: seq<Account>, name: string, nullsFirst: bool) returns (i: nat)
    requires UniqueIds(rows) && HasDefault(rows, name)
    ensures i < |rows| && DefaultOf(rows[i], name) && Oldest(rows, name, i, nullsFirst)
    ensures forall j :: 0 <= j < |rows| && DefaultOf(rows[j], name) && Oldest(rows, name, j, nullsFirst) ==> j == i
  {
    ListIsOldestFirst(rows, name, nullsFirst);
    ListIsEmptyWithoutDefault(rows, name, nullsFirst);
    var list := OldestFirst(rows, name, nullsFirst);
    assert list[0] in list;
    i :| 0 <= i < |rows| && DefaultOf(rows[i], name) && list[0] == StampOf(rows[i]);
    HeadIsOldest(rows, name, i, nullsFirst, list, 0);
    forall j | 0 <= j < |rows| && DefaultOf(rows[j], name) && Oldest(rows, name, j, nullsFirst) ensures j == i {
      assert StampOf(rows[j]) in list;
      var k :| 0 <= k < |list| && list[k] == StampOf(rows[j]);
      HeadIsOldest(rows, name, j, nullsFirst, list, k);
      assert rows[j].id == rows[i].id;
    }
  }

  /** The merged owner has exactly one default if either side had one, and none otherwise. */
  lemma {:induction false} MergedOwnerHasOneDefault(rows: seq<Account>, oldName: string, newName: string,
          nullsFirst: bool)
    requires UniqueIds(rows) && oldName != newName && Lower(newName) == newName
    ensures var after := Renamed(rows, oldName, newName, nullsFirst);
            && (HasDefault(after, newName) <==> HasDefault(rows, oldName) || HasDefault(rows, newName))
            && (forall i, j :: 0 <= i < j < |after| && DefaultOf(after[i], newName) ==> !DefaultOf(after[j], newName))
  {
    var after := Renamed(rows, oldName, newName, nullsFirst);
    forall i | 0 <= i < |rows|
      ensures DefaultOf(after[i], newName) <==> Survives(rows, oldName, newName, nullsFirst, i)
    {
      MergedOwnersDefault(rows, oldName, newName, nullsFirst, i);
    }
    if HasDefault(rows, newName) {
      var i := OldestExists(rows, newName, nullsFirst);
      assert DefaultOf(after[i], newName);
    } else if HasDefault(rows, oldName) {
      var i := OldestExists(rows, oldName, nullsFirst);
      assert DefaultOf(after[i], newName);
    }
  }

  /** No account is lost, none changes but for owner and flag, and other owners' accounts not at all. */
  lemma {:induction false} RenameTouchesOnlyTheTwoOwners(rows: seq<Account>, oldName: string, newName: string,
          nullsFirst: bool, i: nat)
    requires UniqueIds(rows) && oldName != newName && i < |rows|
    ensures var after := Renamed(rows, oldName, newName, nullsFirst);
            && |after| == |rows|
            && after[i] == rows[i].(isDefault := after[i].isDefault, owner := after[i].owner)
            && after[i].owner == (if OwnedBy(rows[i], oldName) then Some(newName) else rows[i].owner)
            && (after[i].isDefault ==> rows[i].isDefault)
            && (!OwnedBy(rows[i], oldName) && !OwnedBy(rows[i], newName) ==> after[i] == rows[i])
  {
    ClearKeepsSurvivor(rows, oldName, newName, nullsFirst, i);
  }

  lemma SurvivorIsUnique(rows: seq<Account>, oldName: string, newName: string, nullsFirst: bool, i: nat, j: nat)
    requires UniqueIds(rows) && i < |rows| && j < |rows|
    requires Survives(rows, oldName, newName, nullsFirst, i) && Survives(rows, oldName, newName, nullsFirst, j)
    ensures i == j
  {
    if HasDefault(rows, newName) {
      var _ := OldestExists(rows, newName, nullsFirst);
    } else {
      var _ := OldestExists(rows, oldName, nullsFirst);
    }
  }

  /** The unique index is satisfied after every single row update, in whatever order the rows are
      visited, not only at the end. */
  lemma IndexHoldsAfterEachRelabel(rows: seq<Account>, oldName: string, newName: string, nullsFirst: bool,
          visited: set<nat>)
    requires UniqueIds(rows) && OneDefaultPerScope(rows)
    requires oldName != newName && Lower(newName) == newName && newName != ""
    ensures var cleared := ClearedForRename(rows, oldName, newName, nullsFirst);
            OneDefaultPerScope(Relabelled(cleared, oldName, newName, visited))
  {
    var cleared := ClearedForRename(rows, oldName, newName, nullsFirst);
    var mid := Relabelled(cleared, oldName, newName, visited);
    forall i, j | 0 <= i < j < |mid| && mid[i].isDefault && mid[j].isDefault ensures Scope(mid[i]) != Scope(mid[j]) {
      ClearKeepsSurvivor(rows, oldName, newName, nullsFirst, i);
      ClearKeepsSurvivor(rows, oldName, newName, nullsFirst, j);
      if TwoOwners(rows[i], oldName, newName) && TwoOwners(rows[j], oldName, newName) {
        SurvivorIsUnique(rows, oldName, newName, nullsFirst, i, j);
      } else {
        OtherScopesStayApart(rows[i], rows[j], oldName, newName);
      }
    }
  }

  predicate TwoOwners(a: Account, oldName: string, newName: string) {
    OwnedBy(a, oldName) || OwnedBy(a, newName)
  }

  /** An account of some third owner shares no scope with another before or after either is relabelled. */
  lemma OtherScopesStayApart(a: Account, b: Account, oldName: string, newName: string)
    requires Scope(a) != Scope(b) && Lower(newName) == newName
    requires !TwoOwners(a, oldName, newName) || !TwoOwners(b, oldName, newName)
    requires newName != ""
    ensures Scope(RelabelRow(a, oldName, newName)) != Scope(RelabelRow(b, oldName, newName))
    ensures Scope(RelabelRow(a, oldName, newName)) != Scope(b)
    ensures Scope(a) != Scope(RelabelRow(b, oldName, newName))
  {
  }

  // ---------- The migration ----------

  /** The migration leaves every scope with exactly its oldest default, and scopes without one as they were. */
  lemma MigrationKeepsOldest(rows: seq<Account>, i: nat)
    requires UniqueIds(rows) && i < |rows|
    ensures var after := Normalized(rows);
            && after[i] == rows[i].(isDefault := after[i].isDefault)
            && (after[i].isDefault <==>
                  && rows[i].isDefault
                  && forall j :: 0 <= j < |rows| && rows[j].isDefault && Scope(rows[j]) == Scope(rows[i]) ==>
                                         OlderOrSame(StampOf(rows[i]), StampOf(rows[j]), false))
  {
    var after := Normalized(rows);
    if rows[i].isDefault && !after[i].isDefault {
      var b :| b in rows && b.isDefault && Scope(b) == Scope(rows[i]) && b.id != rows[i].id
          && OlderOrSame(StampOf(b), StampOf(rows[i]), false);
      var j :| 0 <= j < |rows| && rows[j] == b;
      AgeCompares(StampOf(b), StampOf(rows[i]), false);
      assert !OlderOrSame(StampOf(rows[i]), StampOf(rows[j]), false);
    }
    if after[i].isDefault {
      forall j | 0 <= j < |rows| && rows[j].isDefault && Scope(rows[j]) == Scope(rows[i])
        ensures OlderOrSame(StampOf(rows[i]), StampOf(rows[j]), false)
      {
        assert rows[j] in rows;
        AgeCompares(StampOf(rows[i]), StampOf(rows[j]), false);
      }
    }
  }

  /** Afterwards the unique index can be installed. */
  lemma MigrationSatisfiesIndex(rows: seq<Account>)
    requires UniqueIds(rows)
    ensures OneDefaultPerScope(Normalized(rows))
  {
    var after := Normalized(rows);
    forall i, j | 0 <= i < j < |rows| && after[i].isDefault && after[j].isDefault
      ensures Scope(after[i]) != Scope(after[j])
    {
      MigrationKeepsOldest(rows, i);
      MigrationKeepsOldest(rows, j);
      AgeCompares(StampOf(rows[i]), StampOf(rows[j]), false);
    }
  }

  /** Every scope that had a default still has one. */
  lemma {:induction false} MigrationLosesNoScope(rows: seq<Account>, n: nat, scope: string) returns (i: nat)
    requires UniqueIds(rows) && n <= |rows|
    requires exists k :: 0 <= k < n && rows[k].isDefault && Scope(rows[k]) == scope
    ensures i < n && rows[i].isDefault && Scope(rows[i]) == scope
    ensures forall j :: 0 <= j < n && rows[j].isDefault && Scope(rows[j]) == scope ==>
        OlderOrSame(StampOf(rows[i]), StampOf(rows[j]), false)
    ensures n == |rows| ==> Normalized(rows)[i].isDefault
    decreases n
  {
    var le := (a: Stamp, b: Stamp) => OlderOrSame(a, b, false);
    AgeIsTotal(false);
    var last := rows[n - 1];
    if exists k :: 0 <= k < n - 1 && rows[k].isDefault && Scope(rows[k]) == scope {
      i := MigrationLosesNoScope(rows, n - 1, scope);
      if last.isDefault && Scope(last) == scope && !OlderOrSame(StampOf(rows[i]), StampOf(last), false) {
        var m := i;
        i := n - 1;
        assert le(StampOf(last), StampOf(rows[m]));
        forall j | 0 <= j < n && rows[j].isDefault && Scope(rows[j]) == scope
          ensures OlderOrSame(StampOf(last), StampOf(rows[j]), false)
        {
          if j < n - 1 { assert le(StampOf(rows[m]), StampOf(rows[j])); }
          assert le(StampOf(last), StampOf(last));
          assert le(StampOf(last), StampOf(rows[j]));
        }
      }
    } else {
      i := n - 1;
      assert le(StampOf(last), StampOf(last));
    }
    if n == |rows| {
      MigrationKeepsOldest(rows, i);
    }
  }

  /** Running the migration again changes nothing. */
  lemma MigrationIsIdempotent(rows: seq<Account>)
    requires UniqueIds(rows)
    ensures Normalized(Normalized(rows)) == Normalized(rows)
  {
    var once := Normalized(rows);
    MigrationSatisfiesIndex(rows);
    forall i | 0 <= i < |rows| && once[i].isDefault ensures !HasOlder(once, once[i]) {
      forall b | b in once && b.isDefault && b.id != once[i].id ensures Scope(b) != Scope(once[i]) {
        var j :| 0 <= j < |once| && once[j] == b;
        assert i < j || j < i;
      }
    }
  }
}
