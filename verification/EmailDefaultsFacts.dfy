/** Which default survives, in creation times and ids (routes/auth_routes.py, core/database.py). */
module EmailDefaultsFacts {
  import opened Wrappers
  import opened Text
  import opened Ordering
  import opened EmailDefaults
  import opened EmailDefaultsLaws

  /** Created earlier, or at the same time with the smaller id; an account without a creation time
      comes after every one that has it. */
  ghost predicate Earlier(a: Account, b: Account) {
    || (a.createdAt.Some? && b.createdAt.Some? && a.createdAt.value < b.createdAt.value)
    || (a.createdAt.Some? && b.createdAt == None)
    || (a.createdAt == b.createdAt && Precedes(a.id, b.id))
  }

  lemma EarlierIsOlder(a: Account, b: Account)
    requires a.id != b.id
    ensures Earlier(a, b) <==> OlderOrSame(StampOf(a), StampOf(b), false)
    ensures Earlier(a, b) <==> !Earlier(b, a)
  {
    StringOrderIsLexicographic(a.id, b.id);
    StringOrderIsLexicographic(b.id, a.id);
    StringLeTotal(a.id, b.id);
  }

  /** Among accounts that have a creation time, where missing ones sort does not matter. */
  lemma EarlierIsOlderWhenDated(a: Account, b: Account, nullsFirst: bool)
    requires a.id != b.id && a.createdAt.Some? && b.createdAt.Some?
    ensures Earlier(a, b) <==> OlderOrSame(StampOf(a), StampOf(b), nullsFirst)
  {
    EarlierIsOlder(a, b);
  }

  /** One owner, a missing one and the empty one being the same. */
  predicate SameScope(a: Account, b: Account) {
    a.owner == b.owner || (a.owner in {None, Some("")} && b.owner in {None, Some("")})
  }

  /** The migration clears a default exactly if its scope has an earlier one, and changes nothing else. */
  lemma MigrationClearsExactly(rows: seq<Account>, i: nat)
    requires UniqueIds(rows) && i < |rows|
    ensures var after := Normalized(rows);
            && |after| == |rows| && after[i] == rows[i].(isDefault := after[i].isDefault)
            && (after[i].isDefault <==>
                  && rows[i].isDefault
                  && forall j :: 0 <= j < |rows| && j != i && rows[j].isDefault && SameScope(rows[j], rows[i]) ==>
                       !Earlier(rows[j], rows[i]))
  {
    MigrationKeepsOldest(rows, i);
    AgeCompares(StampOf(rows[i]), StampOf(rows[i]), false);
    forall j | 0 <= j < |rows| && j != i
      ensures Earlier(rows[j], rows[i]) <==> !OlderOrSame(StampOf(rows[i]), StampOf(rows[j]), false)
    {
      EarlierIsOlder(rows[j], rows[i]);
      EarlierIsOlder(rows[i], rows[j]);
    }
  }

  /** The account belongs to this owner, letter case aside. */
  predicate Belongs(a: Account, name: string) {
    a.owner.Some? && Lower(a.owner.value) == name
  }

  /** A rename gives the old owner's accounts to the new one and touches no other field but the flag,
      and that only of the two owners' accounts. */
  lemma RenameMovesExactly(rows: seq<Account>, oldName: string, newName: string, nullsFirst: bool, i: nat)
    requires UniqueIds(rows) && oldName != newName && i < |rows|
    ensures var before, after := rows[i], Renamed(rows, oldName, newName, nullsFirst)[i];
            && after.id == before.id && after.createdAt == before.createdAt && after.details == before.details
            && after.owner == (if Belongs(before, oldName) then Some(newName) else before.owner)
            && (after.isDefault ==> before.isDefault)
            && (!Belongs(before, oldName) && !Belongs(before, newName) ==> after == before)
  {
    RenameTouchesOnlyTheTwoOwners(rows, oldName, newName, nullsFirst, i);
  }

  /** A default of this owner with no earlier default of the same owner. */
  ghost predicate FirstDefault(rows: seq<Account>, name: string, i: nat)
    requires i < |rows|
  {
    && rows[i].isDefault && Belongs(rows[i], name)
    && forall j :: 0 <= j < |rows| && j != i && rows[j].isDefault && Belongs(rows[j], name) ==>
         !Earlier(rows[j], rows[i])
  }

  ghost predicate NoDefault(rows: seq<Account>, name: string) {
    forall j :: 0 <= j < |rows| && Belongs(rows[j], name) ==> !rows[j].isDefault
  }

  predicate DefaultsDated(rows: seq<Account>, name: string) {
    forall j :: 0 <= j < |rows| && rows[j].isDefault && Belongs(rows[j], name) ==> rows[j].createdAt.Some?
  }

  lemma FirstIsOldest(rows: seq<Account>, name: string, i: nat, nullsFirst: bool)
    requires UniqueIds(rows) && i < |rows| && DefaultOf(rows[i], name) && DefaultsDated(rows, name)
    ensures FirstDefault(rows, name, i) <==> Oldest(rows, name, i, nullsFirst)
  {
    AgeCompares(StampOf(rows[i]), StampOf(rows[i]), nullsFirst);
    forall j | 0 <= j < |rows| && j != i && DefaultOf(rows[j], name)
      ensures Earlier(rows[j], rows[i]) <==> !OlderOrSame(StampOf(rows[i]), StampOf(rows[j]), nullsFirst)
    {
      EarlierIsOlder(rows[i], rows[j]);
      EarlierIsOlderWhenDated(rows[i], rows[j], nullsFirst);
    }
  }

  /** After a rename, if the defaults of both owners have creation times, the merged owner's default is
      the earliest of the destination's; the earliest of the source's if the destination had none; and
      no other. */
  lemma RenameKeepsEarliest(rows: seq<Account>, oldName: string, newName: string, nullsFirst: bool, i: nat)
    requires UniqueIds(rows) && oldName != newName && Lower(newName) == newName && i < |rows|
    requires DefaultsDated(rows, oldName) && DefaultsDated(rows, newName)
    ensures var after := Renamed(rows, oldName, newName, nullsFirst)[i];
            after.isDefault && Belongs(after, newName) <==>
              || FirstDefault(rows, newName, i)
              || (NoDefault(rows, newName) && FirstDefault(rows, oldName, i))
  {
    MergedOwnersDefault(rows, oldName, newName, nullsFirst, i);
    if DefaultOf(rows[i], newName) {
      FirstIsOldest(rows, newName, i, nullsFirst);
      assert HasDefault(rows, newName);
    }
    if DefaultOf(rows[i], oldName) {
      FirstIsOldest(rows, oldName, i, nullsFirst);
    }
    assert NoDefault(rows, newName) <==> !HasDefault(rows, newName);
  }

  /** The list of an owner's defaults, when they have creation times: each earlier than the next. */
  lemma DefaultsComeEarliestFirst(rows: seq<Account>, name: string, nullsFirst: bool, x: nat, y: nat)
    requires UniqueIds(rows) && x < y < |OldestFirst(rows, name, nullsFirst)|
    ensures var a, b := OldestFirst(rows, name, nullsFirst)[x], OldestFirst(rows, name, nullsFirst)[y];
            a.createdAt.Some? && b.createdAt.Some? ==>
              a.createdAt.value < b.createdAt.value || (a.createdAt == b.createdAt && Precedes(a.id, b.id))
  {
    ListIsOldestFirst(rows, name, nullsFirst);
    var a, b := OldestFirst(rows, name, nullsFirst)[x], OldestFirst(rows, name, nullsFirst)[y];
    StringOrderIsLexicographic(a.id, b.id);
  }
}
