/** What holds over whole runs of account operations: there is always an admin, and a
    temporary admin stint leaves a user's privileges as they were. */
module AuthRuns {
  import opened Wrappers
  import opened Text
  import opened Auth

  datatype Op =
    | Create(username: string, hash: string, admin: bool)
    | Delete(username: string, requester: string, tokensRevoked: bool)
    | Rename(username: string, newName: string, requester: string)
    | Promote(username: string, requester: string)
    | Demote(username: string, requester: string)
    | SetPrivileges(username: string, requested: Privileges)

  function Apply(users: Users, op: Op): Users {
    match op
    case Create(n, h, a) => AfterCreate(users, n, h, a).0
    case Delete(n, r, t) => AfterDelete(users, n, r, t).0
    case Rename(n, m, r) => AfterRename(users, n, m, r).0
    case Promote(n, r) => AfterSetAdmin(users, n, true, r).0
    case Demote(n, r) => AfterSetAdmin(users, n, false, r).0
    case SetPrivileges(n, p) => AfterSetPrivileges(users, n, p).0
  }

  function Run(users: Users, ops: seq<Op>): Users
    decreases ops
  {
    if ops == [] then users else Run(Apply(users, ops[0]), ops[1..])
  }

  /** The steps are the manager's own operations. */
  method Perform(m: AuthManager, op: Op)
    modifies m
    ensures m.users == Apply(old(m.users), op)
  {
    match op
    case Create(n, h, a) => var _ := m.CreateUser(n, h, a);
    case Delete(n, r, t) => var _ := m.DeleteUser(n, r, t);
    case Rename(n, to, r) => var _ := m.RenameUser(n, to, r);
    case Promote(n, r) => var _, _ := m.SetAdmin(n, true, r);
    case Demote(n, r) => var _, _ := m.SetAdmin(n, false, r);
    case SetPrivileges(n, p) => var _ := m.SetPrivileges(n, p);
  }

  // ---------- The last admin ----------

  lemma {:induction false} DemotionLeavesAnAdmin(users: Users, username: string, requester: string)
    requires Admins(users) != {}
    ensures Admins(AfterSetAdmin(users, username, false, requester).0) != {}
  {
    var after := AfterSetAdmin(users, username, false, requester).0;
    var name := Normalize(username);
    if after != users {
      assert name in Admins(users) && Admins(users) != {name};
      var other :| other in Admins(users) && other != name;
      assert other in Admins(after);
    } else {
      assert Admins(after) == Admins(users);
    }
  }

  lemma RenameLeavesAnAdmin(users: Users, oldName: string, newName: string, requester: string)
    requires Admins(users) != {}
    ensures Admins(AfterRename(users, oldName, newName, requester).0) != {}
  {
    var a :| a in Admins(users);
    var after := AfterRename(users, oldName, newName, requester).0;
    if after != users && a == Normalize(oldName) {
      assert Normalize(newName) in Admins(after);
    } else {
      assert a in Admins(after);
    }
  }

  lemma StepKeepsAnAdmin(users: Users, op: Op)
    requires Admins(users) != {}
    ensures Admins(Apply(users, op)) != {}
  {
    var a :| a in Admins(users);
    var after := Apply(users, op);
    match op
    case Delete(n, r, _) =>
      if after != users {
        assert r in Admins(after);
      } else {
        assert a in Admins(after);
      }
    case Rename(n, m, r) =>
      RenameLeavesAnAdmin(users, n, m, r);
    case Demote(n, r) =>
      DemotionLeavesAnAdmin(users, n, r);
    case _ =>
      assert a in Admins(after);
  }

  lemma {:induction false} RunKeepsAnAdmin(users: Users, ops: seq<Op>)
    requires Admins(users) != {}
    ensures Admins(Run(users, ops)) != {}
    decreases ops
  {
    if ops != [] {
      StepKeepsAnAdmin(users, ops[0]);
      RunKeepsAnAdmin(Apply(users, ops[0]), ops[1..]);
    }
  }

  /** Once setup succeeds, every reachable state has an admin. */
  lemma SetupNeverLocksOut(users: Users, username: string, hash: string, ops: seq<Op>)
    requires AfterSetup(users, username, hash).1
    ensures Admins(Run(AfterSetup(users, username, hash).0, ops)) != {}
  {
    var ready := AfterSetup(users, username, hash).0;
    assert Normalize(username) in Admins(ready);
    RunKeepsAnAdmin(ready, ops);
  }

  /** The guard is exact: an authorised demotion of an admin is refused if and only if it would leave no admin. */
  lemma DemotionRefusedExactlyForLastAdmin(users: Users, username: string, requester: string)
    requires IsAdmin(users, Normalize(username)) && IsAdmin(users, Normalize(requester))
    ensures AfterSetAdmin(users, username, false, requester).1 == LAST_ADMIN
            <==> forall other | other in users && other != Normalize(username) :: !users[other].isAdmin
  {
    var name := Normalize(username);
    assert name in Admins(users);
    if Admins(users) != {name} {
      var other :| other in Admins(users) && other != name;
    } else {
      forall other | other in users && other != name ensures !users[other].isAdmin {
        assert other !in Admins(users);
      }
    }
  }

  // ---------- The privilege stash ----------

  /** The name a user goes by after an operation; none once deleted. */
  function Follow(users: Users, name: string, op: Op): Option<string> {
    match op
    case Delete(n, r, t) =>
      if AfterDelete(users, n, r, t).1 && Normalize(n) == name then None else Some(name)
    case Rename(n, m, r) =>
      if AfterRename(users, n, m, r).1 && Normalize(n) == name then Some(Normalize(m)) else Some(name)
    case _ => Some(name)
  }

  function FollowRun(users: Users, name: string, ops: seq<Op>): Option<string>
    decreases ops
  {
    if ops == [] then Some(name)
    else
      var next := Follow(users, name, ops[0]);
      if next == None then None else FollowRun(Apply(users, ops[0]), next.value, ops[1..])
  }

  /** The user stays an admin, under whatever name, from here to the end of the run. */
  predicate StaysAdmin(users: Users, name: string, ops: seq<Op>)
    decreases ops
  {
    && IsAdmin(users, name)
    && (ops != [] ==>
          var next := Follow(users, name, ops[0]);
          next.Some? && StaysAdmin(Apply(users, ops[0]), next.value, ops[1..]))
  }

  /** Nothing but its own demotion or deletion changes an admin's record. */
  lemma AdminRecordIsFrozen(users: Users, name: string, op: Op)
    requires IsAdmin(users, name)
    ensures var next, after := Follow(users, name, op), Apply(users, op);
            && (next == None ==> name !in after)
            && (next.Some? ==> next.value in after && (after[next.value] == users[name] || !after[next.value].isAdmin))
  {
  }

  lemma {:induction false} StintKeepsRecord(users: Users, name: string, ops: seq<Op>)
    requires StaysAdmin(users, name, ops)
    ensures FollowRun(users, name, ops).Some?
    ensures var last := FollowRun(users, name, ops).value;
            last in Run(users, ops) && Run(users, ops)[last] == users[name]
    decreases ops
  {
    if ops != [] {
      var next := Follow(users, name, ops[0]).value;
      AdminRecordIsFrozen(users, name, ops[0]);
      StintKeepsRecord(Apply(users, ops[0]), next, ops[1..]);
    }
  }

  /** The privileges held just before a promotion are the ones held after the matching
      demotion, whatever operations run between: on other users, renames of this one,
      refused attempts, and attempts to edit an admin's map. */
  lemma {:induction false} PrivilegesSurviveAdminStint(users: Users, username: string, promoter: string, ops: seq<Op>,
          demoter: string)
    requires Normalize(username) in users && !users[Normalize(username)].isAdmin
    requires var promoted := AfterSetAdmin(users, username, true, promoter);
             promoted.1 == OK && StaysAdmin(promoted.0, Normalize(username), ops)
    ensures var promoted := AfterSetAdmin(users, username, true, promoter).0;
            var last := FollowRun(promoted, Normalize(username), ops);
            && last.Some?
            && forall now | Normalize(now) == last.value ::
                 var demoted := AfterSetAdmin(Run(promoted, ops), now, false, demoter);
                 demoted.1 == OK ==> EffectiveOf(demoted.0, last.value) == Effective(users[Normalize(username)])
  {
    var promoted := AfterSetAdmin(users, username, true, promoter).0;
    StintKeepsRecord(promoted, Normalize(username), ops);
  }

  /** A user created as an admin has no stash, so demotion leaves exactly the defaults. */
  lemma {:induction false} BornAdminDemotesToDefaults(users: Users, username: string, hash: string, ops: seq<Op>,
          demoter: string)
    requires AfterCreate(users, username, hash, true).1
    requires StaysAdmin(AfterCreate(users, username, hash, true).0, Normalize(username), ops)
    ensures var created := AfterCreate(users, username, hash, true).0;
            var last := FollowRun(created, Normalize(username), ops);
            && last.Some?
            && forall now | Normalize(now) == last.value ::
                 var demoted := AfterSetAdmin(Run(created, ops), now, false, demoter);
                 demoted.1 == OK ==> EffectiveOf(demoted.0, last.value) == DEFAULT_PRIVILEGES
  {
    var created := AfterCreate(users, username, hash, true).0;
    StintKeepsRecord(created, Normalize(username), ops);
  }

  /** Editing privileges changes exactly the known keys asked for, and only for a non-admin. */
  lemma SetPrivilegesChangesOnlyKnownKeys(users: Users, username: string, requested: Privileges, k: Privilege)
    requires AfterSetPrivileges(users, username, requested).1
    ensures var name := Normalize(username);
            var before, after := Effective(users[name]),
                EffectiveOf(AfterSetPrivileges(users, username, requested).0, name);
            && !users[name].isAdmin
            && (k in requested && k in DEFAULT_PRIVILEGES ==> k in after && after[k] == requested[k])
            && (!(k in requested && k in DEFAULT_PRIVILEGES) ==>
                (k in after <==> k in before) && (k in before ==> after[k] == before[k]))
  {
  }
}
