/** Users, privileges and session tokens of `AuthManager` (core/auth.py).

    Each critical section is a function on the user map or the token map; the class
    performs the same section write by write and is proved to reach that function's
    result. Password hashes, clock readings and fresh tokens are parameters. */
module Auth {
  import opened Wrappers
  import opened Text
  import opened Collections

  // ---------- Privileges ----------

  datatype Privilege =
    | CanUseAgent | CanUseBrowser | CanUseBash | CanUseDocuments | CanUseResearch
    | CanGenerateImages | CanManageMemory | MaxMessagesPerDay | AllowedModels
    | AllowedModelsRestricted | BlockAllModels
    | Unlisted(name: string)

  datatype Value = Flag(on: bool) | Number(n: int) | Names(names: seq<string>) | OtherJson(text: string)

  type Privileges = map<Privilege, Value>

  const DEFAULT_PRIVILEGES: Privileges := map[
    CanUseAgent := Flag(true),
    CanUseBrowser := Flag(true),
    CanUseBash := Flag(false),
    CanUseDocuments := Flag(true),
    CanUseResearch := Flag(true),
    CanGenerateImages := Flag(true),
    CanManageMemory := Flag(true),
    MaxMessagesPerDay := Number(0),
    AllowedModels := Names([]),
    AllowedModelsRestricted := Flag(false),
    BlockAllModels := Flag(false)
  ]

  /** Every flag on, every other default emptied, then the two flags that restrict switched off. */
  const ADMIN_PRIVILEGES: Privileges :=
    (map k | k in DEFAULT_PRIVILEGES ::
      match DEFAULT_PRIVILEGES[k]
      case Flag(_) => Flag(true)
      case Number(_) => Number(0)
      case _ => Names([]))
    [AllowedModelsRestricted := Flag(false)]
    [BlockAllModels := Flag(false)]

  datatype User = User(
    passwordHash: string,
    isAdmin: bool,
    privileges: Option<Privileges>,
    beforeAdmin: Option<Privileges>)

  type Users = map<string, User>

  /** A missing or empty map counts as the defaults. */
  function OrDefault(stored: Option<Privileges>): Privileges {
    if stored == None || stored.value == map[] then DEFAULT_PRIVILEGES else stored.value
  }

  /** Defaults overlaid with what is stored, for privileges added after the user was. */
  function Merged(stored: Option<Privileges>): Privileges {
    DEFAULT_PRIVILEGES + stored.GetOr(map[])
  }

  /** What a user may do: the answer of `get_privileges` when nothing runs beside it. */
  function Effective(u: User): Privileges {
    if u.isAdmin then ADMIN_PRIVILEGES else Merged(u.privileges)
  }

  function EffectiveOf(users: Users, name: string): Privileges {
    if name in users then Effective(users[name]) else DEFAULT_PRIVILEGES
  }

  predicate IsAdmin(users: Users, name: string) {
    name in users && users[name].isAdmin
  }

  function Admins(users: Users): set<string> {
    set n | n in users && users[n].isAdmin
  }

  // ---------- The writes of set_admin, one field each ----------

  function FlagAdmin(u: User): User { u.(isAdmin := true) }

  function StashPrivileges(u: User): User { u.(beforeAdmin := Some(OrDefault(u.privileges))) }

  function GrantAll(u: User): User { u.(privileges := Some(ADMIN_PRIVILEGES)) }

  function DropStash(u: User): User { u.(beforeAdmin := None) }

  function RestorePrivileges(u: User, popped: Option<Privileges>): User {
    u.(privileges := Some(OrDefault(popped)))
  }

  function ClearAdmin(u: User): User { u.(isAdmin := false) }

  /** The records a promotion goes through: the flag is up before the stored map is replaced. */
  function Promotion(u: User): seq<User> {
    [FlagAdmin(u), StashPrivileges(FlagAdmin(u)), GrantAll(StashPrivileges(FlagAdmin(u)))]
  }

  /** The records a demotion goes through: the stored map is back before the flag goes down. */
  function Demotion(u: User): seq<User> {
    var dropped := DropStash(u);
    var restored := RestorePrivileges(dropped, u.beforeAdmin);
    [dropped, restored, ClearAdmin(restored)]
  }

  // ---------- Critical sections on the user map ----------

  const RESERVED_USERNAMES: set<string> := {"internal-tool", "api", "demo", "system", "__odysseus_local__"}

  datatype SetAdminResult = OK | USER_NOT_FOUND | NOT_AUTHORIZED | LAST_ADMIN

  function AfterCreate(users: Users, username: string, hash: string, admin: bool): (Users, bool) {
    var name := Normalize(username);
    if name == "" || name in RESERVED_USERNAMES || name in users then (users, false)
    else
      var granted := if admin then ADMIN_PRIVILEGES else DEFAULT_PRIVILEGES;
      (users[name := User(hash, admin, Some(granted), None)], true)
  }

  /** First-run setup: only on an empty user map, and always an admin. */
  function AfterSetup(users: Users, username: string, hash: string): (Users, bool) {
    if users != map[] then (users, false) else AfterCreate(users, username, hash, true)
  }

  /** `tokensRevoked` is whether the bearer-token rows could be deleted; a failure refuses the delete. */
  function AfterDelete(users: Users, username: string, requester: string, tokensRevoked: bool): (Users, bool) {
    var name := Normalize(username);
    if name !in users || name == requester || !IsAdmin(users, requester) || !tokensRevoked then (users, false)
    else (users - {name}, true)
  }

  function AfterRename(users: Users, oldName: string, newName: string, requester: string): (Users, bool) {
    var from, to := Normalize(oldName), Normalize(newName);
    if from == "" || to == "" || to in RESERVED_USERNAMES || from !in users || to in users
       || !IsAdmin(users, Normalize(requester))
    then (users, false)
    else ((users - {from})[to := users[from]], true)
  }

  function AfterSetAdmin(users: Users, username: string, admin: bool, requester: string): (Users, SetAdminResult) {
    var name := Normalize(username);
    if name !in users then (users, USER_NOT_FOUND)
    else if !IsAdmin(users, Normalize(requester)) then (users, NOT_AUTHORIZED)
    else
      var u := users[name];
      if u.isAdmin == admin then (users, OK)
      else if admin then
        (users[name := User(u.passwordHash, true, Some(ADMIN_PRIVILEGES), Some(OrDefault(u.privileges)))], OK)
      else if Admins(users) == {name} then (users, LAST_ADMIN)
      else
        (users[name := User(u.passwordHash, false, Some(OrDefault(u.beforeAdmin)), None)], OK)
  }

  /** The part of a request that names known privileges. */
  function KnownPart(requested: Privileges): Privileges {
    map k | k in requested && k in DEFAULT_PRIVILEGES :: requested[k]
  }

  function AfterSetPrivileges(users: Users, username: string, requested: Privileges): (Users, bool) {
    var name := Normalize(username);
    if name !in users || users[name].isAdmin then (users, false)
    else
      var u := users[name];
      (users[name := u.(privileges := Some(Merged(u.privileges) + KnownPart(requested)))], true)
  }

  // ---------- Critical sections on the token map ----------

  datatype Login = Login(username: string, expiry: int)

  type Logins = map<string, Login>

  const TOKEN_TTL := 60 * 60 * 24 * 7

  function WithoutUser(logins: Logins, name: string): Logins {
    map t | t in logins && logins[t].username != name :: logins[t]
  }

  function Relabelled(logins: Logins, from: string, to: string): Logins {
    map t | t in logins ::
      if Normalize(logins[t].username) == from then logins[t].(username := to) else logins[t]
  }

  /** The user a token authenticates, if any. */
  function Authenticated(users: Users, logins: Logins, token: string, now: int): Option<string> {
    if token != "" && token in logins && now <= logins[token].expiry && logins[token].username in users
    then Some(logins[token].username)
    else None
  }

  /** Looking a token up drops it when it is expired or its user is gone. */
  function AfterLookup(users: Users, logins: Logins, token: string, now: int): Logins {
    if token == "" || Authenticated(users, logins, token, now).Some? then logins else logins - {token}
  }

  function AfterRevokeUser(logins: Logins, username: string, except: Option<string>): Logins {
    map t | t in logins && (Some(t) == except || logins[t].username != Normalize(username)) :: logins[t]
  }

  // ---------- The manager ----------

  class AuthManager {
    var users: Users
    var logins: Logins

    constructor ()
      ensures users == map[] && logins == map[]
    {
      users, logins := map[], map[];
    }

    method Setup(username: string, hash: string) returns (ok: bool)
      modifies this`users
      ensures (users, ok) == AfterSetup(old(users), username, hash)
      ensures ok <==> old(users) == map[] && Normalize(username) != ""
                      && Normalize(username) !in {"internal-tool", "api", "demo", "system", "__odysseus_local__"}
      ensures ok ==> Normalize(username) in users && users[Normalize(username)].isAdmin
    {
      if |users| > 0 {
        assert users != map[];
        return false;
      }
      assert users == map[];
      ok := CreateUser(username, hash, true);
    }

    method CreateUser(username: string, hash: string, admin: bool) returns (ok: bool)
      modifies this`users
      ensures (users, ok) == AfterCreate(old(users), username, hash, admin)
      ensures ok <==> Normalize(username) != "" && Normalize(username) !in old(users)
                      && Normalize(username) !in {"internal-tool", "api", "demo", "system", "__odysseus_local__"}
      ensures users.Keys == old(users).Keys + if ok then {Normalize(username)} else {}
      ensures forall other :: other in old(users) ==> users[other] == old(users)[other]
      ensures ok ==>
                var account := users[Normalize(username)];
                && account.passwordHash == hash && account.isAdmin == admin && account.beforeAdmin == None
                && account.privileges == Some(if admin then ADMIN_PRIVILEGES else DEFAULT_PRIVILEGES)
                && Effective(account) == (if admin then ADMIN_PRIVILEGES else DEFAULT_PRIVILEGES)
                && CanUseBash in Effective(account) && Effective(account)[CanUseBash] == Flag(admin)
    {
      var name := Normalize(username);
      if name == "" || name in RESERVED_USERNAMES {
        return false;
      }
      if name in users {
        return false;
      }
      users := users[name := User(hash, admin, Some(if admin then ADMIN_PRIVILEGES else DEFAULT_PRIVILEGES), None)];
      return true;
    }

    /** Both critical sections, with nothing between them. */
    method DeleteUser(username: string, requester: string, tokensRevoked: bool) returns (ok: bool)
      modifies this
      ensures (users, ok) == AfterDelete(old(users), username, requester, tokensRevoked)
      ensures logins == if ok then WithoutUser(old(logins), Normalize(username)) else old(logins)
    {
      var name := Normalize(username);
      if name !in users { return false; }
      if name == requester { return false; }
      if !IsAdmin(users, requester) { return false; }
      if !tokensRevoked { return false; }
      users := users - {name};
      PurgeLogins(name, None);
      return true;
    }

    /** The shared loop that drops every login of one user, sparing at most one token. */
    method PurgeLogins(name: string, except: Option<string>)
      modifies this`logins
      ensures logins == map t | t in old(logins)
          && (Some(t) == except || old(logins)[t].username != name) :: old(logins)[t]
    {
      var doomed := set t | t in logins && Some(t) != except && logins[t].username == name;
      ghost var start := logins;
      ghost var all := doomed;
      while doomed != {}
        invariant doomed <= all
        invariant logins == start - (all - doomed)
        decreases doomed
      {
        var t :| t in doomed;
        logins := logins - {t};
        doomed := doomed - {t};
      }
    }

    method RenameUser(oldName: string, newName: string, requester: string) returns (ok: bool)
      modifies this
      ensures (users, ok) == AfterRename(old(users), oldName, newName, requester)
      ensures logins == if ok then Relabelled(old(logins), Normalize(oldName), Normalize(newName)) else old(logins)
    {
      var from, to := Normalize(oldName), Normalize(newName);
      if from == "" || to == "" { return false; }
      if to in RESERVED_USERNAMES { return false; }
      if from !in users { return false; }
      if to in users { return false; }
      if !IsAdmin(users, Normalize(requester)) { return false; }
      var record := users[from];
      users := users - {from};
      users := users[to := record];

      var todo := logins.Keys;
      ghost var start := logins;
      while todo != {}
        invariant users == (old(users) - {from})[to := record]
        invariant todo <= start.Keys && logins.Keys == start.Keys
        invariant forall t | t in todo :: logins[t] == start[t]
        invariant forall t | t in start && t !in todo :: logins[t] == Relabelled(start, from, to)[t]
        decreases todo
      {
        var t :| t in todo;
        if Normalize(logins[t].username) == from {
          logins := logins[t := logins[t].(username := to)];
        }
        todo := todo - {t};
      }
      return true;
    }

    /** Promotion flips the flag first and demotion flips it last, so the stored map is never exposed early. */
    method SetAdmin(username: string, admin: bool, requester: string)
      returns (r: SetAdminResult, ghost writes: seq<User>)
      modifies this`users
      ensures (users, r) == AfterSetAdmin(old(users), username, admin, requester)
      ensures users == old(users) ==> writes == []
      ensures users != old(users) ==>
                var name := Normalize(username);
                && name in old(users) && |writes| == 3 && users == old(users)[name := writes[2]]
                && writes == (if admin then Promotion(old(users)[name]) else Demotion(old(users)[name]))
    {
      writes := [];
      var name, who := Normalize(username), Normalize(requester);
      if name !in users { return USER_NOT_FOUND, writes; }
      if !IsAdmin(users, who) { return NOT_AUTHORIZED, writes; }
      if users[name].isAdmin == admin { return OK, writes; }
      if users[name].isAdmin && !admin {
        OnlyAdmin(users, name);
        if |Admins(users)| <= 1 { return LAST_ADMIN, writes; }
      }
      if admin {
        users := users[name := FlagAdmin(users[name])];
        writes := writes + [users[name]];
        users := users[name := StashPrivileges(users[name])];
        writes := writes + [users[name]];
        users := users[name := GrantAll(users[name])];
        writes := writes + [users[name]];
      } else {
        var popped := users[name].beforeAdmin;
        users := users[name := DropStash(users[name])];
        writes := writes + [users[name]];
        users := users[name := RestorePrivileges(users[name], popped)];
        writes := writes + [users[name]];
        users := users[name := ClearAdmin(users[name])];
        writes := writes + [users[name]];
      }
      assert users == old(users)[name := users[name]];
      return OK, writes;
    }

    method SetPrivileges(username: string, requested: Privileges) returns (ok: bool)
      modifies this`users
      ensures (users, ok) == AfterSetPrivileges(old(users), username, requested)
    {
      var name := Normalize(username);
      if name !in users { return false; }
      if users[name].isAdmin { return false; }
      var current := GetPrivileges(name);
      current := Overlay(current, DEFAULT_PRIVILEGES.Keys, requested);
      users := users[name := users[name].(privileges := Some(current))];
      return true;
    }

    /** Assign the requested values one by one, skipping unknown keys. */
    static method Overlay(base: Privileges, known: set<Privilege>, requested: Privileges) returns (current: Privileges)
      ensures current == base + map k | k in requested && k in known :: requested[k]
    {
      current := base;
      var todo := requested.Keys;
      while todo != {}
        invariant todo <= requested.Keys
        invariant current == base + map k | k in requested && k in known && k !in todo :: requested[k]
        decreases todo
      {
        var k :| k in todo;
        if k in known {
          current := current[k := requested[k]];
        }
        todo := todo - {k};
      }
    }

    /** With no writer beside it, the two reads of `get_privileges` give the effective map. */
    method GetPrivileges(username: string) returns (p: Privileges)
      ensures p == EffectiveOf(users, username)
    {
      if username !in users { return DEFAULT_PRIVILEGES; }
      if users[username].isAdmin { return ADMIN_PRIVILEGES; }
      return DEFAULT_PRIVILEGES + users[username].privileges.GetOr(map[]);
    }

    method CreateSessionTrusted(username: string, token: string, now: int) returns (issued: Option<string>)
      modifies this`logins
      ensures issued == if Normalize(username) in users then Some(token) else None
      ensures logins == if issued.Some?
                        then old(logins)[token := Login(Normalize(username), now + TOKEN_TTL)]
                        else old(logins)
      ensures issued.Some? ==> logins[token].expiry == now + 604800
    {
      var name := Normalize(username);
      if name !in users { return None; }
      logins := logins[token := Login(name, now + TOKEN_TTL)];
      return Some(token);
    }

    method ValidateToken(token: string, now: int) returns (valid: bool)
      modifies this`logins
      ensures valid == Authenticated(users, old(logins), token, now).Some?
      ensures logins == AfterLookup(users, old(logins), token, now)
    {
      if token == "" { return false; }
      if token !in logins {
        assert logins - {token} == logins;
        return false;
      }
      if now > logins[token].expiry || logins[token].username !in users {
        logins := logins - {token};
        return false;
      }
      return true;
    }

    method GetUsernameForToken(token: string, now: int) returns (name: Option<string>)
      modifies this`logins
      ensures name == Authenticated(users, old(logins), token, now)
      ensures logins == AfterLookup(users, old(logins), token, now)
    {
      if token == "" { return None; }
      if token !in logins {
        assert logins - {token} == logins;
        return None;
      }
      if now > logins[token].expiry {
        logins := logins - {token};
        return None;
      }
      if logins[token].username !in users {
        logins := logins - {token};
        return None;
      }
      return Some(logins[token].username);
    }

    method RevokeToken(token: string)
      modifies this`logins
      ensures logins == old(logins) - {token}
    {
      logins := logins - {token};
    }

    method RevokeUserSessions(username: string, except: Option<string>) returns (revoked: nat)
      modifies this`logins
      ensures logins == AfterRevokeUser(old(logins), username, except)
      ensures revoked == |old(logins)| - |logins|
    {
      var before := logins;
      PurgeLogins(Normalize(username), except);
      assert logins.Keys <= before.Keys;
      SubsetCount(logins.Keys, before.Keys);
      revoked := |before| - |logins|;
    }
  }

  /** Counting at most one admin, with this user among them, means there is no other. */
  lemma OnlyAdmin(users: Users, name: string)
    requires IsAdmin(users, name)
    ensures |Admins(users)| <= 1 <==> Admins(users) == {name}
  {
    var rest := Admins(users) - {name};
    assert Admins(users) == rest + {name};
    assert |Admins(users)| == |rest| + 1;
    if rest == {} {
      assert Admins(users) == {name};
    }
  }
}
