/** What each account operation does, key by key and field by field (core/auth.py). */
module AuthFacts {
  import opened Wrappers
  import opened Text
  import opened Auth

  /** Every feature but the shell is on by default; nothing is limited. */
  lemma DefaultsAre()
    ensures DEFAULT_PRIVILEGES.Keys
         == {CanUseAgent, CanUseBrowser, CanUseBash, CanUseDocuments, CanUseResearch, CanGenerateImages,
             CanManageMemory, MaxMessagesPerDay, AllowedModels, AllowedModelsRestricted, BlockAllModels}
    ensures DEFAULT_PRIVILEGES[CanUseBash] == Flag(false)
    ensures DEFAULT_PRIVILEGES[AllowedModelsRestricted] == DEFAULT_PRIVILEGES[BlockAllModels] == Flag(false)
    ensures DEFAULT_PRIVILEGES[MaxMessagesPerDay] == Number(0) && DEFAULT_PRIVILEGES[AllowedModels] == Names([])
    ensures forall k ::
              k in {CanUseAgent, CanUseBrowser, CanUseDocuments, CanUseResearch, CanGenerateImages, CanManageMemory} ==>
                DEFAULT_PRIVILEGES[k] == Flag(true)
  {
  }

  /** An admin has every feature, the shell too, and is never limited or kept from a model. */
  lemma AdminHasEverything()
    ensures ADMIN_PRIVILEGES.Keys == DEFAULT_PRIVILEGES.Keys
    ensures forall k :: k in DEFAULT_PRIVILEGES && DEFAULT_PRIVILEGES[k].Flag? ==>
              ADMIN_PRIVILEGES[k] == Flag(k != AllowedModelsRestricted && k != BlockAllModels)
    ensures ADMIN_PRIVILEGES[MaxMessagesPerDay] == Number(0) && ADMIN_PRIVILEGES[AllowedModels] == Names([])
  {
    DefaultsAre();
  }

  /** A user's own value counts; a default fills in only what is missing; an admin's map is ignored. */
  lemma EffectiveIs(u: User, k: Privilege)
    ensures u.isAdmin ==> Effective(u) == ADMIN_PRIVILEGES
    ensures !u.isAdmin && u.privileges.Some? && k in u.privileges.value ==>
              k in Effective(u) && Effective(u)[k] == u.privileges.value[k]
    ensures !u.isAdmin && !(u.privileges.Some? && k in u.privileges.value) ==>
              (k in Effective(u) <==> k in DEFAULT_PRIVILEGES)
              && (k in DEFAULT_PRIVILEGES ==> Effective(u)[k] == DEFAULT_PRIVILEGES[k])
  {
  }

  /** A delete goes through exactly for another account's admin once the bearer tokens are revoked,
      and takes exactly that account. */
  lemma DeleteExactly(users: Users, username: string, requester: string, tokensRevoked: bool)
    ensures var (after, ok) := AfterDelete(users, username, requester, tokensRevoked);
            var name := Normalize(username);
            && (ok <==> name in users && name != requester && requester in users && users[requester].isAdmin
                        && tokensRevoked)
            && after.Keys == (if ok then users.Keys - {name} else users.Keys)
            && forall other :: other in after ==> after[other] == users[other]
  {
  }

  /** A rename goes through exactly for an admin, an existing account and a free, allowed name; the
      record moves as it is. */
  lemma RenameExactly(users: Users, oldName: string, newName: string, requester: string)
    ensures var (after, ok) := AfterRename(users, oldName, newName, requester);
            var from, to, who := Normalize(oldName), Normalize(newName), Normalize(requester);
            && (ok <==> from != "" && to != "" && from in users && to !in users && who in users && users[who].isAdmin
                        && to !in {"internal-tool", "api", "demo", "system", "__odysseus_local__"})
            && (!ok ==> after == users)
            && (ok ==>
                  && after.Keys == users.Keys - {from} + {to} && after[to] == users[from]
                  && forall other :: other in users && other != from ==> after[other] == users[other])
  {
  }

  /** Logins of the old name, and no others, carry the new one; none is lost or prolonged. */
  lemma RelabelExactly(logins: Logins, from: string, to: string, token: string)
    ensures token in Relabelled(logins, from, to) <==> token in logins
    ensures token in logins ==>
              && Relabelled(logins, from, to)[token].expiry == logins[token].expiry
              && Relabelled(logins, from, to)[token].username
                 == if Lower(Strip(logins[token].username)) == from then to else logins[token].username
  {
  }

  /** Who is promoted or demoted, when it is refused and why, and what the record is afterwards. */
  lemma SetAdminExactly(users: Users, username: string, admin: bool, requester: string)
    ensures var (after, r) := AfterSetAdmin(users, username, admin, requester);
            var name, who := Normalize(username), Normalize(requester);
            var allowed := name in users && who in users && users[who].isAdmin;
            && (r == USER_NOT_FOUND <==> name !in users)
            && (r == NOT_AUTHORIZED <==> name in users && !allowed)
            && (r == LAST_ADMIN <==> allowed && !admin && users[name].isAdmin
                                     && forall other :: other in users && other != name ==> !users[other].isAdmin)
            && after.Keys == users.Keys
            && (forall other :: other in users && other != name ==> after[other] == users[other])
            && (r != OK ==> after == users)
            && (r == OK ==>
                  && after[name].isAdmin == admin && after[name].passwordHash == users[name].passwordHash
                  && (users[name].isAdmin == admin ==> after[name] == users[name]))
  {
    var name := Normalize(username);
    if IsAdmin(users, name) {
      assert name in Admins(users);
      if Admins(users) != {name} {
        var other :| other in Admins(users) && other != name;
      } else {
        assert forall other :: other in users && other != name && users[other].isAdmin ==> other in Admins(users);
      }
    }
  }

  /** A promotion keeps the map it hides; a demotion brings it back; without one, the defaults. */
  lemma StashIs(users: Users, username: string, admin: bool, requester: string)
    requires AfterSetAdmin(users, username, admin, requester).1 == OK
    requires Normalize(username) in users && users[Normalize(username)].isAdmin != admin
    ensures var name := Normalize(username);
            var before, after := users[name], AfterSetAdmin(users, username, admin, requester).0[name];
            var kept := if admin then before.privileges else before.beforeAdmin;
            var map0 := if kept.Some? && kept.value != map[] then kept.value else DEFAULT_PRIVILEGES;
            && (admin ==> after.privileges == Some(ADMIN_PRIVILEGES) && after.beforeAdmin == Some(map0))
            && (!admin ==> after.privileges == Some(map0) && after.beforeAdmin == None)
  {
  }

  /** An edit goes through exactly for an existing non-admin and leaves all else of every record alone. */
  lemma EditExactly(users: Users, username: string, requested: Privileges)
    ensures var (after, ok) := AfterSetPrivileges(users, username, requested);
            var name := Normalize(username);
            && (ok <==> name in users && !users[name].isAdmin)
            && (!ok ==> after == users)
            && after.Keys == users.Keys
            && (forall other :: other in users && other != name ==> after[other] == users[other])
            && (ok ==> after[name] == users[name].(privileges := after[name].privileges))
  {
  }

  /** A token authenticates exactly while it is stored, unexpired, and its user exists. */
  lemma AuthenticatesExactly(users: Users, logins: Logins, token: string, now: int, name: string)
    ensures Authenticated(users, logins, token, now) == Some(name)
            <==> && token != "" && token in logins && logins[token].username == name
                 && now <= logins[token].expiry && name in users
  {
  }

  /** Looking a token up drops that token, if it does not authenticate, and no other. */
  lemma LookupExactly(users: Users, logins: Logins, token: string, now: int, t: string)
    ensures t in AfterLookup(users, logins, token, now) <==>
              t in logins && (t != token || token == "" || (now <= logins[t].expiry && logins[t].username in users))
    ensures t in AfterLookup(users, logins, token, now) ==> AfterLookup(users, logins, token, now)[t] == logins[t]
  {
  }

  /** Revoking drops the logins of that name and no other, sparing the excepted token. */
  lemma RevokeExactly(logins: Logins, username: string, except: Option<string>, t: string)
    ensures t in AfterRevokeUser(logins, username, except) <==>
              t in logins && (except == Some(t) || logins[t].username != Normalize(username))
    ensures t in AfterRevokeUser(logins, username, except) ==> AfterRevokeUser(logins, username, except)[t] == logins[t]
  {
  }

  /** Freshly issued, a token authenticates for exactly seven days, 604800 seconds. */
  lemma LoginLastsSevenDays(users: Users, logins: Logins, username: string, token: string, issued: int, now: int)
    requires Normalize(username) in users && token != ""
    ensures var after := logins[token := Login(Normalize(username), issued + TOKEN_TTL)];
            Authenticated(users, after, token, now)
            == if now <= issued + 604800 then Some(Normalize(username)) else None
  {
  }
}
