/** Deleting a user takes two critical sections: the account goes under the config lock, its
    login tokens go later under the sessions lock (core/auth.py). Here the two are separate
    steps and anything may run between them; rename is one step. */
module AuthDeletion {
  import opened Wrappers
  import opened Text
  import opened Auth

  datatype State = State(
    users: Users,
    logins: Logins,
    deleting: map<nat, string>)   // call -> account removed, tokens not yet purged

  datatype Action =
    | Create(username: string, hash: string, admin: bool)
    | SetAdmin(username: string, admin: bool, requester: string)
    | SetPrivileges(username: string, requested: Privileges)
    | Rename(username: string, newName: string, requester: string)
    | LogIn(username: string, token: string, now: int)
    | LogOut(token: string)
    | Lookup(token: string, now: int)
    | RevokeUser(username: string, except: Option<string>)
    | DeleteAccount(call: nat, username: string, requester: string, tokensRevoked: bool)
    | PurgeTokens(call: nat)

  function Next(s: State, a: Action): State {
    match a
    case Create(n, h, admin) => s.(users := AfterCreate(s.users, n, h, admin).0)
    case SetAdmin(n, admin, r) => s.(users := AfterSetAdmin(s.users, n, admin, r).0)
    case SetPrivileges(n, p) => s.(users := AfterSetPrivileges(s.users, n, p).0)
    case Rename(n, m, r) =>
      var (users, ok) := AfterRename(s.users, n, m, r);
      if ok then State(users, Relabelled(s.logins, Normalize(n), Normalize(m)), s.deleting) else s
    case LogIn(n, token, now) =>
      if Normalize(n) in s.users then s.(logins := s.logins[token := Login(Normalize(n), now + TOKEN_TTL)]) else s
    case LogOut(token) => s.(logins := s.logins - {token})
    case Lookup(token, now) => s.(logins := AfterLookup(s.users, s.logins, token, now))
    case RevokeUser(n, except) => s.(logins := AfterRevokeUser(s.logins, n, except))
    case DeleteAccount(call, n, r, t) =>
      var (users, ok) := AfterDelete(s.users, n, r, t);
      if ok && call !in s.deleting then State(users, s.logins, s.deleting[call := Normalize(n)]) else s
    case PurgeTokens(call) =>
      if call in s.deleting
      then State(s.users, WithoutUser(s.logins, s.deleting[call]), s.deleting - {call})
      else s
  }

  predicate OnAccounts(a: Action) { a.Create? || a.SetAdmin? || a.SetPrivileges? || a.Rename? }

  predicate OnLogins(a: Action) { a.LogIn? || a.LogOut? || a.Lookup? || a.RevokeUser? }

  /** The steps on accounts, but for the two halves of a delete, are the manager's own operations. */
  method PerformOnAccounts(m: AuthManager, a: Action, ghost s: State)
    requires s.users == m.users && s.logins == m.logins && OnAccounts(a)
    modifies m
    ensures Next(s, a) == State(m.users, m.logins, s.deleting)
  {
    match a
    case Create(n, h, admin) => var _ := m.CreateUser(n, h, admin);
    case SetAdmin(n, admin, r) => var _, _ := m.SetAdmin(n, admin, r);
    case SetPrivileges(n, p) => var _ := m.SetPrivileges(n, p);
    case Rename(n, to, r) => var _ := m.RenameUser(n, to, r);
  }

  /** The steps on logins are too. */
  method PerformOnLogins(m: AuthManager, a: Action, ghost s: State)
    requires s.users == m.users && s.logins == m.logins && OnLogins(a)
    modifies m
    ensures Next(s, a) == State(m.users, m.logins, s.deleting)
  {
    match a
    case LogIn(n, token, now) => var _ := m.CreateSessionTrusted(n, token, now);
    case LogOut(token) => m.RevokeToken(token);
    case Lookup(token, now) => var _ := m.GetUsernameForToken(token, now);
    case RevokeUser(n, except) => PerformRevoke(m, n, except, s);
  }

  method PerformRevoke(m: AuthManager, username: string, except: Option<string>, ghost s: State)
    requires s.users == m.users && s.logins == m.logins
    modifies m
    ensures Next(s, RevokeUser(username, except)) == State(m.users, m.logins, s.deleting)
  {
    RevokeStep(s, m.users, m.logins, username, except);
    var _ := m.RevokeUserSessions(username, except);
  }

  lemma RevokeStep(s: State, users: Users, logins: Logins, username: string, except: Option<string>)
    requires s.users == users && s.logins == logins
    ensures Next(s, RevokeUser(username, except))
         == State(users, AfterRevokeUser(logins, username, except), s.deleting)
  {
  }

  function Run(s: State, actions: seq<Action>): State
    decreases actions
  {
    if actions == [] then s else Run(Next(s, actions[0]), actions[1..])
  }

  /** The name has an account, or is being deleted by some call. */
  ghost predicate Known(s: State, name: string) {
    name in s.users || exists call :: call in s.deleting && s.deleting[call] == name
  }

  /** Every live token names an existing user, or one whose delete is between its two sections. */
  ghost predicate NoOrphans(s: State) {
    forall t :: t in s.logins ==> Known(s, s.logins[t].username)
  }

  lemma StillDeleting(s: State, next: State, name: string)
    requires Known(s, name) && name !in s.users
    requires forall call :: call in s.deleting && s.deleting[call] == name ==>
               call in next.deleting && next.deleting[call] == name
    ensures Known(next, name)
  {
    var call :| call in s.deleting && s.deleting[call] == name;
    assert call in next.deleting && next.deleting[call] == name;
  }

  lemma RenameKeepsKnown(s: State, a: Action, t: string)
    requires NoOrphans(s) && a.Rename? && t in Next(s, a).logins
    ensures Known(Next(s, a), Next(s, a).logins[t].username)
  {
    NormalizeIdempotent(a.username);
    var next := Next(s, a);
    var name := next.logins[t].username;
    if name !in next.users {
      assert name == s.logins[t].username && name !in s.users;
      StillDeleting(s, next, name);
    }
  }

  lemma DeleteKeepsKnown(s: State, a: Action, t: string)
    requires NoOrphans(s) && a.DeleteAccount? && t in Next(s, a).logins
    ensures Known(Next(s, a), Next(s, a).logins[t].username)
  {
    var next := Next(s, a);
    var name := next.logins[t].username;
    if name in s.users && name !in next.users {
      assert a.call in next.deleting && next.deleting[a.call] == name;
    } else if name !in next.users {
      StillDeleting(s, next, name);
    }
  }

  lemma PurgeKeepsKnown(s: State, a: Action, t: string)
    requires NoOrphans(s) && a.PurgeTokens? && t in Next(s, a).logins
    ensures Known(Next(s, a), Next(s, a).logins[t].username)
  {
    var next := Next(s, a);
    var name := next.logins[t].username;
    if name !in next.users {
      StillDeleting(s, next, name);
    }
  }

  /** No other action takes a user away or gives a token a new name. */
  lemma {:induction false} StepKeepsNoOrphans(s: State, a: Action)
    requires NoOrphans(s)
    ensures NoOrphans(Next(s, a))
  {
    var next := Next(s, a);
    forall t | t in next.logins ensures Known(next, next.logins[t].username) {
      if a.Rename? {
        RenameKeepsKnown(s, a, t);
      } else if a.DeleteAccount? {
        DeleteKeepsKnown(s, a, t);
      } else if a.PurgeTokens? {
        PurgeKeepsKnown(s, a, t);
      } else {
        OthersKeepKnown(s, a, t);
      }
    }
  }

  lemma OthersKeepKnown(s: State, a: Action, t: string)
    requires NoOrphans(s) && !a.Rename? && !a.DeleteAccount? && !a.PurgeTokens? && t in Next(s, a).logins
    ensures Known(Next(s, a), Next(s, a).logins[t].username)
  {
    var next := Next(s, a);
    var name := next.logins[t].username;
    assert s.users.Keys <= next.users.Keys && next.deleting == s.deleting;
    if !a.LogIn? {
      assert t in s.logins && name == s.logins[t].username;
    }
    if name !in next.users {
      StillDeleting(s, next, name);
    }
  }

  lemma {:induction false} RunKeepsNoOrphans(s: State, actions: seq<Action>)
    requires NoOrphans(s)
    ensures NoOrphans(Run(s, actions))
    decreases actions
  {
    if actions != [] {
      StepKeepsNoOrphans(s, actions[0]);
      RunKeepsNoOrphans(Next(s, actions[0]), actions[1..]);
    }
  }

  /** Once every delete has finished, every live token names an existing user. */
  lemma QuietStateHasNoOrphans(s: State, actions: seq<Action>)
    requires NoOrphans(s) && Run(s, actions).deleting == map[]
    ensures var end := Run(s, actions);
            forall t :: t in end.logins ==> end.logins[t].username in end.users
  {
    RunKeepsNoOrphans(s, actions);
  }

  // ---------- After a delete returns ----------

  /** The action may bring an account of this name into being. */
  predicate Makes(a: Action, name: string) {
    match a
    case Create(n, _, _) => Normalize(n) == name
    case Rename(_, m, _) => Normalize(m) == name
    case _ => false
  }

  ghost predicate NeverMade(actions: seq<Action>, name: string) {
    forall i :: 0 <= i < |actions| ==> !Makes(actions[i], name)
  }

  ghost predicate Forgotten(s: State, name: string) {
    && name !in s.users
    && forall t :: t in s.logins ==> s.logins[t].username != name
  }

  lemma StepKeepsForgotten(s: State, a: Action, name: string)
    requires Forgotten(s, name) && !Makes(a, name)
    ensures Forgotten(Next(s, a), name)
  {
  }

  lemma {:induction false} RunKeepsForgotten(s: State, actions: seq<Action>, name: string)
    requires Forgotten(s, name) && NeverMade(actions, name)
    ensures Forgotten(Run(s, actions), name)
    decreases actions
  {
    if actions != [] {
      StepKeepsForgotten(s, actions[0], name);
      RunKeepsForgotten(Next(s, actions[0]), actions[1..], name);
    }
  }

  lemma StepKeepsAbsent(s: State, a: Action, name: string)
    requires name !in s.users && !Makes(a, name)
    ensures name !in Next(s, a).users
  {
  }

  lemma {:induction false} RunKeepsAbsent(s: State, actions: seq<Action>, name: string)
    requires name !in s.users && NeverMade(actions, name)
    ensures name !in Run(s, actions).users
    decreases actions
  {
    if actions != [] {
      StepKeepsAbsent(s, actions[0], name);
      RunKeepsAbsent(Next(s, actions[0]), actions[1..], name);
    }
  }

  lemma {:induction false} RunKeepsPending(s: State, actions: seq<Action>, call: nat)
    requires call in s.deleting
    requires forall i :: 0 <= i < |actions| ==> actions[i] != PurgeTokens(call)
    ensures call in Run(s, actions).deleting && Run(s, actions).deleting[call] == s.deleting[call]
    decreases actions
  {
    if actions != [] {
      assert actions[0] != PurgeTokens(call);
      RunKeepsPending(Next(s, actions[0]), actions[1..], call);
    }
  }

  /** From the first section on, no token authenticates as the deleted name, and after the
      second no token carries it at all: whatever runs between and afterwards, until the name
      is made again. */
  lemma {:induction false} DeletedNameNeverAuthenticates(
      s: State, call: nat, username: string, requester: string, between: seq<Action>, after: seq<Action>,
          token: string, now: int)
    requires AfterDelete(s.users, username, requester, true).1 && call !in s.deleting
    requires NeverMade(between, Normalize(username)) && NeverMade(after, Normalize(username))
    requires forall i :: 0 <= i < |between| ==> between[i] != PurgeTokens(call)
    ensures var name := Normalize(username);
            var removed := Next(s, DeleteAccount(call, username, requester, true));
            var gap := Run(removed, between);
            var end := Run(Next(gap, PurgeTokens(call)), after);
            && Authenticated(gap.users, gap.logins, token, now) != Some(name)
            && Authenticated(end.users, end.logins, token, now) != Some(name)
            && Forgotten(end, name)
  {
    var name := Normalize(username);
    var removed := Next(s, DeleteAccount(call, username, requester, true));
    RunKeepsAbsent(removed, between, name);
    RunKeepsPending(removed, between, call);
    var gap := Run(removed, between);
    assert Forgotten(Next(gap, PurgeTokens(call)), name);
    RunKeepsForgotten(Next(gap, PurgeTokens(call)), after, name);
  }

  // ---------- A token of the deleted account is gone for good ----------

  predicate Issues(a: Action, token: string) {
    a.LogIn? && a.token == token
  }

  ghost predicate NeverIssued(actions: seq<Action>, token: string) {
    forall i :: 0 <= i < |actions| ==> !Issues(actions[i], token)
  }

  ghost predicate Spent(s: State, token: string, name: string) {
    name !in s.users && (token in s.logins ==> s.logins[token].username == name)
  }

  lemma StepKeepsSpent(s: State, a: Action, token: string, name: string)
    requires Spent(s, token, name) && !Makes(a, name) && !Issues(a, token)
    requires Normalize(name) == name
    ensures Spent(Next(s, a), token, name)
  {
  }

  lemma {:induction false} RunKeepsSpent(s: State, actions: seq<Action>, token: string, name: string)
    requires Spent(s, token, name) && NeverMade(actions, name) && NeverIssued(actions, token)
    requires Normalize(name) == name
    ensures Spent(Run(s, actions), token, name)
    decreases actions
  {
    if actions != [] {
      StepKeepsSpent(s, actions[0], token, name);
      RunKeepsSpent(Next(s, actions[0]), actions[1..], token, name);
    }
  }

  lemma {:induction false} RunKeepsRevoked(s: State, actions: seq<Action>, token: string)
    requires token !in s.logins && NeverIssued(actions, token)
    ensures token !in Run(s, actions).logins
    decreases actions
  {
    if actions != [] {
      assert !Issues(actions[0], token);
      RunKeepsRevoked(Next(s, actions[0]), actions[1..], token);
    }
  }

  /** A token the account held when it was deleted stays dead after the delete returns, even
      once the name is in use again. */
  lemma {:induction false} DeletedAccountsTokensStayDead(
      s: State, call: nat, username: string, requester: string, between: seq<Action>, after: seq<Action>, token: string)
    requires AfterDelete(s.users, username, requester, true).1 && call !in s.deleting
    requires token in s.logins && s.logins[token].username == Normalize(username)
    requires NeverMade(between, Normalize(username))
    requires NeverIssued(between, token) && NeverIssued(after, token)
    requires forall i :: 0 <= i < |between| ==> between[i] != PurgeTokens(call)
    ensures var gap := Run(Next(s, DeleteAccount(call, username, requester, true)), between);
            token !in Run(Next(gap, PurgeTokens(call)), after).logins
  {
    var name := Normalize(username);
    NormalizeIdempotent(username);
    var removed := Next(s, DeleteAccount(call, username, requester, true));
    RunKeepsSpent(removed, between, token, name);
    RunKeepsPending(removed, between, call);
    var gap := Run(removed, between);
    RunKeepsRevoked(Next(gap, PurgeTokens(call)), after, token);
  }

  /** Run back to back, the two sections are what `DeleteUser` does. */
  lemma TwoSectionsMakeOneDelete(s: State, call: nat, username: string, requester: string, tokensRevoked: bool)
    requires call !in s.deleting
    ensures var end := Next(Next(s, DeleteAccount(call, username, requester, tokensRevoked)), PurgeTokens(call));
            var (users, ok) := AfterDelete(s.users, username, requester, tokensRevoked);
            && end.users == users
            && end.logins == (if ok then WithoutUser(s.logins, Normalize(username)) else s.logins)
            && end.deleting == s.deleting
  {
    var mid := Next(s, DeleteAccount(call, username, requester, tokensRevoked));
    if call in mid.deleting {
      assert mid.deleting - {call} == s.deleting;
    }
  }

  // ---------- Logins that are not ended last ----------

  /** The name an account goes by after a step. */
  function NameAfter(s: State, a: Action, name: string): string {
    if a.Rename? && AfterRename(s.users, a.username, a.newName, a.requester).1 && Normalize(a.username) == name
    then Normalize(a.newName) else name
  }

  /** The step ends this login of the account with this name: it logs the token out or issues it
      anew, looks it up too late, revokes the account's logins without sparing it, or carries out
      either section of a delete of that name. A refused delete or login ends nothing. */
  predicate Ends(s: State, a: Action, token: string, name: string, expiry: int) {
    match a
    case LogIn(n, t, now) => t == token && Normalize(n) in s.users
        && Login(Normalize(n), now + TOKEN_TTL) != Login(name, expiry)
    case LogOut(t) => t == token
    case Lookup(t, now) => t == token && t != "" && now > expiry
    case RevokeUser(n, except) => Normalize(n) == name && except != Some(token)
    case DeleteAccount(call, n, r, revoked) =>
      Normalize(n) == name && call !in s.deleting && AfterDelete(s.users, n, r, revoked).1
    case PurgeTokens(call) => call in s.deleting && s.deleting[call] == name
    case _ => false
  }

  ghost predicate LoggedIn(s: State, token: string, name: string, expiry: int) {
    && token in s.logins && s.logins[token] == Login(name, expiry)
    && name in s.users && Normalize(name) == name
  }

  /** A login succeeds exactly for an existing user, and then lasts seven days from now. */
  lemma LogInLogsIn(s: State, username: string, token: string, now: int)
    ensures var n, name := Next(s, LogIn(username, token, now)), Normalize(username);
            if name in s.users then LoggedIn(n, token, name, now + 604800) && n.logins - {token} == s.logins - {token}
            else n == s
  {
    NormalizeIdempotent(username);
  }

  /** Nothing else gives a token to anyone or prolongs one. */
  lemma OnlyLogInIssues(s: State, a: Action, token: string)
    requires token in Next(s, a).logins
    ensures || (a.LogIn? && a.token == token)
            || (token in s.logins && Next(s, a).logins[token].expiry == s.logins[token].expiry
                && Next(s, a).logins[token].username == NameAfter(s, a, Normalize(s.logins[token].username)))
            || (token in s.logins && Next(s, a).logins[token] == s.logins[token])
  {
  }

  /** One step keeps a login, under the name the account then has, if and only if it does not end it. */
  lemma StepEndsExactly(s: State, a: Action, token: string, name: string, expiry: int)
    requires LoggedIn(s, token, name, expiry)
    ensures LoggedIn(Next(s, a), token, NameAfter(s, a, name), expiry) <==> !Ends(s, a, token, name, expiry)
  {
    if a.Rename? {
      NormalizeIdempotent(a.newName);
    }
  }

  function NameAfterAll(s: State, actions: seq<Action>, name: string): string
    decreases actions
  {
    if actions == [] then name else NameAfterAll(Next(s, actions[0]), actions[1..], NameAfter(s, actions[0], name))
  }

  /** No action of the run ends the login. */
  ghost predicate NeverEnded(s: State, actions: seq<Action>, token: string, name: string, expiry: int)
    decreases actions
  {
    actions != [] ==>
      && !Ends(s, actions[0], token, name, expiry)
      && NeverEnded(Next(s, actions[0]), actions[1..], token, NameAfter(s, actions[0], name), expiry)
  }

  /** The login is there after every part of the run. */
  ghost predicate LoggedInThroughout(s: State, actions: seq<Action>, token: string, name: string, expiry: int) {
    forall n :: 0 <= n <= |actions| ==>
      LoggedIn(Run(s, actions[..n]), token, NameAfterAll(s, actions[..n], name), expiry)
  }

  lemma PrefixShifts(s: State, actions: seq<Action>, name: string, n: nat)
    requires 0 < n <= |actions|
    ensures Run(s, actions[..n]) == Run(Next(s, actions[0]), actions[1..][..n - 1])
    ensures NameAfterAll(s, actions[..n], name)
         == NameAfterAll(Next(s, actions[0]), actions[1..][..n - 1], NameAfter(s, actions[0], name))
  {
    assert actions[..n][1..] == actions[1..][..n - 1];
  }

  /** A login lasts through a run if and only if no action of the run ends it: logins, lookups,
      revocations and deletes of others, refused deletes of its own account and renames leave it,
      under the account's new name. */
  lemma {:induction false} LoginsLastUntilEnded(
      s: State, actions: seq<Action>, token: string, name: string, expiry: int)
    requires LoggedIn(s, token, name, expiry)
    ensures LoggedInThroughout(s, actions, token, name, expiry) <==> NeverEnded(s, actions, token, name, expiry)
    decreases actions
  {
    assert actions[..0] == [];
    if actions != [] {
      var next, now := Next(s, actions[0]), NameAfter(s, actions[0], name);
      StepEndsExactly(s, actions[0], token, name, expiry);
      if LoggedIn(next, token, now, expiry) {
        LoginsLastUntilEnded(next, actions[1..], token, now, expiry);
        LastsFromNext(s, actions, token, name, expiry);
      } else {
        PrefixShifts(s, actions, name, 1);
        assert actions[1..][..0] == [];
        assert !LoggedIn(Run(s, actions[..1]), token, NameAfterAll(s, actions[..1], name), expiry);
      }
    }
  }

  lemma LastsFromNext(s: State, actions: seq<Action>, token: string, name: string, expiry: int)
    requires actions != [] && LoggedIn(s, token, name, expiry)
    ensures LoggedInThroughout(s, actions, token, name, expiry)
            <==> LoggedInThroughout(Next(s, actions[0]), actions[1..], token, NameAfter(s, actions[0], name), expiry)
  {
    var next, now := Next(s, actions[0]), NameAfter(s, actions[0], name);
    assert actions[..0] == [];
    if LoggedInThroughout(s, actions, token, name, expiry) {
      forall m | 0 <= m <= |actions[1..]|
        ensures LoggedIn(Run(next, actions[1..][..m]), token, NameAfterAll(next, actions[1..][..m], now), expiry)
      {
        PrefixShifts(s, actions, name, m + 1);
        assert LoggedIn(Run(s, actions[..m + 1]), token, NameAfterAll(s, actions[..m + 1], name), expiry);
      }
    }
    if LoggedInThroughout(next, actions[1..], token, now, expiry) {
      forall n | 0 <= n <= |actions|
        ensures LoggedIn(Run(s, actions[..n]), token, NameAfterAll(s, actions[..n], name), expiry)
      {
        if n > 0 {
          PrefixShifts(s, actions, name, n);
          assert LoggedIn(Run(next, actions[1..][..n - 1]), token, NameAfterAll(next, actions[1..][..n - 1], now),
              expiry);
        }
      }
    }
  }

  /** And while it lasts, its token authenticates as its account until it expires. */
  lemma LoggedInAuthenticates(s: State, token: string, name: string, expiry: int, now: int)
    requires LoggedIn(s, token, name, expiry) && token != ""
    ensures Authenticated(s.users, s.logins, token, now) == if now <= expiry then Some(name) else None
  {
  }

  /** The purge goes by name alone: an account made again between the two sections of a delete, and
      logged into, is logged out by the second section. */
  lemma LatePurgeEndsNewLogins(
      s: State, call: nat, username: string, requester: string, hash: string, admin: bool, token: string, now: int)
    requires AfterDelete(s.users, username, requester, true).1 && call !in s.deleting
    requires Normalize(username) != "" && Normalize(username) !in RESERVED_USERNAMES
    ensures var name := Normalize(username);
            var again := Next(Next(Next(s, DeleteAccount(call, username, requester, true)),
                Create(username, hash, admin)),
                              LogIn(username, token, now));
            && LoggedIn(again, token, name, now + TOKEN_TTL)
            && name in Next(again, PurgeTokens(call)).users
            && token !in Next(again, PurgeTokens(call)).logins
  {
    NormalizeIdempotent(username);
  }
}
