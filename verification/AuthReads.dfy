/** The lock-free `get_privileges`, interleaved with the single writes of `set_admin` and
    `set_privileges` on one user record (core/auth.py). Writers hold the config lock, so at
    most one is part-way through; a reader takes no lock and reads two fields at two moments. */
module AuthReads {
  import opened Wrappers
  import opened Auth

  /** Where the writer that holds the lock has got to. */
  datatype Writer =
    | Free
    | FlagSet                                // promotion: flag written
    | Stashed                                // promotion: flag and stash written
    | Popped(stash: Option<Privileges>)      // demotion: stash taken out
    | Restored                               // demotion: stored map written back

  datatype State = State(user: User, writer: Writer)

  /** `set_privileges` on a user who is not an admin: one write. */
  ghost predicate Edits(s: State, t: State) {
    && s.writer == Free && !s.user.isAdmin && t.writer == Free
    && exists requested: Privileges ::
         t.user == s.user.(privileges := Some(Merged(s.user.privileges) + KnownPart(requested)))
  }

  /** One write, or one step of some other user's operation. */
  ghost predicate Step(s: State, t: State) {
    match s.writer
    case Free =>
      || t == s
      || (!s.user.isAdmin && t == State(FlagAdmin(s.user), FlagSet))
      || (s.user.isAdmin && t == State(DropStash(s.user), Popped(s.user.beforeAdmin)))
      || Edits(s, t)
    case FlagSet => t == s || t == State(StashPrivileges(s.user), Stashed)
    case Stashed => t == s || t == State(GrantAll(s.user), Free)
    case Popped(stash) => t == s || t == State(RestorePrivileges(s.user, stash), Restored)
    case Restored => t == s || t == State(ClearAdmin(s.user), Free)
  }

  ghost predicate IsRun(run: seq<State>) {
    && run != []
    && run[0].writer == Free
    && forall i :: 0 <= i < |run| - 1 ==> Step(run[i], run[i + 1])
  }

  /** What a reader returns: it reads the flag at moment i and, if the flag was down, the stored map at moment j. */
  function Read(run: seq<State>, i: nat, j: nat): Privileges
    requires i <= j < |run|
  {
    if run[i].user.isAdmin then ADMIN_PRIVILEGES else Merged(run[j].user.privileges)
  }

  /** The map was what the user could do at some moment from i to j. */
  ghost predicate HeldDuring(run: seq<State>, i: nat, j: nat, p: Privileges)
    requires i <= j < |run|
  {
    exists k :: i <= k <= j && Effective(run[k].user) == p
  }

  lemma AdminMapIsComplete()
    ensures Merged(Some(ADMIN_PRIVILEGES)) == ADMIN_PRIVILEGES
    ensures OrDefault(Some(ADMIN_PRIVILEGES)) == ADMIN_PRIVILEGES
  {
    assert ADMIN_PRIVILEGES.Keys == DEFAULT_PRIVILEGES.Keys;
    assert CanUseAgent in ADMIN_PRIVILEGES;
  }

  /** Falling back to the defaults and merging over them come to the same thing. */
  lemma FallbackIsNeutral(stored: Option<Privileges>)
    ensures Merged(Some(OrDefault(stored))) == Merged(stored)
    ensures OrDefault(stored) != map[]
  {
    if stored == None || stored.value == map[] {
      assert DEFAULT_PRIVILEGES + DEFAULT_PRIVILEGES == DEFAULT_PRIVILEGES == Merged(stored);
      assert CanUseAgent in DEFAULT_PRIVILEGES;
    }
  }

  /** Whoever is part-way through a write has the flag up. */
  lemma {:induction false} BusyMeansFlagged(run: seq<State>, k: nat)
    requires IsRun(run) && k < |run|
    ensures run[k].writer != Free ==> run[k].user.isAdmin
  {
    if k > 0 {
      BusyMeansFlagged(run, k - 1);
      assert Step(run[k - 1], run[k]);
    }
  }

  /** What is left in the record, since a moment i at which the flag was down. */
  ghost predicate Accounted(run: seq<State>, i: nat, j: nat)
    requires i <= j < |run|
  {
    var u := run[j].user;
    match run[j].writer
    case Free =>
      && HeldDuring(run, i, j, Merged(u.privileges))
      && (u.isAdmin ==> u.beforeAdmin.Some? && HeldDuring(run, i, j, Merged(u.beforeAdmin)))
    case FlagSet => HeldDuring(run, i, j, Merged(u.privileges))
    case Stashed =>
      && HeldDuring(run, i, j, Merged(u.privileges))
      && u.beforeAdmin.Some? && HeldDuring(run, i, j, Merged(u.beforeAdmin))
    case Popped(stash) =>
      && HeldDuring(run, i, j, Merged(u.privileges))
      && stash.Some? && HeldDuring(run, i, j, Merged(stash))
    case Restored => HeldDuring(run, i, j, Merged(u.privileges))
  }

  lemma HeldLonger(run: seq<State>, i: nat, j: nat, p: Privileges)
    requires i <= j < |run| - 1 && HeldDuring(run, i, j, p)
    ensures HeldDuring(run, i, j + 1, p)
  {
    var k :| i <= k <= j && Effective(run[k].user) == p;
    assert i <= k <= j + 1;
  }

  lemma {:induction false} StepAccounts(run: seq<State>, i: nat, j: nat)
    requires IsRun(run) && i < j < |run| && Accounted(run, i, j - 1)
    ensures Accounted(run, i, j)
  {
    BusyMeansFlagged(run, j - 1);
    var s, t := run[j - 1], run[j];
    assert Step(s, t);
    HeldLonger(run, i, j - 1, Merged(s.user.privileges));
    assert HeldDuring(run, i, j, Effective(t.user));
    match s.writer
    case Free =>
      if s.user.isAdmin {
        HeldLonger(run, i, j - 1, Merged(s.user.beforeAdmin));
      }
    case FlagSet =>
      FallbackIsNeutral(s.user.privileges);
    case Stashed =>
      HeldLonger(run, i, j - 1, Merged(s.user.beforeAdmin));
      AdminMapIsComplete();
    case Popped(stash) =>
      HeldLonger(run, i, j - 1, Merged(stash));
      FallbackIsNeutral(stash);
    case Restored =>
  }

  lemma StartAccounts(run: seq<State>, i: nat)
    requires IsRun(run) && i < |run| && !run[i].user.isAdmin
    ensures Accounted(run, i, i)
  {
    BusyMeansFlagged(run, i);
    assert HeldDuring(run, i, i, Effective(run[i].user));
  }

  lemma {:induction false} RunAccounts(run: seq<State>, i: nat, j: nat)
    requires IsRun(run) && i <= j < |run| && !run[i].user.isAdmin
    ensures Accounted(run, i, j)
    decreases j
  {
    if i == j {
      StartAccounts(run, i);
    } else {
      RunAccounts(run, i, j - 1);
      StepAccounts(run, i, j);
    }
  }

  /** Linearizability: whatever single writes fall between the two reads, the answer is the
      user's effective map at some moment of the read. */
  lemma ReadIsLinearizable(run: seq<State>, i: nat, j: nat)
    requires IsRun(run) && i <= j < |run|
    ensures HeldDuring(run, i, j, Read(run, i, j))
  {
    if run[i].user.isAdmin {
      assert Effective(run[i].user) == Read(run, i, j);
    } else {
      RunAccounts(run, i, j);
      BusyMeansFlagged(run, j);
    }
  }

  // ---------- What a user was given ----------

  /** The map a user was last given as a non-admin: at the start of the run, the one a demotion
      would restore if the user is an admin then, and afterwards what the latest edit wrote. */
  ghost function Given(run: seq<State>, k: nat): Privileges
    requires k < |run|
  {
    if k == 0 then Merged(if run[0].user.isAdmin then run[0].user.beforeAdmin else run[0].user.privileges)
    else if Edits(run[k - 1], run[k]) then Merged(run[k].user.privileges)
    else Given(run, k - 1)
  }

  /** Through every single write, what was given is in the stored map, the stash, or the writer's hands. */
  ghost predicate Keeps(s: State, given: Privileges) {
    match s.writer
    case Free => Merged(if s.user.isAdmin then s.user.beforeAdmin else s.user.privileges) == given
    case FlagSet => Merged(s.user.privileges) == given
    case Stashed => Merged(s.user.beforeAdmin) == given
    case Popped(stash) => Merged(stash) == given
    case Restored => Merged(s.user.privileges) == given
  }

  lemma StepKeeps(s: State, t: State, given: Privileges)
    requires Step(s, t) && Keeps(s, given) && (s.writer != Free ==> s.user.isAdmin)
    ensures Keeps(t, if Edits(s, t) then Merged(t.user.privileges) else given)
  {
    FallbackIsNeutral(s.user.privileges);
    if s.writer.Popped? { FallbackIsNeutral(s.writer.stash); }
  }

  lemma {:induction false} RunKeepsGiven(run: seq<State>, k: nat)
    requires IsRun(run) && k < |run|
    ensures Keeps(run[k], Given(run, k))
  {
    if k > 0 {
      RunKeepsGiven(run, k - 1);
      BusyMeansFlagged(run, k - 1);
      StepKeeps(run[k - 1], run[k], Given(run, k - 1));
    }
  }

  /** Whenever the flag is down, the stored map is the one last given: through any number of stints
      as admin, no write of a promotion or demotion is left in it. */
  lemma DemotedUserHasGivenMap(run: seq<State>, k: nat)
    requires IsRun(run) && k < |run| && !run[k].user.isAdmin
    ensures Effective(run[k].user) == Given(run, k)
  {
    RunKeepsGiven(run, k);
    BusyMeansFlagged(run, k);
  }

  /** What was given comes from the start or from an edit, never from a promotion. */
  lemma {:induction false} GivenHasSource(run: seq<State>, k: nat)
    requires IsRun(run) && k < |run|
    ensures Given(run, k) == Given(run, 0)
            || exists e :: 0 <= e < k && Edits(run[e], run[e + 1])
                && Given(run, k) == Merged(run[e + 1].user.privileges)
  {
    if k > 0 && !Edits(run[k - 1], run[k]) {
      GivenHasSource(run, k - 1);
    }
  }

  /** A read that begins and ends with the flag down returns the map last given when it ends,
      whatever stints as admin lie between its two reads: never the admin map. */
  lemma DemotedReaderSeesGivenMap(run: seq<State>, i: nat, j: nat)
    requires IsRun(run) && i <= j < |run| && !run[i].user.isAdmin && !run[j].user.isAdmin
    ensures Read(run, i, j) == Given(run, j)
  {
    DemotedUserHasGivenMap(run, j);
  }

  /** The writes of the locked sections are runs of these steps. */
  lemma WritesAreSteps(u: User)
    ensures !u.isAdmin ==>
              var w := Promotion(u);
              IsRun([State(u, Free), State(w[0], FlagSet), State(w[1], Stashed), State(w[2], Free)])
    ensures u.isAdmin ==>
              var w := Demotion(u);
              IsRun([State(u, Free), State(w[0], Popped(u.beforeAdmin)), State(w[1], Restored), State(w[2], Free)])
  {
  }

  /** Every intermediate record shows readers either the map before the operation or the map
      after it: a promotion shows the admin map from its first write on, a demotion up to its last,
      and the last write of each reaches the result of the locked section. */
  lemma WritesAreAtomicToReaders(u: User)
    ensures !u.isAdmin ==>
              var w := Promotion(u);
              && w[0].isAdmin && w[1].isAdmin && w[0].privileges == w[1].privileges == u.privileges
              && Effective(w[0]) == Effective(w[1]) == Effective(w[2]) == ADMIN_PRIVILEGES
              && w[2] == User(u.passwordHash, true, Some(ADMIN_PRIVILEGES), Some(OrDefault(u.privileges)))
    ensures u.isAdmin ==>
              var w := Demotion(u);
              && w[0].isAdmin && w[1].isAdmin && w[0].privileges == u.privileges
              && Effective(w[0]) == Effective(w[1]) == Effective(u) == ADMIN_PRIVILEGES
              && w[2] == User(u.passwordHash, false, Some(OrDefault(u.beforeAdmin)), None)
  {
  }
}
