/** How a device login ends (routes/device_flow.py): once it is authorized, refused, cancelled or
    expired, no poll of it begins again and its id is never reused. */
module DeviceEndings {
  import opened DeviceRuns

  predicate Ends(e: Event, id: string) {
    e.id == id && (e.Authorized? || e.Closed? || e.Cancelled?)
  }

  /** Up to position n, the login with this id has ended only by cancels later than `began`. */
  ghost predicate OnlyCancelledSince(log: seq<Event>, n: nat, id: string, began: nat)
    requires n <= |log|
  {
    forall i :: 0 <= i < n && Ends(log[i], id) ==> log[i].Cancelled? && i > began
  }

  ghost predicate NotEnded(log: seq<Event>, n: nat, id: string)
    requires n <= |log|
  {
    forall i :: 0 <= i < n ==> !Ends(log[i], id)
  }

  ghost predicate StartedWith(log: seq<Event>, n: nat, id: string, expiresAt: real)
    requires n <= |log|
  {
    exists i :: 0 <= i < n && log[i] == Start(id, expiresAt)
  }

  /** What each event says about the log before it. */
  ghost predicate EventIsSound(log: seq<Event>, j: nat)
    requires j < |log|
  {
    match log[j]
    case Start(id, _) => forall i :: 0 <= i < j ==> log[i].id != id
    case Fetch(id, at) => NotEnded(log, j, id) && exists x :: at <= x && StartedWith(log, j, id, x)
    case Ask(id, _, began, _) => began < j && log[began].Fetch? && log[began].id == id
        && OnlyCancelledSince(log, j, id, began)
    case Rescheduled(id, _) => NotEnded(log, j, id)
    case Authorized(id, began) => began < j && log[began].Fetch? && log[began].id == id
        && OnlyCancelledSince(log, j, id, began)
    case Closed(id, began) => began < j && log[began].Fetch? && log[began].id == id
        && OnlyCancelledSince(log, j, id, began)
    case Cancelled(_) => true
  }

  ghost predicate LogIsSound(log: seq<Event>) {
    forall j :: 0 <= j < |log| ==> EventIsSound(log, j)
  }

  function Began(p: Poll): nat
    requires p != Idle
  {
    match p case Found(_, b) => b case Unthrottled(_, b, _) => b case Answered(_, b, _) => b
  }

  ghost predicate Coherent(s: State) {
    && LogIsSound(s.log)
    && (forall id :: id in s.pending ==>
        NotEnded(s.log, |s.log|, id) && StartedWith(s.log, |s.log|, id, s.pending[id].expiresAt))
    && (s.poll != Idle ==>
          var b := Began(s.poll);
          b < |s.log| && s.log[b].Fetch? && s.log[b].id == s.poll.id
              && OnlyCancelledSince(s.log, |s.log|, s.poll.id, b))
  }

  /** One more event leaves what earlier events said as it was. */
  lemma ExtendSound(log: seq<Event>, e: Event)
    requires LogIsSound(log) && EventIsSound(log + [e], |log|)
    ensures LogIsSound(log + [e])
  {
    var more := log + [e];
    forall j | 0 <= j < |log| ensures EventIsSound(more, j) {
      assert EventIsSound(log, j) && more[j] == log[j];
      if log[j].Fetch? {
        var x :| log[j].at <= x && StartedWith(log, j, log[j].id, x);
        var i :| 0 <= i < j && log[i] == Start(log[j].id, x);
        assert more[i] == log[i];
        assert StartedWith(more, j, log[j].id, x);
      }
    }
  }

  lemma ExtendEntry(log: seq<Event>, e: Event, id: string, expiresAt: real)
    requires NotEnded(log, |log|, id) && StartedWith(log, |log|, id, expiresAt) && !Ends(e, id)
    ensures NotEnded(log + [e], |log| + 1, id) && StartedWith(log + [e], |log| + 1, id, expiresAt)
    ensures StartedWith(log + [e], |log|, id, expiresAt)
  {
    var i :| 0 <= i < |log| && log[i] == Start(id, expiresAt);
    assert (log + [e])[i] == log[i];
  }

  lemma ExtendPoll(log: seq<Event>, e: Event, id: string, began: nat)
    requires began < |log| && OnlyCancelledSince(log, |log|, id, began)
    ensures OnlyCancelledSince(log + [e], |log|, id, began)
    ensures !Ends(e, id) || e.Cancelled? ==> OnlyCancelledSince(log + [e], |log| + 1, id, began)
  {
  }

  lemma StartIsCoherent(s: State, a: Action)
    requires Coherent(s) && Enabled(s, a) && a.DoStart?
    ensures Coherent(Next(s, a))
  {
    var n := Next(s, a);
    var e := n.log[|s.log|];
    assert n.log == s.log + [e];
    assert forall i :: 0 <= i < |s.log| ==> s.log[i] in s.log;
    assert forall i :: 0 <= i < |s.log| ==> n.log[i] == s.log[i];
    assert EventIsSound(n.log, |s.log|);
    ExtendSound(s.log, e);
    forall id | id in n.pending
      ensures NotEnded(n.log, |n.log|, id) && StartedWith(n.log, |n.log|, id, n.pending[id].expiresAt)
    {
      if id == a.id {
        assert n.log[|s.log|] == Start(id, n.pending[id].expiresAt);
      } else {
        ExtendEntry(s.log, e, id, s.pending[id].expiresAt);
      }
    }
  }

  lemma FetchIsCoherent(s: State, a: Action)
    requires Coherent(s) && Enabled(s, a) && a.DoFetch?
    ensures Coherent(Next(s, a))
  {
    var n := Next(s, a);
    if |n.log| > |s.log| {
      var e := Fetch(a.id, a.now);
      assert n.log == s.log + [e];
      forall id | id in n.pending
        ensures NotEnded(n.log, |n.log|, id) && StartedWith(n.log, |n.log|, id, n.pending[id].expiresAt)
      {
        ExtendEntry(s.log, e, id, s.pending[id].expiresAt);
      }
      ExtendEntry(s.log, e, a.id, s.pending[a.id].expiresAt);
      assert a.now <= s.pending[a.id].expiresAt;
      assert EventIsSound(n.log, |s.log|);
      ExtendSound(s.log, e);
    }
  }

  lemma CancelIsCoherent(s: State, a: Action)
    requires Coherent(s) && Enabled(s, a) && a.DoCancel?
    ensures Coherent(Next(s, a))
  {
    var n := Next(s, a);
    var e := Cancelled(a.id);
    assert n.log == s.log + [e];
    ExtendSound(s.log, e);
    forall id | id in n.pending
      ensures NotEnded(n.log, |n.log|, id) && StartedWith(n.log, |n.log|, id, n.pending[id].expiresAt)
    {
      ExtendEntry(s.log, e, id, s.pending[id].expiresAt);
    }
    if s.poll != Idle {
      ExtendPoll(s.log, e, s.poll.id, Began(s.poll));
    }
  }

  /** What a poll adds to the log is sound: its login was looked up, and ended since by cancels at most. */
  lemma PollEventIsSound(s: State, a: Action)
    requires Coherent(s) && Enabled(s, a) && (a.DoAsk? || a.DoFinish?) && |Next(s, a).log| > |s.log|
    ensures Next(s, a).log == s.log + [Next(s, a).log[|s.log|]]
    ensures LogIsSound(Next(s, a).log)
  {
    var n := Next(s, a);
    var e := n.log[|s.log|];
    assert n.log == s.log + [e];
    ExtendPoll(s.log, e, s.poll.id, Began(s.poll));
    assert n.log[Began(s.poll)] == s.log[Began(s.poll)];
    assert EventIsSound(n.log, |s.log|);
    ExtendSound(s.log, e);
  }

  lemma PollIsCoherent(s: State, a: Action)
    requires Coherent(s) && Enabled(s, a) && (a.DoThrottle? || a.DoAsk? || a.DoFinish?)
    ensures Coherent(Next(s, a))
  {
    var n := Next(s, a);
    if |n.log| > |s.log| {
      var e := n.log[|s.log|];
      PollEventIsSound(s, a);
      ExtendPoll(s.log, e, s.poll.id, Began(s.poll));
      forall id | id in n.pending
        ensures NotEnded(n.log, |n.log|, id) && StartedWith(n.log, |n.log|, id, n.pending[id].expiresAt)
      {
        ExtendEntry(s.log, e, id, s.pending[id].expiresAt);
      }
    }
  }

  lemma {:induction false} RunIsCoherent(s: State, actions: seq<Action>)
    requires Coherent(s) && IsRun(s, actions)
    ensures Coherent(After(s, actions))
    decreases actions
  {
    if actions != [] {
      var a := actions[0];
      if a.DoStart? {
        StartIsCoherent(s, a);
      } else if a.DoFetch? {
        FetchIsCoherent(s, a);
      } else if a.DoCancel? {
        CancelIsCoherent(s, a);
      } else {
        PollIsCoherent(s, a);
      }
      RunIsCoherent(Next(s, a), actions[1..]);
    }
  }

  /** In every run, once a login has ended its id is never started or looked up with success
      again; the provider can be asked once more only by a poll that was already under way when
      a cancel came. */
  lemma EndedLoginsStayEnded(actions: seq<Action>, i: nat, j: nat, id: string)
    requires IsRun(EMPTY, actions)
    requires i < j < |After(EMPTY, actions).log| && Ends(After(EMPTY, actions).log[i], id)
        && After(EMPTY, actions).log[j].id == id
    ensures var log := After(EMPTY, actions).log;
            && !log[j].Start? && !log[j].Fetch? && !log[j].Rescheduled?
            && (log[j].Ask? || log[j].Authorized? || log[j].Closed? ==> log[i].Cancelled? && log[j].began < i)
  {
    RunIsCoherent(EMPTY, actions);
    var log := After(EMPTY, actions).log;
    assert EventIsSound(log, j);
  }

  /** Each start yields at most one authorized answer, and none after a refusal. */
  lemma AtMostOneAnswer(actions: seq<Action>, i: nat, j: nat)
    requires IsRun(EMPTY, actions)
    requires i < j < |After(EMPTY, actions).log|
    requires var log := After(EMPTY, actions).log;
             && (log[i].Authorized? || log[i].Closed?) && (log[j].Authorized? || log[j].Closed?)
    ensures After(EMPTY, actions).log[i].id != After(EMPTY, actions).log[j].id
  {
    var log := After(EMPTY, actions).log;
    if log[i].id == log[j].id {
      EndedLoginsStayEnded(actions, i, j, log[i].id);
    }
  }

  /** A successful lookup comes no later than the expiry its start announced. */
  lemma ExpiredLoginsAreNotPolled(actions: seq<Action>, i: nat, j: nat)
    requires IsRun(EMPTY, actions)
    requires var log := After(EMPTY, actions).log;
             i < |log| && j < |log| && log[i].Start? && log[j].Fetch? && log[i].id == log[j].id
    ensures var log := After(EMPTY, actions).log;
            log[j].at <= log[i].expiresAt
  {
    RunIsCoherent(EMPTY, actions);
    var log := After(EMPTY, actions).log;
    assert EventIsSound(log, i) && EventIsSound(log, j);
    var x :| log[j].at <= x && StartedWith(log, j, log[j].id, x);
    var k :| 0 <= k < j && log[k] == Start(log[j].id, x);
    assert EventIsSound(log, k);
    assert k == i;
  }

  /** Every provider poll has a successful lookup of the same login before it. */
  lemma AskFollowsFetch(actions: seq<Action>, j: nat)
    requires IsRun(EMPTY, actions)
    requires j < |After(EMPTY, actions).log| && After(EMPTY, actions).log[j].Ask?
    ensures var log := After(EMPTY, actions).log;
            log[j].began < j && log[log[j].began].Fetch? && log[log[j].began].id == log[j].id
  {
    RunIsCoherent(EMPTY, actions);
    assert EventIsSound(After(EMPTY, actions).log, j);
  }

  // ---------- Logins that have not ended ----------

  /** Every login that was started, has not ended and is not past its expiry is still to be found. */
  ghost predicate Available(s: State) {
    forall i ::
      && 0 <= i < |s.log| && s.log[i].Start?
      && NotEnded(s.log, |s.log|, s.log[i].id) && s.clock <= s.log[i].expiresAt ==>
      s.log[i].id in s.pending && s.pending[s.log[i].id].expiresAt == s.log[i].expiresAt
  }

  lemma StepIsAvailable(s: State, a: Action)
    requires Available(s) && Enabled(s, a)
    ensures Available(Next(s, a))
  {
    var n := Next(s, a);
    assert |n.log| >= |s.log| && forall i :: 0 <= i < |s.log| ==> n.log[i] == s.log[i];
    forall i | 0 <= i < |n.log| && n.log[i].Start? && NotEnded(n.log, |n.log|, n.log[i].id)
        && n.clock <= n.log[i].expiresAt
      ensures n.log[i].id in n.pending && n.pending[n.log[i].id].expiresAt == n.log[i].expiresAt
    {
      if i < |s.log| {
        assert NotEnded(s.log, |s.log|, s.log[i].id);
        StepKeepsEntry(s, a, i);
      }
    }
  }

  /** A step takes an entry away only by ending its login or past its expiry. */
  lemma StepKeepsEntry(s: State, a: Action, i: nat)
    requires Enabled(s, a) && i < |s.log| && s.log[i].Start?
    requires s.log[i].id in s.pending && s.pending[s.log[i].id].expiresAt == s.log[i].expiresAt
    requires var n := Next(s, a); NotEnded(n.log, |n.log|, s.log[i].id) && n.clock <= s.log[i].expiresAt
    ensures var n := Next(s, a); s.log[i].id in n.pending && n.pending[s.log[i].id].expiresAt == s.log[i].expiresAt
  {
    var n, id := Next(s, a), s.log[i].id;
    if |n.log| > |s.log| {
      assert !Ends(n.log[|s.log|], id);
    }
    if a.DoStart? {
      assert s.log[i] in s.log;
    }
  }

  lemma {:induction false} RunIsAvailable(s: State, actions: seq<Action>)
    requires Available(s) && IsRun(s, actions)
    ensures Available(After(s, actions))
    decreases actions
  {
    if actions != [] {
      StepIsAvailable(s, actions[0]);
      RunIsAvailable(Next(s, actions[0]), actions[1..]);
    }
  }

  /** Until a login has ended or its expiry has passed, the next lookup finds it. */
  lemma UnendedLoginsStayAvailable(actions: seq<Action>, i: nat, now: real)
    requires IsRun(EMPTY, actions) && i < |After(EMPTY, actions).log|
    requires var s := After(EMPTY, actions);
             && s.log[i].Start? && NotEnded(s.log, |s.log|, s.log[i].id)
             && Enabled(s, DoFetch(s.log[i].id, now)) && now <= s.log[i].expiresAt
    ensures var s := After(EMPTY, actions);
            Next(s, DoFetch(s.log[i].id, now)).poll == Found(s.log[i].id, |s.log|)
  {
    RunIsAvailable(EMPTY, actions);
  }
}
