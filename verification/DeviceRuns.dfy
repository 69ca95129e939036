/** Device logins over whole runs (routes/device_flow.py). A start is one step of the event
    loop and so is a poll, but cancels run on another thread: they may fall between any two of
    a poll's calls into the store, so those calls are separate steps here. */
module DeviceRuns {
  import opened Wrappers
  import opened DeviceFlow

  datatype Outcome = StillPending | SlowedDown(interval: Option<int>) | Granted | Refused | Raised

  /** The poll in progress. `began` is the position in the log at which it found its entry;
      `entry` is what the throttle check saw. */
  datatype Poll =
    | Idle
    | Found(id: string, began: nat)
    | Unthrottled(id: string, began: nat, entry: Option<Entry>)
    | Answered(id: string, began: nat, outcome: Outcome)

  datatype Event =
    | Start(id: string, expiresAt: real)
    | Fetch(id: string, at: real)
    | Ask(id: string, at: real, began: nat, entry: Option<Entry>)   // the provider is polled
    | Rescheduled(id: string, every: int)                           // the interval now in force
    | Authorized(id: string, began: nat)
    | Closed(id: string, began: nat)                                // refused or raised
    | Cancelled(id: string)

  datatype State = State(pending: Pending, poll: Poll, log: seq<Event>, clock: real)

  datatype Action =
    | DoStart(id: string, payload: string, interval: int, expiresIn: int, pruneAt: real, now: real)
    | DoFetch(id: string, now: real)
    | DoThrottle(now: real)
    | DoAsk(outcome: Outcome, now: real)
    | DoFinish(now: real)
    | DoCancel(id: string)

  const EMPTY := State(map[], Idle, [], 0.0)

  predicate Mentioned(log: seq<Event>, id: string) {
    exists e | e in log :: e.id == id
  }

  predicate Enabled(s: State, a: Action) {
    match a
    case DoStart(id, _, _, _, pruneAt, now) => s.poll == Idle && s.clock <= pruneAt <= now && !Mentioned(s.log, id)
    case DoFetch(_, now) => s.poll == Idle && s.clock <= now
    case DoThrottle(now) => s.poll.Found? && s.clock <= now
    case DoAsk(_, now) => s.poll.Unthrottled? && s.clock <= now
    case DoFinish(now) => s.poll.Answered? && s.clock <= now
    case DoCancel(_) => true
  }

  /** A poll that stays pending ends by putting an interval in force, if its entry is still there. */
  function Reschedule(s: State, id: string, p: Pending, now: real): State {
    State(p, Idle, if id in p then s.log + [Rescheduled(id, p[id].interval)] else s.log, now)
  }

  function Next(s: State, a: Action): State
    requires Enabled(s, a)
  {
    match a
    case DoStart(id, payload, interval, expiresIn, pruneAt, now) =>
      // The route applies the defaults once, the store once more.
      var e := DeviceFlow.Started(payload, OrElse(interval, 5), OrElse(expiresIn, 900), now);
      State(Pruned(s.pending, pruneAt)[id := e], Idle, s.log + [Start(id, e.expiresAt)], now)
    case DoFetch(id, now) =>
      var p := Pruned(s.pending, now);
      if id in p then State(p, Found(id, |s.log|), s.log + [Fetch(id, now)], now)
      else State(p, Idle, s.log, now)
    case DoThrottle(now) =>
      var id := s.poll.id;
      if Throttled(s.pending, id, now) then s.(poll := Idle, clock := now)
      else s.(poll := Unthrottled(id, s.poll.began, if id in s.pending then Some(s.pending[id]) else None),
          clock := now)
    case DoAsk(outcome, now) =>
      var Unthrottled(id, began, entry) := s.poll;
      State(s.pending, Answered(id, began, outcome), s.log + [Ask(id, now, began, entry)], now)
    case DoFinish(now) =>
      var Answered(id, began, outcome) := s.poll;
      match outcome {
        case Granted => State(s.pending - {id}, Idle, s.log + [Authorized(id, began)], now)
        case Refused => State(s.pending - {id}, Idle, s.log + [Closed(id, began)], now)
        case Raised => State(s.pending - {id}, Idle, s.log + [Closed(id, began)], now)
        case SlowedDown(interval) => Reschedule(s, id, Slowed(s.pending, id, interval, now), now)
        case StillPending => Reschedule(s, id, Scheduled(s.pending, id, now), now)
      }
    case DoCancel(id) => s.(pending := s.pending - {id}, log := s.log + [Cancelled(id)])
  }

  ghost predicate IsRun(s: State, actions: seq<Action>)
    decreases actions
  {
    actions != [] ==> Enabled(s, actions[0]) && IsRun(Next(s, actions[0]), actions[1..])
  }

  ghost function After(s: State, actions: seq<Action>): State
    requires IsRun(s, actions)
    decreases actions
  {
    if actions == [] then s else After(Next(s, actions[0]), actions[1..])
  }

  // ---------- Spacing ----------

  /** When this id's provider was last polled. */
  function LastAsk(log: seq<Event>, id: string): Option<real> {
    if log == [] then None
    else
      var e := log[|log| - 1];
      if e.Ask? && e.id == id then Some(e.at) else LastAsk(log[..|log| - 1], id)
  }

  /** The interval this id was last given after a poll. */
  function LastEvery(log: seq<Event>, id: string): Option<int> {
    if log == [] then None
    else
      var e := log[|log| - 1];
      if e.Rescheduled? && e.id == id then Some(e.every) else LastEvery(log[..|log| - 1], id)
  }

  /** An entry that was polled before waits out the interval it was given then. */
  predicate KeepsAway(log: seq<Event>, id: string, e: Entry) {
    && e.interval >= 1
    && (LastAsk(log, id).Some? ==>
          && LastEvery(log, id) == Some(e.interval)
          && e.nextPollAt >= LastAsk(log, id).value + e.interval as real)
  }

  /** The ask comes no sooner than the interval in force after the one before it. */
  predicate OnTime(log: seq<Event>, e: Event)
    requires e.Ask?
  {
    LastAsk(log, e.id).Some? ==>
      && LastEvery(log, e.id).Some? && LastEvery(log, e.id).value >= 1
      && e.at >= LastAsk(log, e.id).value + LastEvery(log, e.id).value as real
  }

  /** Each poll whose throttle check saw its entry is on time. */
  ghost predicate Spaced(log: seq<Event>) {
    forall j :: 0 <= j < |log| && log[j].Ask? && log[j].entry.Some? ==> OnTime(log[..j], log[j])
  }

  /** What the poll in progress has found out. */
  predicate PollInTime(s: State) {
    && (s.poll.Found? && LastAsk(s.log, s.poll.id).Some? ==>
          LastEvery(s.log, s.poll.id).Some? && LastEvery(s.log, s.poll.id).value >= 1)
    && (s.poll.Unthrottled? && s.poll.entry.Some? ==>
          KeepsAway(s.log, s.poll.id, s.poll.entry.value) && s.poll.entry.value.nextPollAt <= s.clock)
  }

  ghost predicate InTime(s: State) {
    && (forall id :: LastAsk(s.log, id).Some? ==> LastAsk(s.log, id).value <= s.clock)
    && (forall id :: id in s.pending ==> s.pending[id].interval >= 1)
    && (forall id :: id in s.pending && !(s.poll.Answered? && s.poll.id == id) ==> KeepsAway(s.log, id, s.pending[id]))
    && PollInTime(s)
    && Spaced(s.log)
  }

  lemma OneMoreEvent(log: seq<Event>, e: Event, id: string)
    ensures LastAsk(log + [e], id) == if e.Ask? && e.id == id then Some(e.at) else LastAsk(log, id)
    ensures LastEvery(log + [e], id) == if e.Rescheduled? && e.id == id then Some(e.every) else LastEvery(log, id)
  {
    assert (log + [e])[..|log|] == log;
  }

  lemma OneMoreSpaced(log: seq<Event>, e: Event)
    requires Spaced(log) && (e.Ask? && e.entry.Some? ==> OnTime(log, e))
    ensures Spaced(log + [e])
  {
    assert (log + [e])[..|log|] == log;
    assert forall j :: 0 <= j < |log| ==> (log + [e])[..j] == log[..j];
  }

  lemma {:induction false} StartStaysFresh(log: seq<Event>, id: string)
    requires !Mentioned(log, id)
    ensures LastAsk(log, id) == None
  {
    if log != [] {
      assert log[|log| - 1] in log;
      assert !Mentioned(log[..|log| - 1], id);
      StartStaysFresh(log[..|log| - 1], id);
    }
  }

  /** Only a poll of the provider changes when its login was last polled, and only a rescheduling
      the interval in force; the spacing is kept. */
  lemma StepIsSpaced(s: State, a: Action)
    requires InTime(s) && Enabled(s, a)
    ensures var n := Next(s, a);
            && Spaced(n.log)
            && (forall id :: LastAsk(n.log, id) ==
                  if a.DoAsk? && s.poll.id == id then Some(a.now) else LastAsk(s.log, id))
            && (forall id :: LastEvery(n.log, id) ==
                  if a.DoFinish? && s.poll.id == id && !Finishes(s.poll.outcome) && id in s.pending
                  then Some(n.pending[id].interval) else LastEvery(s.log, id))
  {
    var n := Next(s, a);
    if |n.log| > |s.log| {
      var e := n.log[|s.log|];
      assert n.log == s.log + [e];
      OneMoreSpaced(s.log, e);
      forall id
        ensures LastAsk(n.log, id) == if e.Ask? && e.id == id then Some(e.at) else LastAsk(s.log, id)
        ensures LastEvery(n.log, id) == if e.Rescheduled? && e.id == id then Some(e.every) else LastEvery(s.log, id)
      {
        OneMoreEvent(s.log, e, id);
      }
    }
  }

  predicate Finishes(o: Outcome) { o.Granted? || o.Refused? || o.Raised? }

  /** The entry that was just rescheduled waits from now on. */
  lemma RescheduledInTime(s: State, a: Action)
    requires InTime(s) && Enabled(s, a) && a.DoFinish? && s.poll.id in Next(s, a).pending
    ensures var n := Next(s, a); KeepsAway(n.log, s.poll.id, n.pending[s.poll.id])
  {
    StepIsSpaced(s, a);
    assert LastAsk(s.log, s.poll.id).Some? ==> LastAsk(s.log, s.poll.id).value <= s.clock;
  }

  /** Any other entry is as it was, and so is what the log says of it. */
  lemma UntouchedInTime(s: State, a: Action, id: string)
    requires InTime(s) && Enabled(s, a) && id in s.pending && !(s.poll.Answered? && s.poll.id == id)
    requires !(a.DoAsk? && s.poll.id == id)
    ensures KeepsAway(Next(s, a).log, id, s.pending[id])
  {
    StepIsSpaced(s, a);
    assert KeepsAway(s.log, id, s.pending[id]);
  }

  lemma EntryStaysInTime(s: State, a: Action, id: string)
    requires InTime(s) && Enabled(s, a)
    requires var n := Next(s, a); id in n.pending && !(n.poll.Answered? && n.poll.id == id)
    ensures var n := Next(s, a); KeepsAway(n.log, id, n.pending[id])
  {
    if a.DoStart? && a.id == id {
      StepIsSpaced(s, a);
      StartStaysFresh(s.log, id);
    } else if a.DoFinish? && s.poll.id == id {
      RescheduledInTime(s, a);
    } else {
      UntouchedInTime(s, a, id);
    }
  }

  lemma PollStaysInTime(s: State, a: Action)
    requires InTime(s) && Enabled(s, a)
    ensures PollInTime(Next(s, a))
  {
    StepIsSpaced(s, a);
    if a.DoFetch? && a.id in Next(s, a).pending {
      EntryStaysInTime(s, a, a.id);
    } else if a.DoThrottle? && s.poll.id in s.pending {
      assert KeepsAway(s.log, s.poll.id, s.pending[s.poll.id]);
    }
  }

  lemma StepIsInTime(s: State, a: Action)
    requires InTime(s) && Enabled(s, a)
    ensures InTime(Next(s, a))
  {
    var n := Next(s, a);
    StepIsSpaced(s, a);
    PollStaysInTime(s, a);
    forall id | id in n.pending && !(n.poll.Answered? && n.poll.id == id) ensures KeepsAway(n.log, id, n.pending[id]) {
      EntryStaysInTime(s, a, id);
    }
    assert forall id :: id in n.pending ==> n.pending[id].interval >= 1;
  }

  lemma {:induction false} RunIsInTime(s: State, actions: seq<Action>)
    requires InTime(s) && IsRun(s, actions)
    ensures InTime(After(s, actions))
    decreases actions
  {
    if actions != [] {
      StepIsInTime(s, actions[0]);
      RunIsInTime(Next(s, actions[0]), actions[1..]);
    }
  }

  /** In every run, a provider poll whose throttle check saw the entry comes at least the interval
      then in force after the previous poll of that login, and that is at least one second. */
  lemma PollsAreSpaced(actions: seq<Action>, i: nat, j: nat)
    requires IsRun(EMPTY, actions)
    requires var log := After(EMPTY, actions).log;
             && i < j < |log| && log[i].Ask? && log[j].Ask? && log[i].id == log[j].id
             && (forall k :: i < k < j && log[k].Ask? ==> log[k].id != log[i].id)
             && log[j].entry.Some?
    ensures var log := After(EMPTY, actions).log;
            var every := LastEvery(log[..j], log[j].id);
            every.Some? && every.value >= 1 && log[j].at >= log[i].at + every.value as real
  {
    RunIsInTime(EMPTY, actions);
    LastAskIs(After(EMPTY, actions).log, i, j);
    assert OnTime(After(EMPTY, actions).log[..j], After(EMPTY, actions).log[j]);
  }

  lemma {:induction false} LastAskIs(log: seq<Event>, i: nat, j: nat)
    requires i < j <= |log| && log[i].Ask?
    requires forall k :: i < k < j && log[k].Ask? ==> log[k].id != log[i].id
    ensures LastAsk(log[..j], log[i].id) == Some(log[i].at)
    decreases j
  {
    assert log[..j][..j - 1] == log[..j - 1];
    if i < j - 1 {
      LastAskIs(log, i, j - 1);
    }
  }

  /** The exact condition. In every reachable state where a poll has found its entry and the login
      was polled before, let a poll be due once the interval last put in force has passed. The
      throttle check lets no poll through before that, at whatever time it is made, if and only if
      the entry is still there or the time has already come: a cancel since the lookup, before the
      poll is due, is the one way to be early. */
  lemma ThrottleSpacesExactly(actions: seq<Action>)
    requires IsRun(EMPTY, actions)
    requires var s := After(EMPTY, actions); s.poll.Found? && LastAsk(s.log, s.poll.id).Some?
    ensures var s := After(EMPTY, actions);
            var last, every := LastAsk(s.log, s.poll.id).value, LastEvery(s.log, s.poll.id);
            && every.Some? && every.value >= 1
            && var due := last + every.value as real;
            (forall now :: s.clock <= now && Next(s, DoThrottle(now)).poll.Unthrottled? ==> now >= due)
            <==> s.poll.id in s.pending || s.clock >= due
  {
    RunIsInTime(EMPTY, actions);
    var s := After(EMPTY, actions);
    var due := LastAsk(s.log, s.poll.id).value + LastEvery(s.log, s.poll.id).value as real;
    if s.poll.id in s.pending {
      assert KeepsAway(s.log, s.poll.id, s.pending[s.poll.id]);
    } else {
      assert Next(s, DoThrottle(s.clock)).poll.Unthrottled?;
    }
  }

  lemma {:induction false} RunExtends(s: State, actions: seq<Action>, a: Action)
    requires IsRun(s, actions) && Enabled(After(s, actions), a)
    ensures IsRun(s, actions + [a]) && After(s, actions + [a]) == Next(After(s, actions), a)
    decreases actions
  {
    var all := actions + [a];
    if actions == [] {
      assert all[1..] == [];
    } else {
      assert all[1..] == actions[1..] + [a];
      RunExtends(Next(s, actions[0]), actions[1..], a);
    }
  }

  lemma Extend(s: State, actions: seq<Action>, a: Action) returns (more: seq<Action>)
    requires IsRun(s, actions) && Enabled(After(s, actions), a)
    ensures IsRun(s, more) && After(s, more) == Next(After(s, actions), a)
  {
    more := actions + [a];
    RunExtends(s, actions, a);
  }

  /** So the proviso is needed: with an interval of five, a cancel between the lookup and the
      throttle check lets the provider be polled again after one second. */
  lemma CancelLetsOnePollThrough() returns (actions: seq<Action>)
    ensures IsRun(EMPTY, actions)
    ensures var e := DeviceFlow.Started("", 5, 900, 0.0);
            After(EMPTY, actions).log == [
              Start("x", 900.0), Fetch("x", 0.0), Ask("x", 0.0, 1, Some(e)), Rescheduled("x", 5),
              Fetch("x", 1.0), Cancelled("x"), Ask("x", 1.0, 4, None)]
  {
    var e := DeviceFlow.Started("", 5, 900, 0.0);
    var due := e.(nextPollAt := 5.0);
    var l1 := [Start("x", 900.0)];
    var l2 := l1 + [Fetch("x", 0.0)];
    var l3 := l2 + [Ask("x", 0.0, 1, Some(e))];
    var l4 := l3 + [Rescheduled("x", 5)] + [Fetch("x", 1.0)];
    var l5 := l4 + [Cancelled("x")];
    actions := FirstPoll(e, l1, l2, l3);
    actions := EarlyPoll(actions, due, l3 + [Rescheduled("x", 5)], l4, l5);
  }

  /** Looked up at time one, cancelled before the check, and polled all the same. */
  lemma EarlyPoll(before: seq<Action>, due: Entry, l3: seq<Event>, l4: seq<Event>, l5: seq<Event>)
      returns (actions: seq<Action>)
    requires IsRun(EMPTY, before) && After(EMPTY, before) == State(map["x" := due], Idle, l3, 0.0)
    requires due.expiresAt == 900.0 && |l3| == 4 && l4 == l3 + [Fetch("x", 1.0)] && l5 == l4 + [Cancelled("x")]
    ensures IsRun(EMPTY, actions) && After(EMPTY, actions).log == l5 + [Ask("x", 1.0, 4, None)]
  {
    assert Pruned(map["x" := due], 1.0) == map["x" := due];
    actions := Extend(EMPTY, before, DoFetch("x", 1.0));
    assert After(EMPTY, actions) == State(map["x" := due], Found("x", 4), l4, 1.0);
    actions := Extend(EMPTY, actions, DoCancel("x"));
    assert map["x" := due] - {"x"} == map[];
    assert After(EMPTY, actions) == State(map[], Found("x", 4), l5, 1.0);
    actions := Extend(EMPTY, actions, DoThrottle(1.0));
    assert After(EMPTY, actions) == State(map[], Unthrottled("x", 4, None), l5, 1.0);
    actions := Extend(EMPTY, actions, DoAsk(StillPending, 1.0));
  }

  /** One login started and polled once, at time zero. */
  lemma FirstPoll(e: Entry, l1: seq<Event>, l2: seq<Event>, l3: seq<Event>) returns (actions: seq<Action>)
    requires e == DeviceFlow.Started("", 5, 900, 0.0) && l1 == [Start("x", 900.0)]
    requires l2 == l1 + [Fetch("x", 0.0)] && l3 == l2 + [Ask("x", 0.0, 1, Some(e))]
    ensures IsRun(EMPTY, actions)
    ensures After(EMPTY, actions) == State(map["x" := e.(nextPollAt := 5.0)], Idle, l3 + [Rescheduled("x", 5)], 0.0)
  {
    actions := [];
    assert Pruned(map[], 0.0) == map[];
    actions := Extend(EMPTY, actions, DoStart("x", "", 5, 900, 0.0, 0.0));
    assert After(EMPTY, actions) == State(map["x" := e], Idle, l1, 0.0);
    assert Pruned(map["x" := e], 0.0) == map["x" := e];
    actions := Extend(EMPTY, actions, DoFetch("x", 0.0));
    assert After(EMPTY, actions) == State(map["x" := e], Found("x", 1), l2, 0.0);
    actions := Extend(EMPTY, actions, DoThrottle(0.0));
    assert After(EMPTY, actions) == State(map["x" := e], Unthrottled("x", 1, Some(e)), l2, 0.0);
    actions := Extend(EMPTY, actions, DoAsk(StillPending, 0.0));
    assert After(EMPTY, actions) == State(map["x" := e], Answered("x", 1, StillPending), l3, 0.0);
    actions := Extend(EMPTY, actions, DoFinish(0.0));
    assert map["x" := e]["x" := e.(nextPollAt := 5.0)] == map["x" := e.(nextPollAt := 5.0)];
  }
}
