/** The three device-login routes as they call the store (routes/device_flow.py). With nothing in
    between, each is a run of the steps that the laws over whole runs are about. What the provider
    would answer, the fresh id and the clock readings are parameters. */
module DeviceRoutes {
  import opened Wrappers
  import opened DeviceFlow
  import opened DeviceRuns

  datatype Reply = NotFound | StillWaiting | LoggedIn | LoginFailed | ProviderRaised

  /** The actions are a run from s that ends, with no poll in progress, in this store. */
  ghost predicate Performs(s: State, actions: seq<Action>, pending: Pending) {
    IsRun(s, actions) && After(s, actions).pending == pending && After(s, actions).poll == Idle
  }

  method DeviceStart(store: PendingDeviceFlowStore, payload: string, interval: int, expiresIn: int, id: string,
                     pruneAt: real, now: real, ghost s: State)
      returns (ghost actions: seq<Action>)
    requires s.pending == store.pending && Paced(store.pending)
    requires Enabled(s, DoStart(id, payload, interval, expiresIn, pruneAt, now))
    modifies store
    ensures Paced(store.pending) && Performs(s, actions, store.pending)
    ensures id in store.pending && After(s, actions).log == s.log + [Start(id, store.pending[id].expiresAt)]
  {
    actions := Extend(s, [], DoStart(id, payload, interval, expiresIn, pruneAt, now));
    store.Add(payload, OrElse(interval, 5), OrElse(expiresIn, 900), id, pruneAt, now);
  }

  /** Look the login up, hold back if it is too early, ask the provider, and act on the answer. */
  method DevicePoll(store: PendingDeviceFlowStore, id: string, outcome: Outcome,
                    t1: real, t2: real, t3: real, t4: real, ghost s: State)
      returns (reply: Reply, ghost actions: seq<Action>)
    requires s.pending == store.pending && s.poll == Idle && Paced(store.pending)
    requires s.clock <= t1 <= t2 <= t3 <= t4
    modifies store
    ensures Paced(store.pending) && Performs(s, actions, store.pending)
    ensures var found := Pruned(old(store.pending), t1);
            reply == if id !in found then NotFound
                     else if Throttled(found, id, t2) then StillWaiting
                     else match outcome
                          case Granted => LoggedIn
                          case Refused => LoginFailed
                          case Raised => ProviderRaised
                          case _ => StillWaiting
    ensures reply in {LoggedIn, LoginFailed, ProviderRaised} ==> id !in store.pending
  {
    actions := Extend(s, [], DoFetch(id, t1));
    var payload := store.GetPayload(id, t1);
    if payload == None { return NotFound, actions; }
    actions := Extend(s, actions, DoThrottle(t2));
    var throttled := store.IsThrottled(id, t2);
    if throttled { return StillWaiting, actions; }
    actions := Extend(s, actions, DoAsk(outcome, t3));
    actions := Extend(s, actions, DoFinish(t4));
    ghost var asked := store.pending;
    match outcome
    case Raised =>
      store.Pop(id);
      reply := ProviderRaised;
    case Granted =>
      store.Pop(id);
      reply := LoggedIn;
    case Refused =>
      store.Pop(id);
      reply := LoginFailed;
    case SlowedDown(interval) =>
      store.SlowDown(id, interval, t4);
      RescheduledIs(asked, store.pending, id, t4);
      assert store.pending == Slowed(asked, id, interval, t4);
      reply := StillWaiting;
    case StillPending =>
      store.ScheduleNext(id, t4);
      RescheduledIs(asked, store.pending, id, t4);
      reply := StillWaiting;
  }

  method DeviceCancel(store: PendingDeviceFlowStore, id: string, ghost s: State) returns (ghost actions: seq<Action>)
    requires s.pending == store.pending && s.poll == Idle && Paced(store.pending)
    modifies store
    ensures Paced(store.pending) && Performs(s, actions, store.pending)
    ensures After(s, actions).log == s.log + [Cancelled(id)] && id !in store.pending
  {
    actions := Extend(s, [], DoCancel(id));
    store.Pop(id);
  }
}
