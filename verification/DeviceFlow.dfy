/** The store of pending device logins (routes/device_flow.py): polling under section 3.5 of
    RFC 8628. Clock readings and fresh poll ids are parameters; times are real numbers. */
module DeviceFlow {
  import opened Wrappers

  datatype Entry = Entry(payload: string, interval: int, expiresAt: real, nextPollAt: real)

  type Pending = map<string, Entry>

  /** `x or d` on integers: zero counts as absent. */
  function OrElse(x: int, d: int): int { if x == 0 then d else x }

  function AtLeastOne(x: int): int { if x < 1 then 1 else x }

  function Pruned(p: Pending, now: real): Pending {
    map id | id in p && !(p[id].expiresAt < now) :: p[id]
  }

  function Started(payload: string, interval: int, expiresIn: int, now: real): Entry {
    Entry(payload, AtLeastOne(OrElse(interval, 5)), now + AtLeastOne(OrElse(expiresIn, 900)) as real, 0.0)
  }

  /** A poll is held back only while its entry is there and its time has not come. */
  predicate Throttled(p: Pending, id: string, now: real) {
    id in p && now < p[id].nextPollAt
  }

  function Scheduled(p: Pending, id: string, now: real): Pending {
    if id in p then p[id := p[id].(nextPollAt := now + OrElse(p[id].interval, 5) as real)] else p
  }

  /** The provider's new interval, or five seconds more than the current one. */
  function SlowedInterval(e: Entry, interval: Option<int>): int {
    AtLeastOne(OrElse(interval.GetOr(0), OrElse(e.interval, 5) + 5))
  }

  function Slowed(p: Pending, id: string, interval: Option<int>, now: real): Pending {
    if id in p then
      var n := SlowedInterval(p[id], interval);
      p[id := p[id].(interval := n, nextPollAt := now + n as real)]
    else p
  }

  /** No entry may be polled more often than once a second. */
  ghost predicate Paced(p: Pending) {
    forall id :: id in p ==> p[id].interval >= 1
  }

  /** Only this entry's interval and next poll time may differ. */
  ghost predicate OnlyRescheduled(before: Pending, after: Pending, id: string) {
    && after.Keys == before.Keys
    && (forall k :: k in before && k != id ==> after[k] == before[k])
    && (id in before ==> after[id].payload == before[id].payload && after[id].expiresAt == before[id].expiresAt)
  }

  class PendingDeviceFlowStore {
    var pending: Pending

    constructor ()
      ensures pending == map[]
    {
      pending := map[];
    }

    method PruneExpired(now: real)
      modifies this
      ensures pending == Pruned(old(pending), now)
      ensures forall k :: k in pending <==> k in old(pending) && old(pending)[k].expiresAt >= now
      ensures forall k :: k in pending ==> pending[k] == old(pending)[k]
    {
      var expired := set id | id in pending && pending[id].expiresAt < now;
      ghost var start, all := pending, expired;
      while expired != {}
        invariant expired <= all
        invariant pending == start - (all - expired)
        decreases expired
      {
        var id :| id in expired;
        pending := pending - {id};
        expired := expired - {id};
      }
    }

    method Add(payload: string, interval: int, expiresIn: int, id: string, pruneAt: real, now: real)
      requires Paced(pending)
      modifies this
      ensures pending == Pruned(old(pending), pruneAt)[id := Started(payload, interval, expiresIn, now)]
      ensures forall k :: k in pending && k != id ==>
                k in old(pending) && old(pending)[k].expiresAt >= pruneAt && pending[k] == old(pending)[k]
      ensures forall k :: k in old(pending) && old(pending)[k].expiresAt >= pruneAt ==> k in pending
      ensures Paced(pending) && pending[id].payload == payload && pending[id].nextPollAt == 0.0
      ensures pending[id].interval == if interval > 0 then interval else if interval == 0 then 5 else 1
      ensures pending[id].expiresAt
           == now + (if expiresIn > 0 then expiresIn else if expiresIn == 0 then 900 else 1) as real
    {
      PruneExpired(pruneAt);
      var every := if interval == 0 then 5 else interval;
      var lasts := if expiresIn == 0 then 900 else expiresIn;
      pending := pending[id := Entry(payload, if every < 1 then 1 else every,
                                     now + (if lasts < 1 then 1 else lasts) as real, 0.0)];
    }

    method GetPayload(id: string, now: real) returns (payload: Option<string>)
      modifies this
      ensures pending == Pruned(old(pending), now)
      ensures payload == if id in pending then Some(pending[id].payload) else None
    {
      PruneExpired(now);
      payload := if id in pending then Some(pending[id].payload) else None;
    }

    method IsThrottled(id: string, now: real) returns (throttled: bool)
      ensures throttled <==> Throttled(pending, id, now)
    {
      if id !in pending { return false; }
      return now < pending[id].nextPollAt;
    }

    /** The same interval as before, counted from now. */
    method ScheduleNext(id: string, now: real)
      requires Paced(pending)
      modifies this
      ensures Paced(pending) && OnlyRescheduled(old(pending), pending, id)
      ensures id in pending ==>
                && pending[id].interval == old(pending)[id].interval
                && pending[id].nextPollAt == now + pending[id].interval as real
    {
      if id in pending {
        pending := pending[id := pending[id].(nextPollAt := now + OrElse(pending[id].interval, 5) as real)];
      }
    }

    /** The provider's interval if it names one, else five seconds more than before; never less than
        one second. */
    method SlowDown(id: string, interval: Option<int>, now: real)
      requires Paced(pending)
      modifies this
      ensures Paced(pending) && OnlyRescheduled(old(pending), pending, id)
      ensures id in pending ==> pending[id].nextPollAt == now + pending[id].interval as real
      ensures id in pending && interval.GetOr(0) == 0 ==> pending[id].interval == old(pending)[id].interval + 5
      ensures id in pending && interval.GetOr(0) > 0 ==> pending[id].interval == interval.value
      ensures id in pending && interval.GetOr(0) < 0 ==> pending[id].interval == 1
    {
      if id in pending {
        var current := OrElse(pending[id].interval, 5) + 5;
        var asked := OrElse(interval.GetOr(0), current);
        pending := pending[id := pending[id].(interval := if asked < 1 then 1 else asked)];
        pending := pending[id := pending[id].(nextPollAt := now + pending[id].interval as real)];
      }
    }

    method Pop(id: string)
      modifies this
      ensures pending == old(pending) - {id}
    {
      pending := pending - {id};
    }
  }

  // ---------- Asking again ----------

  /** After either rescheduling at time t, the throttle holds a poll back exactly until the interval
      then in force has passed, for any interval the provider may ask for. */
  lemma ReschedulingHoldsBack(p: Pending, id: string, interval: Option<int>, t: real, now: real)
    requires Paced(p) && id in p
    ensures Throttled(Scheduled(p, id, t), id, now) <==> now < t + p[id].interval as real
    ensures Throttled(Slowed(p, id, interval, t), id, now)
        <==> now < t + Slowed(p, id, interval, t)[id].interval as real
    ensures Slowed(p, id, interval, t)[id].interval >= 1
  {
  }

  /** Without a new interval from the provider, slowing down adds five seconds. */
  lemma SlowDownAddsFive(p: Pending, id: string, now: real)
    requires id in p && p[id].interval >= 1
    ensures Slowed(p, id, None, now)[id].interval == p[id].interval + 5
    ensures Slowed(p, id, None, now)[id].nextPollAt == now + (p[id].interval + 5) as real
  {
  }

  /** The two reschedulings are the only pending entries that fit what the store's methods promise. */
  lemma RescheduledIs(p: Pending, after: Pending, id: string, now: real)
    requires Paced(p) && OnlyRescheduled(p, after, id)
    requires id in p ==> after[id].nextPollAt == now + after[id].interval as real
    ensures (id in p ==> after[id].interval == p[id].interval) ==> after == Scheduled(p, id, now)
    ensures forall interval: Option<int> :: (id in p ==> after[id].interval == SlowedInterval(p[id], interval)) ==>
              after == Slowed(p, id, interval, now)
  {
  }
}
