/**
 Every run of the counters table: increments of votes cast at or before the present hour, the clock
 moving on, and DynamoDB removing rows whose ttl has passed whenever it likes. The rows are an index
 over the log of applied increments, exact for as long as a row cannot have expired.
 */
module CounterRuns {
  import opened Results
  import opened Identity
  import opened Counters

  // zone is the process's offset from UTC; log and expired only record what happened.
  datatype Store = Store(zone: int, rows: Table, now: int, log: seq<VoteEvent>, expired: nat)

  datatype Step =
    | Incr(id: VoteId, positive: bool, eventTime: int, refused: bool)
    | Tick(time: int)
    | Expire(key: CounterKey)

  function Init(zone: int, now: int): Store {
    Store(zone, map[], now, [], 0)
  }

  function Next(s: Store, step: Step): Store {
    match step
    case Incr(id, positive, eventTime, refused) =>
      var hour := HourStart(eventTime, s.zone);
      if refused || eventTime > s.now || !DistinctKeys(IncrUpdates(id, hour, positive)) then s
      else s.(
        rows := ApplyUpdates(s.rows, IncrUpdates(id, hour, positive)),
        log := s.log + [VoteEvent(id.active, id.peer, positive, hour)])
    case Tick(time) => if time < s.now then s else s.(now := time)
    case Expire(key) =>
      if key in s.rows && s.rows[key].ttl.Some? && s.rows[key].ttl.value <= s.now then
        s.(rows := s.rows - {key}, expired := s.expired + 1)
      else s
  }

  function Run(s: Store, steps: seq<Step>): Store {
    if steps == [] then s else Next(Run(s, steps[..|steps| - 1]), steps[|steps| - 1])
  }

  // ---------- The index invariant ----------

  predicate MayHaveExpired(s: Store, hour: int) {
    hour + TTL_SECONDS <= s.now
  }

  // Lifetime rows count everything; an hourly row counts its hour exactly until it may have expired,
  // and never too much.
  ghost predicate Indexed(s: Store) {
    && (forall user: Uuid :: CountsAt(s.rows, user, LIFETIME_KEY) == LogAll(s.log, user))
    && (forall user: Uuid, hour: int :: hour != LIFETIME_KEY ==>
          && Leq(CountsAt(s.rows, user, hour), LogIn(s.log, user, {hour}))
          && (!MayHaveExpired(s, hour) || s.expired == 0 ==>
                CountsAt(s.rows, user, hour) == LogIn(s.log, user, {hour})))
  }

  // Rows sit at hour starts not later than the present one, and only hourly rows carry a ttl.
  predicate RowsWellKeyed(rows: Table, latest: int) {
    forall key :: key in rows ==>
      && rows[key].ttl == (if key.hour == 0 then None else Some(key.hour + 48 * 3600))
      && OnTheHour(key.hour)
      && (key.hour != LIFETIME_KEY ==> key.hour <= latest)
  }

  predicate WellKeyed(s: Store) {
    && RowsWellKeyed(s.rows, HourStart(s.now, s.zone))
    && (forall i :: 0 <= i < |s.log| ==> s.log[i].hour != LIFETIME_KEY && OnTheHour(s.log[i].hour))
  }

  lemma UpdateAddsOnce(rows: Table, update: Update, user: Uuid, at: int)
    ensures CountsAt(ApplyUpdate(rows, update), user, at) ==
      if update.key == CounterKey(user, at) then Plus(CountsAt(rows, user, at), update.increment)
      else CountsAt(rows, user, at)
  {
  }

  lemma UnfoldFour(rows: Table, updates: seq<Update>)
    requires |updates| == 4
    ensures ApplyUpdates(rows, updates) ==
      ApplyUpdate(ApplyUpdate(ApplyUpdate(ApplyUpdate(rows, updates[0]), updates[1]), updates[2]), updates[3])
  {
    var three, two, one := updates[..3], updates[..2], updates[..1];
    assert three[..2] == two && two[..1] == one && one[..0] == [];
    assert ApplyUpdates(rows, one) == ApplyUpdate(rows, updates[0]);
    assert ApplyUpdates(rows, two) == ApplyUpdate(ApplyUpdates(rows, one), updates[1]);
    assert ApplyUpdates(rows, three) == ApplyUpdate(ApplyUpdates(rows, two), updates[2]);
  }

  // The transaction as four updates, one after the other.
  function FourUpdates(rows: Table, id: VoteId, hour: int, positive: bool): Table {
    var ttl := Some(hour + TTL_SECONDS);
    var one := ApplyUpdate(rows, Update(CounterKey(id.active, hour), OutgoingIncrement(positive), ttl));
    var two := ApplyUpdate(one, Update(CounterKey(id.active, LIFETIME_KEY), OutgoingIncrement(positive), None));
    var three := ApplyUpdate(two, Update(CounterKey(id.peer, hour), IncomingIncrement(positive), ttl));
    ApplyUpdate(three, Update(CounterKey(id.peer, LIFETIME_KEY), IncomingIncrement(positive), None))
  }

  lemma TransactionIsFourUpdates(rows: Table, id: VoteId, hour: int, positive: bool)
    ensures ApplyUpdates(rows, IncrUpdates(id, hour, positive)) == FourUpdates(rows, id, hour, positive)
  {
    hide ApplyUpdate, ApplyUpdates;
    UnfoldFour(rows, IncrUpdates(id, hour, positive));
  }

  lemma ShareOfEachUser(event: VoteEvent, user: Uuid)
    requires event.active != event.peer
    ensures Share(event, user) ==
      if event.active == user then OutgoingIncrement(event.positive)
      else if event.peer == user then IncomingIncrement(event.positive)
      else ZERO
  {
  }

  lemma PlusZero(a: Counts)
    ensures Plus(a, ZERO) == a && Plus(ZERO, a) == a
  {
  }

  // One transaction adds the event's share to both users' hour and lifetime, and nothing else.
  lemma TransactionAddsShares(rows: Table, id: VoteId, hour: int, positive: bool, user: Uuid, at: int)
    requires hour != LIFETIME_KEY
    ensures var after := ApplyUpdates(rows, IncrUpdates(id, hour, positive));
      CountsAt(after, user, at) == Plus(CountsAt(rows, user, at),
        if at == hour || at == LIFETIME_KEY then Share(VoteEvent(id.active, id.peer, positive, hour), user) else ZERO)
  {
    hide ApplyUpdate, ApplyUpdates, CountsAt, IncrUpdates, Share, Plus, OutgoingIncrement, IncomingIncrement;
    ShareOfEachUser(VoteEvent(id.active, id.peer, positive, hour), user);
    PlusZero(CountsAt(rows, user, at));
    TransactionIsFourUpdates(rows, id, hour, positive);
    var ttl := Some(hour + TTL_SECONDS);
    var first := Update(CounterKey(id.active, hour), OutgoingIncrement(positive), ttl);
    var second := Update(CounterKey(id.active, LIFETIME_KEY), OutgoingIncrement(positive), None);
    var third := Update(CounterKey(id.peer, hour), IncomingIncrement(positive), ttl);
    var fourth := Update(CounterKey(id.peer, LIFETIME_KEY), IncomingIncrement(positive), None);
    var one := ApplyUpdate(rows, first);
    var two := ApplyUpdate(one, second);
    UpdateAddsOnce(rows, first, user, at);
    UpdateAddsOnce(one, second, user, at);
    UpdateAddsOnce(two, third, user, at);
    UpdateAddsOnce(ApplyUpdate(two, third), fourth, user, at);
  }

  lemma UpdateKeepsKeys(rows: Table, update: Update, latest: int)
    requires RowsWellKeyed(rows, latest)
    requires OnTheHour(update.key.hour) && (update.key.hour != LIFETIME_KEY ==> update.key.hour <= latest)
    requires update.ttl ==
      if update.key.hour == LIFETIME_KEY then None else Some(update.key.hour + TTL_SECONDS)
    ensures RowsWellKeyed(ApplyUpdate(rows, update), latest)
  {
  }

  lemma IncrIndexed(s: Store, id: VoteId, positive: bool, eventTime: int)
    requires Indexed(s)
    ensures Indexed(Next(s, Incr(id, positive, eventTime, false)))
  {
    hide ApplyUpdates, CountsAt, IncrUpdates, HourStart, Share;
    var s' := Next(s, Incr(id, positive, eventTime, false));
    var hour := HourStart(eventTime, s.zone);
    KeysAreDistinctIff(id, hour, positive);
    if s'.log != s.log {
      var event := VoteEvent(id.active, id.peer, positive, hour);
      assert s'.log == s.log + [event] && s'.log[..|s'.log| - 1] == s.log;
      forall user: Uuid
        ensures CountsAt(s'.rows, user, LIFETIME_KEY) == LogAll(s'.log, user)
      {
        TransactionAddsShares(s.rows, id, hour, positive, user, LIFETIME_KEY);
      }
      forall user: Uuid, at: int | at != LIFETIME_KEY
        ensures Leq(CountsAt(s'.rows, user, at), LogIn(s'.log, user, {at}))
        ensures !MayHaveExpired(s, at) || s.expired == 0 ==>
          CountsAt(s'.rows, user, at) == LogIn(s'.log, user, {at})
      {
        TransactionAddsShares(s.rows, id, hour, positive, user, at);
        assert event.hour in {at} <==> at == hour;
      }
    }
  }

  lemma IncrWellKeyed(s: Store, id: VoteId, positive: bool, eventTime: int)
    requires WellKeyed(s)
    ensures WellKeyed(Next(s, Incr(id, positive, eventTime, false)))
  {
    hide HourStart, RowsWellKeyed, ApplyUpdates, IncrUpdates, OnTheHour;
    var s' := Next(s, Incr(id, positive, eventTime, false));
    var hour := HourStart(eventTime, s.zone);
    KeysAreDistinctIff(id, hour, positive);
    if s'.log != s.log {
      HourStartIsTheHour(eventTime, s.zone, hour);
      HourStartIsMonotone(eventTime, s.now, s.zone);
      TransactionKeepsKeys(s.rows, id, hour, positive, HourStart(s.now, s.zone));
    }
  }

  lemma TransactionKeepsKeys(rows: Table, id: VoteId, hour: int, positive: bool, latest: int)
    requires RowsWellKeyed(rows, latest) && hour != LIFETIME_KEY && OnTheHour(hour) && hour <= latest
    ensures RowsWellKeyed(ApplyUpdates(rows, IncrUpdates(id, hour, positive)), latest)
  {
    hide RowsWellKeyed, ApplyUpdate, ApplyUpdates, IncrUpdates;
    TransactionIsFourUpdates(rows, id, hour, positive);
    var ttl := Some(hour + TTL_SECONDS);
    var first := Update(CounterKey(id.active, hour), OutgoingIncrement(positive), ttl);
    var second := Update(CounterKey(id.active, LIFETIME_KEY), OutgoingIncrement(positive), None);
    var third := Update(CounterKey(id.peer, hour), IncomingIncrement(positive), ttl);
    var fourth := Update(CounterKey(id.peer, LIFETIME_KEY), IncomingIncrement(positive), None);
    var one := ApplyUpdate(rows, first);
    var two := ApplyUpdate(one, second);
    UpdateKeepsKeys(rows, first, latest);
    UpdateKeepsKeys(one, second, latest);
    UpdateKeepsKeys(two, third, latest);
    UpdateKeepsKeys(ApplyUpdate(two, third), fourth, latest);
  }

  lemma ExpireKeepsInvariants(s: Store, key: CounterKey)
    requires Indexed(s) && WellKeyed(s)
    ensures Indexed(Next(s, Expire(key))) && WellKeyed(Next(s, Expire(key)))
  {
    hide LogIn, LogAll, HourStart, OnTheHour;
  }

  lemma TickKeepsInvariants(s: Store, time: int)
    requires Indexed(s) && WellKeyed(s)
    ensures Indexed(Next(s, Tick(time))) && WellKeyed(Next(s, Tick(time)))
  {
    hide LogIn, LogAll, HourStart, OnTheHour, CountsAt;
    if time >= s.now {
      HourStartIsMonotone(s.now, time, s.zone);
    }
  }

  lemma StepKeepsInvariants(s: Store, step: Step)
    requires Indexed(s) && WellKeyed(s)
    ensures Indexed(Next(s, step)) && WellKeyed(Next(s, step))
  {
    hide Indexed, WellKeyed;
    match step
    case Incr(id, positive, eventTime, refused) =>
      if !refused {
        IncrIndexed(s, id, positive, eventTime);
        IncrWellKeyed(s, id, positive, eventTime);
      }
    case Tick(time) =>
      TickKeepsInvariants(s, time);
    case Expire(key) =>
      ExpireKeepsInvariants(s, key);
  }

  lemma {:induction false} RunIndexes(zone: int, now: int, steps: seq<Step>)
    ensures Indexed(Run(Init(zone, now), steps)) && WellKeyed(Run(Init(zone, now), steps))
    ensures Run(Init(zone, now), steps).zone == zone
  {
    if steps != [] {
      RunIndexes(zone, now, steps[..|steps| - 1]);
      StepKeepsInvariants(Run(Init(zone, now), steps[..|steps| - 1]), steps[|steps| - 1]);
    }
  }
}
