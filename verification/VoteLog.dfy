/**
 Both tables at once: every step taken on any romance row, every counter call it made, the clock moving on
 and counter rows expiring, in one log. The rows of one pair are a run of VoteProtocol, the counters table is
 a run of CounterRuns, and the counter rows are proved to count the stored votes.
 */
module VoteLog {
  import opened Results
  import opened Identity
  import opened Romances
  import opened RowHistory
  import opened VoteProtocol
  import opened VoteGuarantees
  import Counters
  import CounterRuns

  // eventTime and refused matter only when the step makes a counter call.
  datatype Act =
    | Took(key: RomanceKey, step: Step, eventTime: int, refused: bool)
    | Elapsed(time: int)
    | Expired(row: Counters.CounterKey)

  type Log = seq<Act>

  function StepsOn(log: Log, key: RomanceKey): seq<Step> {
    if log == [] then []
    else
      var before, act := log[..|log| - 1], log[|log| - 1];
      StepsOn(before, key) + if act.Took? && act.key == key then [act.step] else []
  }

  function SystemAt(log: Log, key: RomanceKey): System {
    After(key, StepsOn(log, key))
  }

  // The counter call a step makes, if any.
  function CallOf(s: System, step: Step): Option<(VoteId, bool)> {
    if step.Count? && step.client in s.clients && s.clients[step.client].phase.Counting? then
      Some((s.clients[step.client].request.id, s.clients[step.client].phase.positive))
    else None
  }

  // What an act does to the counters table.
  function CounterStep(before: Log, act: Act): seq<CounterRuns.Step> {
    match act
    case Elapsed(time) => [CounterRuns.Tick(time)]
    case Expired(row) => [CounterRuns.Expire(row)]
    case Took(key, step, eventTime, refused) =>
      match CallOf(SystemAt(before, key), step)
      case None => []
      case Some((id, positive)) => [CounterRuns.Incr(id, positive, eventTime, refused)]
  }

  function CounterSteps(log: Log): seq<CounterRuns.Step> {
    if log == [] then []
    else CounterSteps(log[..|log| - 1]) + CounterStep(log[..|log| - 1], log[|log| - 1])
  }

  function StoreAt(zone: int, began: int, log: Log): CounterRuns.Store {
    CounterRuns.Run(CounterRuns.Init(zone, began), CounterSteps(log))
  }

  lemma LogGrows(log: Log, act: Act, key: RomanceKey)
    ensures SystemAt(log + [act], key) ==
      if act.Took? && act.key == key then Next(SystemAt(log, key), act.step) else SystemAt(log, key)
  {
    assert (log + [act])[..|log|] == log;
    var before := StepsOn(log, key);
    if act.Took? {
      assert (before + [act.step])[..|before|] == before;
    }
    assert before + [] == before;
  }

  lemma StoreGrows(zone: int, began: int, log: Log, act: Act)
    ensures var s, steps := StoreAt(zone, began, log), CounterStep(log, act);
      StoreAt(zone, began, log + [act]) == if steps == [] then s else CounterRuns.Next(s, steps[0])
  {
    hide CounterRuns.Next, SystemAt;
    assert (log + [act])[..|log|] == log;
    var before, steps := CounterSteps(log), CounterStep(log, act);
    assert before + [] == before;
    if steps != [] {
      assert (before + steps)[..|before|] == before;
    }
  }

  // ---------- Calls and events ----------

  // The call was neither refused nor made in the first hour of the epoch.
  predicate Applied(s: CounterRuns.Store, step: CounterRuns.Step) {
    step.Incr? ==>
      !step.refused && step.eventTime <= s.now && Counters.HourStart(step.eventTime, s.zone) != Counters.LIFETIME_KEY
  }

  ghost predicate EveryCallApplied(zone: int, began: int, log: Log) {
    log == []
    || (var before := log[..|log| - 1];
        && EveryCallApplied(zone, began, before)
        && forall step :: step in CounterStep(before, log[|log| - 1]) ==> Applied(StoreAt(zone, began, before), step))
  }

  function CountEvents(events: seq<Counters.VoteEvent>, active: Uuid, peer: Uuid, positive: bool): nat {
    if events == [] then 0
    else
      var event := events[|events| - 1];
      CountEvents(events[..|events| - 1], active, peer, positive)
      + if event.active == active && event.peer == peer && event.positive == positive then 1 else 0
  }

  lemma CountEventsAppend(
      events: seq<Counters.VoteEvent>, event: Counters.VoteEvent, active: Uuid, peer: Uuid, positive: bool)
    ensures CountEvents(events + [event], active, peer, positive) ==
      CountEvents(events, active, peer, positive)
      + if event.active == active && event.peer == peer && event.positive == positive then 1 else 0
  {
    assert (events + [event])[..|events|] == events;
  }

  // What an applied call adds to the log of the counters.
  lemma AppliedCallIsLogged(s: CounterRuns.Store, id: VoteId, positive: bool, eventTime: int)
    requires Applied(s, CounterRuns.Incr(id, positive, eventTime, false))
    ensures CounterRuns.Next(s, CounterRuns.Incr(id, positive, eventTime, false)).log ==
      s.log + [Counters.VoteEvent(id.active, id.peer, positive, Counters.HourStart(eventTime, s.zone))]
  {
    hide Counters.HourStart, Counters.ApplyUpdates, Counters.IncrUpdates, Counters.DistinctKeys;
    Counters.KeysAreDistinctIff(id, Counters.HourStart(eventTime, s.zone), positive);
  }

  // A counter call is recorded with the system that makes it.
  lemma CallIsIssued(s: System, step: Step)
    requires Inv(s)
    ensures match CallOf(s, step)
      case None => Next(s, step).issued == s.issued
      case Some((id, positive)) =>
        KeyOf(id) == s.key && Next(s, step).issued == s.issued + [Call(id.active, positive)]
  {
    hide View, Written, Decide, Condition, Valid;
    if CallOf(s, step).Some? {
      assert ClientOk(s.key, s.history, step.client, s.clients[step.client]);
    }
  }

  // A call made for the given directed pair that was not applied.
  predicate LosesCall(s: CounterRuns.Store, steps: seq<CounterRuns.Step>, id: VoteId, positive: bool) {
    && steps != [] && steps[0].Incr? && steps[0].positive == positive
    && steps[0].id.active == id.active && steps[0].id.peer == id.peer
    && !Applied(s, steps[0])
  }

  function LostCalls(zone: int, began: int, log: Log, id: VoteId, positive: bool): nat {
    if log == [] then 0
    else
      var before, act := log[..|log| - 1], log[|log| - 1];
      LostCalls(zone, began, before, id, positive)
      + if LosesCall(StoreAt(zone, began, before), CounterStep(before, act), id, positive) then 1 else 0
  }

  // Over every log, refused calls included: the counters have logged the calls made for each directed pair, less
  // those that were not applied.
  lemma {:induction false} CallsAreEventsOrLost(zone: int, began: int, log: Log, id: VoteId, positive: bool)
    ensures CountEvents(StoreAt(zone, began, log).log, id.active, id.peer, positive)
      + LostCalls(zone, began, log, id, positive) ==
      CountCalls(SystemAt(log, KeyOf(id)).issued, id.active, positive)
  {
    hide SystemAt, StoreAt, CountEvents, CountCalls, CallOf, Applied, LosesCall;
    if log == [] {
      NothingLogged(zone, began, id, positive);
    } else {
      var before, act := log[..|log| - 1], log[|log| - 1];
      CallsAreEventsOrLost(zone, began, before, id, positive);
      assert before + [act] == log;
      ActKeepsCallsAndEvents(zone, began, before, act, id, positive);
    }
  }

  lemma {:induction false} AppliedCallsAreNotLost(zone: int, began: int, log: Log, id: VoteId, positive: bool)
    requires EveryCallApplied(zone, began, log)
    ensures LostCalls(zone, began, log, id, positive) == 0
  {
    hide StoreAt, Applied;
    if log != [] {
      AppliedCallsAreNotLost(zone, began, log[..|log| - 1], id, positive);
      var steps := CounterStep(log[..|log| - 1], log[|log| - 1]);
      assert steps != [] ==> steps[0] in steps;
    }
  }

  // When every call is applied, the counters have logged exactly the calls made for each directed pair.
  lemma CallsAreEvents(zone: int, began: int, log: Log, id: VoteId, positive: bool)
    requires EveryCallApplied(zone, began, log)
    ensures CountEvents(StoreAt(zone, began, log).log, id.active, id.peer, positive) ==
      CountCalls(SystemAt(log, KeyOf(id)).issued, id.active, positive)
  {
    CallsAreEventsOrLost(zone, began, log, id, positive);
    AppliedCallsAreNotLost(zone, began, log, id, positive);
  }

  lemma NothingLogged(zone: int, began: int, id: VoteId, positive: bool)
    ensures CountEvents(StoreAt(zone, began, []).log, id.active, id.peer, positive) == 0
    ensures CountCalls(SystemAt([], KeyOf(id)).issued, id.active, positive) == 0
  {
  }

  lemma SystemIsValid(log: Log, key: RomanceKey)
    ensures Inv(SystemAt(log, key)) && SystemAt(log, key).key == key
  {
    hide Inv, Run;
    EveryRunIsValid(key, StepsOn(log, key));
  }

  lemma ActKeepsCallsAndEvents(zone: int, began: int, log: Log, act: Act, id: VoteId, positive: bool)
    ensures var store := StoreAt(zone, began, log);
      var more :=
        CountCalls(SystemAt(log + [act], KeyOf(id)).issued, id.active, positive)
        - CountCalls(SystemAt(log, KeyOf(id)).issued, id.active, positive);
      CountEvents(StoreAt(zone, began, log + [act]).log, id.active, id.peer, positive)
      + (if LosesCall(store, CounterStep(log, act), id, positive) then 1 else 0) ==
      CountEvents(store.log, id.active, id.peer, positive) + more
  {
    hide SystemAt, StoreAt, CountEvents, CountCalls, Inv, Next, CallOf, Applied, KeyOf;
    StoreGrows(zone, began, log, act);
    LogGrows(log, act, KeyOf(id));
    if act.Took? {
      SystemIsValid(log, act.key);
      var s := SystemAt(log, act.key);
      CallIsIssued(s, act.step);
      if CallOf(s, act.step).Some? {
        var (caller, kind) := CallOf(s, act.step).value;
        var step := CounterRuns.Incr(caller, kind, act.eventTime, act.refused);
        assert CounterStep(log, act) == [step];
        CallIsCountedOrLost(StoreAt(zone, began, log), s, id, step, positive);
      }
    } else {
      TimeLogsNothing(StoreAt(zone, began, log), CounterStep(log, act)[0]);
    }
  }

  lemma TimeLogsNothing(s: CounterRuns.Store, step: CounterRuns.Step)
    requires !step.Incr?
    ensures CounterRuns.Next(s, step).log == s.log
  {
  }

  lemma UnappliedCallIsNotLogged(s: CounterRuns.Store, step: CounterRuns.Step)
    requires step.Incr? && !Applied(s, step)
    ensures CounterRuns.Next(s, step).log == s.log
  {
    hide Counters.HourStart, Counters.ApplyUpdates, Counters.IncrUpdates, Counters.DistinctKeys;
    Counters.KeysAreDistinctIff(step.id, Counters.HourStart(step.eventTime, s.zone), step.positive);
  }

  lemma SamePairIff(x: VoteId, y: VoteId)
    ensures KeyOf(x) == KeyOf(y) && x.active == y.active <==> x.active == y.active && x.peer == y.peer
  {
  }

  lemma CallIsCountedOrLost(
      store: CounterRuns.Store, s: System, id: VoteId, step: CounterRuns.Step, positive: bool)
    requires step.Incr? && KeyOf(step.id) == s.key
    ensures CountEvents(CounterRuns.Next(store, step).log, id.active, id.peer, positive)
      + (if LosesCall(store, [step], id, positive) then 1 else 0) ==
      CountEvents(store.log, id.active, id.peer, positive)
      + (if s.key == KeyOf(id) then
           CountCalls(s.issued + [Call(step.id.active, step.positive)], id.active, positive)
           - CountCalls(s.issued, id.active, positive)
         else 0)
  {
    hide CountEvents, CountCalls, CounterRuns.Next, KeyOf, Counters.HourStart;
    SamePairIff(step.id, id);
    CountCallsAppend(s.issued, [Call(step.id.active, step.positive)], id.active, positive);
    if Applied(store, step) {
      AppliedCallIsLogged(store, step.id, step.positive, step.eventTime);
      var hour := Counters.HourStart(step.eventTime, store.zone);
      CountEventsAppend(
        store.log, Counters.VoteEvent(step.id.active, step.id.peer, step.positive, hour), id.active, id.peer, positive);
    } else {
      UnappliedCallIsNotLogged(store, step);
    }
  }
}
