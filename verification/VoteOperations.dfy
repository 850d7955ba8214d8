/**
 The three operations as they are written: retry loops over the repository. Between any two of their
 calls other clients may take any number of steps on any rows. Each Run is proved to be one client of
 VoteProtocol, so the answer it returns carries every guarantee of VoteGuarantees.
 */
module VoteOperations {
  import opened Results
  import opened VoteTypes
  import opened Identity
  import opened Romances
  import opened RowHistory
  import opened VoteProtocol
  import opened VoteGuarantees
  import opened VoteLog
  import Counters
  import CounterRuns

  // Something done by somebody other than the given client, or by time.
  predicate Foreign(act: Act, me: nat) {
    act.Took? ==> act.step.Remove? || act.step.client != me
  }

  predicate AllForeign(log: Log, me: nat) {
    forall i :: 0 <= i < |log| ==> Foreign(log[i], me)
  }

  lemma ForeignStepKeepsClient(s: System, step: Step, me: nat)
    requires step.Remove? || step.client != me
    ensures me in Next(s, step).clients <==> me in s.clients
    ensures me in s.clients ==> Next(s, step).clients[me] == s.clients[me]
  {
    hide View, Written, Decide, Condition;
  }

  lemma {:induction false} ForeignStepsKeepClient(log: Log, others: Log, key: RomanceKey, me: nat)
    requires AllForeign(others, me)
    ensures me in SystemAt(log + others, key).clients <==> me in SystemAt(log, key).clients
    ensures me in SystemAt(log, key).clients ==>
      SystemAt(log + others, key).clients[me] == SystemAt(log, key).clients[me]
  {
    hide SystemAt, Next;
    if others == [] {
      assert log + others == log;
    } else {
      var fewer, act := others[..|others| - 1], others[|others| - 1];
      ForeignStepsKeepClient(log, fewer, key, me);
      assert log + others == (log + fewer) + [act];
      LogGrows(log + fewer, act, key);
      assert Foreign(act, me);
      if act.Took? {
        ForeignStepKeepsClient(SystemAt(log + fewer, key), act.step, me);
      }
    }
  }

  predicate Answered(s: System, me: nat, request: Request, outcome: Outcome) {
    && me in s.clients && s.clients[me].request == request
    && s.clients[me].phase.Done? && s.clients[me].phase.outcome == outcome
  }

  predicate InPhase(s: System, me: nat, request: Request, phase: Phase) {
    me in s.clients && s.clients[me].request == request && s.clients[me].phase == phase
  }

  lemma KeyOfSystem(log: Log, key: RomanceKey)
    ensures SystemAt(log, key).key == key
  {
    KeyIsFixed(Init(key), StepsOn(log, key));
  }

  // The repository's update and the protocol's write step leave the same row.
  lemma WriteStepMatchesUpdate(
      s: System, rows: map<RomanceKey, Row>, me: nat, request: Request, tries: nat, romance: Romance, seenAt: nat,
      now: int, fault: Fault)
    requires InPhase(s, me, request, Writing(tries, romance, seenAt))
    requires s.row == Lookup(rows, KeyOf(request.id))
    ensures var s' := Next(s, Write(me, now, fault));
      var rows' := Updated(rows, request, romance, now, fault);
      var error := UpdateError(rows, request, romance, fault);
      && s'.row == Lookup(rows', KeyOf(request.id))
      && (error == Some(VersionConflict) && tries < RETRIES_COUNT ==> InPhase(s', me, request, Reading(tries + 1)))
      && (error.Some? && !(error == Some(VersionConflict) && tries < RETRIES_COUNT) ==>
            Answered(s', me, request, Failed(error.value)))
      && (error.None? ==>
            InPhase(s', me, request, CommittedPhase(request, romance, s'.row, |s.history|, NoFault)))
  {
    hide View, Written, Owes;
  }

  // The client has read the romance and decided to write.
  ghost predicate AboutToWrite(s: System, me: nat, request: Request, tries: nat, romance: Romance) {
    exists seenAt :: InPhase(s, me, request, Writing(tries, romance, seenAt))
  }

  // The client's vote is stored and a counter call is due.
  ghost predicate AboutToCount(s: System, me: nat, request: Request, vote: Vote, positive: bool) {
    exists at :: InPhase(s, me, request, Counting(vote, positive, at))
  }

  // Where an Add or Change stands after its conditional write.
  ghost predicate WriteAnswered(
      s: System, me: nat, request: Request, romance: Romance, tries: nat, r: Result<Romance, Error>)
  {
    match r
    case Err(e) =>
      if e == VersionConflict && tries < RETRIES_COUNT then InPhase(s, me, request, Reading(tries + 1))
      else Answered(s, me, request, Failed(e))
    case Ok(after) =>
      match Owes(request, romance.active.ballot.kind)
      case Some(positive) => AboutToCount(s, me, request, after.active, positive)
      case None => Answered(s, me, request, Voted(after.active))
  }

  lemma VoteCommitted(s: System, me: nat, request: Request, romance: Romance, row: Option<Row>)
    requires !request.Delete? && View(request.id, row).Ok?
    requires exists at :: InPhase(s, me, request, CommittedPhase(request, romance, row, at, NoFault))
    ensures var vote := View(request.id, row).value.active;
      match Owes(request, romance.active.ballot.kind)
      case Some(positive) => AboutToCount(s, me, request, vote, positive)
      case None => Answered(s, me, request, Voted(vote))
  {
    var at :| InPhase(s, me, request, CommittedPhase(request, romance, row, at, NoFault));
    var vote := View(request.id, row).value.active;
    match Owes(request, romance.active.ballot.kind)
    case Some(positive) => assert InPhase(s, me, request, Counting(vote, positive, at));
    case None =>
  }

  // An answer that cannot be read back is never taken for a version conflict.
  lemma ReadsFailAsMalformed(id: VoteId, row: Option<Row>)
    ensures View(id, row).Err? ==> View(id, row).error == Malformed
    ensures View(id, row).Ok? ==> View(id, row).value.active.id == id
  {
  }

  function VoteOutcome(r: Result<Vote, Error>): Outcome {
    match r
    case Ok(vote) => Voted(vote)
    case Err(e) => Failed(e)
  }

  lemma OtherRowsUntouched(
      log: Log, key: RomanceKey, rows: map<RomanceKey, Row>, request: Request, romance: Romance, now: int, fault: Fault)
    requires RowsMatch(log, rows) && key == KeyOf(request.id)
    ensures forall k: RomanceKey :: k != key ==>
      SystemAt(log, k).row == Lookup(Updated(rows, request, romance, now, fault), k)
  {
  }

  ghost predicate RowsMatch(log: Log, rows: map<RomanceKey, Row>) {
    forall key: RomanceKey :: SystemAt(log, key).row == Lookup(rows, key)
  }

  lemma RemovalErases(log: Log, key: RomanceKey)
    ensures SystemAt(log + [Plain(key, Remove)], key).row.None?
  {
    hide SystemAt;
    LogGrows(log, Plain(key, Remove), key);
  }

  // What the answer of a Run means: a returned vote was stored by this Run, as one atomic operation unless a
  // removal let it commit on a row it had not seen; a refusal is the atomic operation's own; a conflict means
  // four windows of its lifetime were lost to others, and nothing was stored.
  lemma AnswersAreAtomic(log: Log, key: RomanceKey, me: nat, request: Request, outcome: Outcome, now: int)
    requires Answered(SystemAt(log, key), me, request, outcome)
    ensures var s := SystemAt(log, key);
      var Client(_, since, Done(_, at, committed), lost) := s.clients[me];
      var h := s.history;
      match outcome
      case Voted(vote) =>
        && since <= at < |h| && IsCommitOf(h, at, me, request)
        && vote == Vote(request.id, BallotOf(key, RowAt(h, at + 1), request.id.active))
        && (Current(h[..at], h[at]) ==>
              Perform(BallotOf(key, RowAt(h, at), request.id.active), request, h[at].now) == Ok(vote.ballot))
      case Removed =>
        && since <= at <= |h|
        && if committed then at < |h| && BallotOf(key, RowAt(h, at + 1), request.id.active) == NO_BALLOT
           else Votes(RowAt(h, at)).pk.kind.Empty? && Votes(RowAt(h, at)).sk.kind.Empty?
      case Failed(e) =>
        && (e == WrongVote || e == VoteNotFound ==>
              && !committed && since <= at <= |h|
              && Perform(BallotOf(key, RowAt(h, at), request.id.active), request, now) == Err(e))
        && e != VoteDuplicate
        && (e == Malformed ==> Unreadable(h, if committed then at + 1 else at))
        && (e == VersionConflict ==>
              |lost| == 4 && forall i :: 0 <= i < |h| ==> h[i].Wiped? || h[i].client != me)
  {
    hide Run, Perform, View, RowAfter, Justified, ClientOk, Inv, Valid, LostWindows;
    var steps := StepsOn(log, key);
    var Client(_, _, Done(_, at, committed), _) := SystemAt(log, key).clients[me];
    match outcome
    case Voted(vote) => VotedIsAtomic(key, steps, me, vote, at, committed);
    case Removed => RemovedIsAtomic(key, steps, me, at, committed);
    case Failed(e) =>
      FailureIsFromTheStore(key, steps, me, e, at, committed);
      if e == WrongVote || e == VoteNotFound {
        RefusalIsAtomic(key, steps, me, e, at, committed, now);
      } else if e == VersionConflict {
        ConflictsAreForeign(key, steps, me);
      }
  }

  // A step that makes no counter call.
  function Plain(key: RomanceKey, step: Step): Act {
    Took(key, step, 0, false)
  }

  lemma ZoneIsFixed(zone: int, began: int, log: Log)
    ensures StoreAt(zone, began, log).zone == zone
  {
    CounterRuns.RunIndexes(zone, began, CounterSteps(log));
  }

  // The repository's transaction and the counter call of the log leave the same table.
  lemma CallMatchesTransaction(
      zone: int, began: int, log: Log, me: nat, request: Request, vote: Vote, positive: bool, eventTime: int,
      refused: bool)
    requires AboutToCount(SystemAt(log, KeyOf(request.id)), me, request, vote, positive)
    requires eventTime <= StoreAt(zone, began, log).now
    ensures var act := Took(KeyOf(request.id), Count(me), eventTime, refused);
      var before, after := StoreAt(zone, began, log), StoreAt(zone, began, log + [act]);
      var hour := Counters.HourStart(eventTime, zone);
      && after.now == before.now
      && after.rows ==
         if !refused && hour != Counters.LIFETIME_KEY then
           Counters.ApplyUpdates(before.rows, Counters.IncrUpdates(request.id, hour, positive))
         else before.rows
  {
    hide SystemAt, StoreAt, Counters.ApplyUpdates, Counters.IncrUpdates, Counters.HourStart, Counters.DistinctKeys;
    var act := Took(KeyOf(request.id), Count(me), eventTime, refused);
    StoreGrows(zone, began, log, act);
    ZoneIsFixed(zone, began, log);
    Counters.KeysAreDistinctIff(request.id, Counters.HourStart(eventTime, zone), positive);
  }

  // What the stores answer to one operation: its reads and writes by attempt, and its counter call.
  datatype Calls = Calls(onRead: nat -> Fault, onWrite: nat -> Fault, refused: bool)

  // One operation under way: since is the length of the log when it was called, from what the clock showed then.
  datatype Op = Op(me: nat, request: Request, calls: Calls, since: nat, from: int)

  predicate Own(act: Act, me: nat) {
    act.Took? && !act.step.Remove? && act.step.client == me
  }

  // What an operation may do at its own hands up to the given time: work on its own row, be answered what the
  // stores answer, and stamp its writes and its counted event with times of its own duration.
  ghost predicate InOrder(act: Act, op: Op, to: int)
    requires Own(act, op.me)
  {
    && act.key == KeyOf(op.request.id)
    && match act.step
       case Start(_, request) => request == op.request
       case Read(_, fault) => exists k: nat :: k <= RETRIES_COUNT && fault == op.calls.onRead(k)
       case Write(_, now, fault) =>
         && (exists k: nat :: k <= RETRIES_COUNT && fault == op.calls.onWrite(k))
         && (!op.request.Delete? ==> op.from <= now <= to)
       case Count(_) => op.from <= act.eventTime <= to && act.refused == op.calls.refused
  }

  ghost predicate AllInOrder(log: Log, op: Op, to: int) {
    forall i :: op.since <= i < |log| && Own(log[i], op.me) ==> InOrder(log[i], op, to)
  }

  lemma OthersKeepOrder(log: Log, others: Log, op: Op, to: int, later: int)
    requires AllInOrder(log, op, to) && AllForeign(others, op.me) && to <= later
    ensures AllInOrder(log + others, op, later)
  {
    assert forall j :: 0 <= j < |others| ==> Foreign(others[j], op.me) && !Own(others[j], op.me);
    forall i | op.since <= i < |log + others| && Own((log + others)[i], op.me)
      ensures InOrder((log + others)[i], op, later)
    {
      if i < |log| {
        assert InOrder(log[i], op, to);
      } else {
        assert false;
      }
    }
  }

  lemma ActKeepsOrder(log: Log, act: Act, op: Op, to: int)
    requires AllInOrder(log, op, to) && Own(act, op.me) && InOrder(act, op, to)
    ensures AllInOrder(log + [act], op, to)
  {
    hide InOrder;
  }

  // Every counter call of the client logged since then is for an event of the present: its time, and so its hour,
  // lies between the two given times.
  ghost predicate CountedBetween(log: Log, since: nat, me: nat, zone: int, from: int, to: int) {
    forall i :: since <= i < |log| && log[i].Took? && log[i].step == Count(me) ==>
      && from <= log[i].eventTime <= to
      && Counters.HourStart(from, zone) <= Counters.HourStart(log[i].eventTime, zone) <= Counters.HourStart(to, zone)
  }

  lemma CountedInPresentHours(log: Log, op: Op, to: int, zone: int)
    requires AllInOrder(log, op, to)
    ensures CountedBetween(log, op.since, op.me, zone, op.from, to)
  {
    hide Counters.HourStart;
    forall i | op.since <= i < |log| && log[i].Took? && log[i].step == Count(op.me)
      ensures op.from <= log[i].eventTime <= to
      ensures Counters.HourStart(op.from, zone) <= Counters.HourStart(log[i].eventTime, zone)
      ensures Counters.HourStart(log[i].eventTime, zone) <= Counters.HourStart(to, zone)
    {
      assert InOrder(log[i], op, to);
      Counters.HourStartIsMonotone(op.from, log[i].eventTime, zone);
      Counters.HourStartIsMonotone(log[i].eventTime, to, zone);
    }
  }

  // The vote a committed write hands back, as its repository call reads it from the row.
  lemma WrittenVote(
      rows: map<RomanceKey, Row>, after: map<RomanceKey, Row>, request: Request, romance: Romance, now: int, fault: Fault)
    requires after == Updated(rows, request, romance, now, fault) && UpdateError(rows, request, romance, fault).None?
    requires View(request.id, Lookup(after, KeyOf(request.id))).Ok?
    ensures var vote := View(request.id, Lookup(after, KeyOf(request.id))).value.active;
      && vote.id == request.id
      && (request.Add? ==>
            && vote.ballot.kind == request.kind && vote.ballot.votedAt == Some(request.votedAt)
            && vote.ballot.createdAt == Some(now))
      && (request.Change? ==> vote.ballot.kind == request.kind && vote.ballot.updatedAt == Some(now))
  {
    hide View, Written;
    WriteTouchesOneSide(Lookup(rows, KeyOf(request.id)), request, romance, now);
  }

  lemma StampedLonger(vote: Vote, request: Request, from: int, to: int, earlier: int, later: int)
    requires StampedBetween(vote, request, from, to) && earlier <= from && to <= later
    ensures StampedBetween(vote, request, earlier, later)
  {
  }

  // A vote as an Add or Change may hand it back: what was asked for, stamped with a time of the operation.
  predicate StampedBetween(vote: Vote, request: Request, from: int, to: int) {
    && vote.id == request.id
    && (request.Add? ==>
          && vote.ballot.kind == request.kind && vote.ballot.votedAt == Some(request.votedAt)
          && vote.ballot.createdAt.Some? && from <= vote.ballot.createdAt.value <= to)
    && (request.Change? ==>
          && vote.ballot.kind == request.kind
          && vote.ballot.updatedAt.Some? && from <= vote.ballot.updatedAt.value <= to)
  }

  // ---------- The checks of the loops, as their clients see them ----------

  lemma RetryLimit()
    ensures RETRIES_COUNT == 3
  {
  }

  lemma ChangeDecision(request: Request, romance: Romance)
    requires !request.Delete? && IsChangeAllowed(romance.active.ballot.kind, request.kind)
    requires request.kind != romance.active.ballot.kind
    ensures request.Add? ==> Decide(request, romance) == None
    ensures Decide(request, romance).Some? ==>
      Decide(request, romance).value in {Failed(VoteNotFound), Failed(WrongVote)}
  {
  }

  lemma RefusedDecision(request: Request, romance: Romance)
    requires !request.Delete?
    ensures !IsChangeAllowed(romance.active.ballot.kind, request.kind) ==>
      Decide(request, romance) == Some(Failed(WrongVote))
    ensures IsChangeAllowed(romance.active.ballot.kind, request.kind) && request.kind == romance.active.ballot.kind ==>
      Decide(request, romance) == Some(Failed(VoteDuplicate))
  {
  }

  lemma OwedCall(request: Request, before: VoteType, yes: bool, no: bool)
    requires request.Add? && yes == (request.kind.IsPositive() && !before.IsPositive())
    requires no == (request.kind.IsNegative() && !before.IsNegative())
    ensures !(yes && no)
    ensures Owes(request, before) == if yes then Some(true) else if no then Some(false) else None
  {
  }

  lemma ChangeOwesNothing(request: Request, before: VoteType)
    requires !request.Add?
    ensures Owes(request, before) == None
  {
  }

  lemma WriteLeads(s: System, me: nat, request: Request, romance: Romance, tries: nat, r: Result<Romance, Error>)
    requires WriteAnswered(s, me, request, romance, tries, r)
    ensures match r
      case Err(e) =>
        if e == VersionConflict && tries < RETRIES_COUNT then InPhase(s, me, request, Reading(tries + 1))
        else Answered(s, me, request, Failed(e))
      case Ok(after) =>
        match Owes(request, romance.active.ballot.kind)
        case Some(positive) => AboutToCount(s, me, request, after.active, positive)
        case None => Answered(s, me, request, Voted(after.active))
  {
  }

  lemma OutcomeOf(r: Result<Vote, Error>)
    ensures VoteOutcome(r) == if r.Ok? then Voted(r.value) else Failed(r.error)
  {
  }

  lemma GroupHour(eventTime: int, zone: int)
    requires eventTime > Counters.ZERO_TIME
    ensures Counters.NewCounterUpdateGroup(eventTime, zone) == Ok(Counters.HourStart(eventTime, zone))
  {
  }

  class VotingSession {
    const romances: RomancesRepository
    const counters: Counters.CountersRepository
    const zone: int
    ghost const began: int
    var clock: int
    ghost var log: Log

    // Both tables, and the clock, are what the log has made of them.
    ghost predicate Valid()
      reads this, romances, counters
    {
      RowsMatch(log, romances.rows) && CountersMatch()
    }

    ghost predicate CountersMatch()
      reads this, counters
    {
      && counters.rows == StoreAt(zone, began, log).rows
      && clock == StoreAt(zone, began, log).now > Counters.ZERO_TIME
    }

    constructor (romances: RomancesRepository, counters: Counters.CountersRepository, zone: int, now: int)
      requires romances.rows == map[] && counters.rows == map[] && now > Counters.ZERO_TIME
      ensures Valid() && this.romances == romances && this.counters == counters && log == []
    {
      this.romances, this.counters, this.zone, this.began := romances, counters, zone, now;
      clock, log := now, [];
    }

    // The store is at the mercy of time and of the other clients for a while. The operations below know no more
    // of this method than its contract, so they are proved for whatever steps the others take.
    method Interleave(ghost me: nat) returns (ghost others: Log)
      requires Valid()
      modifies this, romances, counters
      ensures Valid() && log == old(log) + others && AllForeign(others, me) && clock >= old(clock)
    {
      others := [];
      assert log + [] == log;
    }

    // The operation has so far done nothing out of order.
    ghost predicate Follows(op: Op)
      reads this
    {
      op.since <= |log| && op.from <= clock && AllInOrder(log, op, clock)
    }

    // Others act between two steps of a client, whose own state they cannot move.
    method InterleaveAround(ghost op: Op, ghost key: RomanceKey)
      requires Valid() && Follows(op) && op.me in SystemAt(log, key).clients
      modifies this, romances, counters
      ensures Valid() && Follows(op) && old(log) <= log && clock >= old(clock)
      ensures op.me in SystemAt(log, key).clients
      ensures SystemAt(log, key).clients[op.me] == SystemAt(old(log), key).clients[op.me]
    {
      hide RowsMatch, SystemAt, StoreAt, AllInOrder, AllForeign;
      ghost var others := Interleave(op.me);
      ForeignStepsKeepClient(old(log), others, key, op.me);
      OthersKeepOrder(old(log), others, op, old(clock), clock);
    }

    // One act on the row of a key, already made on the tables.
    ghost method Record(act: Act)
      requires act.Took? && SystemAt(log + [act], act.key).row == Lookup(romances.rows, act.key)
      requires forall key: RomanceKey :: key != act.key ==> SystemAt(log, key).row == Lookup(romances.rows, key)
      requires counters.rows == StoreAt(zone, began, log + [act]).rows
      requires clock == StoreAt(zone, began, log + [act]).now > Counters.ZERO_TIME
      modifies this`log
      ensures Valid() && log == old(log) + [act]
    {
      hide SystemAt, StoreAt;
      forall key: RomanceKey | key != act.key
        ensures SystemAt(log + [act], key).row == Lookup(romances.rows, key)
      {
        LogGrows(log, act, key);
      }
      log := log + [act];
    }

    ghost method RecordPlain(key: RomanceKey, step: Step)
      requires !step.Count? && CountersMatch()
      requires SystemAt(log + [Plain(key, step)], key).row == Lookup(romances.rows, key)
      requires forall k: RomanceKey :: k != key ==> SystemAt(log, k).row == Lookup(romances.rows, k)
      modifies this`log
      ensures Valid() && log == old(log) + [Plain(key, step)]
    {
      hide SystemAt, StoreAt;
      StoreGrows(zone, began, log, Plain(key, step));
      Record(Plain(key, step));
    }

    // The operation is called.
    ghost method Begin(op: Op)
      requires Valid() && op.me !in SystemAt(log, KeyOf(op.request.id)).clients
      requires op.since == |log| && op.from == clock
      modifies this`log
      ensures Valid() && Follows(op) && old(log) <= log
      ensures InPhase(SystemAt(log, KeyOf(op.request.id)), op.me, op.request, Reading(0))
    {
      hide StoreAt;
      var key := KeyOf(op.request.id);
      KeyOfSystem(log, key);
      LogGrows(log, Plain(key, Start(op.me, op.request)), key);
      ActKeepsOrder(log, Plain(key, Start(op.me, op.request)), op, clock);
      RecordPlain(key, Start(op.me, op.request));
    }

    lemma ClockIsSet()
      requires Valid()
      ensures clock > Counters.ZERO_TIME
    {
    }

    lemma CountedInPresent(op: Op)
      requires Follows(op)
      ensures CountedBetween(log, op.since, op.me, zone, op.from, clock)
    {
      CountedInPresentHours(log, op, clock, zone);
    }

    // GetRomanceOperation, on behalf of an operation about to decide what to do.
    method GetRomance(ghost op: Op, request: Request, fault: Fault, ghost tries: nat)
      returns (r: Result<Romance, Error>)
      requires Valid() && Follows(op) && request == op.request && tries <= RETRIES_COUNT
      requires fault == op.calls.onRead(tries)
      requires InPhase(SystemAt(log, KeyOf(request.id)), op.me, request, Reading(tries))
      modifies this, romances, counters
      ensures Valid() && Follows(op) && old(log) <= log && clock >= old(clock)
      ensures r == Err(StoreError) <==> !fault.NoFault?
      ensures var s := SystemAt(log, KeyOf(request.id));
        match r
        case Err(e) => Answered(s, op.me, request, Failed(e))
        case Ok(romance) =>
          && romance.active.id == request.id
          && match Decide(request, romance)
             case Some(outcome) => Answered(s, op.me, request, outcome)
             case None => AboutToWrite(s, op.me, request, tries, romance)
    {
      ghost var key := KeyOf(request.id);
      InterleaveAround(op, key);
      r := romances.GetRomance(request.id, fault);
      ViewShowsEachSide(request.id, Lookup(romances.rows, key));
      LogGrows(log, Plain(key, Read(op.me, fault)), key);
      hide View, Decide, StoreAt;
      assert InOrder(Plain(key, Read(op.me, fault)), op, clock);
      ActKeepsOrder(log, Plain(key, Read(op.me, fault)), op, clock);
      RecordPlain(key, Read(op.me, fault));
      ghost var s := SystemAt(log, key);
      assert r.Ok? && Decide(request, r.value).None? ==>
        InPhase(s, op.me, request, Writing(tries, r.value, |s.history|));
    }

    // IncrYesCounters or IncrNoCounters, for an event of the given time: the last thing logged is the call, and
    // whatever becomes of it, the operation goes on.
    method IncrCounters(
        ghost op: Op, request: Request, vote: Vote, hour: int, positive: bool, refused: bool, ghost eventTime: int)
      requires Valid() && Follows(op) && request == op.request && refused == op.calls.refused
      requires op.from <= eventTime <= clock && hour == Counters.HourStart(eventTime, zone)
      requires AboutToCount(SystemAt(log, KeyOf(request.id)), op.me, request, vote, positive)
      modifies this, romances, counters
      ensures Valid() && Follows(op) && old(log) < log && clock >= old(clock)
      ensures log[|log| - 1] == Took(KeyOf(request.id), Count(op.me), eventTime, refused)
      ensures CallOf(SystemAt(log[..|log| - 1], KeyOf(request.id)), Count(op.me)) == Some((request.id, positive))
      ensures Answered(SystemAt(log, KeyOf(request.id)), op.me, request, Voted(vote))
    {
      hide SystemAt, StoreAt, AllInOrder;
      ghost var key := KeyOf(request.id);
      InterleaveAround(op, key);
      var _ := counters.IncrCounters(request.id, hour, positive, refused);
      ghost var act := Took(key, Count(op.me), eventTime, refused);
      LogGrows(log, act, key);
      CallMatchesTransaction(zone, began, log, op.me, request, vote, positive, eventTime, refused);
      assert (log + [act])[..|log|] == log;
      ActKeepsOrder(log, act, op, clock);
      Record(act);
    }

    // The two counter calls an Add may make after its write; never both.
    method CountVote(
        ghost op: Op, request: Request, vote: Vote, hour: int, yes: bool, no: bool, refused: bool, ghost eventTime: int)
      requires Valid() && Follows(op) && request == op.request && refused == op.calls.refused && !(yes && no)
      requires op.from <= eventTime <= clock && hour == Counters.HourStart(eventTime, zone)
      requires var s := SystemAt(log, KeyOf(request.id));
        && (yes ==> AboutToCount(s, op.me, request, vote, true))
        && (no ==> AboutToCount(s, op.me, request, vote, false))
        && (!yes && !no ==> Answered(s, op.me, request, Voted(vote)))
      modifies this, romances, counters
      ensures Valid() && Follows(op) && old(log) <= log && clock >= old(clock)
      ensures !yes && !no ==> log == old(log) && counters.rows == old(counters.rows)
      ensures yes || no ==>
        && old(log) < log
        && log[|log| - 1] == Took(KeyOf(request.id), Count(op.me), eventTime, refused)
        && CallOf(SystemAt(log[..|log| - 1], KeyOf(request.id)), Count(op.me)) == Some((request.id, yes))
      ensures Answered(SystemAt(log, KeyOf(request.id)), op.me, request, Voted(vote))
    {
      hide *;
      if yes {
        IncrCounters(op, request, vote, hour, true, refused, eventTime);
      }
      if no {
        IncrCounters(op, request, vote, hour, false, refused, eventTime);
      }
    }

    // The write just made by the repository, recorded as the client's write step.
    ghost method RecordWrite(
        op: Op, tries: nat, romance: Romance, now: int, fault: Fault, rows: map<RomanceKey, Row>)
      requires CountersMatch() && Follows(op) && RowsMatch(log, rows)
      requires tries <= RETRIES_COUNT && fault == op.calls.onWrite(tries)
      requires op.request.Delete? || op.from <= now <= clock
      requires romances.rows == Updated(rows, op.request, romance, now, fault)
      requires AboutToWrite(SystemAt(log, KeyOf(op.request.id)), op.me, op.request, tries, romance)
      modifies this`log
      ensures Valid() && Follows(op) && old(log) <= log
      ensures var s := SystemAt(log, KeyOf(op.request.id));
        match UpdateError(rows, op.request, romance, fault)
        case Some(e) =>
          if e == VersionConflict && tries < RETRIES_COUNT then InPhase(s, op.me, op.request, Reading(tries + 1))
          else Answered(s, op.me, op.request, Failed(e))
        case None =>
          exists at ::
            InPhase(s, op.me, op.request,
              CommittedPhase(op.request, romance, Lookup(romances.rows, KeyOf(op.request.id)), at, NoFault))
    {
      hide Next, UpdateError, Updated, StoreAt, AllInOrder;
      var key := KeyOf(op.request.id);
      var s := SystemAt(log, key);
      var seenAt :| InPhase(s, op.me, op.request, Writing(tries, romance, seenAt));
      WriteStepMatchesUpdate(s, rows, op.me, op.request, tries, romance, seenAt, now, fault);
      LogGrows(log, Plain(key, Write(op.me, now, fault)), key);
      OtherRowsUntouched(log, key, rows, op.request, romance, now, fault);
      ActKeepsOrder(log, Plain(key, Write(op.me, now, fault)), op, clock);
      RecordPlain(key, Write(op.me, now, fault));
    }

    method InterleaveBeforeWrite(ghost op: Op, ghost tries: nat, romance: Romance)
      requires Valid() && Follows(op)
      requires AboutToWrite(SystemAt(log, KeyOf(op.request.id)), op.me, op.request, tries, romance)
      modifies this, romances, counters
      ensures Valid() && Follows(op) && old(log) <= log && clock >= old(clock)
      ensures AboutToWrite(SystemAt(log, KeyOf(op.request.id)), op.me, op.request, tries, romance)
    {
      hide SystemAt, StoreAt, RowsMatch, KeyOf, AllInOrder;
      InterleaveAround(op, KeyOf(op.request.id));
    }

    // AddActiveUserVoteToRomance, recorded as the client's write step, at the time the clock shows when it is called.
    method AddVoteToRomance(ghost op: Op, request: Request, romance: Romance, fault: Fault, ghost tries: nat)
      returns (r: Result<Romance, Error>)
      requires Valid() && Follows(op) && request == op.request && tries <= RETRIES_COUNT
      requires fault == op.calls.onWrite(tries) && request.Add? && romance.active.id == request.id
      requires AboutToWrite(SystemAt(log, KeyOf(request.id)), op.me, request, tries, romance)
      modifies this, romances, counters
      ensures Valid() && Follows(op) && old(log) <= log && clock >= old(clock)
      ensures r == Err(StoreError) <==> !fault.NoFault?
      ensures WriteAnswered(SystemAt(log, KeyOf(request.id)), op.me, request, romance, tries, r)
      ensures r.Ok? ==> StampedBetween(r.value.active, request, op.from, clock)
    {
      hide View, Next, SystemAt, StoreAt, RowsMatch, Updated, KeyOf, Condition, AllInOrder;
      var now := clock;
      InterleaveBeforeWrite(op, tries, romance);
      ghost var rows := romances.rows;
      r := romances.AddActiveUserVoteToRomance(romance, request.kind, request.votedAt, now, fault);
      RecordWrite(op, tries, romance, now, fault, rows);
      ReadsFailAsMalformed(request.id, Lookup(romances.rows, KeyOf(request.id)));
      if r.Ok? {
        VoteCommitted(
          SystemAt(log, KeyOf(request.id)), op.me, request, romance, Lookup(romances.rows, KeyOf(request.id)));
        WrittenVote(rows, romances.rows, request, romance, now, fault);
      }
    }

    // ChangeActiveUserVoteTypeInRomance, recorded as the client's write step.
    method ChangeVoteInRomance(ghost op: Op, request: Request, romance: Romance, fault: Fault, ghost tries: nat)
      returns (r: Result<Romance, Error>)
      requires Valid() && Follows(op) && request == op.request && tries <= RETRIES_COUNT
      requires fault == op.calls.onWrite(tries) && request.Change? && romance.active.id == request.id
      requires match Decide(request, romance)
        case None => AboutToWrite(SystemAt(log, KeyOf(request.id)), op.me, request, tries, romance)
        case Some(outcome) =>
          && outcome in {Failed(VoteNotFound), Failed(WrongVote)}
          && Answered(SystemAt(log, KeyOf(request.id)), op.me, request, outcome)
      requires IsChangeAllowed(romance.active.ballot.kind, request.kind) && request.kind != romance.active.ballot.kind
      modifies this, romances, counters
      ensures Valid() && Follows(op) && old(log) <= log && clock >= old(clock)
      ensures r == Err(StoreError) ==> !fault.NoFault?
      ensures WriteAnswered(SystemAt(log, KeyOf(request.id)), op.me, request, romance, tries, r)
      ensures r.Ok? ==> StampedBetween(r.value.active, request, op.from, clock)
    {
      hide View, Next, SystemAt, StoreAt, RowsMatch, Updated, KeyOf, Condition, AllInOrder;
      var now := clock;
      if Decide(request, romance) == None {
        InterleaveBeforeWrite(op, tries, romance);
      }
      ghost var rows := romances.rows;
      r := romances.ChangeActiveUserVoteTypeInRomance(romance, request.kind, now, fault);
      if Decide(request, romance) == None {
        RecordWrite(op, tries, romance, now, fault, rows);
        ReadsFailAsMalformed(request.id, Lookup(romances.rows, KeyOf(request.id)));
        if r.Ok? {
          VoteCommitted(
            SystemAt(log, KeyOf(request.id)), op.me, request, romance, Lookup(romances.rows, KeyOf(request.id)));
          WrittenVote(rows, romances.rows, request, romance, now, fault);
        }
      }
    }

    // AddUserVoteOperation.Run
    method AddUserVote(ghost me: nat, id: VoteId, kind: VoteType, votedAt: int, calls: Calls)
      returns (r: Result<Vote, Error>, ghost attempts: nat)
      requires Valid() && me !in SystemAt(log, KeyOf(id)).clients
      modifies this, romances, counters
      ensures Valid() && old(log) <= log && clock >= old(clock)
      ensures Answered(SystemAt(log, KeyOf(id)), me, Add(id, kind, votedAt), VoteOutcome(r))
      ensures attempts <= 4
      ensures Follows(Op(me, Add(id, kind, votedAt), calls, |old(log)|, old(clock)))
      ensures CountedBetween(log, |old(log)|, me, zone, old(clock), clock)
      ensures r.Ok? ==> StampedBetween(r.value, Add(id, kind, votedAt), old(clock), clock)
      ensures r == Err(StoreError) ==>
        exists k: nat :: k <= RETRIES_COUNT && !(calls.onRead(k).NoFault? && calls.onWrite(k).NoFault?)
    {
      hide *;
      var request := Add(id, kind, votedAt);
      ghost var key := KeyOf(id);
      ghost var op := Op(me, request, calls, |log|, clock);
      attempts := 0;
      RetryLimit();
      Begin(op);
      var tries := 0;
      while true
        invariant Valid() && Follows(op)
        invariant old(log) <= log && clock >= old(clock)
        invariant attempts == tries <= RETRIES_COUNT
        invariant InPhase(SystemAt(log, key), me, request, Reading(tries))
        decreases RETRIES_COUNT - tries
      {
        var read := GetRomance(op, request, calls.onRead(tries), tries);
        CountedInPresent(op);
        if read.Err? {
          OutcomeOf(Err(read.error));
          return Err(read.error), attempts;
        }
        var romance := read.value;
        RefusedDecision(request, romance);
        if !IsChangeAllowed(romance.active.ballot.kind, kind) {
          OutcomeOf(Err(WrongVote));
          return Err(WrongVote), attempts;
        }
        if kind == romance.active.ballot.kind {
          OutcomeOf(Err(VoteDuplicate));
          return Err(VoteDuplicate), attempts;
        }
        ChangeDecision(request, romance);
        // The clock never shows the zero time, so the update group is never refused.
        ClockIsSet();
        var currentTime := clock;
        GroupHour(currentTime, zone);
        var group := Counters.NewCounterUpdateGroup(currentTime, zone);
        var hour := group.value;
        var newVoteIsPositive, newVoteIsNegative := kind.IsPositive(), kind.IsNegative();
        var oldVoteIsNotPositive := !romance.active.ballot.kind.IsPositive();
        var oldVoteIsNotNegative := !romance.active.ballot.kind.IsNegative();

        var written := AddVoteToRomance(op, request, romance, calls.onWrite(tries), tries);
        WriteLeads(SystemAt(log, key), me, request, romance, tries, written);
        attempts := attempts + 1;
        if written.Err? {
          if written.error == VersionConflict && tries < RETRIES_COUNT {
            tries := tries + 1;
            continue;
          }
          CountedInPresent(op);
          OutcomeOf(Err(written.error));
          return Err(written.error), attempts;
        }
        var yes, no := newVoteIsPositive && oldVoteIsNotPositive, newVoteIsNegative && oldVoteIsNotNegative;
        OwedCall(request, romance.active.ballot.kind, yes, no);
        ghost var stored := clock;
        CountVote(op, request, written.value.active, hour, yes, no, calls.refused, currentTime);
        StampedLonger(written.value.active, request, op.from, stored, op.from, clock);
        CountedInPresent(op);
        OutcomeOf(Ok(written.value.active));
        return Ok(written.value.active), attempts;
      }
    }

    // ChangeUserVoteOperation.Run
    method ChangeUserVote(ghost me: nat, id: VoteId, kind: VoteType, calls: Calls)
      returns (r: Result<Vote, Error>, ghost attempts: nat)
      requires Valid() && me !in SystemAt(log, KeyOf(id)).clients
      modifies this, romances, counters
      ensures Valid() && old(log) <= log && clock >= old(clock)
      ensures Answered(SystemAt(log, KeyOf(id)), me, Change(id, kind), VoteOutcome(r))
      ensures attempts <= 4
      ensures Follows(Op(me, Change(id, kind), calls, |old(log)|, old(clock)))
      ensures r.Ok? ==> StampedBetween(r.value, Change(id, kind), old(clock), clock)
      ensures r == Err(StoreError) ==>
        exists k: nat :: k <= RETRIES_COUNT && !(calls.onRead(k).NoFault? && calls.onWrite(k).NoFault?)
    {
      hide *;
      var request := Change(id, kind);
      ghost var key := KeyOf(id);
      ghost var op := Op(me, request, calls, |log|, clock);
      attempts := 0;
      RetryLimit();
      Begin(op);
      var tries := 0;
      while true
        invariant Valid() && Follows(op)
        invariant old(log) <= log && clock >= old(clock)
        invariant attempts == tries <= RETRIES_COUNT
        invariant InPhase(SystemAt(log, key), me, request, Reading(tries))
        decreases RETRIES_COUNT - tries
      {
        var read := GetRomance(op, request, calls.onRead(tries), tries);
        if read.Err? {
          OutcomeOf(Err(read.error));
          return Err(read.error), attempts;
        }
        var romance := read.value;
        RefusedDecision(request, romance);
        if !IsChangeAllowed(romance.active.ballot.kind, kind) {
          OutcomeOf(Err(WrongVote));
          return Err(WrongVote), attempts;
        }
        if kind == romance.active.ballot.kind {
          OutcomeOf(Err(VoteDuplicate));
          return Err(VoteDuplicate), attempts;
        }
        ChangeDecision(request, romance);

        var changed := ChangeVoteInRomance(op, request, romance, calls.onWrite(tries), tries);
        WriteLeads(SystemAt(log, key), me, request, romance, tries, changed);
        ChangeOwesNothing(request, romance.active.ballot.kind);
        attempts := attempts + 1;
        if changed.Err? {
          if changed.error == VersionConflict && tries < RETRIES_COUNT {
            tries := tries + 1;
            continue;
          }
          OutcomeOf(Err(changed.error));
          return Err(changed.error), attempts;
        }
        OutcomeOf(Ok(changed.value.active));
        return Ok(changed.value.active), attempts;
      }
    }

    // DeleteActiveUserVoteFromRomance, recorded as the client's write step if it makes one.
    method DeleteVoteFromRomance(ghost op: Op, request: Request, romance: Romance, fault: Fault, ghost tries: nat)
      returns (error: Option<Error>)
      requires Valid() && Follows(op) && request == op.request && tries <= RETRIES_COUNT
      requires fault == op.calls.onWrite(tries) && request.Delete? && romance.active.id == request.id
      requires match Decide(request, romance)
        case None => AboutToWrite(SystemAt(log, KeyOf(request.id)), op.me, request, tries, romance)
        case Some(outcome) => Answered(SystemAt(log, KeyOf(request.id)), op.me, request, outcome)
      modifies this, romances, counters
      ensures Valid() && Follows(op) && old(log) <= log && clock >= old(clock)
      ensures error == Some(StoreError) ==> !fault.NoFault?
      ensures var s := SystemAt(log, KeyOf(request.id));
        match error
        case None => Answered(s, op.me, request, Removed)
        case Some(e) =>
          if e == VersionConflict && tries < RETRIES_COUNT then InPhase(s, op.me, request, Reading(tries + 1))
          else Answered(s, op.me, request, Failed(e))
    {
      hide View, Next, SystemAt, StoreAt, RowsMatch, Updated, KeyOf, Condition, AllInOrder;
      if Decide(request, romance) == None {
        InterleaveBeforeWrite(op, tries, romance);
      }
      ghost var rows := romances.rows;
      error := romances.DeleteActiveUserVoteFromRomance(romance, fault);
      if Decide(request, romance) == None {
        RecordWrite(op, tries, romance, 0, fault, rows);
      }
    }

    // DeleteUserVoteOperation.Run
    method DeleteUserVote(ghost me: nat, id: VoteId, calls: Calls) returns (error: Option<Error>, ghost attempts: nat)
      requires Valid() && me !in SystemAt(log, KeyOf(id)).clients
      modifies this, romances, counters
      ensures Valid() && old(log) <= log && clock >= old(clock)
      ensures Answered(SystemAt(log, KeyOf(id)), me, Delete(id),
        if error.Some? then Failed(error.value) else Removed)
      ensures attempts <= 4
      ensures Follows(Op(me, Delete(id), calls, |old(log)|, old(clock)))
      ensures error == Some(StoreError) ==>
        exists k: nat :: k <= RETRIES_COUNT && !(calls.onRead(k).NoFault? && calls.onWrite(k).NoFault?)
    {
      hide *;
      var request := Delete(id);
      ghost var key := KeyOf(id);
      ghost var op := Op(me, request, calls, |log|, clock);
      attempts := 0;
      RetryLimit();
      Begin(op);
      var tries := 0;
      while true
        invariant Valid() && Follows(op)
        invariant old(log) <= log && clock >= old(clock)
        invariant attempts == tries <= RETRIES_COUNT
        invariant InPhase(SystemAt(log, key), me, request, Reading(tries))
        decreases RETRIES_COUNT - tries
      {
        var read := GetRomance(op, request, calls.onRead(tries), tries);
        if read.Err? {
          return Some(read.error), attempts;
        }
        var romance := read.value;

        error := DeleteVoteFromRomance(op, request, romance, calls.onWrite(tries), tries);
        attempts := attempts + 1;
        if error.Some? {
          if error.value == VersionConflict && tries < RETRIES_COUNT {
            tries := tries + 1;
            continue;
          }
          return error, attempts;
        }
        return None, attempts;
      }
    }

    // DeleteRomanceOperation.Run: unconditional, and in one step.
    method DeleteRomance(id: VoteId, fault: Fault) returns (error: Option<Error>)
      requires Valid()
      modifies this, romances
      ensures Valid() && clock == old(clock)
      ensures log == if fault.Refused? then old(log) else old(log) + [Plain(KeyOf(id), Remove)]
      ensures error.None? <==> fault.NoFault?
      ensures !fault.Refused? ==> KeyOf(id) !in romances.rows && SystemAt(log, KeyOf(id)).row.None?
      ensures fault.Refused? ==> romances.rows == old(romances.rows)
      ensures forall key: RomanceKey :: key != KeyOf(id) ==> Lookup(romances.rows, key) == Lookup(old(romances.rows), key)
    {
      hide SystemAt, StoreAt, KeyOf;
      var key := KeyOf(id);
      error := romances.DeleteRomance(id, fault);
      if !fault.Refused? {
        RemovalErases(log, key);
        RecordPlain(key, Remove);
      }
    }
  }
}
