/**
 Votes that are stored but cannot be read back: the write accepts any 64-bit time, the read only 32 bits.
 When exactly a committed operation fails for that reason, what it costs the counters, and what becomes of
 the row.
 */
module ReadBack {
  import opened Results
  import opened VoteTypes
  import opened Identity
  import opened Widths
  import opened Romances
  import opened RowHistory
  import opened VoteProtocol
  import opened VoteGuarantees

  // ---------- One commit ----------

  // What the caller's own numbers must satisfy for the write to be read back.
  predicate ReadsBack(request: Request, now: int, version: nat) {
    && (request.Add? ==> -2147483648 <= request.votedAt <= 2147483647)
    && (!request.Delete? ==> -2147483648 <= now <= 2147483647)
    && version + 1 <= 4294967295
  }

  lemma WrittenRowReadableIff(key: RomanceKey, before: History, event: Event)
    requires event.Committed? && ValidEvent(key, before, event) && Current(before, event)
    ensures Readable(Written(RowAfter(before), event.request, event.snapshot, event.now)) <==>
      ReadsBack(event.request, event.now, event.snapshot.version)
  {
    ViewShowsEachSide(event.request.id, RowAfter(before));
  }

  // An Add or Change that has committed answers with an error, though nothing went wrong at the store, exactly
  // when one of its numbers does not fit.
  lemma CommitAnswersErrorIff(key: RomanceKey, before: History, event: Event)
    requires event.Committed? && ValidEvent(key, before, event) && Current(before, event) && !event.request.Delete?
    ensures var phase := CommittedPhase(event.request, event.snapshot, RowAfter(before + [event]), |before|, NoFault);
      && (phase == Done(Failed(Malformed), |before|, true) <==>
            !ReadsBack(event.request, event.now, event.snapshot.version))
      && (ReadsBack(event.request, event.now, event.snapshot.version) ==>
            phase.Counting? || (phase.Done? && phase.outcome.Voted?))
  {
    assert Before(before + [event]) == before;
    WrittenRowReadableIff(key, before, event);
    ViewShowsEachSide(event.request.id, RowAfter(before + [event]));
  }

  // A commit loses the counter call it owes exactly when its answer was lost or its row cannot be read back.
  lemma CallIsDroppedIff(key: RomanceKey, before: History, event: Event, fault: Fault)
    requires event.Committed? && ValidEvent(key, before, event) && Current(before, event) && !fault.Refused?
    ensures var row := RowAfter(before + [event]);
      var phase := CommittedPhase(event.request, event.snapshot, row, |before|, fault);
      DroppedCalls(event.request, event.snapshot, phase) != [] <==>
        && Owes(event.request, event.snapshot.active.ballot.kind).Some?
        && (fault.ReplyLost? || !ReadsBack(event.request, event.now, event.snapshot.version))
  {
    hide ValidEvent, Current, View, Written;
    if !event.request.Delete? {
      CommitAnswersErrorIff(key, before, event);
    }
  }

  // ---------- A vote one second past the range ----------

  function LateRead(): System {
    Next(Next(Init(PAIR), Start(0, Add(FIRST_TO_SECOND, Yes, 0x8000_0000))), Read(0, NoFault))
  }

  function LateVote(): System {
    Next(LateRead(), Write(0, 60, NoFault))
  }

  lemma LateReadFindsNothing()
    ensures var s := LateRead();
      && s.key == PAIR && s.row == None && s.history == [] && s.dropped == [] && s.issued == []
      && 0 in s.clients && s.clients[0].request == Add(FIRST_TO_SECOND, Yes, 0x8000_0000)
      && s.clients[0].phase == Writing(0, CreateEmptyRomance(FIRST_TO_SECOND), 0)
      && Reachable(PAIR, s)
  {
    hide Reachable;
    InitIsReachable(PAIR);
    var started := Next(Init(PAIR), Start(0, Add(FIRST_TO_SECOND, Yes, 0x8000_0000)));
    NextIsReachable(PAIR, Init(PAIR), Start(0, Add(FIRST_TO_SECOND, Yes, 0x8000_0000)));
    NextIsReachable(PAIR, started, Read(0, NoFault));
  }

  // The vote is stored, its owner is told that it failed, and its yes is never counted.
  lemma LateVoteIsStoredButRefused()
    ensures var s := LateVote();
      && Reachable(PAIR, s)
      && s.row == Some(
           Row(Ballot(Yes, Some(0x8000_0000), Some(60), None), NO_BALLOT, 1, NON_MUTUAL_TTL_SECONDS))
      && 0 in s.clients && s.clients[0].phase == Done(Failed(Malformed), 0, true)
      && s.dropped == [Call(1, true)] && s.issued == []
  {
    hide LateRead, Reachable;
    LateReadFindsNothing();
    NextIsReachable(PAIR, LateRead(), Write(0, 60, NoFault));
  }

  // ---------- Runs in which everything fits ----------

  // Vote times and clocks fit, and no write loses its answer.
  predicate InRange(step: Step) {
    match step
    case Start(_, request) => request.Add? ==> FitsInt32(request.votedAt)
    case Write(_, now, fault) => FitsInt32(now) && !fault.ReplyLost?
    case _ => true
  }

  predicate AllInRange(steps: seq<Step>) {
    |steps| < 0x1_0000_0000 && forall i :: 0 <= i < |steps| ==> InRange(steps[i])
  }

  predicate RequestFits(request: Request) {
    request.Add? ==> FitsInt32(request.votedAt)
  }

  // Rows written so far can be read, so no call was dropped. n is the number of steps taken.
  predicate Tame(s: System, n: nat) {
    && s.dropped == []
    && (s.row.Some? ==> BallotReadable(s.row.value.pk) && BallotReadable(s.row.value.sk) && s.row.value.version <= n)
    && (forall c :: c in s.clients ==> RequestFits(s.clients[c].request))
  }

  lemma CommitStaysTame(s: System, c: nat, now: int, n: nat)
    requires Tame(s, n) && n + 1 < 0x1_0000_0000 && FitsInt32(now)
    requires c in s.clients && s.clients[c].phase.Writing?
    requires Condition(s.row, s.clients[c].request, s.clients[c].phase.romance.version)
    ensures Tame(CommitStep(s, c, now, NoFault), n + 1)
  {
    var request, romance := s.clients[c].request, s.clients[c].phase.romance;
    var row := Written(s.row, request, romance, now);
    assert RequestFits(request);
    assert Readable(row) && row.version <= n + 1;
    ViewShowsEachSide(request.id, Some(row));
  }

  lemma StepStaysTame(s: System, step: Step, n: nat)
    requires Tame(s, n) && n + 1 < 0x1_0000_0000 && InRange(step)
    ensures Tame(Next(s, step), n + 1)
  {
    hide View, Decide, Written, BallotReadable, CommittedPhase;
    if step.Write? && step.client in s.clients && s.clients[step.client].phase.Writing? {
      var client := s.clients[step.client];
      if step.fault.NoFault? && Condition(s.row, client.request, client.phase.romance.version) {
        CommitStaysTame(s, step.client, step.now, n);
      }
    }
  }

  lemma {:induction false} RunStaysTame(key: RomanceKey, steps: seq<Step>)
    requires AllInRange(steps)
    ensures Tame(After(key, steps), |steps|)
  {
    if steps != [] {
      var fewer := steps[..|steps| - 1];
      RunStaysTame(key, fewer);
      StepStaysTame(After(key, fewer), steps[|steps| - 1], |fewer|);
    }
  }

  // Then every counter call the stored votes call for is made or still owed, and no other.
  lemma CounterCallsAreGains(key: RomanceKey, steps: seq<Step>, user: Uuid, positive: bool)
    requires AllInRange(steps) && (user == key.pk || user == key.sk)
    ensures var s := After(key, steps);
      var issued, owed := CountCalls(s.issued, user, positive), |Owing(s.clients, user, positive)|;
      && s.dropped == []
      && issued + owed == FlaggedCommits(s.history, user, positive)
      && (StaleCommits(s.history) == 0 ==> issued + owed == Gains(key, s.history, user, positive))
      && (StaleCommits(s.history) == 0 ==> issued + owed <= 1 + Erasures(s.history, user))
  {
    hide Run;
    RunStaysTame(key, steps);
    CounterCallsFollowVotes(key, steps, user, positive);
    EveryRunIsValid(key, steps);
    FlagsAreBoundedByErasures(key, After(key, steps).history, user, positive);
  }

  // ---------- What becomes of an unreadable row ----------

  predicate Stuck(s: System) {
    s.row.Some? && !Readable(s.row.value)
  }

  // No pending write reaches back over a removal.
  ghost predicate NoPendingOverWipe(s: System) {
    forall c :: c in s.clients && s.clients[c].phase.Writing? ==> NoWipeSince(s.history, s.clients[c].phase.seenAt)
  }

  lemma StuckRowRefusesWrites(s: System, c: nat, now: int, fault: Fault)
    requires Inv(s) && Stuck(s) && NoPendingOverWipe(s) && c in s.clients && s.clients[c].phase.Writing?
    ensures WriteStep(s, c, now, fault).row == s.row && WriteStep(s, c, now, fault).history == s.history
  {
    hide Valid, Written, Decide;
    var client := s.clients[c];
    assert ClientOk(s.key, s.history, c, client);
    ConditionMeansUnchanged(s.key, s.history, client.request, client.phase.romance, client.phase.seenAt);
    ViewShowsEachSide(client.request.id, s.row);
    assert s.history[..|s.history|] == s.history;
  }

  lemma StuckRowRefusesReads(s: System, c: nat, fault: Fault)
    requires Stuck(s) && c in s.clients && s.clients[c].phase.Reading?
    ensures ReadPhase(s, s.clients[c].request, s.clients[c].phase.tries, fault) ==
      Done(Failed(if fault.NoFault? then Malformed else StoreError), |s.history|, false)
  {
    hide Readable;
    ViewShowsEachSide(s.clients[c].request.id, s.row);
  }

  lemma StuckWrite(s: System, c: nat, now: int, fault: Fault)
    requires Inv(s) && Stuck(s) && NoPendingOverWipe(s) && c in s.clients && s.clients[c].phase.Writing?
    ensures NoPendingOverWipe(WriteStep(s, c, now, fault))
  {
    hide Inv, View, Written, Decide, Condition, NoWipeSince, CommittedPhase;
    StuckRowRefusesWrites(s, c, now, fault);
  }

  lemma StuckStep(s: System, step: Step)
    requires Inv(s) && Stuck(s) && NoPendingOverWipe(s) && !step.Remove?
    ensures var s' := Next(s, step);
      s'.row == s.row && s'.history == s.history && NoPendingOverWipe(s')
  {
    hide Inv, View, WriteStep, ReadPhase, NoWipeSince, Readable;
    if step.Write? && step.client in s.clients && s.clients[step.client].phase.Writing? {
      StuckRowRefusesWrites(s, step.client, step.now, step.fault);
      StuckWrite(s, step.client, step.now, step.fault);
    } else if step.Read? && step.client in s.clients && s.clients[step.client].phase.Reading? {
      StuckRowRefusesReads(s, step.client, step.fault);
    }
  }

  // Until it is removed, an unreadable row is never written again, and every operation of either user that
  // reads it fails.
  lemma {:induction false} UnreadableRowIsStuck(key: RomanceKey, steps: seq<Step>, more: seq<Step>)
    requires Stuck(After(key, steps)) && NoPendingOverWipe(After(key, steps))
    requires forall i :: 0 <= i < |more| ==> !more[i].Remove?
    ensures var s := Run(After(key, steps), more);
      && s.row == After(key, steps).row && s.history == After(key, steps).history
      && Inv(s) && NoPendingOverWipe(s)
      && forall c :: c in s.clients && s.clients[c].phase.Reading? ==>
           Next(s, Read(c, NoFault)).clients[c].phase == Done(Failed(Malformed), |s.history|, false)
  {
    hide Inv, View, Decide, WriteStep, NoPendingOverWipe, Readable;
    EveryRunIsValid(key, steps);
    var s := Run(After(key, steps), more);
    if more != [] {
      var fewer := more[..|more| - 1];
      UnreadableRowIsStuck(key, steps, fewer);
      StuckStep(Run(After(key, steps), fewer), more[|more| - 1]);
      StepInv(Run(After(key, steps), fewer), more[|more| - 1]);
    }
    forall c | c in s.clients && s.clients[c].phase.Reading?
      ensures Next(s, Read(c, NoFault)).clients[c].phase == Done(Failed(Malformed), |s.history|, false)
    {
      StuckRowRefusesReads(s, c, NoFault);
    }
  }
}
