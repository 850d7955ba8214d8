/**
 What the store promises its callers, over every run: any clients, any interleaving of their steps,
 any faults, and removals of the row at any moment.
 */
module VoteGuarantees {
  import opened Results
  import opened VoteTypes
  import opened Identity
  import opened Romances
  import opened RowHistory
  import opened VoteProtocol

  function After(key: RomanceKey, steps: seq<Step>): System {
    Run(Init(key), steps)
  }

  lemma {:induction false} KeyIsFixed(s: System, steps: seq<Step>)
    ensures Run(s, steps).key == s.key
  {
    if steps != [] {
      KeyIsFixed(s, steps[..|steps| - 1]);
    }
  }

  lemma EveryRunIsValid(key: RomanceKey, steps: seq<Step>)
    ensures Inv(After(key, steps)) && After(key, steps).key == key
  {
    InitInv(key);
    RunInv(Init(key), steps);
    KeyIsFixed(Init(key), steps);
  }

  // If no commit had a removal between its read and its write, the run is a run of the atomic store:
  // every commit, in the order of the UpdateItems, was legal and had its whole effect at that instant.
  lemma RunsRefineAtomicStore(key: RomanceKey, steps: seq<Step>)
    requires NoWipeInWindows(After(key, steps).history)
    ensures var s := After(key, steps);
      StaleCommits(s.history) == 0 && Replay(key, s.history) == Ok(Votes(s.row))
  {
    EveryRunIsValid(key, steps);
    NoWipeInWindowsNoStale(key, After(key, steps).history);
    HistoryRefinesAtomicStore(key, After(key, steps).history);
  }

  // And exactly so: a run, with removals wherever they may fall, is a run of the atomic store if and only if the
  // transition table allowed each commit on the vote stored at its UpdateItem. A stale commit harms in no other way.
  lemma RunIsAtomicIff(key: RomanceKey, steps: seq<Step>)
    ensures var s := After(key, steps);
      && (Replay(key, s.history) == Ok(Votes(s.row)) <==> AllCommitsAllowed(key, s.history))
      && (Replay(key, s.history).Ok? <==> AllCommitsAllowed(key, s.history))
      && (StaleCommits(s.history) == 0 ==> AllCommitsAllowed(key, s.history))
  {
    hide Replay, AllCommitsAllowed, StaleCommits, ClientOk;
    EveryRunIsValid(key, steps);
    HistoryIsAtomicIff(key, After(key, steps).history);
    if StaleCommits(After(key, steps).history) == 0 {
      NoStaleCommitIsForbidden(key, After(key, steps).history);
    }
  }

  ghost predicate Finished(s: System, c: nat, outcome: Outcome, at: nat, committed: bool) {
    c in s.clients && s.clients[c].phase == Done(outcome, at, committed)
  }

  lemma FinishedIsJustified(key: RomanceKey, steps: seq<Step>, c: nat, outcome: Outcome, at: nat, committed: bool)
    requires Finished(After(key, steps), c, outcome, at, committed)
    ensures var s := After(key, steps);
      var Client(request, since, _, _) := s.clients[c];
      && Valid(key, s.history) && KeyOf(request.id) == key && since <= at <= |s.history|
      && Justified(key, s.history, c, request, outcome, at, committed)
  {
    EveryRunIsValid(key, steps);
    var s := After(key, steps);
    assert ClientOk(key, s.history, c, s.clients[c]);
    WindowsAreOrdered(s.clients[c].lost, s.clients[c].since, at);
  }

  // What one commit does to the row, seen from the history.
  lemma CommitEffect(key: RomanceKey, h: History, at: nat)
    requires Valid(key, h) && at < |h| && h[at].Committed?
    ensures var request, snapshot, me := h[at].request, h[at].snapshot, h[at].request.id.active;
      && BallotOf(key, RowAt(h, at + 1), me) == WrittenBallot(BallotOf(key, RowAt(h, at), me), request, h[at].now)
      && (Current(h[..at], h[at]) ==>
            Perform(BallotOf(key, RowAt(h, at), me), request, h[at].now) ==
            Ok(BallotOf(key, RowAt(h, at + 1), me)))
  {
    hide Decide, Valid, View;
    ValidAt(key, h, at);
    assert Before(h[..at + 1]) == h[..at];
    WriteTouchesOneSide(RowAt(h, at), h[at].request, h[at].snapshot, h[at].now);
    ViewShowsEachSide(h[at].request.id, RowAt(h, at));
    DecideIsAtomicCheck(h[at].request, h[at].snapshot, h[at].now);
  }

  // A returned vote was stored by this operation, at one instant of its lifetime, as the atomic
  // operation on the vote stored at that instant.
  lemma VotedIsAtomic(key: RomanceKey, steps: seq<Step>, c: nat, vote: Vote, at: nat, committed: bool)
    requires Finished(After(key, steps), c, Voted(vote), at, committed)
    ensures var h := After(key, steps).history;
      var Client(request, since, _, _) := After(key, steps).clients[c];
      && committed && since <= at && IsCommitOf(h, at, c, request)
      && vote == Vote(request.id, BallotOf(key, RowAt(h, at + 1), request.id.active))
      && (Current(h[..at], h[at]) ==>
            Perform(BallotOf(key, RowAt(h, at), request.id.active), request, h[at].now) == Ok(vote.ballot))
  {
    hide Inv, Run, Valid, Perform, View;
    FinishedIsJustified(key, steps, c, Voted(vote), at, committed);
    CommitEffect(key, After(key, steps).history, at);
  }

  // A successful deletion either emptied the caller's vote itself, or found a romance with no votes.
  lemma RemovedIsAtomic(key: RomanceKey, steps: seq<Step>, c: nat, at: nat, committed: bool)
    requires Finished(After(key, steps), c, Removed, at, committed)
    ensures var h := After(key, steps).history;
      var Client(request, since, _, _) := After(key, steps).clients[c];
      && since <= at <= |h| && request.Delete?
      && (committed ==>
            IsCommitOf(h, at, c, request) && BallotOf(key, RowAt(h, at + 1), request.id.active) == NO_BALLOT)
      && (!committed ==> Votes(RowAt(h, at)).pk.kind.Empty? && Votes(RowAt(h, at)).sk.kind.Empty?)
  {
    hide Inv, Run, Valid, Perform, View, RowAfter;
    FinishedIsJustified(key, steps, c, Removed, at, committed);
    if committed {
      CommitEffect(key, After(key, steps).history, at);
    }
  }

  // A refusal is the atomic operation's own refusal of the vote stored at one instant of the lifetime.
  lemma RefusalIsAtomic(key: RomanceKey, steps: seq<Step>, c: nat, e: Error, at: nat, committed: bool, now: int)
    requires Finished(After(key, steps), c, Failed(e), at, committed) && (e == WrongVote || e == VoteNotFound)
    ensures var h := After(key, steps).history;
      var Client(request, since, _, _) := After(key, steps).clients[c];
      && !committed && since <= at <= |h|
      && Perform(BallotOf(key, RowAt(h, at), request.id.active), request, now) == Err(e)
  {
    hide Inv, Run, Valid, View, RowAfter;
    FinishedIsJustified(key, steps, c, Failed(e), at, committed);
  }

  // An error other than a refusal or a conflict comes from the store: from a row that cannot be decoded at one instant
  // of the lifetime, the one just written if the operation has committed, or from a store call. There is no other.
  lemma FailureIsFromTheStore(key: RomanceKey, steps: seq<Step>, c: nat, e: Error, at: nat, committed: bool)
    requires Finished(After(key, steps), c, Failed(e), at, committed)
    ensures var h := After(key, steps).history;
      && e in {WrongVote, VoteNotFound, VersionConflict, StoreError, Malformed}
      && (e == Malformed ==> Unreadable(h, if committed then at + 1 else at))
  {
    hide Inv, Run, Valid, View, RowAfter;
    FinishedIsJustified(key, steps, c, Failed(e), at, committed);
  }

  // No operation ever commits twice, and one that reports a refusal or a conflict has not committed at all.
  lemma CommitsAtMostOnce(key: RomanceKey, steps: seq<Step>, i: nat, j: nat)
    requires var h := After(key, steps).history;
      i < |h| && j < |h| && h[i].Committed? && h[j].Committed? && h[i].client == h[j].client
    ensures i == j
    ensures var s := After(key, steps);
      var c := s.history[i].client;
      c in s.clients && (s.clients[c].phase.Done? ==>
        s.clients[c].phase.outcome.Voted? || s.clients[c].phase.outcome.Removed?
        || s.clients[c].phase.outcome in {Failed(StoreError), Failed(Malformed)})
  {
    EveryRunIsValid(key, steps);
    var s := After(key, steps);
    assert ClientOk(key, s.history, s.history[i].client, s.clients[s.history[i].client]);
  }

  lemma {:induction false} WindowsAreOrdered(lost: seq<Window>, since: nat, until: nat)
    requires LostWindows(lost, since, until)
    ensures since <= until
    ensures forall k :: 0 <= k < |lost| ==> since <= lost[k].readAt < lost[k].writeAt <= until
    ensures forall k, l :: 0 <= k < l < |lost| ==> lost[k].writeAt <= lost[l].readAt
  {
    if lost != [] {
      WindowsAreOrdered(lost[..|lost| - 1], since, lost[|lost| - 1].readAt);
    }
  }

  // A version conflict is reported only after four lost attempts, in four disjoint windows of the
  // operation's own lifetime, each containing a change of the row by somebody else.
  lemma ConflictsAreForeign(key: RomanceKey, steps: seq<Step>, c: nat)
    requires var s := After(key, steps);
      c in s.clients && s.clients[c].phase.Done? && s.clients[c].phase.outcome == Failed(VersionConflict)
    ensures var s := After(key, steps);
      var Client(_, since, _, lost) := s.clients[c];
      && |lost| == 4
      && (forall k, l :: 0 <= k < l < 4 ==> lost[k].writeAt <= lost[l].readAt)
      && (forall k :: 0 <= k < 4 ==> since <= lost[k].readAt < lost[k].writeAt <= |s.history|)
      && (forall i :: 0 <= i < |s.history| ==> s.history[i].Wiped? || s.history[i].client != c)
  {
    EveryRunIsValid(key, steps);
    var s := After(key, steps);
    assert ClientOk(key, s.history, c, s.clients[c]);
    WindowsAreOrdered(s.clients[c].lost, s.clients[c].since, s.clients[c].phase.at);
  }

  // While the row is not removed, an attempt succeeds exactly when nobody changed the row since its read.
  lemma AttemptCommitsIffUndisturbed(key: RomanceKey, steps: seq<Step>, c: nat, now: int)
    requires var s := After(key, steps);
      c in s.clients && s.clients[c].phase.Writing? && NoWipeSince(s.history, s.clients[c].phase.seenAt)
    ensures var s := After(key, steps);
      var Client(request, _, Writing(_, romance, seenAt), lost) := s.clients[c];
      var s' := Next(s, Write(c, now, NoFault));
      if seenAt == |s.history| then s'.history == s.history + [Committed(c, request, now, romance, seenAt)]
      else s'.history == s.history && s'.row == s.row
           && s'.clients[c].lost == lost + [Window(seenAt, |s.history|)]
  {
    hide View, Written, Decide, Run, Valid, Justified, CommittedPhase, DroppedCalls;
    EveryRunIsValid(key, steps);
    var s := After(key, steps);
    var client := s.clients[c];
    assert ClientOk(key, s.history, c, client);
    ConditionMeansUnchanged(key, s.history, client.request, client.phase.romance, client.phase.seenAt);
    if client.phase.seenAt == |s.history| {
      assert Next(s, Write(c, now, NoFault)) == CommitStep(s, c, now, NoFault);
    } else {
      assert Next(s, Write(c, now, NoFault)) == ConflictStep(s, c);
    }
  }

  // Every stored row: what always holds, and what holds once no commit since its creation was stale.
  lemma StoredRows(key: RomanceKey, steps: seq<Step>)
    requires After(key, steps).row.Some?
    ensures var s := After(key, steps);
      var row := s.row.value;
      && 1 <= row.version == LifeCommits(s.history) <= 6 + 4 * (LifeDeletions(s.history) + LifeStaleCommits(s.history))
      && LooselyShaped(row.pk) && LooselyShaped(row.sk)
      && (LifeStaleCommits(s.history) == 0 ==>
            && Shaped(row.pk) && Shaped(row.sk)
            && RetainsFor(row.pk.kind, row.sk.kind, row.ttl))
  {
    EveryRunIsValid(key, steps);
    var h := After(key, steps).history;
    VersionCountsCommits(key, h);
    VersionIsBoundedByDeletions(key, h);
    VotesKeepTheirShape(key, h, key.pk);
    VotesKeepTheirShape(key, h, key.sk);
    if LifeStaleCommits(h) == 0 {
      TtlAgreesWithVotes(key, h);
    }
  }

  // ---------- Counter calls ----------

  function CountCalls(calls: seq<Call>, user: Uuid, positive: bool): nat {
    if calls == [] then 0
    else
      CountCalls(calls[..|calls| - 1], user, positive)
      + if calls[|calls| - 1] == Call(user, positive) then 1 else 0
  }

  lemma CountCallsAppend(calls: seq<Call>, more: seq<Call>, user: Uuid, positive: bool)
    requires |more| <= 1
    ensures CountCalls(calls + more, user, positive) ==
      CountCalls(calls, user, positive) + if more == [Call(user, positive)] then 1 else 0
  {
    if more == [] {
      assert calls + more == calls;
    } else {
      assert (calls + more)[..|calls + more| - 1] == calls;
    }
  }

  predicate OwesCall(client: Client, user: Uuid, positive: bool) {
    client.phase.Counting? && client.phase.positive == positive && client.request.id.active == user
  }

  // Clients whose Add has committed and who have yet to make the counter call.
  function Owing(clients: map<nat, Client>, user: Uuid, positive: bool): set<nat> {
    set c | c in clients && OwesCall(clients[c], user, positive)
  }

  lemma OwingDiffersAt(clients: map<nat, Client>, c: nat, client: Client, user: Uuid, positive: bool)
    ensures var before, after := Owing(clients, user, positive), Owing(clients[c := client], user, positive);
      && (c in before <==> c in clients && OwesCall(clients[c], user, positive))
      && (c in after <==> OwesCall(client, user, positive))
      && before - {c} == after - {c}
  {
    hide OwesCall;
  }

  lemma OwingAfter(clients: map<nat, Client>, c: nat, client: Client, user: Uuid, positive: bool)
    ensures
      |Owing(clients[c := client], user, positive)|
      + (if c in clients && OwesCall(clients[c], user, positive) then 1 else 0) ==
      |Owing(clients, user, positive)| + (if OwesCall(client, user, positive) then 1 else 0)
  {
    hide Owing, OwesCall;
    OwingDiffersAt(clients, c, client, user, positive);
    SizeWithout(Owing(clients, user, positive), c);
    SizeWithout(Owing(clients[c := client], user, positive), c);
  }

  lemma SizeWithout(s: set<nat>, c: nat)
    ensures |s| == |s - {c}| + (if c in s then 1 else 0)
  {
    assert c in s ==> s == (s - {c}) + {c};
    assert c !in s ==> s == s - {c};
  }

  // Every call a commit was judged to owe is made, still owed, or lost with the operation's own failure.
  predicate Balanced(s: System, user: Uuid, positive: bool) {
    FlaggedCommits(s.history, user, positive) ==
      CountCalls(s.issued, user, positive) + |Owing(s.clients, user, positive)|
      + CountCalls(s.dropped, user, positive)
  }

  lemma CommitBooksOneCall(
      request: Request, romance: Romance, row: Option<Row>, at: nat, fault: Fault, user: Uuid, positive: bool)
    ensures var phase := CommittedPhase(request, romance, row, at, fault);
      (if request.id.active == user && Owes(request, romance.active.ballot.kind) == Some(positive) then 1 else 0) ==
      (if OwesCall(Client(request, 0, phase, []), user, positive) then 1 else 0)
      + (if DroppedCalls(request, romance, phase) == [Call(user, positive)] then 1 else 0)
  {
  }

  lemma CommitKeepsBalance(s: System, c: nat, now: int, fault: Fault, user: Uuid, positive: bool)
    requires Balanced(s, user, positive) && c in s.clients && s.clients[c].phase.Writing?
    ensures Balanced(CommitStep(s, c, now, fault), user, positive)
  {
    hide Written, View, CommittedPhase, Owes, Owing, Condition;
    var s' := CommitStep(s, c, now, fault);
    var Client(request, _, Writing(_, romance, _), _) := s.clients[c];
    CommitBooksOneCall(request, romance, s'.row, |s.history|, fault, user, positive);
    assert Before(s'.history) == s.history;
    CountCallsAppend(s.dropped, DroppedCalls(request, romance, s'.clients[c].phase), user, positive);
    OwingAfter(s.clients, c, s'.clients[c], user, positive);
  }

  lemma CountKeepsBalance(s: System, c: nat, user: Uuid, positive: bool)
    requires Balanced(s, user, positive) && c in s.clients && s.clients[c].phase.Counting?
    ensures Balanced(CountStep(s, c), user, positive)
  {
    hide Owing;
    var s' := CountStep(s, c);
    CountCallsAppend(s.issued, [Call(s.clients[c].request.id.active, s.clients[c].phase.positive)], user, positive);
    OwingAfter(s.clients, c, s'.clients[c], user, positive);
  }

  // Steps that neither commit nor count move one client from one phase that owes nothing to another.
  lemma OtherStepKeepsBalance(s: System, step: Step, user: Uuid, positive: bool)
    requires Balanced(s, user, positive) && !step.Count? && !step.Remove?
    requires step.Write? ==> Next(s, step).history == s.history
    ensures Balanced(Next(s, step), user, positive)
  {
    hide Written, View, Decide, Condition, Owing, FlaggedCommits, CountCalls;
    var s' := Next(s, step);
    if s' != s {
      OwingAfter(s.clients, step.client, s'.clients[step.client], user, positive);
      assert s'.clients == s.clients[step.client := s'.clients[step.client]];
    }
  }

  lemma RemoveKeepsBalance(s: System, user: Uuid, positive: bool)
    requires Balanced(s, user, positive)
    ensures Balanced(Next(s, Remove), user, positive)
  {
    assert s.row.Some? ==> Before(Next(s, Remove).history) == s.history;
  }

  lemma StepKeepsBalance(s: System, step: Step, user: Uuid, positive: bool)
    requires Balanced(s, user, positive)
    ensures Balanced(Next(s, step), user, positive)
  {
    hide Balanced, Written, View, CommittedPhase;
    if step.Count? {
      if step.client in s.clients && s.clients[step.client].phase.Counting? {
        CountKeepsBalance(s, step.client, user, positive);
      }
    } else if step.Write? && Next(s, step).history != s.history {
      CommitKeepsBalance(s, step.client, step.now, step.fault, user, positive);
    } else if step.Remove? {
      RemoveKeepsBalance(s, user, positive);
    } else {
      OtherStepKeepsBalance(s, step, user, positive);
    }
  }

  lemma {:induction false} RunKeepsBalance(s: System, steps: seq<Step>, user: Uuid, positive: bool)
    requires Balanced(s, user, positive)
    ensures Balanced(Run(s, steps), user, positive)
  {
    if steps != [] {
      RunKeepsBalance(s, steps[..|steps| - 1], user, positive);
      StepKeepsBalance(Run(s, steps[..|steps| - 1]), steps[|steps| - 1], user, positive);
    }
  }

  // Commits that call for a counter call, and what became of the calls: the commits are exactly the gains of the
  // stored vote when none was stale, and the calls made are at most one more than the times the vote was undone,
  // plus the stale commits.
  lemma CounterCallsFollowVotes(key: RomanceKey, steps: seq<Step>, user: Uuid, positive: bool)
    requires user == key.pk || user == key.sk
    ensures var s := After(key, steps);
      var issued := CountCalls(s.issued, user, positive);
      && FlaggedCommits(s.history, user, positive) ==
           issued + |Owing(s.clients, user, positive)| + CountCalls(s.dropped, user, positive)
      && (StaleCommits(s.history) == 0 ==>
            FlaggedCommits(s.history, user, positive) == Gains(key, s.history, user, positive))
      && issued <= 1 + Erasures(s.history, user) + StaleCommits(s.history)
  {
    EveryRunIsValid(key, steps);
    RunKeepsBalance(Init(key), steps, user, positive);
    FlagsCountGains(key, After(key, steps).history, user, positive);
    FlagsAreBoundedByErasures(key, After(key, steps).history, user, positive);
  }

  // ---------- Where the scope is needed ----------

  const PAIR := RomanceKey(1, 2)
  const FIRST_TO_SECOND: VoteId := VoteId(1, 1, 2)
  const SECOND_TO_FIRST: VoteId := VoteId(1, 2, 1)

  ghost predicate Reachable(key: RomanceKey, s: System) {
    exists steps: seq<Step> :: s == After(key, steps)
  }

  lemma NextIsReachable(key: RomanceKey, s: System, step: Step)
    requires Reachable(key, s)
    ensures Reachable(key, Next(s, step))
  {
    var steps: seq<Step> :| s == After(key, steps);
    assert (steps + [step])[..|steps|] == steps;
    assert Next(s, step) == After(key, steps + [step]);
  }

  // Client 0 finds no row and stores a Yes; client 1 reads it, at version 1.
  function FirstRead(): System {
    Next(Next(Init(PAIR), Start(0, Add(FIRST_TO_SECOND, Yes, 50))), Read(0, NoFault))
  }

  function FirstVote(): System {
    Next(FirstRead(), Write(0, 60, NoFault))
  }

  function SnapshotTaken(): System {
    Next(Next(FirstVote(), Start(1, Change(FIRST_TO_SECOND, Crush))), Read(1, NoFault))
  }

  // The row is removed, and client 2 makes it anew with the peer's No, again at version 1.
  function Recreated(): System {
    Next(Next(Next(Next(SnapshotTaken(), Remove), Start(2, Add(SECOND_TO_FIRST, No, 70))), Read(2, NoFault)),
         Write(2, 80, NoFault))
  }

  lemma FirstReadFindsNothing()
    ensures var s := FirstRead();
      && s.key == PAIR && s.row == None && s.history == [] && s.clients.Keys == {0}
      && s.clients[0].request == Add(FIRST_TO_SECOND, Yes, 50)
      && s.clients[0].phase == Writing(0, CreateEmptyRomance(FIRST_TO_SECOND), 0)
      && Reachable(PAIR, s)
  {
    hide Reachable;
    InitIsReachable(PAIR);
    NextIsReachable(PAIR, Init(PAIR), Start(0, Add(FIRST_TO_SECOND, Yes, 50)));
    NextIsReachable(PAIR, Next(Init(PAIR), Start(0, Add(FIRST_TO_SECOND, Yes, 50))), Read(0, NoFault));
  }

  lemma InitIsReachable(key: RomanceKey)
    ensures Reachable(key, Init(key))
  {
    assert Init(key) == After(key, []);
  }

  lemma FirstVoteIsStored()
    ensures var s := FirstVote();
      && s.row == Some(Row(Ballot(Yes, Some(50), Some(60), None), NO_BALLOT, 1, NON_MUTUAL_TTL_SECONDS))
      && s.clients.Keys == {0} && s.key == PAIR && Reachable(PAIR, s)
  {
    hide FirstRead, Reachable;
    FirstReadFindsNothing();
    NextIsReachable(PAIR, FirstRead(), Write(0, 60, NoFault));
  }

  predicate HoldsSnapshot(s: System) {
    && s.key == PAIR && 1 in s.clients && s.clients[1].request == Change(FIRST_TO_SECOND, Crush)
    && s.clients[1].phase.Writing? && s.clients[1].phase.romance.version == 1
    && s.clients[1].phase.romance.peer.ballot == NO_BALLOT
  }

  lemma SnapshotIsTaken()
    ensures var s := SnapshotTaken();
      HoldsSnapshot(s) && s.row.Some? && 2 !in s.clients && Reachable(PAIR, s)
  {
    hide FirstVote, Reachable;
    FirstVoteIsStored();
    NextIsReachable(PAIR, FirstVote(), Start(1, Change(FIRST_TO_SECOND, Crush)));
    NextIsReachable(PAIR, Next(FirstVote(), Start(1, Change(FIRST_TO_SECOND, Crush))), Read(1, NoFault));
  }

  lemma RowIsRecreated()
    ensures var s := Recreated();
      && HoldsSnapshot(s) && Reachable(PAIR, s)
      && s.row == Some(Row(NO_BALLOT, Ballot(No, Some(70), Some(80), None), 1, DEAD_TTL_SECONDS))
  {
    hide SnapshotTaken, Reachable;
    SnapshotIsTaken();
    var removed := Next(SnapshotTaken(), Remove);
    var started := Next(removed, Start(2, Add(SECOND_TO_FIRST, No, 70)));
    NextIsReachable(PAIR, SnapshotTaken(), Remove);
    NextIsReachable(PAIR, removed, Start(2, Add(SECOND_TO_FIRST, No, 70)));
    NextIsReachable(PAIR, started, Read(2, NoFault));
    NextIsReachable(PAIR, Next(started, Read(2, NoFault)), Write(2, 80, NoFault));
  }

  // A removal inside the window defeats the version check: the change commits on a row where its user has
  // no vote, leaving a vote without times and a ttl that ignores the peer's No.
  lemma RemovalInWindowDefeatsVersionCheck()
    ensures var s := Next(Recreated(), Write(1, 90, NoFault));
      && Reachable(PAIR, s)
      && s.row == Some(Row(Ballot(Crush, None, None, Some(90)), Ballot(No, Some(70), Some(80), None), 2,
                           NON_MUTUAL_TTL_SECONDS))
      && !Shaped(s.row.value.pk) && s.row.value.ttl != TtlSeconds(Crush, No)
      && 1 in s.clients && s.clients[1].phase.Done? && s.clients[1].phase.outcome.Voted?
  {
    hide Recreated, Reachable;
    RowIsRecreated();
    NextIsReachable(PAIR, Recreated(), Write(1, 90, NoFault));
  }

  // ---------- Stale commits are counted too ----------

  // The peer votes No, then Yes; user 1 votes Yes; the row is removed and the peer votes No again. Two more Adds
  // of user 1, which had read the row after the peer's first and second vote, then commit.
  function CountedThrice(): (h: History)
    ensures |h| == 7
  {
    [ Committed(0, Add(SECOND_TO_FIRST, No, 10), 10, CreateEmptyRomance(SECOND_TO_FIRST), 0),
      Committed(1, Change(SECOND_TO_FIRST, Yes), 20, Seen(SECOND_TO_FIRST, AfterNo()), 1),
      Committed(2, Add(FIRST_TO_SECOND, Yes, 30), 30, Seen(FIRST_TO_SECOND, AfterYes()), 2),
      Wiped,
      Committed(3, Add(SECOND_TO_FIRST, No, 50), 50, CreateEmptyRomance(SECOND_TO_FIRST), 4),
      Committed(4, Add(FIRST_TO_SECOND, Yes, 60), 60, Seen(FIRST_TO_SECOND, AfterNo()), 1),
      Committed(5, Add(FIRST_TO_SECOND, Yes, 70), 70, Seen(FIRST_TO_SECOND, AfterYes()), 2) ]
  }

  function AfterNo(): Row {
    Row(NO_BALLOT, Ballot(No, Some(10), Some(10), None), 1, DEAD_TTL_SECONDS)
  }

  function AfterYes(): Row {
    Row(NO_BALLOT, Ballot(Yes, Some(10), Some(10), Some(20)), 2, NON_MUTUAL_TTL_SECONDS)
  }

  function Seen(id: VoteId, row: Row): Romance {
    Romance(
      Vote(id, BallotOf(KeyOf(id), Some(row), id.active)),
      Vote(ToPeerVoteId(id), BallotOf(KeyOf(id), Some(row), id.peer)),
      row.version)
  }

  // One event more: what has to be checked, in terms of the rows at its read and at its write.
  lemma OneEventMore(n: nat, read: Option<Row>, row: Option<Row>)
    requires n < 7
    requires var h := CountedThrice();
      && Valid(PAIR, h[..n]) && RowAfter(h[..n]) == row
      && match h[n]
         case Wiped => row.Some?
         case Committed(_, request, _, snapshot, seenAt) =>
           && seenAt <= n && RowAfter(h[..seenAt]) == read
           && KeyOf(request.id) == PAIR && View(request.id, read) == Ok(snapshot)
           && Decide(request, snapshot) == None && Condition(row, request, snapshot.version)
    ensures var h := CountedThrice();
      && Valid(PAIR, h[..n + 1])
      && RowAfter(h[..n + 1]) ==
         (if h[n].Wiped? then None else Some(Written(row, h[n].request, h[n].snapshot, h[n].now)))
      && FlaggedCommits(h[..n + 1], 1, true) ==
         FlaggedCommits(h[..n], 1, true) + (if Flagged(h[n], 1, true) then 1 else 0)
      && Erasures(h[..n + 1], 1) == Erasures(h[..n], 1) + (if Undoes(h[n], 1) then 1 else 0)
  {
    hide CountedThrice, View, Decide, Condition, Written, Flagged, Undoes;
    var h := CountedThrice();
    assert Before(h[..n + 1]) == h[..n];
    if h[n].Committed? {
      assert h[..n][..h[n].seenAt] == h[..h[n].seenAt];
    }
  }

  lemma FirstThreeEvents()
    ensures var h := CountedThrice();
      && RowAfter(h[..1]) == Some(AfterNo()) && RowAfter(h[..2]) == Some(AfterYes())
      && Valid(PAIR, h[..3]) && RowAfter(h[..3]).Some?
      && FlaggedCommits(h[..3], 1, true) == 1 && Erasures(h[..3], 1) == 0
  {
    hide RowAfter, Valid, FlaggedCommits, Erasures;
    NoEvents();
    OneEventMore(0, None, None);
    OneEventMore(1, Some(AfterNo()), Some(AfterNo()));
    OneEventMore(2, Some(AfterYes()), Some(AfterYes()));
  }

  lemma NoEvents()
    ensures var h := CountedThrice()[..0];
      Valid(PAIR, h) && RowAfter(h) == None && FlaggedCommits(h, 1, true) == 0 && Erasures(h, 1) == 0
  {
  }

  // A valid history in which one removal lets user 1 be counted three times for one directed pair: without the
  // stale commits in its bound, FlagsAreBoundedByErasures would be false.
  lemma StaleCommitsAreCountedToo()
    ensures var h := CountedThrice();
      && Valid(PAIR, h) && FlaggedCommits(h, 1, true) == 3 && Erasures(h, 1) == 1
      && FlaggedCommits(h, 1, true) > 1 + Erasures(h, 1)
  {
    hide RowAfter, Valid, FlaggedCommits, Erasures;
    var h := CountedThrice();
    FirstThreeEvents();
    OneEventMore(3, None, RowAfter(h[..3]));
    OneEventMore(4, None, None);
    OneEventMore(5, Some(AfterNo()), RowAfter(h[..5]));
    OneEventMore(6, Some(AfterYes()), RowAfter(h[..6]));
    assert h[..7] == h;
  }
}
