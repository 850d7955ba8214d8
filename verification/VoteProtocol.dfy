/**
 Any number of Add, Change and Delete clients working on one row at once, each operation split into
 its separate steps: read, conditional write, counter call. Between two steps of one client anything
 may happen: steps of other clients, and removals of the row. Pairs of users never interact, because
 every operation addresses one key, so the whole store is one such system per key.
 */
module VoteProtocol {
  import opened Results
  import opened Identity
  import opened Romances
  import opened RowHistory

  const RETRIES_COUNT := 3

  // A conditional write that lost: the history lengths at its read and at its write.
  datatype Window = Window(readAt: nat, writeAt: nat)

  // at is the history length when the outcome was fixed; for a committed client, the index of its commit.
  datatype Phase =
    | Reading(tries: nat)
    | Writing(tries: nat, romance: Romance, seenAt: nat)
    | Counting(vote: Vote, positive: bool, at: nat)
    | Done(outcome: Outcome, at: nat, committed: bool)

  // since is the history length when the operation started.
  datatype Client = Client(request: Request, since: nat, phase: Phase, lost: seq<Window>)

  // One call to the yes or the no counters on behalf of a user.
  datatype Call = Call(user: Uuid, positive: bool)

  // row is what the table holds; history, issued and dropped only record what happened.
  datatype System = System(
    key: RomanceKey,
    row: Option<Row>,
    clients: map<nat, Client>,
    history: History,
    issued: seq<Call>,
    dropped: seq<Call>)

  datatype Step =
    | Start(client: nat, request: Request)
    | Read(client: nat, fault: Fault)
    | Write(client: nat, now: int, fault: Fault)
    | Count(client: nat)
    | Remove

  function Init(key: RomanceKey): System {
    System(key, None, map[], [], [], [])
  }

  function Advance(s: System, c: nat, phase: Phase): System
    requires c in s.clients
  {
    s.(clients := s.clients[c := s.clients[c].(phase := phase)])
  }

  function ReadPhase(s: System, request: Request, tries: nat, fault: Fault): Phase {
    if !fault.NoFault? then Done(Failed(StoreError), |s.history|, false)
    else
      match View(request.id, s.row)
      case Err(e) => Done(Failed(e), |s.history|, false)
      case Ok(romance) =>
        match Decide(request, romance)
        case Some(outcome) => Done(outcome, |s.history|, false)
        case None => Writing(tries, romance, |s.history|)
  }

  // What a client does once its write has been carried out: a lost answer or an unreadable row makes
  // the operation fail although the vote is stored, and no counter call follows.
  function CommittedPhase(request: Request, romance: Romance, row: Option<Row>, at: nat, fault: Fault): Phase {
    if !fault.NoFault? then Done(Failed(StoreError), at, true)
    else if request.Delete? then Done(Removed, at, true)
    else
      match View(request.id, row)
      case Err(e) => Done(Failed(e), at, true)
      case Ok(after) =>
        match Owes(request, romance.active.ballot.kind)
        case Some(positive) => Counting(after.active, positive, at)
        case None => Done(Voted(after.active), at, true)
  }

  function DroppedCalls(request: Request, romance: Romance, phase: Phase): seq<Call> {
    match Owes(request, romance.active.ballot.kind)
    case Some(positive) => if phase.Counting? then [] else [Call(request.id.active, positive)]
    case None => []
  }

  function CommitStep(s: System, c: nat, now: int, fault: Fault): System
    requires c in s.clients && s.clients[c].phase.Writing?
  {
    var Client(request, _, Writing(tries, romance, seenAt), _) := s.clients[c];
    var row := Some(Written(s.row, request, romance, now));
    var phase := CommittedPhase(request, romance, row, |s.history|, fault);
    Advance(s, c, phase).(
      row := row,
      history := s.history + [Committed(c, request, now, romance, seenAt)],
      dropped := s.dropped + DroppedCalls(request, romance, phase))
  }

  // A version conflict: another attempt while tries remain, otherwise the conflict is the result.
  function ConflictStep(s: System, c: nat): System
    requires c in s.clients && s.clients[c].phase.Writing?
  {
    var Client(request, since, Writing(tries, _, seenAt), lost) := s.clients[c];
    var phase :=
      if tries < RETRIES_COUNT then Reading(tries + 1) else Done(Failed(VersionConflict), |s.history|, false);
    s.(clients := s.clients[c := Client(request, since, phase, lost + [Window(seenAt, |s.history|)])])
  }

  function WriteStep(s: System, c: nat, now: int, fault: Fault): System
    requires c in s.clients && s.clients[c].phase.Writing?
  {
    var Client(request, _, Writing(_, romance, _), _) := s.clients[c];
    if fault.Refused? then Advance(s, c, Done(Failed(StoreError), |s.history|, false))
    else if Condition(s.row, request, romance.version) then CommitStep(s, c, now, fault)
    else if fault.ReplyLost? then Advance(s, c, Done(Failed(StoreError), |s.history|, false))
    else ConflictStep(s, c)
  }

  function CountStep(s: System, c: nat): System
    requires c in s.clients && s.clients[c].phase.Counting?
  {
    var Client(request, _, Counting(vote, positive, at), _) := s.clients[c];
    Advance(s, c, Done(Voted(vote), at, true)).(issued := s.issued + [Call(request.id.active, positive)])
  }

  // A step that is not enabled leaves everything as it is.
  function Next(s: System, step: Step): System {
    match step
    case Start(c, request) =>
      if c in s.clients || KeyOf(request.id) != s.key then s
      else s.(clients := s.clients[c := Client(request, |s.history|, Reading(0), [])])
    case Read(c, fault) =>
      if c in s.clients && s.clients[c].phase.Reading? then
        Advance(s, c, ReadPhase(s, s.clients[c].request, s.clients[c].phase.tries, fault))
      else s
    case Write(c, now, fault) =>
      if c in s.clients && s.clients[c].phase.Writing? then WriteStep(s, c, now, fault) else s
    case Count(c) =>
      if c in s.clients && s.clients[c].phase.Counting? then CountStep(s, c) else s
    case Remove =>
      if s.row.None? then s else s.(row := None, history := s.history + [Wiped])
  }

  function Run(s: System, steps: seq<Step>): System {
    if steps == [] then s else Next(Run(s, steps[..|steps| - 1]), steps[|steps| - 1])
  }

  // ---------- What every reachable state satisfies ----------

  function RowAt(h: History, i: nat): Option<Row>
    requires i <= |h|
  {
    RowAfter(h[..i])
  }

  predicate IsCommitOf(h: History, at: nat, c: nat, request: Request) {
    at < |h| && h[at].Committed? && h[at].client == c && h[at].request == request
  }

  // The lost windows lie one after the other between two points of the history, and the history
  // grew within each of them.
  predicate LostWindows(lost: seq<Window>, since: nat, until: nat) {
    if lost == [] then since <= until
    else
      var w := lost[|lost| - 1];
      w.readAt < w.writeAt <= until && LostWindows(lost[..|lost| - 1], since, w.readAt)
  }

  // The row stored at that point of the history cannot be decoded.
  predicate Unreadable(h: History, at: nat) {
    at <= |h| && RowAt(h, at).Some? && !Readable(RowAt(h, at).value)
  }

  // Why a finished client got its outcome.
  predicate Justified(key: RomanceKey, h: History, c: nat, request: Request, outcome: Outcome, at: nat, committed: bool) {
    && (committed ==> IsCommitOf(h, at, c, request))
    && match outcome
       case Voted(vote) =>
         && committed && !request.Delete?
         && vote == Vote(request.id, BallotOf(key, RowAt(h, at + 1), request.id.active))
       case Removed =>
         && request.Delete?
         && (!committed ==>
               at <= |h| && Votes(RowAt(h, at)).pk.kind.Empty? && Votes(RowAt(h, at)).sk.kind.Empty?)
       case Failed(e) =>
         && e != VoteDuplicate
         && (committed ==> e == StoreError || e == Malformed)
         && (e == Malformed ==> Unreadable(h, if committed then at + 1 else at))
         && (e == WrongVote || e == VoteNotFound ==>
               at <= |h| && Perform(BallotOf(key, RowAt(h, at), request.id.active), request, 0) == Err(e))
  }

  predicate ClientOk(key: RomanceKey, h: History, c: nat, client: Client) {
    var request, since, lost := client.request, client.since, client.lost;
    && KeyOf(request.id) == key
    && match client.phase
       case Reading(tries) =>
         tries == |lost| <= RETRIES_COUNT && LostWindows(lost, since, |h|)
       case Writing(tries, romance, seenAt) =>
         && tries == |lost| <= RETRIES_COUNT && seenAt <= |h| && LostWindows(lost, since, seenAt)
         && View(request.id, RowAt(h, seenAt)) == Ok(romance)
         && Decide(request, romance) == None
       case Counting(vote, positive, at) =>
         && |lost| <= RETRIES_COUNT && at < |h| && LostWindows(lost, since, at)
         && Justified(key, h, c, request, Voted(vote), at, true)
         && Owes(request, h[at].snapshot.active.ballot.kind) == Some(positive)
       case Done(outcome, at, committed) =>
         && at <= |h| && LostWindows(lost, since, at)
         && |lost| <= RETRIES_COUNT + 1
         && (outcome == Failed(VersionConflict) <==> |lost| == RETRIES_COUNT + 1)
         && Justified(key, h, c, request, outcome, at, committed)
  }

  // Each client is responsible for at most one commit, and knows where it is.
  predicate OwnsCommit(client: Client, at: nat) {
    || (client.phase.Counting? && client.phase.at == at)
    || (client.phase.Done? && client.phase.committed && client.phase.at == at)
  }

  ghost predicate Inv(s: System) {
    && Valid(s.key, s.history)
    && s.row == RowAfter(s.history)
    && (forall c :: c in s.clients ==> ClientOk(s.key, s.history, c, s.clients[c]))
    && (forall i :: 0 <= i < |s.history| && s.history[i].Committed? ==>
          s.history[i].client in s.clients && OwnsCommit(s.clients[s.history[i].client], i))
  }

  // ---------- Preservation ----------

  lemma RowAtExtends(h: History, event: Event, i: nat)
    requires i <= |h|
    ensures RowAt(h + [event], i) == RowAt(h, i)
  {
    assert (h + [event])[..i] == h[..i];
  }

  lemma LostWindowsExtend(lost: seq<Window>, since: nat, until: nat, later: nat)
    requires LostWindows(lost, since, until) && until <= later
    ensures LostWindows(lost, since, later)
  {
  }

  lemma JustifiedExtends(
      key: RomanceKey, h: History, event: Event, c: nat, request: Request, outcome: Outcome, at: nat, committed: bool)
    requires Justified(key, h, c, request, outcome, at, committed)
    ensures Justified(key, h + [event], c, request, outcome, at, committed)
  {
    if at < |h| {
      RowAtExtends(h, event, at + 1);
    }
    if at <= |h| {
      RowAtExtends(h, event, at);
    }
  }

  lemma ClientOkExtends(key: RomanceKey, h: History, event: Event, c: nat, client: Client)
    requires ClientOk(key, h, c, client)
    ensures ClientOk(key, h + [event], c, client)
  {
    match client.phase
    case Reading(_) =>
      LostWindowsExtend(client.lost, client.since, |h|, |h| + 1);
    case Writing(_, _, seenAt) =>
      RowAtExtends(h, event, seenAt);
    case Counting(vote, _, at) =>
      JustifiedExtends(key, h, event, c, client.request, Voted(vote), at, true);
    case Done(outcome, at, committed) =>
      JustifiedExtends(key, h, event, c, client.request, outcome, at, committed);
  }

  lemma InitInv(key: RomanceKey)
    ensures Inv(Init(key))
  {
  }

  // A step of one client that leaves the row alone.
  lemma ClientStepInv(s: System, c: nat, client: Client)
    requires Inv(s) && c in s.clients
    requires ClientOk(s.key, s.history, c, client)
    requires forall i :: OwnsCommit(s.clients[c], i) ==> OwnsCommit(client, i)
    ensures Inv(s.(clients := s.clients[c := client]))
  {
  }

  // An operation that stops at its read gives the answer the stored votes call for at that instant.
  lemma StopIsJustified(key: RomanceKey, h: History, c: nat, request: Request, romance: Romance)
    requires KeyOf(request.id) == key && View(request.id, RowAfter(h)) == Ok(romance)
    requires Decide(request, romance).Some?
    ensures Justified(key, h, c, request, Decide(request, romance).value, |h|, false)
    ensures Decide(request, romance).value != Failed(VersionConflict)
  {
    DecideIsAtomicCheck(request, romance, 0);
    ViewShowsEachSide(request.id, RowAfter(h));

    assert RowAt(h, |h|) == RowAfter(h) by {
      assert h[..|h|] == h;
    }
    var row := RowAt(h, |h|);
    var outcome := Decide(request, romance).value;
    if outcome.Removed? {
      assert request.Delete?;
      assert Votes(row).pk.kind.Empty? && Votes(row).sk.kind.Empty?;
      assert Justified(key, h, c, request, outcome, |h|, false);
    } else {
      assert outcome.Failed?;
      assert Perform(BallotOf(key, row, request.id.active), request, 0) == Err(outcome.error);
      assert Justified(key, h, c, request, outcome, |h|, false);
    }
  }

  lemma MalformedIsJustified(key: RomanceKey, h: History, c: nat, request: Request)
    requires View(request.id, RowAfter(h)).Err?
    ensures Justified(key, h, c, request, Failed(Malformed), |h|, false)
  {
    ViewShowsEachSide(request.id, RowAfter(h));
    assert h[..|h|] == h;
  }

  // Losing the condition proves that the row was changed after the read, whatever happened since.
  lemma ConflictMeansChanged(key: RomanceKey, h: History, request: Request, romance: Romance, seenAt: nat)
    requires Valid(key, h) && KeyOf(request.id) == key && seenAt <= |h|
    requires View(request.id, RowAt(h, seenAt)) == Ok(romance) && Decide(request, romance) == None
    requires !Condition(RowAfter(h), request, romance.version)
    ensures seenAt < |h|
  {
    if seenAt == |h| {
      assert h[..seenAt] == h;
      ConditionMeansUnchanged(key, h, request, romance, seenAt);
    }
  }

  // What a committing client goes on to return is its vote as it stands in the row just written.
  lemma CommitIsJustified(key: RomanceKey, h: History, event: Event, fault: Fault)
    requires event.Committed? && ValidEvent(key, h, event)
    ensures var row := RowAfter(h + [event]);
      var phase := CommittedPhase(event.request, event.snapshot, row, |h|, fault);
      match phase
      case Counting(vote, positive, at) =>
        && at == |h| && Justified(key, h + [event], event.client, event.request, Voted(vote), at, true)
        && Owes(event.request, event.snapshot.active.ballot.kind) == Some(positive)
      case Done(outcome, at, committed) =>
        && at == |h| && committed && outcome != Failed(VersionConflict)
        && Justified(key, h + [event], event.client, event.request, outcome, at, true)
      case _ => false
  {
    var h' := h + [event];
    assert h'[..|h| + 1] == h' && h'[|h|] == event;
    ViewShowsEachSide(event.request.id, RowAfter(h'));
    assert Before(h') == h;
  }

  lemma CommitterOk(s: System, c: nat, now: int, fault: Fault)
    requires Inv(s) && c in s.clients && s.clients[c].phase.Writing?
    requires Condition(s.row, s.clients[c].request, s.clients[c].phase.romance.version)
    ensures var s' := CommitStep(s, c, now, fault);
      ClientOk(s.key, s'.history, c, s'.clients[c])
  {
    var Client(request, since, Writing(_, romance, seenAt), lost) := s.clients[c];
    var event := Committed(c, request, now, romance, seenAt);
    assert ClientOk(s.key, s.history, c, s.clients[c]);
    LostWindowsExtend(lost, since, seenAt, |s.history|);
    assert Before(s.history + [event]) == s.history;
    CommitIsJustified(s.key, s.history, event, fault);
  }

  // A client still under way may stop with any outcome but a conflict, if it is justified.
  lemma StopInv(s: System, c: nat, outcome: Outcome)
    requires Inv(s) && c in s.clients && (s.clients[c].phase.Reading? || s.clients[c].phase.Writing?)
    requires Justified(s.key, s.history, c, s.clients[c].request, outcome, |s.history|, false)
    requires outcome != Failed(VersionConflict)
    ensures Inv(Advance(s, c, Done(outcome, |s.history|, false)))
  {
    var client := s.clients[c];
    var after := client.(phase := Done(outcome, |s.history|, false));
    assert ClientOk(s.key, s.history, c, client);
    if client.phase.Writing? {
      LostWindowsExtend(client.lost, client.since, client.phase.seenAt, |s.history|);
    }
    assert ClientOk(s.key, s.history, c, after);
    ClientStepInv(s, c, after);
  }

  lemma ReadInv(s: System, c: nat, fault: Fault)
    requires Inv(s) && c in s.clients && s.clients[c].phase.Reading?
    ensures Inv(Next(s, Read(c, fault)))
  {
    hide Justified, Valid, Condition, Decide;
    var client := s.clients[c];
    var h, request := s.history, client.request;
    var view := View(request.id, s.row);
    assert ClientOk(s.key, h, c, client);
    assert view.Err? ==> view.error == Malformed;
    if !fault.NoFault? {
      StopInv(s, c, Failed(StoreError));
    } else if view.Err? {
      MalformedIsJustified(s.key, h, c, request);
      StopInv(s, c, Failed(Malformed));
    } else if Decide(request, view.value).Some? {
      StopIsJustified(s.key, h, c, request, view.value);
      StopInv(s, c, Decide(request, view.value).value);
    } else {
      assert RowAt(h, |h|) == s.row by {
        assert h[..|h|] == h;
      }
      ClientStepInv(s, c, client.(phase := Writing(client.phase.tries, view.value, |h|)));
    }
  }

  lemma ConflictInv(s: System, c: nat)
    requires Inv(s) && c in s.clients && s.clients[c].phase.Writing?
    requires !Condition(s.row, s.clients[c].request, s.clients[c].phase.romance.version)
    ensures Inv(ConflictStep(s, c))
  {
    var client := s.clients[c];
    var Client(request, since, Writing(tries, romance, seenAt), lost) := client;
    var h := s.history;
    assert ClientOk(s.key, h, c, client);
    ConflictMeansChanged(s.key, h, request, romance, seenAt);
    var lost' := lost + [Window(seenAt, |h|)];
    assert lost'[..|lost' | - 1] == lost;
    assert LostWindows(lost', since, |h|);
    ClientStepInv(s, c, ConflictStep(s, c).clients[c]);
  }

  lemma CountInv(s: System, c: nat)
    requires Inv(s) && c in s.clients && s.clients[c].phase.Counting?
    ensures Inv(CountStep(s, c))
  {
    var client := s.clients[c];
    assert ClientOk(s.key, s.history, c, client);
    ClientStepInv(s, c, CountStep(s, c).clients[c]);
  }

  lemma ClientsExtend(s: System, event: Event)
    requires Inv(s)
    ensures forall d :: d in s.clients ==> ClientOk(s.key, s.history + [event], d, s.clients[d])
  {
    forall d | d in s.clients
      ensures ClientOk(s.key, s.history + [event], d, s.clients[d])
    {
      ClientOkExtends(s.key, s.history, event, d, s.clients[d]);
    }
  }

  lemma CommitOwned(s: System, c: nat, now: int, fault: Fault, i: nat)
    requires Inv(s) && c in s.clients && s.clients[c].phase.Writing?
    requires var h := CommitStep(s, c, now, fault).history;
      i < |h| && h[i].Committed?
    ensures var s' := CommitStep(s, c, now, fault);
      s'.history[i].client in s'.clients && OwnsCommit(s'.clients[s'.history[i].client], i)
  {
    var h' := CommitStep(s, c, now, fault).history;
    assert i < |s.history| ==> h'[i] == s.history[i];
  }

  lemma CommitInv(s: System, c: nat, now: int, fault: Fault)
    requires Inv(s) && c in s.clients && s.clients[c].phase.Writing?
    requires Condition(s.row, s.clients[c].request, s.clients[c].phase.romance.version)
    ensures Inv(CommitStep(s, c, now, fault))
  {
    var s' := CommitStep(s, c, now, fault);
    assert ClientOk(s.key, s.history, c, s.clients[c]);
    assert Before(s'.history) == s.history;
    assert Valid(s.key, s'.history) && s'.row == RowAfter(s'.history);
    CommitterOk(s, c, now, fault);
    ClientsExtend(s, Last(s'.history));
    forall i | 0 <= i < |s'.history| && s'.history[i].Committed?
      ensures s'.history[i].client in s'.clients && OwnsCommit(s'.clients[s'.history[i].client], i)
    {
      CommitOwned(s, c, now, fault, i);
    }
  }

  lemma RemoveInv(s: System)
    requires Inv(s) && s.row.Some?
    ensures Inv(Next(s, Remove))
  {
    hide ClientOk, Written, View;
    assert Before(Next(s, Remove).history) == s.history;
    ClientsExtend(s, Wiped);
  }

  lemma WriteInv(s: System, c: nat, now: int, fault: Fault)
    requires Inv(s) && c in s.clients && s.clients[c].phase.Writing?
    ensures Inv(WriteStep(s, c, now, fault))
  {
    if fault.Refused? {
      StopInv(s, c, Failed(StoreError));
    } else if Condition(s.row, s.clients[c].request, s.clients[c].phase.romance.version) {
      CommitInv(s, c, now, fault);
    } else if fault.ReplyLost? {
      StopInv(s, c, Failed(StoreError));
    } else {
      ConflictInv(s, c);
    }
  }

  lemma StartInv(s: System, c: nat, request: Request)
    requires Inv(s)
    ensures Inv(Next(s, Start(c, request)))
  {
  }

  lemma StepInv(s: System, step: Step)
    requires Inv(s)
    ensures Inv(Next(s, step))
  {
    hide Inv;
    match step
    case Start(c, request) =>
      StartInv(s, c, request);
    case Read(c, fault) =>
      if c in s.clients && s.clients[c].phase.Reading? {
        ReadInv(s, c, fault);
      }
    case Write(c, now, fault) =>
      if c in s.clients && s.clients[c].phase.Writing? {
        WriteInv(s, c, now, fault);
      }
    case Count(c) =>
      if c in s.clients && s.clients[c].phase.Counting? {
        CountInv(s, c);
      }
    case Remove =>
      if s.row.Some? {
        RemoveInv(s);
      }
  }

  lemma {:induction false} RunInv(s: System, steps: seq<Step>)
    requires Inv(s)
    ensures Inv(Run(s, steps))
  {
    if steps != [] {
      RunInv(s, steps[..|steps| - 1]);
      StepInv(Run(s, steps[..|steps| - 1]), steps[|steps| - 1]);
    }
  }
}
