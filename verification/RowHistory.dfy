/**
 The life of one romance row as the sequence of changes made to it. A commit carries the snapshot its
 client decided on and the point of the history where that snapshot was read; a wipe is any
 unconditional removal of the row. Everything the store guarantees about a row is proved here about
 valid histories; VoteProtocol shows that every interleaving of clients produces one.
 */
module RowHistory {
  import opened Results
  import opened VoteTypes
  import opened Identity
  import opened Romances

  datatype Event =
    | Committed(client: nat, request: Request, now: int, snapshot: Romance, seenAt: nat)
    | Wiped

  type History = seq<Event>

  // ---------- The operations' decision between read and write ----------

  datatype Outcome = Voted(vote: Vote) | Removed | Failed(error: Error)

  // The checks made on the snapshot, in the order the three operations make them.
  // None means the operation goes on to its conditional write.
  function Decide(request: Request, romance: Romance): Option<Outcome> {
    var current := romance.active.ballot.kind;
    match request
    case Add(_, kind, _) =>
      if !IsChangeAllowed(current, kind) then Some(Failed(WrongVote))
      else if kind == current then Some(Failed(VoteDuplicate))
      else None
    case Change(_, kind) =>
      if !IsChangeAllowed(current, kind) then Some(Failed(WrongVote))
      else if kind == current then Some(Failed(VoteDuplicate))
      else if current.IsEmpty() then Some(Failed(VoteNotFound))
      else if kind.IsEmpty() then Some(Failed(WrongVote))
      else None
    case Delete(_) =>
      if romance.IsEmpty() then Some(Removed) else None
  }

  // The counters a committed request calls for: Some(true) yes, Some(false) no.
  function Owes(request: Request, previous: VoteType): Option<bool> {
    if !request.Add? then None
    else if request.kind.IsPositive() && !previous.IsPositive() then Some(true)
    else if request.kind.IsNegative() && !previous.IsNegative() then Some(false)
    else None
  }

  // ---------- Histories ----------

  function Before(h: History): History
    requires h != []
  {
    h[..|h| - 1]
  }

  function Last(h: History): Event
    requires h != []
  {
    h[|h| - 1]
  }

  function RowAfter(h: History): Option<Row> {
    if h == [] then None
    else
      match Last(h)
      case Wiped => None
      case Committed(_, request, now, snapshot, _) =>
        Some(Written(RowAfter(Before(h)), request, snapshot, now))
  }

  // A wipe counts only when there was a row; a commit is what the protocol can do to the row:
  // its snapshot was read earlier, passed the operation's checks, and its condition holds now.
  predicate ValidEvent(key: RomanceKey, before: History, event: Event) {
    match event
    case Wiped => RowAfter(before).Some?
    case Committed(_, request, _, snapshot, seenAt) =>
      && KeyOf(request.id) == key
      && seenAt <= |before|
      && View(request.id, RowAfter(before[..seenAt])) == Ok(snapshot)
      && Decide(request, snapshot) == None
      && Condition(RowAfter(before), request, snapshot.version)
  }

  predicate Valid(key: RomanceKey, h: History) {
    h == [] || (Valid(key, Before(h)) && ValidEvent(key, Before(h), Last(h)))
  }

  lemma {:induction false} ValidPrefix(key: RomanceKey, h: History, i: nat)
    requires Valid(key, h) && i <= |h|
    ensures Valid(key, h[..i])
  {
    if i < |h| {
      ValidPrefix(key, Before(h), i);
      assert Before(h)[..i] == h[..i];
    } else {
      assert h[..i] == h;
    }
  }

  lemma ValidAt(key: RomanceKey, h: History, i: nat)
    requires Valid(key, h) && i < |h|
    ensures Valid(key, h[..i]) && ValidEvent(key, h[..i], h[i])
  {
    ValidPrefix(key, h, i + 1);
    assert Before(h[..i + 1]) == h[..i];
  }

  ghost predicate NoWipeSince(h: History, from: nat) {
    forall i :: from <= i < |h| ==> h[i].Committed?
  }

  // ---------- Versions ----------

  // Commits since the row was last absent.
  function LifeCommits(h: History): nat {
    if h == [] || Last(h).Wiped? then 0 else 1 + LifeCommits(Before(h))
  }

  lemma {:induction false} VersionCountsCommits(key: RomanceKey, h: History)
    requires Valid(key, h)
    ensures VersionOf(RowAfter(h)) == LifeCommits(h)
    ensures RowAfter(h).Some? <==> LifeCommits(h) > 0
  {
    if h != [] {
      VersionCountsCommits(key, Before(h));
    }
  }

  lemma {:induction false} LifeGrowsWithoutWipes(h: History, from: nat)
    requires from <= |h| && NoWipeSince(h, from)
    ensures LifeCommits(h) == LifeCommits(h[..from]) + |h| - from
  {
    if from < |h| {
      LifeGrowsWithoutWipes(Before(h), from);
      assert Before(h)[..from] == h[..from];
    } else {
      assert h[..from] == h;
    }
  }

  // Optimistic locking: with no wipe since the read, the condition holds exactly when nothing at all
  // has happened to the row since the read.
  lemma ConditionMeansUnchanged(key: RomanceKey, h: History, request: Request, snapshot: Romance, seenAt: nat)
    requires Valid(key, h) && KeyOf(request.id) == key && seenAt <= |h|
    requires View(request.id, RowAfter(h[..seenAt])) == Ok(snapshot)
    requires Decide(request, snapshot) == None
    requires NoWipeSince(h, seenAt)
    ensures Condition(RowAfter(h), request, snapshot.version) <==> seenAt == |h|
  {
    ValidPrefix(key, h, seenAt);
    VersionCountsCommits(key, h);
    VersionCountsCommits(key, h[..seenAt]);
    LifeGrowsWithoutWipes(h, seenAt);
    ViewShowsEachSide(request.id, RowAfter(h[..seenAt]));
    assert seenAt == |h| ==> h[..seenAt] == h;
  }

  // The condition holds on a row that was touched since the read in one way only: it was removed in between,
  // and has had exactly as many commits since as the snapshot had seen.
  lemma ConditionHoldsLateIff(key: RomanceKey, h: History, request: Request, snapshot: Romance, seenAt: nat)
    requires Valid(key, h) && KeyOf(request.id) == key && seenAt <= |h|
    requires View(request.id, RowAfter(h[..seenAt])) == Ok(snapshot)
    requires Decide(request, snapshot) == None
    ensures Condition(RowAfter(h), request, snapshot.version) && seenAt < |h| <==>
      (exists i :: seenAt <= i < |h| && h[i].Wiped?) && LifeCommits(h) == snapshot.version
  {
    hide View, Valid;
    VersionCountsCommits(key, h);
    ValidPrefix(key, h, seenAt);
    VersionCountsCommits(key, h[..seenAt]);
    ViewShowsEachSide(request.id, RowAfter(h[..seenAt]));
    ConditionIsVersionMatch(RowAfter(h), request, snapshot);
    if NoWipeSince(h, seenAt) {
      ConditionMeansUnchanged(key, h, request, snapshot, seenAt);
    }
  }

  // For a request that passed its checks, the condition says no more than that the versions agree.
  lemma ConditionIsVersionMatch(row: Option<Row>, request: Request, snapshot: Romance)
    requires Decide(request, snapshot) == None && (row.Some? ==> row.value.version > 0)
    requires snapshot.version == 0 ==> snapshot.IsEmpty()
    ensures Condition(row, request, snapshot.version) <==> VersionOf(row) == snapshot.version
  {
  }

  // ---------- Stale commits ----------

  // The snapshot still described the row at the instant of the commit.
  predicate Current(before: History, event: Event)
    requires event.Committed?
  {
    View(event.request.id, RowAfter(before)) == Ok(event.snapshot)
  }

  function StaleCommits(h: History): nat {
    if h == [] then 0
    else StaleCommits(Before(h)) + if Last(h).Committed? && !Current(Before(h), Last(h)) then 1 else 0
  }

  // Stale commits since the row was last absent.
  function LifeStaleCommits(h: History): nat {
    if h == [] || Last(h).Wiped? then 0
    else LifeStaleCommits(Before(h)) + if !Current(Before(h), Last(h)) then 1 else 0
  }

  // A commit goes stale in one way only: the row its client had seen was wiped inside the window
  // and created again.
  lemma StaleNeedsWipeInWindow(key: RomanceKey, h: History, event: Event)
    requires Valid(key, h) && event.Committed? && ValidEvent(key, h, event)
    requires !Current(h, event)
    ensures event.snapshot.version > 0
    ensures exists i :: event.seenAt <= i < |h| && h[i].Wiped?
  {
    var seen := h[..event.seenAt];
    ValidPrefix(key, h, event.seenAt);
    VersionCountsCommits(key, seen);
    ViewShowsEachSide(event.request.id, RowAfter(seen));
    assert event.seenAt == |h| ==> seen == h;
    if NoWipeSince(h, event.seenAt) {
      ConditionMeansUnchanged(key, h, event.request, event.snapshot, event.seenAt);
      assert false;
    }
  }

  ghost predicate NoWipeInWindows(h: History) {
    forall j :: 0 <= j < |h| && h[j].Committed? ==> NoWipeSince(h[..j], h[j].seenAt)
  }

  lemma {:induction false} NoWipeInWindowsNoStale(key: RomanceKey, h: History)
    requires Valid(key, h) && NoWipeInWindows(h)
    ensures StaleCommits(h) == 0
  {
    if h != [] {
      forall j | 0 <= j < |Before(h)| && Before(h)[j].Committed?
        ensures NoWipeSince(Before(h)[..j], Before(h)[j].seenAt)
      {
        assert Before(h)[..j] == h[..j];
      }
      NoWipeInWindowsNoStale(key, Before(h));
      assert Last(h).Committed? ==> NoWipeSince(h[..|h| - 1], h[|h| - 1].seenAt);
      if Last(h).Committed? && !Current(Before(h), Last(h)) {
        StaleNeedsWipeInWindow(key, Before(h), Last(h));
        assert false;
      }
    }
  }

  // ---------- What a row always satisfies ----------

  predicate Shaped(ballot: Ballot) {
    && (!ballot.kind.Empty? <==> ballot.votedAt.Some?)
    && (ballot.votedAt.Some? <==> ballot.createdAt.Some?)
    && (ballot.updatedAt.Some? ==> !ballot.kind.Empty?)
  }

  // What remains of the shape when a stale commit is possible: a vote may lack its times.
  predicate LooselyShaped(ballot: Ballot) {
    && (ballot.votedAt.Some? ==> !ballot.kind.Empty?)
    && (ballot.votedAt.Some? <==> ballot.createdAt.Some?)
    && (ballot.updatedAt.Some? ==> !ballot.kind.Empty?)
  }

  lemma CommitKeepsShape(key: RomanceKey, before: History, event: Event, user: Uuid)
    requires event.Committed? && ValidEvent(key, before, event)
    requires user == event.request.id.active || user == event.request.id.peer
    ensures var row := RowAfter(before);
      var after := Some(Written(row, event.request, event.snapshot, event.now));
      && (LooselyShaped(BallotOf(key, row, user)) ==> LooselyShaped(BallotOf(key, after, user)))
      && (Shaped(BallotOf(key, row, user)) && Current(before, event) ==> Shaped(BallotOf(key, after, user)))
  {
    WriteTouchesOneSide(RowAfter(before), event.request, event.snapshot, event.now);
    ViewShowsEachSide(event.request.id, RowAfter(before));
    TransitionsAreStrictClimbs();
  }

  lemma {:induction false} VotesKeepTheirShape(key: RomanceKey, h: History, user: Uuid)
    requires Valid(key, h) && (user == key.pk || user == key.sk)
    ensures LooselyShaped(BallotOf(key, RowAfter(h), user))
    ensures LifeStaleCommits(h) == 0 ==> Shaped(BallotOf(key, RowAfter(h), user))
  {
    assert h != [] && Last(h).Committed? ==> KeyOf(Last(h).request.id) == key;
    assert Shaped(NO_BALLOT);
    if h != [] && Last(h).Committed? {
      VotesKeepTheirShape(key, Before(h), user);
      CommitKeepsShape(key, Before(h), Last(h), user);
    }
  }

  // The stored ttl is the class of the two stored votes, although its writer computed it from a snapshot.
  lemma TtlAgreesWithVotes(key: RomanceKey, h: History)
    requires Valid(key, h) && h != [] && Last(h).Committed? && Current(Before(h), Last(h))
    ensures var row := RowAfter(h).value;
      && RetainsFor(row.pk.kind, row.sk.kind, row.ttl)
      && row.ttl == TtlSeconds(row.pk.kind, row.sk.kind) == TtlSeconds(row.sk.kind, row.pk.kind)
  {
    var event := Last(h);
    TtlSecondsByKinds(RowAfter(h).value.pk.kind, RowAfter(h).value.sk.kind);
    ViewShowsEachSide(event.request.id, RowAfter(Before(h)));
    WriteTouchesOneSide(RowAfter(Before(h)), event.request, event.snapshot, event.now);
  }

  // ---------- Bounded climbing ----------

  // Committed vote deletions since the row was last absent.
  function LifeDeletions(h: History): nat {
    if h == [] || Last(h).Wiped? then 0
    else LifeDeletions(Before(h)) + if Last(h).request.Delete? then 1 else 0
  }

  function RankAt(key: RomanceKey, h: History, user: Uuid): nat {
    Rank(BallotOf(key, RowAfter(h), user).kind)
  }

  // A commit that is neither a deletion nor stale raises the rank of the acting side; the peer's never moves.
  lemma CommitClimbs(key: RomanceKey, before: History, event: Event)
    requires event.Committed? && ValidEvent(key, before, event)
    ensures RankAt(key, before + [event], event.request.id.peer) == RankAt(key, before, event.request.id.peer)
    ensures Current(before, event) && !event.request.Delete? ==>
      RankAt(key, before + [event], event.request.id.active) > RankAt(key, before, event.request.id.active)
  {
    assert Before(before + [event]) == before;
    WriteTouchesOneSide(RowAfter(before), event.request, event.snapshot, event.now);
    ViewShowsEachSide(event.request.id, RowAfter(before));
    TransitionsAreStrictClimbs();
  }

  function RankSum(key: RomanceKey, h: History): nat {
    RankAt(key, h, key.pk) + RankAt(key, h, key.sk)
  }

  lemma CommitMovesRankSum(key: RomanceKey, before: History, event: Event)
    requires event.Committed? && ValidEvent(key, before, event)
    ensures RankSum(key, before + [event]) + 3 >= RankSum(key, before)
    ensures Current(before, event) && !event.request.Delete? ==>
      RankSum(key, before + [event]) > RankSum(key, before)
  {
    CommitClimbs(key, before, event);
    var id := event.request.id;

    assert (id.active == key.pk && id.peer == key.sk) || (id.active == key.sk && id.peer == key.pk);
    assert forall h: History, user: Uuid :: RankAt(key, h, user) <= 3;
  }

  lemma {:induction false} VersionIsBoundedByDeletions(key: RomanceKey, h: History)
    requires Valid(key, h)
    ensures VersionOf(RowAfter(h)) <= RankSum(key, h) + 4 * (LifeDeletions(h) + LifeStaleCommits(h))
    ensures VersionOf(RowAfter(h)) <= 6 + 4 * (LifeDeletions(h) + LifeStaleCommits(h))
  {
    hide ValidEvent, Written, View;
    VersionCountsCommits(key, h);
    if h != [] && Last(h).Committed? {
      VersionIsBoundedByDeletions(key, Before(h));
      VersionCountsCommits(key, Before(h));
      CommitMovesRankSum(key, Before(h), Last(h));
      assert Before(h) + [Last(h)] == h;
    }
  }

  // ---------- Counter calls owed by commits ----------

  // The commit was judged, on its snapshot, to owe the user a yes (positive) or a no.
  predicate Flagged(event: Event, user: Uuid, positive: bool) {
    && event.Committed?
    && event.request.id.active == user
    && Owes(event.request, event.snapshot.active.ballot.kind) == Some(positive)
  }

  function FlaggedCommits(h: History, user: Uuid, positive: bool): nat {
    if h == [] then 0
    else FlaggedCommits(Before(h), user, positive) + if Flagged(Last(h), user, positive) then 1 else 0
  }

  // The commit is an Add that took the stored vote from non-positive to positive, or from empty to No.
  predicate Gain(key: RomanceKey, before: History, event: Event, user: Uuid, positive: bool) {
    && event.Committed? && event.request.Add?
    && event.request.id.active == user
    && var stored := BallotOf(key, RowAfter(before), user).kind;
       if positive then
         && (event.request.kind == Yes || event.request.kind == Crush || event.request.kind == Compliment)
         && (stored == Empty || stored == No)
       else event.request.kind == No && stored == Empty
  }

  function Gains(key: RomanceKey, h: History, user: Uuid, positive: bool): nat {
    if h == [] then 0
    else Gains(key, Before(h), user, positive) + if Gain(key, Before(h), Last(h), user, positive) then 1 else 0
  }

  // What can undo a user's vote: their own committed deletions, and wipes of the row.
  function Erasures(h: History, user: Uuid): nat {
    if h == [] then 0
    else Erasures(Before(h), user) + if Undoes(Last(h), user) then 1 else 0
  }

  predicate Undoes(event: Event, user: Uuid) {
    event.Wiped? || (event.request.Delete? && event.request.id.active == user)
  }

  lemma CurrentFlagIsGain(key: RomanceKey, before: History, event: Event, user: Uuid, positive: bool)
    requires event.Committed? && ValidEvent(key, before, event) && Current(before, event)
    ensures Flagged(event, user, positive) <==> Gain(key, before, event, user, positive)
  {
    ViewShowsEachSide(event.request.id, RowAfter(before));
    TransitionsAreStrictClimbs();
  }

  lemma {:induction false} FlagsCountGains(key: RomanceKey, h: History, user: Uuid, positive: bool)
    requires Valid(key, h)
    ensures FlaggedCommits(h, user, positive) <= Gains(key, h, user, positive) + StaleCommits(h)
    ensures Gains(key, h, user, positive) <= FlaggedCommits(h, user, positive) + StaleCommits(h)
  {
    if h != [] {
      FlagsCountGains(key, Before(h), user, positive);
      if Last(h).Committed? && Current(Before(h), Last(h)) {
        CurrentFlagIsGain(key, Before(h), Last(h), user, positive);
      }
    }
  }

  // 1 while the stored vote is one that a counted Add could have set.
  function Held(key: RomanceKey, h: History, user: Uuid, positive: bool): nat {
    var kind := BallotOf(key, RowAfter(h), user).kind;
    if (if positive then kind.IsPositive() else !kind.IsEmpty()) then 1 else 0
  }

  lemma CommitMovesHeld(key: RomanceKey, before: History, event: Event, user: Uuid, positive: bool)
    requires event.Committed? && ValidEvent(key, before, event) && (user == key.pk || user == key.sk)
    ensures Held(key, before, user, positive) + (if Flagged(event, user, positive) then 1 else 0) <=
      Held(key, before + [event], user, positive)
      + (if Undoes(event, user) then 1 else 0) + (if !Current(before, event) then 1 else 0)
  {
    assert Before(before + [event]) == before;
    WriteTouchesOneSide(RowAfter(before), event.request, event.snapshot, event.now);
    ViewShowsEachSide(event.request.id, RowAfter(before));
    TransitionsAreStrictClimbs();
  }

  // A directed pair is counted at most once more than its vote was undone, however many Adds race; each stale
  // commit may add one.
  lemma {:induction false} FlagsAreBoundedByErasures(key: RomanceKey, h: History, user: Uuid, positive: bool)
    requires Valid(key, h) && (user == key.pk || user == key.sk)
    ensures FlaggedCommits(h, user, positive) <= Held(key, h, user, positive) + Erasures(h, user) + StaleCommits(h)
    ensures FlaggedCommits(h, user, positive) <= 1 + Erasures(h, user) + StaleCommits(h)
  {
    hide ValidEvent, Written, View, Current;
    if h != [] {
      FlagsAreBoundedByErasures(key, Before(h), user, positive);
      if Last(h).Committed? {
        CommitMovesHeld(key, Before(h), Last(h), user, positive);
        assert Before(h) + [Last(h)] == h;
      }
    }
  }

  // ---------- The atomic store this refines ----------

  // Both users' votes, each operation one indivisible step on them.
  datatype PairOfVotes = PairOfVotes(pk: Ballot, sk: Ballot)

  const NO_VOTES := PairOfVotes(NO_BALLOT, NO_BALLOT)

  function Side(key: RomanceKey, votes: PairOfVotes, user: Uuid): Ballot {
    if IsPartitionKey(key, user) then votes.pk else votes.sk
  }

  // One operation done atomically against the caller's stored vote.
  function Perform(mine: Ballot, request: Request, now: int): Result<Ballot, Error> {
    match request
    case Add(_, kind, votedAt) =>
      if !IsChangeAllowed(mine.kind, kind) then Err(WrongVote)
      else Ok(Ballot(kind, Some(votedAt), Some(now), mine.updatedAt))
    case Change(_, kind) =>
      if !IsChangeAllowed(mine.kind, kind) then Err(WrongVote)
      else if mine.kind.IsEmpty() then Err(VoteNotFound)
      else Ok(Ballot(kind, mine.votedAt, mine.createdAt, Some(now)))
    case Delete(_) => Ok(NO_BALLOT)
  }

  function Commit(key: RomanceKey, votes: PairOfVotes, request: Request, now: int): Result<PairOfVotes, Error> {
    match Perform(Side(key, votes, request.id.active), request, now)
    case Err(e) => Err(e)
    case Ok(mine) =>
      if IsPartitionKey(key, request.id.active) then Ok(votes.(pk := mine)) else Ok(votes.(sk := mine))
  }

  // The same events replayed on the atomic store, paying no attention to snapshots or versions.
  function Replay(key: RomanceKey, h: History): Result<PairOfVotes, Error> {
    if h == [] then Ok(NO_VOTES)
    else
      match Replay(key, Before(h))
      case Err(e) => Err(e)
      case Ok(votes) =>
        match Last(h)
        case Wiped => Ok(NO_VOTES)
        case Committed(_, request, now, _, _) => Commit(key, votes, request, now)
  }

  function Votes(row: Option<Row>): PairOfVotes {
    match row
    case None => NO_VOTES
    case Some(r) => PairOfVotes(r.pk, r.sk)
  }

  // The checks on a snapshot are the checks of the atomic operation on the vote the snapshot shows.
  lemma DecideIsAtomicCheck(request: Request, romance: Romance, now: int)
    ensures match Decide(request, romance)
      case None => Perform(romance.active.ballot, request, now).Ok?
      case Some(Failed(e)) =>
        (e == WrongVote || e == VoteNotFound) && Perform(romance.active.ballot, request, now) == Err(e)
      case Some(Removed) => request.Delete? && romance.IsEmpty()
      case Some(Voted(_)) => false
  {
    TransitionsAreStrictClimbs();
  }

  // What the transition table asks of the vote stored at the instant of a commit, in place of the snapshot.
  predicate AllowedOnStored(stored: VoteType, request: Request) {
    match request
    case Add(_, kind, _) => IsChangeAllowed(stored, kind)
    case Change(_, kind) => IsChangeAllowed(stored, kind) && !stored.IsEmpty()
    case Delete(_) => true
  }

  predicate AllowedCommit(key: RomanceKey, before: History, event: Event) {
    event.Committed? ==>
      AllowedOnStored(BallotOf(key, RowAfter(before), event.request.id.active).kind, event.request)
  }

  predicate AllCommitsAllowed(key: RomanceKey, h: History) {
    h == [] || (AllCommitsAllowed(key, Before(h)) && AllowedCommit(key, Before(h), Last(h)))
  }

  // Stale or not, a commit is one indivisible operation on the pair of votes exactly when the transition table
  // allows it on the vote stored at that instant; otherwise the operation would have been refused.
  lemma CommitIsAtomicIff(key: RomanceKey, before: History, event: Event)
    requires event.Committed? && ValidEvent(key, before, event)
    ensures Commit(key, Votes(RowAfter(before)), event.request, event.now) == Ok(Votes(RowAfter(before + [event])))
      <==> AllowedCommit(key, before, event)
    ensures Commit(key, Votes(RowAfter(before)), event.request, event.now).Ok? <==> AllowedCommit(key, before, event)
  {
    hide Decide, View;
    assert Before(before + [event]) == before;
  }

  // A commit on the row its client had seen is always allowed.
  lemma CurrentCommitIsAllowed(key: RomanceKey, before: History, event: Event)
    requires event.Committed? && ValidEvent(key, before, event) && Current(before, event)
    ensures AllowedCommit(key, before, event)
  {
    ViewShowsEachSide(event.request.id, RowAfter(before));
  }

  lemma CurrentCommitIsAtomic(key: RomanceKey, before: History, event: Event)
    requires event.Committed? && ValidEvent(key, before, event) && Current(before, event)
    ensures Commit(key, Votes(RowAfter(before)), event.request, event.now) == Ok(Votes(RowAfter(before + [event])))
  {
    CurrentCommitIsAllowed(key, before, event);
    CommitIsAtomicIff(key, before, event);
  }

  // The history replays on the atomic store, to the stored votes, exactly when every commit was allowed on the vote
  // stored at its instant; and if it replays at all, it replays to the stored votes.
  lemma {:induction false} HistoryIsAtomicIff(key: RomanceKey, h: History)
    requires Valid(key, h)
    ensures Replay(key, h) == Ok(Votes(RowAfter(h))) <==> AllCommitsAllowed(key, h)
    ensures Replay(key, h).Ok? <==> AllCommitsAllowed(key, h)
  {
    hide ValidEvent, Commit, AllowedCommit;
    if h != [] {
      HistoryIsAtomicIff(key, Before(h));
      if Last(h).Committed? {
        CommitIsAtomicIff(key, Before(h), Last(h));
        assert Before(h) + [Last(h)] == h;
      } else {
        WipeIsAtomic(key, h);
      }
    }
  }

  lemma WipeIsAtomic(key: RomanceKey, h: History)
    requires h != [] && Last(h).Wiped?
    ensures Votes(RowAfter(h)) == NO_VOTES && AllowedCommit(key, Before(h), Last(h))
  {
  }

  lemma {:induction false} NoStaleCommitIsForbidden(key: RomanceKey, h: History)
    requires Valid(key, h) && StaleCommits(h) == 0
    ensures AllCommitsAllowed(key, h)
  {
    hide ValidEvent, Current, AllowedCommit;
    if h != [] {
      NoStaleCommitIsForbidden(key, Before(h));
      if Last(h).Committed? {
        CurrentCommitIsAllowed(key, Before(h), Last(h));
      } else {
        WipeIsAtomic(key, h);
      }
    }
  }

  // In particular without stale commits.
  lemma HistoryRefinesAtomicStore(key: RomanceKey, h: History)
    requires Valid(key, h) && StaleCommits(h) == 0
    ensures Replay(key, h) == Ok(Votes(RowAfter(h)))
  {
    NoStaleCommitIsForbidden(key, h);
    HistoryIsAtomicIff(key, h);
  }
}
