# Verified model of the vote store

The service stores, for every unordered pair of users, one *romance* row in DynamoDB: both users' votes, a version
and a retention class (`ttl`). Users add, change and delete their own vote; each operation reads the row, decides on
that snapshot, and writes conditionally on the version, trying at most four times. Beside it stand hourly and
lifetime vote counters, and a pipeline that deletes all rows of one user. This project models those three parts and
the message handling under the third, and proves what they guarantee.

## How the project is laid out

- `VoteTypes`, `Identity`, `Widths`, `Romances`: vote types and the transition table, ids and row keys, integer
  widths, rows and the repository class with its conditional updates.
- `RowHistory`: the life of one row as a sequence of commits and removals. Optimistic locking, shape, ttl, bounded
  climbing, counter flags and the refinement of an atomic pair of votes are proved here for every valid history.
- `VoteProtocol`: any number of clients, each split into read, conditional write and counter call, interleaved in any
  way, with refused calls, lost answers and removals at any moment. The invariant says every history is valid and why
  each client got its answer.
- `VoteGuarantees`: the same facts as promises to callers, over every run, and the counterexample that fixes their
  scope.
- `Realization`: every valid history in which no client commits twice is the history of some run.
- `ReadBack`: votes that are stored but cannot be read back; when exactly, and what that costs.
- `VoteLog`, `VotesAndCounters`: all rows and the counters table in one log of steps; lifetime counters against the
  stored votes.
- `VoteOperations`: the three retry loops as imperative code over both repositories. Each is proved to be one client
  of the protocol, whatever the others do between its calls, and to leave both tables as the log says.
- `Counters`, `CounterRuns`, `CounterGuarantees`: the counter transaction and the windowed read as imperative code; all
  runs of increments, clock advances and expiry; exact windows, bounded queries, conservation.
- `HoursOffsets`: the validated, sorted, unshared list of window lengths.
- `PeerStream`, `GroupDeletion`, `DeletionPipeline`: the paged stream of a user's peers, groups of 25, batch deletion,
  and the whole pipeline with redelivery and other clients at work.
- `Messaging`: registration, dispatch, and the single ack or nack of a message.

## What holds, and where it stops

- **Optimistic locking** rests on "equal version means the row I read". While the row is not removed between an
  attempt's read and its write, that is proved: the condition holds exactly when nothing happened to the row. With a
  removal in between, `ConditionHoldsLateIff` says exactly when the condition lets a write through all the same: when
  the new row has had as many commits as the old one had. `RemovalInWindowDefeatsVersionCheck` is a reachable run in
  which it does, because removals are unconditional and versions restart at 1. Statements that need the scope carry it
  as stale commits, that is, commits whose snapshot no longer described the row. `RunIsAtomicIff` says when a stale
  commit does harm: exactly when the transition table forbids it on the vote then stored.
- **Answers.** A store call may be refused, or carried out with the answer lost. A vote time that does not fit 32 bits
  is stored and then fails to read back: the operation answers with an error although it has committed, no counter
  call follows, and the row stays unusable until it is removed. `LateVoteIsStoredButRefused` is such a run,
  `CommitAnswersErrorIff` and `CallIsDroppedIff` the exact conditions, `UnreadableRowIsStuck` the aftermath. Where all
  numbers fit and no answer is lost, `CounterCallsAreGains` leaves no call unaccounted for.
- **Counters.** The process zone is a parameter: event hours are local fields relabelled as UTC, as in the code, while
  windows are computed in UTC. `RelabellingIsHarmlessIff` says when the two agree. The windows count the logged hours,
  whatever the zone. An Add is counted at a time between its call and its return, never at its vote time.
- **Peer stream.** `lastEvaluatedKey` is shared by the two queries and not reset, and a failed query ends its side
  without an error. `StreamIsCompleteIff` is the exact condition for everybody to be named, for every page split and
  every failure. With no other client at work and nothing left unprocessed by DynamoDB, an acked deletion forgets the
  user under exactly that condition (`QuietRunForgetsIff`); `AcksDespitePaging` and `AcksDespiteFailedQuery` are runs
  where it does not hold.
- **Batch writes.** Items that DynamoDB reports as unprocessed are ignored by the code. `AcksDespiteLeftovers` shows
  what that permits, and `ForgottenIff` what it takes for a user to be forgotten in any run.

## Assumptions

- Which store calls and publications fail, and how, is an input of every operation; so are the page splits and the
  clock readings. Contracts say what each choice leads to.
- DynamoDB: an update checks its condition and writes in one step; a transaction is all or nothing and refuses
  repeated keys; a query lists its partition in key order and refuses a resume key outside it; a page is empty only at
  the end; an expired item may disappear at any time from its ttl on. A batch write refuses repeated keys.
- The key order of stored ids, as text, is their byte order.
- The table does not change while one peer stream is read, and the index is up to date.
- Counters: event times are not in the future; for exact windows, `now` is at least 49 hours after the epoch and fits
  32 bits, all clock readings of one call fall in one hour, and a user's total fits 32 bits. The bound of 49 queried
  rows is for a UTC process.
- Counters against votes, for equality: each counter call is applied, at a clock past the first hour of the epoch. A
  call that fails is only logged by the code, and makes the lifetime row count less.
- Deleting a user, for the end-to-end theorems: no row of that user is created after the request that listed them all.
  Existing rows may change or go at any time.

## Model

| member | source | states |
|---|---|---|
| `VoteTypes.TransitionsAreStrictClimbs` | internal/context/voting/application/operation/change_user_vote_operation.go:17-35 | the transition table allows exactly the changes that go strictly up in the order Empty, No, Yes, then Crush and Compliment together; in particular no type may change to itself |
| `VoteTypes.TtlSecondsByKinds` | internal/context/voting/infrastructure/persistence/romances_repository.go:578-592 | a row is kept 90 days when either vote is a No, 546 days when both are a Yes, Crush or Compliment, 180 days otherwise, whichever side is the caller's |
| `Identity.ByteOrderIsNumericOrder` | internal/context/voting/infrastructure/persistence/romances_repository.go:603 | comparing two ids byte by byte is comparing them as big-endian numbers, for strings of any equal length; the model uses the numbers |
| `Identity.NewVoteId` | internal/context/voting/domain/sharedkernel/valueobject/vote_id.go:13-30 | a vote id exists exactly for a non-zero country and two different non-nil users, and keeps what it was given; an error names a fault that is there |
| `Identity.NewActiveUserKey` | internal/context/voting/domain/sharedkernel/valueobject/user_key.go:13-25 | a user key exists exactly for a non-zero country and a non-nil user |
| `Identity.PeerOfPeerIsSelf` | internal/context/voting/domain/sharedkernel/valueobject/vote_id.go:44-52 | swapping twice gives the vote id back, swapping once never does; both ids have the same row, and are on its two different sides |
| `Identity.KeyOf` | internal/context/voting/infrastructure/persistence/romances_repository.go:599-614 | the row key holds the two users of the vote id, in byte order |
| `Identity.KeysNameUnorderedPairs` | internal/context/voting/infrastructure/persistence/romances_repository.go:599-614 | two vote ids have the same row key exactly when they name the same unordered pair of users |
| `Romances.ViewShowsEachSide` | internal/context/voting/infrastructure/persistence/romances_repository.go:513-576 | a stored row is refused exactly when it cannot be decoded; otherwise each user sees their own four attributes as active and the other's as peer; no row reads as an empty romance of version 0 |
| `Romances.ReadSucceedsIff` | internal/context/voting/infrastructure/persistence/romances_repository.go:49-59 | a stored row can be read exactly when each of its six times is within -2147483648 to 2147483647 and its version is at most 4294967295 |
| `Romances.PeerSeesSwappedRomance` | internal/context/voting/infrastructure/persistence/romances_repository.go:543-575 | reading from the peer's side gives the same romance with the votes swapped |
| `Romances.WriteTouchesOneSide` | internal/context/voting/infrastructure/persistence/romances_repository.go:223-252 | a write changes the acting user's four attributes only, leaves the other side's as they were, and reads back unchanged when it can be read at all |
| `Romances.RomancesRepository.GetRomance` | internal/context/voting/infrastructure/persistence/romances_repository.go:80-107 | the read is the decoded stored row, an empty romance when there is none, or the store's error |
| `Romances.RomancesRepository.UpdateItem` | internal/context/voting/infrastructure/persistence/romances_repository.go:254-273 | condition and write are one step; the write happens exactly when the condition holds and the store did not refuse; a failed condition is a version conflict |
| `Romances.RomancesRepository.AddActiveUserVoteToRomance` | internal/context/voting/infrastructure/persistence/romances_repository.go:205-283 | the table after the call and the answer, for every snapshot, stored row and fault: the answer is read back from the row just written, and a changed row is kept for the days its two kinds call for |
| `Romances.RomancesRepository.ChangeActiveUserVoteTypeInRomance` | internal/context/voting/infrastructure/persistence/romances_repository.go:435-511 | an empty own vote is not found and an empty target is wrong, both without a write; otherwise the conditional update, the vote read back, and the retention of the two kinds in days |
| `Romances.RomancesRepository.DeleteActiveUserVoteFromRomance` | internal/context/voting/infrastructure/persistence/romances_repository.go:371-433 | an empty romance needs no write; otherwise the conditional removal of the caller's attributes, and the retention the peer's vote alone calls for |
| `Romances.RomancesRepository.DeleteRomance` | internal/context/voting/infrastructure/persistence/romances_repository.go:285-303 | the removal is unconditional and touches one key; it is answered with an error exactly when the call was refused or its answer lost |
| `Widths.Int32Wraps` | internal/context/voting/infrastructure/persistence/counters_repository.go:103 | the int32 conversion repeats every 4294967296, always lands in the 32-bit range, and keeps exactly the numbers already in it |
| `Widths.Uint32Absorbs` | internal/context/voting/infrastructure/persistence/counters_repository.go:151-154 | uint32 sums may be wrapped at any point, repeat every 4294967296, and are exact up to 4294967295 |
| `RowHistory.VersionCountsCommits` | internal/context/voting/infrastructure/persistence/romances_repository.go:233-250 | in every valid history the stored version is the number of commits since the row was last absent |
| `RowHistory.ConditionMeansUnchanged` | internal/context/voting/infrastructure/persistence/romances_repository.go:244-250 | with no removal since the read, the version condition holds exactly when nothing at all has happened to the row since |
| `RowHistory.ConditionHoldsLateIff` | internal/context/voting/infrastructure/persistence/romances_repository.go:244-250 | the version condition holds on a row touched since the read exactly when the row was removed in between and has had as many commits since as the snapshot had seen |
| `RowHistory.StaleNeedsWipeInWindow` | internal/context/voting/infrastructure/persistence/romances_repository.go:405-408 | if a commit's snapshot no longer describes the row, the row was removed between that client's read and write, and the snapshot was of an existing row |
| `RowHistory.NoWipeInWindowsNoStale` | internal/context/voting/infrastructure/persistence/romances_repository.go:285-303 | if no removal falls between any commit's read and write, no commit is stale |
| `RowHistory.VotesKeepTheirShape` | internal/context/voting/infrastructure/persistence/romances_repository.go:408 | in every reachable row a vote is present exactly when its voted and created times are, and an update time only on a present vote; with stale commits possible, what remains of that |
| `RowHistory.TtlAgreesWithVotes` | internal/context/voting/infrastructure/persistence/romances_repository.go:578-592 | unless a commit of this life was stale, the stored ttl is 90 days when either stored vote is a No, 546 when both are positive, 180 otherwise, whichever side wrote last |
| `RowHistory.CommitClimbs` | internal/context/voting/application/operation/change_user_vote_operation.go:97-109 | a commit that is neither a deletion nor stale strictly raises the acting side's rank; no commit at all moves the peer's |
| `RowHistory.VersionIsBoundedByDeletions` | internal/context/voting/application/operation/change_user_vote_operation.go:63-94 | within one life of the row, version <= rank sum + 4 * deletions <= 6 + 4 * deletions (stale commits counted with the deletions) |
| `RowHistory.CurrentFlagIsGain` | internal/context/voting/application/operation/add_user_vote_operation.go:67-94 | for a commit that is not stale, the flags computed from the snapshot call for a yes exactly when the stored vote went from non-positive to positive, and for a no exactly when it went from Empty to No |
| `RowHistory.FlagsCountGains` | internal/context/voting/application/operation/add_user_vote_operation.go:67-94 | over a whole history, counter calls called for and such changes of the stored vote differ by at most the stale commits |
| `RowHistory.FlagsAreBoundedByErasures` | internal/context/voting/application/operation/add_user_vote_operation.go:88-94 | however many Adds race, each directed pair calls for at most 1 + (deletions of that vote and removals of the row) + (stale commits) counter calls |
| `Realization.StaleCommitsAreCountedInSomeRun` | internal/context/voting/application/operation/add_user_vote_operation.go:88-94 | some run has one removal and three calls for one directed pair: the stale commits in that bound cannot be left out |
| `RowHistory.DecideIsAtomicCheck` | internal/context/voting/application/operation/add_user_vote_operation.go:53-59 | the checks made between read and write accept and refuse what the atomic operation on the seen vote would, with the same error |
| `RowHistory.CommitIsAtomicIff` | internal/context/voting/infrastructure/persistence/romances_repository.go:244-282 | a commit, stale or not, is one indivisible operation on the pair of votes exactly when the transition table allows it on the vote stored at its instant, for a change also non-empty; otherwise that operation would have been refused |
| `RowHistory.CurrentCommitIsAtomic` | internal/context/voting/infrastructure/persistence/romances_repository.go:244-282 | in particular each commit that is not stale |
| `RowHistory.HistoryIsAtomicIff` | internal/context/voting/infrastructure/persistence/romances_repository.go:244-282 | a history replays on a store of two votes without versions, to the stored votes, exactly when each of its commits was allowed in that sense; if it replays at all it is to the stored votes |
| `RowHistory.HistoryRefinesAtomicStore` | internal/context/voting/infrastructure/persistence/romances_repository.go:244-282 | in particular each history without stale commits |
| `VoteProtocol.StopIsJustified` | internal/context/voting/application/operation/add_user_vote_operation.go:53-59 | an operation that stops after its read gives the answer the stored votes call for at that instant |
| `VoteProtocol.ConflictMeansChanged` | internal/context/voting/infrastructure/persistence/romances_repository.go:267-270 | losing the condition proves that the row was changed after the read, whatever else happened |
| `VoteProtocol.CommitIsJustified` | internal/context/voting/application/operation/add_user_vote_operation.go:72-96 | after its write a client returns its vote as it stands in the row just written, owes the counter call its snapshot called for, and never reports a conflict |
| `VoteProtocol.StepInv` | internal/context/voting/application/operation/add_user_vote_operation.go:46-97 | every step of every client, and every removal, keeps the system invariant |
| `VoteProtocol.RunInv` | internal/context/voting/application/operation/add_user_vote_operation.go:46-97 | the invariant holds after any number of steps of any number of clients |
| `VoteGuarantees.EveryRunIsValid` | internal/context/voting/application/operation/add_user_vote_operation.go:46-97 | every run from an absent row yields a valid history whose row is the stored one |
| `VoteGuarantees.RunsRefineAtomicStore` | internal/context/voting/infrastructure/persistence/romances_repository.go:244-282 | every interleaving without a removal inside a read/write window is a run of the atomic pair-of-votes store |
| `VoteGuarantees.RunIsAtomicIff` | internal/context/voting/infrastructure/persistence/romances_repository.go:244-282 | every run, with removals wherever they fall, is a run of the atomic store exactly when the transition table allowed each commit on the vote stored at its instant |
| `Realization.HistoryIsReachedIff` | internal/context/voting/application/operation/add_user_vote_operation.go:46-97 | the histories of runs are exactly the valid histories in which no client commits twice |
| `VoteGuarantees.FinishedIsJustified` | internal/context/voting/application/operation/add_user_vote_operation.go:46-97 | every finished client has a commit or an instant of its own lifetime that justifies its answer |
| `VoteGuarantees.VotedIsAtomic` | internal/context/voting/application/operation/add_user_vote_operation.go:72-96 | a returned vote was stored by that operation within its lifetime and is the vote in the row at that instant; unless the commit was stale, it is the result of the atomic operation there |
| `VoteGuarantees.RemovedIsAtomic` | internal/context/voting/application/operation/delete_user_vote_operation.go:37-55 | a successful deletion emptied the caller's vote itself, or found a romance without votes at one instant of its lifetime |
| `VoteGuarantees.RefusalIsAtomic` | internal/context/voting/application/operation/change_user_vote_operation.go:70-76 | a wrong-vote or not-found answer is the atomic operation's own answer at one instant of the lifetime, and nothing was stored |
| `VoteGuarantees.FailureIsFromTheStore` | internal/context/voting/application/operation/add_user_vote_operation.go:46-86 | an operation never answers with a duplicate vote, and it reports an unreadable row only when the row was unreadable, at its read or as its own write left it |
| `VoteGuarantees.CommitsAtMostOnce` | internal/context/voting/application/operation/add_user_vote_operation.go:79-86 | no operation commits twice, and one that reports a refusal or a conflict has committed nothing |
| `VoteGuarantees.ConflictsAreForeign` | internal/context/voting/application/operation/delete_user_vote_operation.go:46-53 | a version conflict is answered only after four lost attempts in four disjoint windows, in each of which the row changed, and none of the changes was the operation's own |
| `VoteGuarantees.AttemptCommitsIffUndisturbed` | internal/context/voting/infrastructure/persistence/romances_repository.go:405-428 | with no removal since the read, an attempt commits exactly when nobody changed the row since; otherwise nothing changes but its count of lost windows |
| `VoteGuarantees.StoredRows` | internal/context/voting/infrastructure/persistence/romances_repository.go:578-592 | every stored row of every run: version at least 1 and bounded, votes in shape, retention of 90, 546 or 180 days by its two kinds (the last two when no commit of this life of the row was stale) |
| `VoteGuarantees.StepKeepsBalance` | internal/context/voting/application/operation/add_user_vote_operation.go:88-94 | each step keeps: calls called for by commits = calls made + calls still owed + calls dropped; ReadBack.CallIsDroppedIff says when one is dropped, ReadBack.CounterCallsAreGains when none is |
| `VoteGuarantees.CounterCallsFollowVotes` | internal/context/voting/application/operation/add_user_vote_operation.go:67-94 | over every run, that balance for each user and kind; the commits calling for a call are exactly the gains of the stored vote when no commit was stale, and the calls made are at most 1 + erasures + stale commits |
| `ReadBack.WrittenRowReadableIff` | internal/context/voting/infrastructure/persistence/romances_repository.go:49-58 | the row written by a commit that is not stale can be read back exactly when vote time and clock fit int32 and the new version fits uint32 |
| `ReadBack.CommitAnswersErrorIff` | internal/context/voting/infrastructure/persistence/romances_repository.go:275-282 | a committed Add or Change answers with an error, with nothing wrong at the store, exactly when one of those numbers does not fit; otherwise it returns its vote or goes on to the counter call |
| `ReadBack.CallIsDroppedIff` | internal/context/voting/application/operation/add_user_vote_operation.go:79-94 | a commit that is not stale loses the counter call it owes exactly when the answer of its write was lost or one of those numbers does not fit |
| `ReadBack.LateVoteIsStoredButRefused` | internal/context/voting/infrastructure/persistence/romances_repository.go:236-240 | a reachable run with a vote time of 2^31: the vote is stored, its owner is told it failed, and the yes is never counted |
| `ReadBack.CounterCallsAreGains` | internal/context/voting/application/operation/add_user_vote_operation.go:67-94 | in every run whose vote times and clocks fit, without lost answers and with fewer than 2^32 steps, no call is dropped, and with no stale commit calls made plus calls owed equal the gains of the stored vote |
| `ReadBack.UnreadableRowIsStuck` | internal/context/voting/infrastructure/persistence/romances_repository.go:49-58 | until it is removed, an unreadable row is never written again in any run, and every operation of either user that reads it fails; pending writes that reach back over a removal are excluded |
| `VoteGuarantees.RemovalInWindowDefeatsVersionCheck` | internal/context/voting/infrastructure/persistence/romances_repository.go:285-303 | a concrete reachable run: after removal and re-creation a stale change commits, leaving a vote without times and a ttl that ignores the peer's No |
| `VoteOperations.WriteStepMatchesUpdate` | internal/context/voting/infrastructure/persistence/romances_repository.go:254-273 | the repository's update and the protocol's write step leave the same row and lead the client to the same phase |
| `VoteOperations.AnswersAreAtomic` | internal/context/voting/application/operation/add_user_vote_operation.go:46-97 | the meaning of the answer of any Run below: the atomicity statements above, for every interleaving |
| `VoteOperations.VotingSession.GetRomance` | internal/context/voting/application/operation/add_user_vote_operation.go:47-59 | the read and the checks after it are the protocol's read step; the store's error is answered exactly when the call failed |
| `VoteOperations.CallMatchesTransaction` | internal/context/voting/infrastructure/persistence/counters_repository.go:183-272 | the repository's transaction and the counter call of the log leave the same counters table, refused or not |
| `VoteOperations.VotingSession.AddVoteToRomance` | internal/context/voting/application/operation/add_user_vote_operation.go:72-86 | the conditional write is the client's write step: where a conflict, an error, and a stored vote leave the client; a returned vote has the kind and vote time asked for, created between call and return of the operation |
| `VoteOperations.VotingSession.ChangeVoteInRomance` | internal/context/voting/application/operation/change_user_vote_operation.go:78-91 | the same for a change, early refusals included; a returned vote has the kind asked for, updated between call and return of the operation |
| `VoteOperations.VotingSession.DeleteVoteFromRomance` | internal/context/voting/application/operation/delete_user_vote_operation.go:44-53 | the same for a deletion, which makes no write step when the romance read was empty |
| `VoteOperations.VotingSession.IncrCounters` | internal/context/voting/application/operation/add_user_vote_operation.go:88-94 | the last thing logged is the counter call for this vote, applied or not as the store decides, in the hour of the given event time; the counters table is what the log makes of it, and whatever becomes of the call the operation answers with its stored vote |
| `VoteOperations.CountedInPresentHours` | internal/context/voting/application/operation/add_user_vote_operation.go:61-62 | an event whose time lies between two clock readings is counted in an hour between the hours of those readings, in any process zone |
| `VoteOperations.VotingSession.CountVote` | internal/context/voting/application/operation/add_user_vote_operation.go:88-96 | exactly the one call due is made and logged, of the kind and event time given, or none and neither table nor log changes |
| `VoteOperations.VotingSession.AddUserVote` | internal/context/voting/application/operation/add_user_vote_operation.go:37-98 | the retry loop is one client of the protocol and returns that client's answer, after at most four attempts, whatever other clients do between its calls; the vote returned was created, and the event counted, at times and in hours between call and return; a store error is answered only if some read or write failed; romance rows, counter rows and clock remain what the log of all steps makes them |
| `VoteOperations.VotingSession.ChangeUserVote` | internal/context/voting/application/operation/change_user_vote_operation.go:55-95 | the same for the change loop, which counts nothing: the vote returned was updated between call and return |
| `VoteOperations.VotingSession.DeleteUserVote` | internal/context/voting/application/operation/delete_user_vote_operation.go:33-57 | the same for the deletion loop, which stamps nothing |
| `VoteOperations.VotingSession.DeleteRomance` | internal/context/voting/application/operation/delete_romance_operation.go:21-23 | one removal step unless the store refuses, which alone decides the answer together with a lost reply; then the row is gone, and every other row is unchanged in any case |
| `VoteLog.CallIsIssued` | internal/context/voting/application/operation/add_user_vote_operation.go:88-94 | a step makes a counter call exactly when it is recorded as one, for the pair of the row it is made on |
| `VoteLog.CallsAreEventsOrLost` | internal/context/voting/application/operation/add_user_vote_operation.go:88-94 | over every log of steps on any rows, clock advances and expiries: events logged by the counters for a directed pair plus calls for it that were not applied equal the calls made |
| `VoteLog.CallsAreEvents` | internal/context/voting/application/operation/add_user_vote_operation.go:88-94 | when each call is applied, the counters have logged exactly the calls made for each directed pair |
| `VotesAndCounters.LifetimeAndLostCalls` | internal/context/voting/infrastructure/persistence/counters_repository.go:222-255 | for every log, refused calls included: a user's lifetime row plus the calls lost equals, kind by kind and over all their peers, the calls made for votes on the peer, and for the peer's votes on them; so it never counts too much |
| `VotesAndCounters.LifetimeCountsCalls` | internal/context/voting/infrastructure/persistence/counters_repository.go:222-255 | when each call is applied, the lifetime row is exactly those calls |
| `VotesAndCounters.LifetimeCountsStoredVotes` | internal/context/voting/infrastructure/persistence/counters_repository.go:222-255 | and with every number in range, no stale commit and no call outstanding, the sum of the gains of the stored votes |
| `Counters.HourStartIsTheHour` | internal/shared/timeutil/time.go:10-12 | the hour start is the one multiple of an hour within the hour up to the instant |
| `Counters.RelabellingIsHarmlessIff` | internal/shared/timeutil/time.go:10-12 | relabelling local fields as UTC gives the true hour exactly when the zone offset does not carry the instant out of its hour |
| `Counters.NewCounterUpdateGroup` | internal/context/voting/domain/counter/valueobject/counter_update_group.go:13-21 | an update group is refused exactly at the zero time, year 1; otherwise it holds the multiple of an hour at or up to an hour before the local instant |
| `Counters.KeysAreDistinctIff` | internal/context/voting/infrastructure/persistence/counters_repository.go:208-257 | the four keys of a transaction are pairwise distinct exactly when the hour is not 0, the lifetime key |
| `Counters.CountersRepository.IncrCounters` | internal/context/voting/infrastructure/persistence/counters_repository.go:183-272 | all four updates or none, and none when the hour is 0 |
| `Counters.CountersRepository.GetLifetimeCounter` | internal/context/voting/infrastructure/persistence/counters_repository.go:60-88 | the stored lifetime counts, zeros for an absent row; an error exactly when the store refuses or a count exceeds 4294967295 |
| `Counters.PrepareGroups` | internal/context/voting/infrastructure/persistence/counters_repository.go:96-108 | one zero group per offset at that window's first hour, and the largest offset |
| `Counters.AddRows` | internal/context/voting/infrastructure/persistence/counters_repository.go:134-158 | each group becomes the sum, modulo 2^32, of the queried rows in its window; one unreadable row fails the call |
| `Counters.AddToGroups` | internal/context/voting/infrastructure/persistence/counters_repository.go:146-155 | one row is added to exactly the groups whose window it is in |
| `Counters.CountersRepository.GetHourlyCounters` | internal/context/voting/infrastructure/persistence/counters_repository.go:90-159 | for every table and clock, each offset's group is the wrapped sum of the rows at or after both the range filter and its own first hour; the call fails exactly when the store refuses or a queried row has a count over 4294967295 or an hour outside 32 bits |
| `CounterRuns.TransactionAddsShares` | internal/context/voting/infrastructure/persistence/counters_repository.go:208-257 | a transaction adds the event's share to both users' hour and lifetime rows and nothing anywhere else |
| `CounterRuns.StepKeepsInvariants` | internal/context/voting/infrastructure/persistence/counters_repository.go:191-206 | every increment, clock advance and expiry keeps: lifetime rows count the log, hourly rows count it until they may have expired and never too much, rows sit on hour starts with ttl 48 hours on |
| `CounterRuns.RunIndexes` | internal/context/voting/infrastructure/persistence/counters_repository.go:183-272 | those invariants in every run |
| `CounterGuarantees.FilterDropsNothing` | internal/context/voting/infrastructure/persistence/counters_repository.go:110-122 | the filter at the largest offset drops nothing a smaller window needs, and never reaches the lifetime row |
| `CounterGuarantees.WindowsAreFresh` | internal/context/voting/infrastructure/persistence/counters_repository.go:191-192 | no hour of a window of less than 48 hours can have expired, and of a 48-hour window only the oldest |
| `CounterGuarantees.HourlyCountersCountTheLog` | internal/context/voting/infrastructure/persistence/counters_repository.go:99-156 | over every run, the answer for 1 to 47 hours counts exactly the logged votes from the window's first hour on; for 48, all but what the single oldest row has lost |
| `CounterGuarantees.WindowsAreMonotone` | internal/context/voting/infrastructure/persistence/counters_repository.go:146-155 | the log holds no less from an earlier hour on than from a later one, and no more than in all |
| `CounterGuarantees.WindowCountIsBounded` | internal/context/voting/infrastructure/persistence/counters_repository.go:191-192 | what a window counts lies between the log from just after its first hour and the log from its first hour, and never exceeds the lifetime |
| `CounterGuarantees.WindowCountsAreMonotone` | internal/context/voting/infrastructure/persistence/counters_repository.go:146-155 | a longer window never counts less than a shorter one, the 48-hour window included |
| `CounterGuarantees.ReadHourlyCounters` | internal/context/voting/infrastructure/persistence/counters_repository.go:90-159 | the call itself, over the table of any run: for totals up to 4294967295 it succeeds; each window under 48 hours is the count of the log; the 48-hour answer is the oldest row plus the log after it; all answers are monotone in the offset and at most the lifetime |
| `CounterGuarantees.QueryMatchesFewRows` | internal/context/voting/infrastructure/persistence/counters_repository.go:110-122 | in a UTC process the unpaged query matches at most one row per hour of the window, never more than 49 |
| `CounterGuarantees.LifetimeCountersBalance` | internal/context/voting/infrastructure/persistence/counters_repository.go:222-255 | in every run, over all users, lifetime yeses received equal yeses given, and both equal the yeses applied; the same for noes |
| `CounterGuarantees.HourlyRowsAddUpToLifetime` | internal/context/voting/infrastructure/persistence/counters_repository.go:208-257 | a user's hourly rows never add up to more than the lifetime row, and exactly to it while none expired |
| `HoursOffsets.ValidateHoursOffsets` | internal/context/voting/domain/counter/valueobject/hours_offset_groups.go:31-49 | accepted exactly when non-empty, within 1 to 48 and without duplicates; otherwise the error names the first entry that cannot follow those before it |
| `HoursOffsets.Sort` | internal/context/voting/domain/counter/valueobject/hours_offset_groups.go:21 | the copy is sorted in place and keeps its entries |
| `HoursOffsets.SortedDistinctIsStrict` | internal/context/voting/domain/counter/valueobject/hours_offset_groups.go:19-22 | sorting a list without duplicates gives a strictly increasing one |
| `HoursOffsets.HoursOffsetGroups.constructor` | internal/context/voting/domain/counter/valueobject/hours_offset_groups.go:19-22 | the stored list is a fresh array, a strictly increasing permutation of the input |
| `HoursOffsets.HoursOffsetGroups.Values` | internal/context/voting/domain/counter/valueobject/hours_offset_groups.go:25-29 | callers get a fresh copy with the stored values |
| `HoursOffsets.NewHoursOffsetGroups` | internal/context/voting/domain/counter/valueobject/hours_offset_groups.go:13-23 | succeeds exactly on valid lists; neither the input nor any returned list shares memory with the groups |
| `PeerStream.SidesSplitThePeers` | internal/context/voting/infrastructure/persistence/romances_repository.go:196-199 | the table side and the index side of a user are disjoint and together are all users sharing a row with them |
| `PeerStream.SendPage` | internal/context/voting/infrastructure/persistence/romances_repository.go:167-187 | a page is sent in order up to its first undecodable row, which ends the side |
| `PeerStream.QuerySide` | internal/context/voting/infrastructure/persistence/romances_repository.go:123-194 | for any page split: what one side sends and the resume key it leaves; a resume key of the other side sends nothing and stays |
| `PeerStream.GetAllPeersForActiveUser` | internal/context/voting/infrastructure/persistence/romances_repository.go:109-203 | the stream for every table, page split, query failure and shared resume key; paging terminates; the rows below say who is in the stream, without naming how it is computed |
| `PeerStream.TableEntryIsSentIff` | internal/context/voting/infrastructure/persistence/romances_repository.go:123-194 | a peer of the table side is sent exactly when their row and all before it can be decoded and each query up to their page is answered |
| `PeerStream.IndexEntryIsSentIff` | internal/context/voting/infrastructure/persistence/romances_repository.go:123-199 | a peer of the index side is sent exactly when the table side leaves no resume key and each index query up to their page is answered |
| `PeerStream.StreamIsOrdered` | internal/context/voting/infrastructure/persistence/romances_repository.go:196-199 | peers greater than the user come first, then the smaller ones, each ascending |
| `PeerStream.StreamRepeatsNobody` | internal/context/voting/infrastructure/persistence/romances_repository.go:109-203 | whatever fails, nobody is sent twice and nobody who shares no row with the user |
| `PeerStream.StreamIsCompleteIff` | internal/context/voting/infrastructure/persistence/romances_repository.go:115-199 | for every table, page split and failure: everybody is sent exactly when the table side can be decoded and its queries are answered, and the index side is empty or its queries are answered and the first query left no resume key |
| `PeerStream.SecondPageHidesTheIndexSide` | internal/context/voting/infrastructure/persistence/romances_repository.go:189-199 | when the first page of the table side is not its last, nobody of the index side is ever sent |
| `PeerStream.PagingLosesTheIndexSide` | internal/context/voting/infrastructure/persistence/romances_repository.go:115-199 | a table of three rows, one to a page, all queries answered: user 1 shares a row with user 2 and is never sent |
| `PeerStream.FailedQueryLosesTheIndexSide` | internal/context/voting/infrastructure/persistence/romances_repository.go:142-145 | one readable row on the index side, whose query fails: nobody is sent, and no error is reported |
| `PeerStream.UnreadableRowIsNeverNamed` | internal/context/voting/infrastructure/persistence/romances_repository.go:173-180 | a row that cannot be decoded is never named in the stream of its partition key user |
| `GroupDeletion.GroupsAreSlices` | internal/context/voting/application/operation/delete_romances_operation.go:44-54 | group k is the stream's entries from 25k on: 25 of them in all but the last group |
| `GroupDeletion.GroupsFlattenToTheStream` | internal/context/voting/application/operation/delete_romances_operation.go:42-62 | the groups concatenate to the stream, in order |
| `GroupDeletion.DeleteRomances` | internal/context/voting/application/operation/delete_romances_operation.go:34-65 | an error is answered exactly when some publication of a group of the stream fails; what is published is the groups before the first that fails, and that one too if only its acknowledgement was lost |
| `GroupDeletion.DeleteRomancesGroup` | internal/context/voting/infrastructure/persistence/romances_repository.go:305-369 | the write batches and the first error, for every peer list and every answer of the store |
| `GroupDeletion.GroupDeletionExactly` | internal/context/voting/infrastructure/persistence/romances_repository.go:305-369 | when no batch names a peer twice, for every answer of the store: the batches due are those before the first invalid id, writing stops with the first that fails, the error is that failure or the invalid id, and a row is gone exactly when a batch written up to there named it and did not leave it behind |
| `GroupDeletion.GroupDeletesOnlyItsRows` | internal/context/voting/infrastructure/persistence/romances_repository.go:305-369 | whatever is answered, only rows of the user with listed peers can disappear, and nothing else changes |
| `GroupDeletion.GroupSucceedsIff` | internal/context/voting/infrastructure/persistence/romances_repository.go:313-332 | when every write is carried out, the call succeeds exactly on valid ids without repeats inside a batch of 25 |
| `GroupDeletion.DistinctListsHaveDistinctBatches` | internal/context/voting/infrastructure/persistence/romances_repository.go:325-334 | a list without duplicates has none inside a batch |
| `GroupDeletion.GroupDeletesFullBatches` | internal/context/voting/infrastructure/persistence/romances_repository.go:305-369 | with nothing left unprocessed: a valid list deletes exactly its rows; a first invalid id at position n leaves exactly the first 25 * (n / 25) peers deleted and is reported |
| `GroupDeletion.GroupDeletionIsIdempotent` | internal/context/voting/infrastructure/persistence/romances_repository.go:305-369 | deleting a group again succeeds and changes nothing |
| `GroupDeletion.MessageIsOneWrite` | internal/context/voting/infrastructure/persistence/romances_repository.go:348-368 | a published group is one batch write, whose unprocessed items survive a successful call |
| `DeletionPipeline.PublishedGroupsAreWellFormed` | internal/context/voting/application/operation/delete_romances_operation.go:44-62 | every published group has 1 to 25 different valid peers |
| `DeletionPipeline.GroupStep` | internal/context/voting/infrastructure/persistence/romances_repository.go:348-368 | one delivery of a group message deletes at most the rows it names, and all of them when nothing is left unprocessed |
| `DeletionPipeline.GroupAckIsSettlement` | internal/app/message_processor.go:108-114 | a delivery acks its group message exactly when the topic's handler, built from the group deletion, settles it |
| `DeletionPipeline.DeliverGroup` | internal/app/message_processor.go:108-114 | the call itself: the table, the ack and the error of a delivery are those of the group deletion |
| `DeletionPipeline.RequestAckIsSettlement` | internal/app/message_processor.go:108-114 | a delivery acks the delete request exactly when the handler, built from what the operation answered, settles it |
| `DeletionPipeline.DeliverRequest` | internal/context/voting/application/operation/delete_romances_operation.go:34-65 | the call itself: the operation publishes what the step adds to the messages, fails exactly when a publication does, after the groups before the first failing one, and its answer decides the ack |
| `DeletionPipeline.RunInv` | internal/context/voting/application/operation/delete_romances_operation.go:34-65 | every run of requests, deliveries in any order and any number, and other clients' writes, with no row of the user created after the full listing, keeps: messages are well formed, each row of the user is named by a message since the listing, carried messages since then have no rows left |
| `DeletionPipeline.CarriedMeansForgotten` | internal/context/voting/application/operation/delete_romances_operation.go:34-65 | once a request that listed everybody was acked and each message since was carried out in full by some delivery, with no row of the user created since, no row of the user is left and every other row is what the other clients alone would have made it |
| `DeletionPipeline.AckedMeansForgotten` | internal/context/voting/application/operation/delete_romances_operation.go:34-65 | when no delivery leaves rows unprocessed either, acks of the request and of every message are enough for that |
| `DeletionPipeline.ForgottenIff` | internal/context/voting/infrastructure/persistence/romances_repository.go:305-369 | in every run, rows created meanwhile included, the user is forgotten exactly when each of their rows was removed by another client or by a delivered message that named it and did not leave it behind, and was not put back after its last removal |
| `DeletionPipeline.QuietRunForgetsIffReached` | internal/context/voting/infrastructure/persistence/romances_repository.go:305-369 | with no other client at work, exactly when each row is reached by some delivery |
| `DeletionPipeline.QuietRunForgetsIff` | internal/context/voting/infrastructure/persistence/romances_repository.go:115-199 | with no other client at work and nothing left unprocessed, acking everything forgets the user exactly under the condition of StreamIsCompleteIff, failing queries included |
| `DeletionPipeline.AcksDespiteLeftovers` | internal/context/voting/infrastructure/persistence/romances_repository.go:326-334 | whatever the table holds, a run in which request and messages are all acked may leave it as it was, because unprocessed items are ignored |
| `DeletionPipeline.AcksDespitePaging` | internal/context/voting/infrastructure/persistence/romances_repository.go:115-199 | a run with every query answered, every message acked and nothing unprocessed that still holds a row of the user |
| `DeletionPipeline.AcksDespiteFailedQuery` | internal/context/voting/infrastructure/persistence/romances_repository.go:142-145 | a failing index query: the request is acked without a message, and the row of users 1 and 2 is still there |
| `Messaging.TopicHandler.Register` | internal/shared/messaging/handler.go:63-74 | a name can be registered once per topic; a second registration panics and changes nothing |
| `Messaging.TopicHandler.Dispatch` | internal/shared/messaging/handler.go:29-51 | success exactly when the topic has handlers and each that can decode the message handles it; unless one panics all are asked, and the errors are counted |
| `Messaging.SoleHandlerDecides` | internal/shared/messaging/handler.go:29-51 | with one handler, which can decode the message, the dispatch succeeds exactly when it does |
| `Messaging.TopicHandler.SafeProcessMessage` | internal/app/message_processor.go:100-115 | exactly one answer per message: an ack exactly when dispatch succeeds, a nack otherwise, a recovered panic included |

## Left out

- AWS SDK, SNS, SQS, Watermill, JSON envelopes, reflection and MD5 deduplication ids: foreign code; a payload is
  something a handler can or cannot decode, a publication may be refused or lose its acknowledgement.
- REST layer, command and query types, error mapping, logging, configuration loading and CDK stacks: plumbing.
- The text form of uuids and its parsing: ids are 16-byte numbers, and a stored key always parses.
- Goroutines, channels and context cancellation in `GetAllPeersForActiveUser` and `Listen`: the stream is a finite
  sequence, read before it is published, and nobody cancels.
- Expiry of romance rows: the stored value is a duration, so it says nothing about when a row goes; any disappearance
  of a row is a removal in the model.
- The zero-time error of `NewCounterUpdateGroup` inside the Add loop cannot arise: its clock starts after the year 1.
- The vote-duplicate answer of Add and Change is in the model but can never be given, since no vote type may change to
  itself.
- SDK-level retries and eventual consistency of the index: excluded by the assumptions above.
- `sort.Slice` of the Go library: the offsets are sorted in place by an insertion sort with the same contract.
- Hourly rows against stored votes: the votes are tied to the lifetime rows; hourly rows are tied to the log of events.
