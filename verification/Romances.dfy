/**
 Romance rows and the repository over them: what a stored row decodes to, and the three conditional
 updates. A row that DynamoDB accepts can still be unreadable, because vote times are written as
 64-bit numbers and the version as a 64-bit number, but they are read back into 32-bit fields.
 */
module Romances {
  import opened Results
  import opened VoteTypes
  import opened Identity
  import opened Widths

  // One user's four attributes in a row. An absent vote type attribute decodes to Empty.
  datatype Ballot = Ballot(
    kind: VoteType,
    votedAt: Option<int>,
    createdAt: Option<int>,
    updatedAt: Option<int>)

  const NO_BALLOT := Ballot(Empty, None, None, None)

  datatype Row = Row(pk: Ballot, sk: Ballot, version: nat, ttl: int)

  datatype Vote = Vote(id: VoteId, ballot: Ballot)

  datatype Romance = Romance(active: Vote, peer: Vote, version: nat) {
    predicate IsEmpty() {
      active.ballot.kind.Empty? && peer.ballot.kind.Empty?
    }
  }

  datatype Error =
    | WrongVote
    | VoteNotFound
    | VoteDuplicate
    | VersionConflict
    | Malformed
    | StoreError

  // What can go wrong with one store call: refused, or carried out with the answer lost.
  datatype Fault = NoFault | Refused | ReplyLost

  datatype Request =
    | Add(id: VoteId, kind: VoteType, votedAt: int)
    | Change(id: VoteId, kind: VoteType)
    | Delete(id: VoteId)

  // ---------- Reading ----------

  predicate TimeReadable(time: Option<int>) {
    time.Some? ==> FitsInt32(time.value)
  }

  predicate BallotReadable(ballot: Ballot) {
    TimeReadable(ballot.votedAt) && TimeReadable(ballot.createdAt) && TimeReadable(ballot.updatedAt)
  }

  predicate Readable(row: Row) {
    BallotReadable(row.pk) && BallotReadable(row.sk) && row.version < 0x1_0000_0000
  }

  function CreateEmptyRomance(id: VoteId): Romance {
    Romance(Vote(id, NO_BALLOT), Vote(ToPeerVoteId(id), NO_BALLOT), 0)
  }

  // transformRomanceItemToEntity, after the item has been unmarshalled
  function TransformItem(country: Country, active: Uuid, key: RomanceKey, row: Row): Result<Romance, Error> {
    if !Readable(row) then Err(Malformed)
    else
      match NewVoteId(country, active, OtherUser(key, active))
      case Err(_) => Err(Malformed)
      case Ok(id) =>
        if active == key.pk then Ok(Romance(Vote(id, row.pk), Vote(ToPeerVoteId(id), row.sk), row.version))
        else Ok(Romance(Vote(id, row.sk), Vote(ToPeerVoteId(id), row.pk), row.version))
  }

  function View(id: VoteId, row: Option<Row>): Result<Romance, Error> {
    match row
    case None => Ok(CreateEmptyRomance(id))
    case Some(r) => TransformItem(id.country, id.active, KeyOf(id), r)
  }

  // The four attributes of the given user in the row of this key; nothing when there is no row.
  function BallotOf(key: RomanceKey, row: Option<Row>, user: Uuid): Ballot {
    match row
    case None => NO_BALLOT
    case Some(r) => if IsPartitionKey(key, user) then r.pk else r.sk
  }

  function VersionOf(row: Option<Row>): nat {
    match row
    case None => 0
    case Some(r) => r.version
  }

  // A read either fails because the row cannot be decoded, or shows each user's own attributes.
  lemma ViewShowsEachSide(id: VoteId, row: Option<Row>)
    ensures View(id, row).Err? <==> row.Some? && !Readable(row.value)
    ensures View(id, row).Err? ==> View(id, row).error == Malformed
    ensures View(id, row).Ok? ==>
      View(id, row).value == Romance(
        Vote(id, BallotOf(KeyOf(id), row, id.active)),
        Vote(ToPeerVoteId(id), BallotOf(KeyOf(id), row, id.peer)),
        VersionOf(row))
  {
  }

  predicate Int32Number(time: Option<int>) {
    time.Some? ==> -2147483648 <= time.value <= 2147483647
  }

  // A stored row is read exactly when its six times are 32-bit numbers and its version is an unsigned one.
  lemma ReadSucceedsIff(id: VoteId, row: Row)
    ensures View(id, Some(row)).Ok? <==>
      && Int32Number(row.pk.votedAt) && Int32Number(row.pk.createdAt) && Int32Number(row.pk.updatedAt)
      && Int32Number(row.sk.votedAt) && Int32Number(row.sk.createdAt) && Int32Number(row.sk.updatedAt)
      && row.version <= 4294967295
  {
    ViewShowsEachSide(id, Some(row));
  }

  function Swap(romance: Romance): Romance {
    Romance(romance.peer, romance.active, romance.version)
  }

  // Both users see the same romance, each from their own side.
  lemma PeerSeesSwappedRomance(id: VoteId, row: Option<Row>)
    ensures View(id, row).Ok? <==> View(ToPeerVoteId(id), row).Ok?
    ensures View(id, row).Ok? ==> View(ToPeerVoteId(id), row).value == Swap(View(id, row).value)
  {
    ViewShowsEachSide(id, row);
    ViewShowsEachSide(ToPeerVoteId(id), row);

    assert ToPeerVoteId(ToPeerVoteId(id)) == id;
  }

  // ---------- Writing ----------

  // The ConditionExpression of each update, given the version in the caller's snapshot.
  predicate Condition(row: Option<Row>, request: Request, version: nat) {
    if request.Add? && version == 0 then row.None?
    else row.Some? && row.value.version == version
  }

  // The caller's side after the update.
  function WrittenBallot(ballot: Ballot, request: Request, now: int): Ballot {
    match request
    case Add(_, kind, votedAt) => ballot.(kind := kind, votedAt := Some(votedAt), createdAt := Some(now))
    case Change(_, kind) => ballot.(kind := kind, updatedAt := Some(now))
    case Delete(_) => NO_BALLOT
  }

  function RequestedKind(request: Request): VoteType {
    if request.Delete? then Empty else request.kind
  }

  // The row an UpdateItem leaves behind. Version and ttl come from the caller's snapshot.
  function Written(row: Option<Row>, request: Request, snapshot: Romance, now: int): Row {
    var base := if row.Some? then row.value else Row(NO_BALLOT, NO_BALLOT, 0, 0);
    var ttl := TtlSeconds(RequestedKind(request), snapshot.peer.ballot.kind);
    if IsPartitionKey(KeyOf(request.id), request.id.active) then
      Row(WrittenBallot(base.pk, request, now), base.sk, snapshot.version + 1, ttl)
    else
      Row(base.pk, WrittenBallot(base.sk, request, now), snapshot.version + 1, ttl)
  }

  // A write changes the caller's four attributes only, and when it can be read back it is read back unchanged.
  lemma WriteTouchesOneSide(row: Option<Row>, request: Request, snapshot: Romance, now: int)
    ensures var key, after := KeyOf(request.id), Some(Written(row, request, snapshot, now));
      && BallotOf(key, after, request.id.peer) == BallotOf(key, row, request.id.peer)
      && BallotOf(key, after, request.id.active) ==
         WrittenBallot(BallotOf(key, row, request.id.active), request, now)
      && (View(request.id, after).Ok? ==>
            View(request.id, after).value.active ==
            Vote(request.id, WrittenBallot(BallotOf(key, row, request.id.active), request, now)))
  {
    ViewShowsEachSide(request.id, Some(Written(row, request, snapshot, now)));
  }

  // ---------- The repository ----------

  function Lookup(rows: map<RomanceKey, Row>, key: RomanceKey): Option<Row> {
    if key in rows then Some(rows[key]) else None
  }

  // The table after one UpdateItem: only the addressed row can differ.
  function Updated(rows: map<RomanceKey, Row>, request: Request, snapshot: Romance, now: int, fault: Fault)
    : (after: map<RomanceKey, Row>)
    ensures forall key :: key != KeyOf(request.id) ==> Lookup(after, key) == Lookup(rows, key)
  {
    var key := KeyOf(request.id);
    if !fault.Refused? && Condition(Lookup(rows, key), request, snapshot.version) then
      rows[key := Written(Lookup(rows, key), request, snapshot, now)]
    else rows
  }

  // What UpdateItem reports: a failed condition is a version conflict, unless the answer never arrived.
  function UpdateError(rows: map<RomanceKey, Row>, request: Request, snapshot: Romance, fault: Fault): Option<Error> {
    if !fault.NoFault? then Some(StoreError)
    else if !Condition(Lookup(rows, KeyOf(request.id)), request, snapshot.version) then Some(VersionConflict)
    else None
  }

  class RomancesRepository {
    var rows: map<RomanceKey, Row>

    constructor ()
      ensures rows == map[]
    {
      rows := map[];
    }

    method GetRomance(id: VoteId, fault: Fault) returns (r: Result<Romance, Error>)
      ensures r == if fault.NoFault? then View(id, Lookup(rows, KeyOf(id))) else Err(StoreError)
    {
      if !fault.NoFault? {
        return Err(StoreError);
      }
      if KeyOf(id) !in rows {
        return Ok(CreateEmptyRomance(id));
      }
      r := TransformItem(id.country, id.active, KeyOf(id), rows[KeyOf(id)]);
    }

    // DynamoDB's UpdateItem: check the condition and write, in one step.
    method UpdateItem(request: Request, snapshot: Romance, now: int, fault: Fault) returns (error: Option<Error>)
      modifies this
      ensures rows == Updated(old(rows), request, snapshot, now, fault)
      ensures error == UpdateError(old(rows), request, snapshot, fault)
    {
      var key := KeyOf(request.id);
      var row := Lookup(rows, key);
      var holds := Condition(row, request, snapshot.version);
      if holds && !fault.Refused? {
        rows := rows[key := Written(row, request, snapshot, now)];
      }
      error := if !fault.NoFault? then Some(StoreError) else if holds then None else Some(VersionConflict);
    }

    method AddActiveUserVoteToRomance(romance: Romance, kind: VoteType, votedAt: int, now: int, fault: Fault)
      returns (r: Result<Romance, Error>)
      modifies this
      ensures var request := Add(romance.active.id, kind, votedAt);
        && rows == Updated(old(rows), request, romance, now, fault)
        && var error := UpdateError(old(rows), request, romance, fault);
        r == if error.Some? then Err(error.value) else View(request.id, Lookup(rows, KeyOf(request.id)))
      ensures rows != old(rows) ==>
        && KeyOf(romance.active.id) in rows
        && RetainsFor(kind, romance.peer.ballot.kind, rows[KeyOf(romance.active.id)].ttl)
    {
      TtlSecondsByKinds(kind, romance.peer.ballot.kind);
      var id := romance.active.id;
      var error := UpdateItem(Add(id, kind, votedAt), romance, now, fault);
      if error.Some? {
        return Err(error.value);
      }
      r := TransformItem(id.country, id.active, KeyOf(id), rows[KeyOf(id)]);
    }

    method ChangeActiveUserVoteTypeInRomance(romance: Romance, kind: VoteType, now: int, fault: Fault)
      returns (r: Result<Romance, Error>)
      modifies this
      ensures romance.active.ballot.kind.Empty? ==> r == Err(VoteNotFound) && rows == old(rows)
      ensures !romance.active.ballot.kind.Empty? && kind.Empty? ==> r == Err(WrongVote) && rows == old(rows)
      ensures !romance.active.ballot.kind.Empty? && !kind.Empty? ==>
        var request := Change(romance.active.id, kind);
        && rows == Updated(old(rows), request, romance, now, fault)
        && var error := UpdateError(old(rows), request, romance, fault);
        r == if error.Some? then Err(error.value) else View(request.id, Lookup(rows, KeyOf(request.id)))
      ensures rows != old(rows) ==>
        && KeyOf(romance.active.id) in rows
        && RetainsFor(kind, romance.peer.ballot.kind, rows[KeyOf(romance.active.id)].ttl)
    {
      TtlSecondsByKinds(kind, romance.peer.ballot.kind);
      if romance.active.ballot.kind.IsEmpty() {
        return Err(VoteNotFound);
      }
      if kind.IsEmpty() {
        return Err(WrongVote);
      }
      var id := romance.active.id;
      var error := UpdateItem(Change(id, kind), romance, now, fault);
      if error.Some? {
        return Err(error.value);
      }
      r := TransformItem(id.country, id.active, KeyOf(id), rows[KeyOf(id)]);
    }

    method DeleteActiveUserVoteFromRomance(romance: Romance, fault: Fault) returns (error: Option<Error>)
      modifies this
      ensures romance.IsEmpty() ==> error == None && rows == old(rows)
      ensures !romance.IsEmpty() ==>
        && rows == Updated(old(rows), Delete(romance.active.id), romance, 0, fault)
        && error == UpdateError(old(rows), Delete(romance.active.id), romance, fault)
      ensures rows != old(rows) ==>
        && KeyOf(romance.active.id) in rows
        && RetainsFor(Empty, romance.peer.ballot.kind, rows[KeyOf(romance.active.id)].ttl)
    {
      TtlSecondsByKinds(Empty, romance.peer.ballot.kind);
      if romance.IsEmpty() {
        return None;
      }
      error := UpdateItem(Delete(romance.active.id), romance, 0, fault);
    }

    method DeleteRomance(id: VoteId, fault: Fault) returns (error: Option<Error>)
      modifies this
      ensures rows == if fault.Refused? then old(rows) else old(rows) - {KeyOf(id)}
      ensures error == if fault.NoFault? then None else Some(StoreError)
    {
      if !fault.Refused? {
        rows := rows - {KeyOf(id)};
      }
      error := if fault.NoFault? then None else Some(StoreError);
    }
  }
}
