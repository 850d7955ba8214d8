/**
 Forgetting a user, end to end: a delete request and the group messages it publishes, each delivered at
 least once, in any order, and redelivered at will, while other clients go on using the table.
 */
module DeletionPipeline {
  import opened Results
  import opened Identity
  import opened Romances
  import opened PeerStream
  import opened GroupDeletion
  import Messaging

  // requestAcked and acked say what the queue has had acks for: the request, and which messages. carried are the
  // messages for which some acked delivery deleted every row named; listed is the number of messages published
  // before the first acked request that streamed every peer.
  datatype State = State(
    userKey: ActiveUserKey,
    rows: Rows,
    messages: seq<seq<Uuid>>,
    requestAcked: bool,
    acked: set<nat>,
    listed: Option<nat>,
    carried: set<nat>)

  // A request that fails may still have published some of its groups. Outside is another client's write or
  // removal of any row.
  datatype Step =
    | Request(replies: Replies, failedAfter: Option<nat>)
    | Group(message: nat, reply: BatchReply)
    | Outside(key: RomanceKey, row: Option<Row>)

  function Init(userKey: ActiveUserKey, rows: Rows): State {
    State(userKey, rows, [], false, {}, None, {})
  }

  function Put(rows: Rows, key: RomanceKey, row: Option<Row>): (after: Rows)
    ensures forall k: RomanceKey :: Lookup(after, k) == if k == key then row else Lookup(rows, k)
  {
    if row.Some? then rows[key := row.value] else rows - {key}
  }

  function ListedAfter(s: State, replies: Replies): Option<nat> {
    if s.listed.None? && NamesEverybody(s.rows, s.userKey.user, replies) then Some(|s.messages|) else s.listed
  }

  function Next(s: State, step: Step): State {
    match step
    case Request(replies, failedAfter) =>
      var groups := Chunks(Stream(s.rows, s.userKey, replies));
      if failedAfter.None? then s.(
        messages := s.messages + groups, requestAcked := true, listed := ListedAfter(s, replies))
      else if failedAfter.value <= |groups| then s.(messages := s.messages + groups[..failedAfter.value])
      else s
    case Group(i, reply) =>
      if i >= |s.messages| then s
      else
        var (rows, error) := DeleteGroup(s.rows, s.userKey, s.messages[i], b => reply, 0);
        if error.Some? then s.(rows := rows)
        else s.(
          rows := rows, acked := s.acked + {i},
          carried := if reply == Carried({}) then s.carried + {i} else s.carried)
    case Outside(key, row) => s.(rows := Put(s.rows, key, row))
  }

  function Run(s: State, steps: seq<Step>): State {
    if steps == [] then s else Next(Run(s, steps[..|steps| - 1]), steps[|steps| - 1])
  }

  // ---------- Acks are the message processor's ----------

  // The handler of the group topic, as it acts on the present table: the message decodes or it does not, and
  // handling it is deleting its group.
  function GroupHandler(
      rows: Rows, decode: Messaging.Payload -> Option<GroupMessage>, reply: BatchReply): Messaging.Handler
  {
    Messaging.Handler(
      "delete_romances_group_handler",
      payload => decode(payload).Some?,
      payload =>
        match decode(payload)
        case None => Messaging.Rejected
        case Some(message) =>
          if DeleteGroup(rows, message.userKey, message.peers, b => reply, 0).1.None? then Messaging.Handled
          else Messaging.Rejected)
  }

  // A message is acked by a delivery, if it was not before, exactly when the topic's handlers settle it.
  lemma GroupAckIsSettlement(
      s: State, i: nat, reply: BatchReply, decode: Messaging.Payload -> Option<GroupMessage>,
      payload: Messaging.Payload)
    requires i < |s.messages|
    requires decode(payload) == Some(GroupMessage(s.userKey, s.messages[i]))
    ensures var h := GroupHandler(s.rows, decode, reply);
      i in Next(s, Group(i, reply)).acked <==> i in s.acked || Messaging.Settles(map[h.name := h], payload)
  {
    hide DeleteGroup;
    Messaging.SoleHandlerDecides(GroupHandler(s.rows, decode, reply), payload);
  }

  // One delivery of a group message: the table is what the step makes it, and the message is acked, if it was not
  // before, exactly when the topic's handlers settle it.
  method DeliverGroup(
      repository: RomancesRepository, ghost s: State, ghost i: nat, reply: BatchReply,
      decode: Messaging.Payload -> Option<GroupMessage>, payload: Messaging.Payload)
    returns (error: Option<GroupFailure>)
    requires i < |s.messages| && repository.rows == s.rows
    requires decode(payload) == Some(GroupMessage(s.userKey, s.messages[i]))
    modifies repository
    ensures var s', h := Next(s, Group(i, reply)), GroupHandler(old(repository.rows), decode, reply);
      && repository.rows == s'.rows
      && (i in s'.acked <==> i in s.acked || Messaging.Settles(map[h.name := h], payload))
      && (error.None? <==> Messaging.Settles(map[h.name := h], payload))
  {
    hide DeleteGroup;
    GroupAckIsSettlement(s, i, reply, decode, payload);
    Messaging.SoleHandlerDecides(GroupHandler(repository.rows, decode, reply), payload);
    var message := decode(payload).value;
    error := DeleteRomancesGroup(repository, message.userKey, message.peers, b => reply);
  }

  // The handler of the request topic, given what the operation answered.
  function RequestHandler(
      decode: Messaging.Payload -> Option<ActiveUserKey>, error: Option<Error>): Messaging.Handler
  {
    Messaging.Handler(
      "delete_romances_handler",
      payload => decode(payload).Some?,
      payload => if decode(payload).Some? && error.None? then Messaging.Handled else Messaging.Rejected)
  }

  // The outcome of a run of the operation, as the step records it.
  ghost function FailedAfter(error: Option<Error>, sent: nat): Option<nat> {
    if error.None? then None else Some(sent)
  }

  lemma RequestAckIsSettlement(
      s: State, replies: Replies, error: Option<Error>, sent: nat,
      decode: Messaging.Payload -> Option<ActiveUserKey>, payload: Messaging.Payload)
    requires decode(payload) == Some(s.userKey)
    ensures var h := RequestHandler(decode, error);
      Next(s, Request(replies, FailedAfter(error, sent))).requestAcked <==>
      s.requestAcked || Messaging.Settles(map[h.name := h], payload)
  {
    hide Stream, Chunks, NamesEverybody;
    Messaging.SoleHandlerDecides(RequestHandler(decode, error), payload);
  }

  // One delivery of the request: the operation publishes what the step says, and the request is acked, if it was
  // not before, exactly when the handler settles it, which is when every publication is accepted.
  method DeliverRequest(
      repository: RomancesRepository, publisher: Publisher, replies: Replies, faults: nat -> Fault, ghost s: State,
      decode: Messaging.Payload -> Option<ActiveUserKey>, payload: Messaging.Payload)
    returns (error: Option<Error>, ghost sent: nat)
    requires repository.rows == s.rows && publisher.published == Messages(s.userKey, s.messages)
    requires decode(payload) == Some(s.userKey)
    modifies publisher
    ensures var s', h := Next(s, Request(replies, FailedAfter(error, sent))), RequestHandler(decode, error);
      var groups := Chunks(Stream(s.rows, s.userKey, replies));
      && publisher.published == Messages(s.userKey, s'.messages)
      && repository.rows == s'.rows
      && (s'.requestAcked <==> s.requestAcked || Messaging.Settles(map[h.name := h], payload))
      && (error.None? <==> forall k :: 0 <= k < |groups| ==> faults(k).NoFault?)
      && (error.Some? ==>
            exists k :: 0 <= k < |groups| && !faults(k).NoFault?
              && (forall j :: 0 <= j < k ==> faults(j).NoFault?)
              && sent == k + if faults(k).Refused? then 0 else 1)
  {
    hide Stream, Chunks, Messages, NamesEverybody;
    var userKey := decode(payload).value;
    error, sent := DeleteRomances(repository, publisher, userKey, replies, faults);
    RequestAckIsSettlement(s, replies, error, sent, decode, payload);
    ghost var groups := Chunks(Stream(repository.rows, userKey, replies));
    MessagesTake(userKey, groups, sent);
    MessagesJoin(userKey, s.messages, groups[..sent]);
    assert error.None? ==> groups[..sent] == groups;
  }

  // ---------- What every run keeps ----------

  predicate WellFormed(userKey: ActiveUserKey, message: seq<Uuid>) {
    0 < |message| <= 25 && AllValid(userKey, message) && NoRepeats(message)
  }

  // What every run keeps, whatever the other clients do.
  ghost predicate Sound(s: State) {
    && (forall i :: 0 <= i < |s.messages| ==> WellFormed(s.userKey, s.messages[i]))
    && (forall i :: i in s.carried ==> i < |s.messages|)
  }

  // Some message from the given one on names the row.
  ghost predicate Named(s: State, from: nat, key: RomanceKey) {
    exists i :: from <= i < |s.messages| && OtherUser(key, s.userKey.user) in s.messages[i]
  }

  // What holds from a full listing on, while no row of the user is created: each of the user's rows is named by a
  // message published since, and carried messages published since have no rows left.
  ghost predicate Inv(s: State) {
    && Sound(s)
    && (s.listed.Some? ==>
          && s.listed.value <= |s.messages|
          && (forall key :: key in s.rows && Contains(key, s.userKey.user) ==> Named(s, s.listed.value, key))
          && (forall i :: i in s.carried && i >= s.listed.value ==>
                forall key :: key in KeySet(s.userKey.user, s.messages[i]) ==> key !in s.rows))
  }

  lemma InvIsSound(s: State)
    requires Inv(s)
    ensures Sound(s)
  {
  }

  lemma PublishedGroupsAreWellFormed(rows: Rows, userKey: ActiveUserKey, replies: Replies, k: nat)
    requires k < |Chunks(Stream(rows, userKey, replies))|
    ensures WellFormed(userKey, Chunks(Stream(rows, userKey, replies))[k])
  {
    hide Stream, Chunks, Peers;
    var stream := Stream(rows, userKey, replies);
    StreamRepeatsNobody(rows, userKey, replies);
    GroupsAreSlices(stream, k);
    var group := Chunks(stream)[k];
    assert forall i :: 0 <= i < |group| ==> group[i] == stream[25 * k + i];
    forall i | 0 <= i < |group|
      ensures ValidPeer(userKey, group[i])
    {
      PeersAreValid(rows, userKey, stream[25 * k + i]);
    }
  }

  lemma PeersAreValid(rows: Rows, userKey: ActiveUserKey, peer: Uuid)
    requires peer in Peers(rows, userKey.user)
    ensures ValidPeer(userKey, peer)
  {
  }

  lemma {:induction false} InSomeGroup(s: seq<Uuid>, peer: Uuid) returns (k: nat)
    requires peer in s
    ensures k < |Chunks(s)| && peer in Chunks(s)[k]
  {
    if |s| <= 25 {
      k := 0;
    } else if peer in s[..25] {
      k := 0;
    } else {
      assert s == s[..25] + s[25..];
      k := InSomeGroup(s[25..], peer);
      k := k + 1;
    }
  }

  lemma StepIsSound(s: State, step: Step)
    requires Sound(s)
    ensures Sound(Next(s, step)) && Next(s, step).userKey == s.userKey && |s.messages| <= |Next(s, step).messages|
    ensures forall i :: 0 <= i < |s.messages| ==> Next(s, step).messages[i] == s.messages[i]
  {
    hide Stream, Chunks, WellFormed, DeleteGroup, NamesEverybody;
    var s' := Next(s, step);
    forall i | 0 <= i < |s'.messages|
      ensures WellFormed(s'.userKey, s'.messages[i])
    {
      if i >= |s.messages| {
        PublishedGroupsAreWellFormed(s.rows, s.userKey, step.replies, i - |s.messages|);
      }
    }
  }

  lemma {:induction false} RunIsSound(s: State, steps: seq<Step>)
    requires Sound(s)
    ensures Sound(Run(s, steps)) && Run(s, steps).userKey == s.userKey
  {
    hide Sound, Next;
    if steps != [] {
      RunIsSound(s, steps[..|steps| - 1]);
      StepIsSound(Run(s, steps[..|steps| - 1]), steps[|steps| - 1]);
    }
  }

  lemma RequestInv(s: State, replies: Replies, failedAfter: Option<nat>)
    requires Inv(s)
    ensures Inv(Next(s, Request(replies, failedAfter)))
  {
    hide Stream, Chunks, WellFormed, KeySet, Peers, NamesEverybody;
    var s' := Next(s, Request(replies, failedAfter));
    StepIsSound(s, Request(replies, failedAfter));
    forall key | s'.listed.Some? && key in s'.rows && Contains(key, s'.userKey.user)
      ensures Named(s', s'.listed.value, key)
    {
      if s.listed.Some? {
        var i :| s.listed.value <= i < |s.messages| && OtherUser(key, s.userKey.user) in s.messages[i];
        assert s'.messages[i] == s.messages[i];
      } else {
        RequestNames(s, replies, key);
      }
    }
  }

  lemma RequestNames(s: State, replies: Replies, key: RomanceKey)
    requires NamesEverybody(s.rows, s.userKey.user, replies)
    requires key in s.rows && Contains(key, s.userKey.user)
    ensures Named(Next(s, Request(replies, None)), |s.messages|, key)
  {
    hide Stream, Chunks, NamesEverybody;
    StreamIsCompleteIff(s.rows, s.userKey, replies);
    var peer := OtherUser(key, s.userKey.user);
    assert peer in Peers(s.rows, s.userKey.user);
    var k := InSomeGroup(Stream(s.rows, s.userKey, replies), peer);
    assert Next(s, Request(replies, None)).messages[|s.messages| + k] ==
      Chunks(Stream(s.rows, s.userKey, replies))[k];
  }

  // The table loses rows of the user only, and only ones named in the message.
  lemma GroupStep(s: State, i: nat, reply: BatchReply)
    requires Sound(s) && i < |s.messages|
    ensures var s', keys := Next(s, Group(i, reply)), KeySet(s.userKey.user, s.messages[i]);
      && (forall key: RomanceKey :: key !in keys ==> Lookup(s'.rows, key) == Lookup(s.rows, key))
      && (forall key :: key in s'.rows ==> key in s.rows)
      && (reply == Carried({}) ==>
            s'.carried == s.carried + {i} && forall key :: key in keys ==> key !in s'.rows)
      && (reply != Carried({}) ==> s'.carried == s.carried)
      && s'.messages == s.messages && s'.listed == s.listed && s'.userKey == s.userKey
  {
    hide KeySet, DeleteGroup, NoRepeats, AllValid;
    MessageIsOneWrite(s.rows, s.userKey, s.messages[i], b => reply);
  }

  lemma GroupInv(s: State, i: nat, reply: BatchReply)
    requires Inv(s)
    ensures Inv(Next(s, Group(i, reply)))
  {
    hide KeySet, DeleteGroup, WellFormed;
    if i < |s.messages| {
      GroupStep(s, i, reply);
      assert forall from, key :: Named(s, from, key) ==> Named(Next(s, Group(i, reply)), from, key);
    }
  }

  // Another client makes a row of the user that was not there.
  predicate Creates(s: State, step: Step) {
    step.Outside? && step.row.Some? && Contains(step.key, s.userKey.user) && step.key !in s.rows
  }

  lemma OutsideInv(s: State, key: RomanceKey, row: Option<Row>)
    requires Inv(s) && (s.listed.Some? ==> !Creates(s, Outside(key, row)))
    ensures Inv(Next(s, Outside(key, row)))
  {
    hide KeySet, WellFormed;
    var s' := Next(s, Outside(key, row));
    if s.listed.Some? {
      assert forall k :: Contains(k, s.userKey.user) && k in s'.rows ==> k in s.rows;
    }
    assert forall from, k :: Named(s, from, k) ==> Named(s', from, k);
    KeySetsHoldOnlyTheUsersRows(s.userKey.user);
  }

  lemma KeySetsHoldOnlyTheUsersRows(user: Uuid)
    ensures forall key, peers :: key in KeySet(user, peers) ==> Contains(key, user)
  {
  }

  lemma InitInv(userKey: ActiveUserKey, rows: Rows)
    ensures Inv(Init(userKey, rows)) && Sound(Init(userKey, rows))
  {
  }

  // No row of the user is created once a request has listed them all.
  ghost predicate NoneAddedAfterListing(s: State, steps: seq<Step>) {
    forall j :: 0 <= j < |steps| && Run(s, steps[..j]).listed.Some? ==> !Creates(Run(s, steps[..j]), steps[j])
  }

  lemma NoneAddedBefore(s: State, steps: seq<Step>, n: nat)
    requires n <= |steps| && NoneAddedAfterListing(s, steps)
    ensures NoneAddedAfterListing(s, steps[..n])
  {
    hide Run, Creates;
    assert forall j :: 0 <= j < n ==> steps[..n][..j] == steps[..j];
  }

  lemma StepInv(s: State, step: Step)
    requires Inv(s) && (s.listed.Some? ==> !Creates(s, step))
    ensures Inv(Next(s, step))
  {
    hide Inv, Next, Creates;
    match step
    case Request(replies, failedAfter) => RequestInv(s, replies, failedAfter);
    case Group(i, reply) => GroupInv(s, i, reply);
    case Outside(key, row) => OutsideInv(s, key, row);
  }

  lemma {:induction false} RunInv(s: State, steps: seq<Step>)
    requires Inv(s) && NoneAddedAfterListing(s, steps)
    ensures Inv(Run(s, steps)) && Run(s, steps).userKey == s.userKey
  {
    hide Inv, Sound, Next, Creates;
    if steps != [] {
      var n := |steps| - 1;
      NoneAddedBefore(s, steps, n);
      RunInv(s, steps[..n]);
      StepInv(Run(s, steps[..n]), steps[n]);
    }
    InvIsSound(s);
    RunIsSound(s, steps);
  }

  // ---------- Forgetting a user ----------

  ghost predicate Forgotten(s: State) {
    forall key :: key in s.rows ==> !Contains(key, s.userKey.user)
  }

  predicate AllAcked(s: State) {
    forall i :: 0 <= i < |s.messages| ==> i in s.acked
  }

  // No delivery left rows unprocessed.
  ghost predicate NothingUnprocessed(steps: seq<Step>) {
    forall i :: 0 <= i < |steps| && steps[i].Group? && steps[i].reply.Carried? ==> steps[i].reply == Carried({})
  }

  lemma {:induction false} AckedAreCarried(s: State, steps: seq<Step>)
    requires NothingUnprocessed(steps) && Sound(s) && s.acked <= s.carried
    ensures Run(s, steps).acked <= Run(s, steps).carried
  {
    hide Sound, DeleteGroup, KeySet, Stream, NamesEverybody;
    if steps != [] {
      var fewer, step := steps[..|steps| - 1], steps[|steps| - 1];
      AckedAreCarried(s, fewer);
      RunIsSound(s, fewer);
      var before := Run(s, fewer);
      if step.Group? && step.message < |before.messages| {
        AckOnlyWhenCarried(before, step.message, step.reply);
        assert steps[|steps| - 1].reply.Carried? ==> step.reply == Carried({});
      }
    }
  }

  lemma AckOnlyWhenCarried(s: State, i: nat, reply: BatchReply)
    requires Sound(s) && i < |s.messages|
    ensures var s' := Next(s, Group(i, reply));
      && s'.acked == (if reply.Carried? then s.acked + {i} else s.acked)
      && s'.messages == s.messages && s'.requestAcked == s.requestAcked
  {
    hide KeySet, DeleteGroup, NoRepeats, AllValid;
    MessageIsOneWrite(s.rows, s.userKey, s.messages[i], b => reply);
  }

  // What the other clients alone would have made of the table.
  function OutsideOnly(rows: Rows, user: Uuid, steps: seq<Step>): Rows {
    if steps == [] then rows
    else
      var before, step := OutsideOnly(rows, user, steps[..|steps| - 1]), steps[|steps| - 1];
      if step.Outside? then Put(before, step.key, step.row) else before
  }

  lemma {:induction false} OthersAreUntouched(s: State, steps: seq<Step>, key: RomanceKey)
    requires Sound(s) && !Contains(key, s.userKey.user)
    ensures Lookup(Run(s, steps).rows, key) == Lookup(OutsideOnly(s.rows, s.userKey.user, steps), key)
  {
    hide Sound, DeleteGroup, KeySet, Stream, NamesEverybody;
    if steps != [] {
      var fewer, step := steps[..|steps| - 1], steps[|steps| - 1];
      OthersAreUntouched(s, fewer, key);
      RunIsSound(s, fewer);
      var before := Run(s, fewer);
      if step.Group? && step.message < |before.messages| {
        GroupStep(before, step.message, step.reply);
        KeySetsHoldOnlyTheUsersRows(s.userKey.user);
      }
    }
  }

  // Once a request that named everybody was acked and every message published since was carried out in full by
  // some delivery, with no row of the user created since, no row of the user is left, and every other row is what
  // the other clients alone would have made it.
  lemma CarriedMeansForgotten(userKey: ActiveUserKey, rows: Rows, steps: seq<Step>)
    requires var s := Run(Init(userKey, rows), steps);
      s.listed.Some? && forall i :: s.listed.value <= i < |s.messages| ==> i in s.carried
    requires NoneAddedAfterListing(Init(userKey, rows), steps)
    ensures Forgotten(Run(Init(userKey, rows), steps))
    ensures forall key: RomanceKey :: !Contains(key, userKey.user) ==>
      Lookup(Run(Init(userKey, rows), steps).rows, key) == Lookup(OutsideOnly(rows, userKey.user, steps), key)
  {
    hide Run, KeySet, WellFormed, OutsideOnly, NoneAddedAfterListing;
    var s := Run(Init(userKey, rows), steps);
    InitInv(userKey, rows);
    RunInv(Init(userKey, rows), steps);
    forall key: RomanceKey | !Contains(key, userKey.user)
      ensures Lookup(s.rows, key) == Lookup(OutsideOnly(rows, userKey.user, steps), key)
    {
      OthersAreUntouched(Init(userKey, rows), steps, key);
    }
    forall key | key in s.rows
      ensures !Contains(key, userKey.user)
    {
      if Contains(key, userKey.user) {
        assert Named(s, s.listed.value, key);
        var i :| s.listed.value <= i < |s.messages| && OtherUser(key, userKey.user) in s.messages[i];
        assert i in s.carried;
        NamedInMessage(userKey.user, s.messages[i], key);
        assert false;
      }
    }
  }

  // When no delivery leaves rows unprocessed, acks are enough.
  lemma AckedMeansForgotten(userKey: ActiveUserKey, rows: Rows, steps: seq<Step>)
    requires var s := Run(Init(userKey, rows), steps); s.listed.Some? && AllAcked(s)
    requires NothingUnprocessed(steps) && NoneAddedAfterListing(Init(userKey, rows), steps)
    ensures Forgotten(Run(Init(userKey, rows), steps))
    ensures forall key: RomanceKey :: !Contains(key, userKey.user) ==>
      Lookup(Run(Init(userKey, rows), steps).rows, key) == Lookup(OutsideOnly(rows, userKey.user, steps), key)
  {
    hide Run, KeySet, WellFormed, OutsideOnly, NothingUnprocessed, NoneAddedAfterListing;
    InitInv(userKey, rows);
    AckedAreCarried(Init(userKey, rows), steps);
    CarriedMeansForgotten(userKey, rows, steps);
  }

  lemma NamedInMessage(user: Uuid, peers: seq<Uuid>, key: RomanceKey)
    requires Contains(key, user) && OtherUser(key, user) in peers
    ensures key in KeySet(user, peers)
  {
  }

  // ---------- Exactly when a run forgets ----------

  predicate Removes(s: State, step: Step, key: RomanceKey) {
    match step
    case Request(_, _) => false
    case Group(i, reply) => i < |s.messages| && key in KeySet(s.userKey.user, s.messages[i]) && Takes(reply, key)
    case Outside(k, row) => k == key && row.None?
  }

  predicate PutsBack(step: Step, key: RomanceKey) {
    step.Outside? && step.key == key && step.row.Some?
  }

  lemma StepDecides(s: State, step: Step, key: RomanceKey)
    requires Sound(s) && Contains(key, s.userKey.user)
    ensures key in Next(s, step).rows <==> PutsBack(step, key) || (key in s.rows && !Removes(s, step, key))
  {
    hide KeySet, DeleteGroup, NoRepeats, AllValid, Stream, Chunks, NamesEverybody;
    if step.Group? && step.message < |s.messages| {
      MessageIsOneWrite(s.rows, s.userKey, s.messages[step.message], b => step.reply);
    }
  }

  ghost predicate NotPutFrom(steps: seq<Step>, from: nat, key: RomanceKey) {
    forall i :: from <= i < |steps| ==> !PutsBack(steps[i], key)
  }

  ghost predicate RemovedAt(s: State, steps: seq<Step>, j: nat, key: RomanceKey)
    requires j < |steps|
  {
    Removes(Run(s, steps[..j]), steps[j], key)
  }

  // Some step removed the row and none put it back after that, or it was never there.
  ghost predicate GoneForGood(s: State, steps: seq<Step>, key: RomanceKey) {
    || (exists j :: 0 <= j < |steps| && RemovedAt(s, steps, j, key) && NotPutFrom(steps, j + 1, key))
    || (key !in s.rows && NotPutFrom(steps, 0, key))
  }

  lemma GoneForGoodStep(s: State, steps: seq<Step>, key: RomanceKey)
    requires steps != []
    ensures var n := |steps| - 1;
      GoneForGood(s, steps, key) <==>
      RemovedAt(s, steps, n, key) || (!PutsBack(steps[n], key) && GoneForGood(s, steps[..n], key))
  {
    hide Run, Removes, PutsBack;
    var n := |steps| - 1;
    var fewer := steps[..n];
    assert forall j :: 0 <= j < n ==> fewer[..j] == steps[..j];
    assert forall from: nat :: from <= n ==>
      (NotPutFrom(steps, from, key) <==> NotPutFrom(fewer, from, key) && !PutsBack(steps[n], key));
    assert NotPutFrom(steps, n + 1, key);
    if GoneForGood(s, fewer, key) && !PutsBack(steps[n], key) {
      if j :| 0 <= j < n && RemovedAt(s, fewer, j, key) && NotPutFrom(fewer, j + 1, key) {
        assert RemovedAt(s, steps, j, key);
      }
    }
    if j :| 0 <= j < n && RemovedAt(s, steps, j, key) && NotPutFrom(steps, j + 1, key) {
      assert RemovedAt(s, fewer, j, key) && NotPutFrom(fewer, j + 1, key);
    }
  }

  lemma {:induction false} AwayIff(s: State, steps: seq<Step>, key: RomanceKey)
    requires Sound(s) && Contains(key, s.userKey.user)
    ensures key !in Run(s, steps).rows <==> GoneForGood(s, steps, key)
  {
    hide Sound, Next, Removes, PutsBack;
    if steps != [] {
      hide GoneForGood;
      var n := |steps| - 1;
      AwayIff(s, steps[..n], key);
      RunIsSound(s, steps[..n]);
      StepDecides(Run(s, steps[..n]), steps[n], key);
      RemovesPutsNothing(Run(s, steps[..n]), steps[n], key);
      GoneForGoodStep(s, steps, key);
    }
  }

  lemma RemovesPutsNothing(s: State, step: Step, key: RomanceKey)
    ensures Removes(s, step, key) ==> !PutsBack(step, key)
  {
  }

  // In every run, acked or not: the user is forgotten exactly when each of their rows was removed by another
  // client, or by a delivered message that named it and whose write did not leave it behind, and was not put back
  // after its last removal.
  lemma ForgottenIff(userKey: ActiveUserKey, rows: Rows, steps: seq<Step>)
    ensures Forgotten(Run(Init(userKey, rows), steps)) <==>
      forall key: RomanceKey :: Contains(key, userKey.user) ==> GoneForGood(Init(userKey, rows), steps, key)
  {
    hide Run, GoneForGood, Inv, Sound;
    InitInv(userKey, rows);
    RunIsSound(Init(userKey, rows), steps);
    forall key: RomanceKey | Contains(key, userKey.user)
      ensures key !in Run(Init(userKey, rows), steps).rows <==> GoneForGood(Init(userKey, rows), steps, key)
    {
      AwayIff(Init(userKey, rows), steps, key);
    }
  }

  // ---------- Exactly when a request reaches every row ----------

  // One successful request, then nothing but deliveries of its messages.
  ghost predicate Quiet(steps: seq<Step>, replies: Replies) {
    && steps != [] && steps[0] == Request(replies, None)
    && forall i :: 0 < i < |steps| ==> steps[i].Group?
  }

  lemma GroupsArePartsOfTheStream(stream: seq<Uuid>, k: nat, user: Uuid)
    requires k < |Chunks(stream)|
    ensures KeySet(user, Chunks(stream)[k]) <= KeySet(user, stream)
  {
    GroupsAreSlices(stream, k);
  }

  // Rows whose peer was not streamed are never touched.
  lemma {:induction false} QuietRunDeletesOnlyStreamed(
      userKey: ActiveUserKey, rows: Rows, steps: seq<Step>, replies: Replies, key: RomanceKey)
    requires Quiet(steps, replies)
    ensures var s, stream := Run(Init(userKey, rows), steps), Stream(rows, userKey, replies);
      && s.userKey == userKey && s.messages == Chunks(stream)
      && s.listed == (if NamesEverybody(rows, userKey.user, replies) then Some(0) else None)
      && (key !in KeySet(userKey.user, stream) ==> Lookup(s.rows, key) == Lookup(rows, key))
  {
    hide DeleteGroup, KeySet, Stream, NamesEverybody, Chunks, WellFormed;
    var fewer, step, stream := steps[..|steps| - 1], steps[|steps| - 1], Stream(rows, userKey, replies);
    if fewer == [] {
      assert Run(Init(userKey, rows), fewer) == Init(userKey, rows);
      assert [] + Chunks(stream) == Chunks(stream);
    } else {
      QuietRunDeletesOnlyStreamed(userKey, rows, fewer, replies, key);
      RunIsSound(Init(userKey, rows), fewer);
      var before := Run(Init(userKey, rows), fewer);
      if step.message < |before.messages| {
        GroupStep(before, step.message, step.reply);
        GroupsArePartsOfTheStream(stream, step.message, userKey.user);
      }
    }
  }

  lemma QuietRunsAddNobody(s: State, steps: seq<Step>, replies: Replies)
    requires Quiet(steps, replies)
    ensures NoneAddedAfterListing(s, steps)
  {
    hide Run;
  }

  // With no other client at work and nothing left unprocessed: once everything is acked, the user is forgotten
  // exactly when the request's queries named everybody, which is what the table, the page split and the failures
  // of the queries decide.
  lemma QuietRunForgetsIff(userKey: ActiveUserKey, rows: Rows, steps: seq<Step>, replies: Replies)
    requires Quiet(steps, replies) && NothingUnprocessed(steps)
    requires AllAcked(Run(Init(userKey, rows), steps))
    ensures Forgotten(Run(Init(userKey, rows), steps)) <==> NamesEverybody(rows, userKey.user, replies)
  {
    hide Run, Stream, Chunks, NamesEverybody, PeersOn, NoneAddedAfterListing;
    var s := Run(Init(userKey, rows), steps);
    QuietRunDeletesOnlyStreamed(userKey, rows, steps, replies, RomanceKey(1, 2));
    QuietRunsAddNobody(Init(userKey, rows), steps, replies);
    StreamIsCompleteIff(rows, userKey, replies);
    if NamesEverybody(rows, userKey.user, replies) {
      AckedMeansForgotten(userKey, rows, steps);
    } else {
      var peer :| peer in Peers(rows, userKey.user) && peer !in Stream(rows, userKey, replies);
      var key :| key in rows && Contains(key, userKey.user) && OtherUser(key, userKey.user) == peer;
      QuietRunDeletesOnlyStreamed(userKey, rows, steps, replies, key);
      assert Lookup(s.rows, key).Some?;
    }
  }

  // A delivery of a message that names the row, whose write did not leave it behind.
  predicate Reaches(step: Step, messages: seq<seq<Uuid>>, user: Uuid, key: RomanceKey) {
    && step.Group? && step.message < |messages|
    && key in KeySet(user, messages[step.message]) && Takes(step.reply, key)
  }

  ghost predicate ReachedBySome(steps: seq<Step>, messages: seq<seq<Uuid>>, user: Uuid, key: RomanceKey) {
    exists j :: 0 <= j < |steps| && Reaches(steps[j], messages, user, key)
  }

  lemma ReachedByOneMore(fewer: seq<Step>, step: Step, messages: seq<seq<Uuid>>, user: Uuid, key: RomanceKey)
    ensures ReachedBySome(fewer + [step], messages, user, key) <==>
      ReachedBySome(fewer, messages, user, key) || Reaches(step, messages, user, key)
  {
    hide Reaches;
    var steps := fewer + [step];
    assert steps[|fewer|] == step;
    assert forall j :: 0 <= j < |fewer| ==> steps[j] == fewer[j];
  }

  // What a delivery removes is what it reaches among the messages there are.
  lemma RemovesWhatItReaches(s: State, step: Step, messages: seq<seq<Uuid>>, key: RomanceKey)
    requires !step.Outside? && (step.Group? ==> s.messages == messages)
    ensures Removes(s, step, key) <==> Reaches(step, messages, s.userKey.user, key)
  {
  }

  lemma {:induction false} QuietRunKeepsIff(
      userKey: ActiveUserKey, rows: Rows, steps: seq<Step>, replies: Replies, key: RomanceKey)
    requires Quiet(steps, replies) && Contains(key, userKey.user)
    ensures key in Run(Init(userKey, rows), steps).rows <==>
      key in rows && !ReachedBySome(steps, Chunks(Stream(rows, userKey, replies)), userKey.user, key)
  {
    hide Next, KeySet, Stream, NamesEverybody, Chunks, Takes, Sound, Removes, Reaches;
    var fewer, step, messages := steps[..|steps| - 1], steps[|steps| - 1], Chunks(Stream(rows, userKey, replies));
    var before := Run(Init(userKey, rows), fewer);
    InitInv(userKey, rows);
    RunIsSound(Init(userKey, rows), fewer);
    StepDecides(before, step, key);
    assert steps == fewer + [step];
    ReachedByOneMore(fewer, step, messages, userKey.user, key);
    if fewer != [] {
      QuietRunDeletesOnlyStreamed(userKey, rows, fewer, replies, key);
      QuietRunKeepsIff(userKey, rows, fewer, replies, key);
    }
    RemovesWhatItReaches(before, step, messages, key);
  }

  // With no other client at work: the user is forgotten exactly when each of their rows is reached by some
  // delivery, however many earlier ones failed or left it behind.
  lemma QuietRunForgetsIffReached(userKey: ActiveUserKey, rows: Rows, steps: seq<Step>, replies: Replies)
    requires Quiet(steps, replies)
    ensures Forgotten(Run(Init(userKey, rows), steps)) <==>
      forall key :: key in rows && Contains(key, userKey.user) ==>
        ReachedBySome(steps, Chunks(Stream(rows, userKey, replies)), userKey.user, key)
  {
    hide Run, ReachedBySome, Quiet, Sound;
    InitInv(userKey, rows);
    RunIsSound(Init(userKey, rows), steps);
    forall key: RomanceKey | Contains(key, userKey.user)
      ensures key in Run(Init(userKey, rows), steps).rows <==>
        key in rows && !ReachedBySome(steps, Chunks(Stream(rows, userKey, replies)), userKey.user, key)
    {
      QuietRunKeepsIff(userKey, rows, steps, replies, key);
    }
  }

  // ---------- What acks do not tell ----------

  // The request, then every message delivered once, in order, each with the same answer to its write.
  function RequestAndDeliveries(replies: Replies, reply: BatchReply, n: nat): (steps: seq<Step>)
    ensures |steps| == n + 1
  {
    if n == 0 then [Request(replies, None)]
    else RequestAndDeliveries(replies, reply, n - 1) + [Group(n - 1, reply)]
  }

  lemma {:induction false} DeliveriesAreQuiet(replies: Replies, reply: BatchReply, n: nat)
    ensures Quiet(RequestAndDeliveries(replies, reply, n), replies)
    ensures reply == Carried({}) ==> NothingUnprocessed(RequestAndDeliveries(replies, reply, n))
  {
    if n > 0 {
      DeliveriesAreQuiet(replies, reply, n - 1);
    }
  }

  lemma {:induction false} DeliveriesAreAcked(
      userKey: ActiveUserKey, rows: Rows, replies: Replies, reply: BatchReply, n: nat)
    requires reply.Carried? && n <= |Chunks(Stream(rows, userKey, replies))|
    ensures var s := Run(Init(userKey, rows), RequestAndDeliveries(replies, reply, n));
      && s.requestAcked && s.messages == Chunks(Stream(rows, userKey, replies))
      && (forall i :: 0 <= i < n ==> i in s.acked)
  {
    hide Run, Next, Sound, Stream, NamesEverybody, Chunks;
    var init := Init(userKey, rows);
    if n == 0 {
      RunIs(init, [], Request(replies, None));
      assert [] + [Request(replies, None)] == [Request(replies, None)];
      RequestPublishes(init, replies);
    } else {
      DeliveriesAreAcked(userKey, rows, replies, reply, n - 1);
      var fewer := RequestAndDeliveries(replies, reply, n - 1);
      RunIs(init, fewer, Group(n - 1, reply));
      InitInv(userKey, rows);
      RunIsSound(init, fewer);
      AckOnlyWhenCarried(Run(init, fewer), n - 1, reply);
    }
  }

  // Unprocessed items are ignored: whatever the table holds, a run in which the request and every message are
  // acked may leave it exactly as it was.
  lemma AcksDespiteLeftovers(userKey: ActiveUserKey, rows: Rows, replies: Replies)
    ensures var n := |Chunks(Stream(rows, userKey, replies))|;
      var s := Run(Init(userKey, rows), RequestAndDeliveries(replies, Carried(rows.Keys), n));
      && s.requestAcked && AllAcked(s) && s.rows == rows
      && (s.listed.Some? <==> NamesEverybody(rows, userKey.user, replies))
  {
    hide Run, Stream, Chunks, Quiet, NothingUnprocessed, NamesEverybody;
    var n := |Chunks(Stream(rows, userKey, replies))|;
    DeliveriesAreQuiet(replies, Carried(rows.Keys), n);
    QuietRunDeletesOnlyStreamed(
      userKey, rows, RequestAndDeliveries(replies, Carried(rows.Keys), n), replies, RomanceKey(1, 2));
    DeliveriesAreAcked(userKey, rows, replies, Carried(rows.Keys), n);
    LeftoversStay(userKey, rows, replies, n);
  }

  lemma LeftoverDelivery(s: State, i: nat)
    requires Sound(s)
    ensures Next(s, Group(i, Carried(s.rows.Keys))).rows == s.rows
  {
    hide KeySet, DeleteGroup, NoRepeats, AllValid;
    if i < |s.messages| {
      MessageIsOneWrite(s.rows, s.userKey, s.messages[i], b => Carried(s.rows.Keys));
    }
  }

  lemma {:induction false} LeftoversStay(userKey: ActiveUserKey, rows: Rows, replies: Replies, n: nat)
    ensures Run(Init(userKey, rows), RequestAndDeliveries(replies, Carried(rows.Keys), n)).rows == rows
  {
    hide Run, Next, Sound, Stream, Chunks, NamesEverybody;
    var init := Init(userKey, rows);
    if n == 0 {
      RunIs(init, [], Request(replies, None));
      assert [] + [Request(replies, None)] == [Request(replies, None)];
      RequestPublishes(init, replies);
    } else {
      LeftoversStay(userKey, rows, replies, n - 1);
      var fewer := RequestAndDeliveries(replies, Carried(rows.Keys), n - 1);
      RunIs(init, fewer, Group(n - 1, Carried(rows.Keys)));
      InitInv(userKey, rows);
      RunIsSound(init, fewer);
      LeftoverDelivery(Run(init, fewer), n - 1);
    }
  }

  // The shared resume key: every query answered, every message acked, nothing left unprocessed, and still the
  // row of users 1 and 2 is there.
  lemma AcksDespitePaging()
    ensures var n := |Chunks(Stream(SAMPLE_ROWS, SAMPLE_USER, OneToAPage()))|;
      var steps := RequestAndDeliveries(OneToAPage(), Carried({}), n);
      var s := Run(Init(SAMPLE_USER, SAMPLE_ROWS), steps);
      && NeverFails(OneToAPage()) && NothingUnprocessed(steps)
      && s.requestAcked && AllAcked(s) && RomanceKey(1, 2) in s.rows
  {
    hide Run, Stream, Chunks, Quiet, NothingUnprocessed;
    var stream := Stream(SAMPLE_ROWS, SAMPLE_USER, OneToAPage());
    var n := |Chunks(stream)|;
    var steps := RequestAndDeliveries(OneToAPage(), Carried({}), n);
    PagingLosesTheIndexSide();
    DeliveriesAreQuiet(OneToAPage(), Carried({}), n);
    DeliveriesAreAcked(SAMPLE_USER, SAMPLE_ROWS, OneToAPage(), Carried({}), n);
    QuietRunDeletesOnlyStreamed(SAMPLE_USER, SAMPLE_ROWS, steps, OneToAPage(), RomanceKey(1, 2));
    assert RomanceKey(1, 2) in SAMPLE_ROWS;
  }

  // A failing query: the request is acked without publishing anything, and the row is still there.
  lemma AcksDespiteFailedQuery()
    ensures var s := Run(Init(SAMPLE_USER, LONE_ROW), [Request(IndexFails(), None)]);
      && TableSideReadable(LONE_ROW, 2) && FitsOnePage(LONE_ROW, 2, IndexFails())
      && s.requestAcked && s.messages == [] && RomanceKey(1, 2) in s.rows
  {
    hide Stream, TableSideReadable, FitsOnePage, NamesEverybody;
    FailedQueryLosesTheIndexSide();
    var steps := [Request(IndexFails(), None)];
    assert steps[..0] == [] && Run(Init(SAMPLE_USER, LONE_ROW), []) == Init(SAMPLE_USER, LONE_ROW);
    assert RomanceKey(1, 2) in LONE_ROW;
  }

  lemma RunIs(s: State, steps: seq<Step>, step: Step)
    ensures Run(s, steps + [step]) == Next(Run(s, steps), step)
    ensures Run(s, []) == s
  {
    assert (steps + [step])[..|steps|] == steps;
  }

  lemma RequestPublishes(s: State, replies: Replies)
    requires s.messages == [] && s.listed.None?
    ensures var s', groups := Next(s, Request(replies, None)), Chunks(Stream(s.rows, s.userKey, replies));
      s' == s.(messages := groups, requestAcked := true, listed := ListedAfter(s, replies))
  {
    hide Stream, Chunks, NamesEverybody;
    assert [] + Chunks(Stream(s.rows, s.userKey, replies)) == Chunks(Stream(s.rows, s.userKey, replies));
  }
}
