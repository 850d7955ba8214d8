/**
 Deleting many rows in groups of 25: the operation that cuts the peer stream into published messages, and
 the repository method that deletes one message's rows in write batches.
 */
module GroupDeletion {
  import opened Results
  import opened Identity
  import opened Romances
  import opened PeerStream

  // getRomancesGroupLimit, and DynamoDB's limit for one batch write, are both 25.

  // ---------- Groups ----------

  function Chunks(s: seq<Uuid>): seq<seq<Uuid>> {
    if s == [] then []
    else if |s| <= 25 then [s]
    else [s[..25]] + Chunks(s[25..])
  }

  function Flatten(groups: seq<seq<Uuid>>): seq<Uuid> {
    if groups == [] then [] else groups[0] + Flatten(groups[1..])
  }

  // The first n entries, or all of them if there are fewer.
  function FirstOf(s: seq<Uuid>, n: nat): seq<Uuid> {
    if n <= |s| then s[..n] else s
  }

  // Group k holds the entries from 25 * k on: 25 of them, except that the last group may hold fewer.
  lemma {:induction false} GroupsAreSlices(s: seq<Uuid>, k: nat)
    requires k < |Chunks(s)|
    ensures 25 * k < |s| && Chunks(s)[k] == FirstOf(s[25 * k..], 25)
    ensures k < |Chunks(s)| - 1 ==> 25 * k + 25 < |s|
  {
    if |s| > 25 && k > 0 {
      GroupsAreSlices(s[25..], k - 1);
      assert s[25..][25 * (k - 1)..] == s[25 * k..];
    }
  }

  lemma {:induction false} GroupsFlattenToTheStream(s: seq<Uuid>)
    ensures Flatten(Chunks(s)) == s
  {
    if s == [] {
    } else if |s| <= 25 {
      assert Flatten([s]) == s + Flatten([]);
    } else {
      GroupsFlattenToTheStream(s[25..]);
      assert s == s[..25] + s[25..];
    }
  }

  // Cutting at a full group leaves the groups before and after as they are.
  lemma {:induction false} ChunksSplit(s: seq<Uuid>, n: nat)
    requires n <= |s| && n % 25 == 0
    ensures Chunks(s) == Chunks(s[..n]) + Chunks(s[n..])
  {
    if n == 0 {
      assert s[0..] == s;
    } else if n < |s| {
      ChunksSplit(s[25..], n - 25);
      assert s[25..][..n - 25] == s[..n][25..];
      assert s[25..][n - 25..] == s[n..];
      assert s[..n][..25] == s[..25];
      if n == 25 {
        assert s[..n][25..] == [];
      }
    } else {
      assert s[..n] == s;
    }
  }

  // ---------- Publishing ----------

  datatype GroupMessage = GroupMessage(userKey: ActiveUserKey, peers: seq<Uuid>)

  class Publisher {
    var published: seq<GroupMessage>

    // A publication may fail, or arrive although its acknowledgement is lost.
    method Publish(message: GroupMessage, fault: Fault) returns (ok: bool)
      modifies this
      ensures ok == fault.NoFault?
      ensures published == if fault.Refused? then old(published) else old(published) + [message]
    {
      if !fault.Refused? {
        published := published + [message];
      }
      return fault.NoFault?;
    }
  }

  function Messages(userKey: ActiveUserKey, groups: seq<seq<Uuid>>): (r: seq<GroupMessage>)
    ensures |r| == |groups|
    ensures forall i :: 0 <= i < |groups| ==> r[i] == GroupMessage(userKey, groups[i])
  {
    if groups == [] then []
    else Messages(userKey, groups[..|groups| - 1]) + [GroupMessage(userKey, groups[|groups| - 1])]
  }

  lemma MessagesTake(userKey: ActiveUserKey, groups: seq<seq<Uuid>>, n: nat)
    requires n <= |groups|
    ensures Messages(userKey, groups)[..n] == Messages(userKey, groups[..n])
  {
  }

  lemma MessagesJoin(userKey: ActiveUserKey, first: seq<seq<Uuid>>, rest: seq<seq<Uuid>>)
    ensures Messages(userKey, first) + Messages(userKey, rest) == Messages(userKey, first + rest)
  {
    hide Messages;
  }

  // The group collected from done to i is the next one of the stream.
  lemma NextGroup(s: seq<Uuid>, done: nat, i: nat)
    requires done < i <= |s| && done % 25 == 0 && i - done <= 25 && (i - done == 25 || i == |s|)
    ensures var k := |Chunks(s[..done])|;
      && k < |Chunks(s)| && Chunks(s)[k] == s[done..i] && |Chunks(s[..i])| == k + 1
  {
    hide Chunks;
    FirstGroup(s[done..], i - done);
    ChunksSplit(s, done);
    ChunksSplit(s[..i], done);
    assert s[..i][..done] == s[..done];
    assert s[..i][done..] == s[done..i];
    assert s[done..][..i - done] == s[done..i];
  }

  lemma FirstGroup(s: seq<Uuid>, n: nat)
    requires 0 < n <= |s| && n <= 25 && (n == 25 || n == |s|)
    ensures Chunks(s) != [] && Chunks(s)[0] == s[..n] && Chunks(s[..n]) == [s[..n]]
  {
    assert n == |s| ==> s[..n] == s;
  }

  // What is to be published for a stream: its first n groups.
  function Planned(userKey: ActiveUserKey, peers: seq<Uuid>, n: nat): seq<GroupMessage>
    requires n <= |Chunks(peers)|
  {
    Messages(userKey, Chunks(peers))[..n]
  }

  function GroupsBefore(peers: seq<Uuid>, done: nat): (n: nat)
    requires done <= |peers| && (done % 25 == 0 || done == |peers|)
    ensures n <= |Chunks(peers)|
    ensures done == 0 ==> n == 0
    ensures done == |peers| ==> n == |Chunks(peers)|
  {
    if done == |peers| then |Chunks(peers)|
    else
      ChunksSplit(peers, done);
      |Chunks(peers[..done])|
  }

  lemma PlannedGrows(userKey: ActiveUserKey, peers: seq<Uuid>, done: nat, i: nat)
    requires done < i <= |peers| && done % 25 == 0 && i - done <= 25 && (i - done == 25 || i == |peers|)
    ensures var n := GroupsBefore(peers, done);
      && n < |Chunks(peers)| && GroupsBefore(peers, i) == n + 1
      && Planned(userKey, peers, n + 1) == Planned(userKey, peers, n) + [GroupMessage(userKey, peers[done..i])]
  {
    hide Chunks;
    NextGroup(peers, done, i);
    assert peers[..|peers|] == peers;
  }

  lemma NothingPlanned(userKey: ActiveUserKey, peers: seq<Uuid>)
    ensures Planned(userKey, peers, 0) == []
  {
  }

  method PublishNext(
      publisher: Publisher, userKey: ActiveUserKey, peerIds: seq<Uuid>, fault: Fault,
      ghost peers: seq<Uuid>, ghost done: nat, ghost before: seq<GroupMessage>)
    returns (ok: bool, ghost sent: nat)
    requires var i := done + |peerIds|;
      && done < i <= |peers| && done % 25 == 0 && |peerIds| <= 25 && (|peerIds| == 25 || i == |peers|)
      && peerIds == peers[done..i]
    requires publisher.published == before + Planned(userKey, peers, GroupsBefore(peers, done))
    modifies publisher
    ensures ok <==> fault.NoFault?
    ensures GroupsBefore(peers, done) + 1 == GroupsBefore(peers, done + |peerIds|) <= |Chunks(peers)|
    ensures sent == GroupsBefore(peers, done) + if fault.Refused? then 0 else 1
    ensures publisher.published == before + Planned(userKey, peers, sent)
  {
    hide *;
    PlannedGrows(userKey, peers, done, done + |peerIds|);
    ok := publisher.Publish(GroupMessage(userKey, peerIds), fault);
    sent := GroupsBefore(peers, done) + if fault.Refused? then 0 else 1;
  }

  // DeleteRomancesOperation.Run, where publication k is answered by faults(k): it succeeds exactly when every group
  // of the stream is published, and otherwise stops at the first publication that fails, with exactly the groups
  // before it published, and that one too if only its acknowledgement was lost.
  method DeleteRomances(
      repository: RomancesRepository, publisher: Publisher, userKey: ActiveUserKey, replies: Replies,
      faults: nat -> Fault)
    returns (error: Option<Error>, ghost sent: nat)
    modifies publisher
    ensures var peers := Stream(repository.rows, userKey, replies);
      && sent <= |Chunks(peers)|
      && publisher.published == old(publisher.published) + Planned(userKey, peers, sent)
      && (error.None? ==> sent == |Chunks(peers)|)
      && (error.None? <==> forall k :: 0 <= k < |Chunks(peers)| ==> faults(k).NoFault?)
      && (error.Some? ==>
            exists k :: 0 <= k < |Chunks(peers)| && !faults(k).NoFault?
              && (forall j :: 0 <= j < k ==> faults(j).NoFault?)
              && sent == k + if faults(k).Refused? then 0 else 1)
  {
    hide *;
    var peers := GetAllPeersForActiveUser(repository, userKey, replies);
    ghost var before, done := publisher.published, 0;
    NothingPlanned(userKey, peers);
    var peerIds := [];
    var group: nat := 0;
    sent := 0;
    for i := 0 to |peers|
      invariant |peerIds| < 25 && done + |peerIds| == i && done % 25 == 0
      invariant peerIds == peers[done..i]
      invariant sent == group == GroupsBefore(peers, done)
      invariant forall j :: 0 <= j < group ==> faults(j).NoFault?
      invariant publisher.published == before + Planned(userKey, peers, sent)
    {
      assert peers[done..i] + [peers[i]] == peers[done..i + 1];
      peerIds := peerIds + [peers[i]];
      if |peerIds| == 25 {
        var ok;
        ok, sent := PublishNext(publisher, userKey, peerIds, faults(group), peers, done, before);
        if !ok {
          return Some(StoreError), sent;
        }
        group := group + 1;
        peerIds, done := [], i + 1;
      }
    }
    if |peerIds| > 0 {
      var ok;
      ok, sent := PublishNext(publisher, userKey, peerIds, faults(group), peers, done, before);
      if !ok {
        return Some(StoreError), sent;
      }
    }
    return None, sent;
  }

  // ---------- Deleting one group ----------

  datatype GroupFailure = InvalidPeer(error: IdError) | WriteFailed

  // A batch write deletes its items, except those it reports as unprocessed; a failed one may still have
  // deleted some of them.
  datatype BatchReply = Carried(unprocessed: set<RomanceKey>) | Failed(deleted: set<RomanceKey>)

  type BatchReplies = nat -> BatchReply

  predicate NoRepeats<T(==)>(s: seq<T>) {
    forall i, j :: 0 <= i < j < |s| ==> s[i] != s[j]
  }

  function Elements<T>(s: seq<T>): set<T> {
    set x | x in s
  }

  function BatchWrite(rows: Rows, keys: seq<RomanceKey>, reply: BatchReply): (Rows, bool) {
    if keys == [] || |keys| > 25 || !NoRepeats(keys) then (rows, false)
    else
      match reply
      case Carried(unprocessed) => (rows - (Elements(keys) - unprocessed), true)
      case Failed(deleted) => (rows - Elements(keys) * deleted, false)
  }

  predicate ValidPeer(userKey: ActiveUserKey, peer: Uuid) {
    peer != NIL_UUID && peer != userKey.user
  }

  predicate AllValid(userKey: ActiveUserKey, peers: seq<Uuid>) {
    forall i :: 0 <= i < |peers| ==> ValidPeer(userKey, peers[i])
  }

  function KeysOf(userKey: ActiveUserKey, peers: seq<Uuid>): (keys: seq<RomanceKey>)
    requires AllValid(userKey, peers)
    ensures |keys| == |peers|
    ensures forall i :: 0 <= i < |peers| ==> keys[i] == PairKey(userKey.user, peers[i])
  {
    if peers == [] then []
    else KeysOf(userKey, peers[..|peers| - 1]) + [PairKey(userKey.user, peers[|peers| - 1])]
  }

  function IdErrorOf(userKey: ActiveUserKey, peer: Uuid): IdError
    requires !ValidPeer(userKey, peer)
  {
    if peer == NIL_UUID then NilPeerUser else SameUser
  }

  function FirstError(userKey: ActiveUserKey, peers: seq<Uuid>): (error: Option<IdError>)
    ensures error.None? <==> AllValid(userKey, peers)
  {
    if peers == [] then None
    else
      var n := |peers| - 1;
      match FirstError(userKey, peers[..n])
      case Some(error) => Some(error)
      case None => if ValidPeer(userKey, peers[n]) then None else Some(IdErrorOf(userKey, peers[n]))
  }

  // One group, batch by batch: the rows left, and what made it stop early. Batch b is answered by replies(b).
  function DeleteGroup(rows: Rows, userKey: ActiveUserKey, peers: seq<Uuid>, replies: BatchReplies, b: nat)
    : (Rows, Option<GroupFailure>)
    decreases |peers|
  {
    if peers == [] then (rows, None)
    else
      var batch := FirstOf(peers, 25);
      match FirstError(userKey, batch)
      case Some(error) => (rows, Some(InvalidPeer(error)))
      case None =>
        var (after, written) := BatchWrite(rows, KeysOf(userKey, batch), replies(b));
        if !written then (after, Some(WriteFailed))
        else DeleteGroup(after, userKey, peers[|batch|..], replies, b + 1)
  }

  method BatchWriteItem(repository: RomancesRepository, keys: seq<RomanceKey>, reply: BatchReply) returns (ok: bool)
    modifies repository
    ensures (repository.rows, ok) == BatchWrite(old(repository.rows), keys, reply)
  {
    if keys == [] || |keys| > 25 || !NoRepeats(keys) {
      return false;
    }
    match reply
    case Carried(unprocessed) =>
      repository.rows := repository.rows - (Elements(keys) - unprocessed);
      return true;
    case Failed(deleted) =>
      repository.rows := repository.rows - Elements(keys) * deleted;
      return false;
  }

  lemma {:induction false} EarlierErrorStays(userKey: ActiveUserKey, peers: seq<Uuid>, n: nat)
    requires n <= |peers| && FirstError(userKey, peers[..n]).Some?
    ensures FirstError(userKey, peers) == FirstError(userKey, peers[..n])
  {
    if n < |peers| {
      assert peers[..|peers| - 1][..n] == peers[..n];
      EarlierErrorStays(userKey, peers[..|peers| - 1], n);
    } else {
      assert peers[..n] == peers;
    }
  }

  lemma FailsAtInvalidPeer(userKey: ActiveUserKey, peers: seq<Uuid>, n: nat)
    requires n < |peers| && AllValid(userKey, peers[..n]) && !ValidPeer(userKey, peers[n])
    ensures FirstError(userKey, peers) == Some(IdErrorOf(userKey, peers[n]))
  {
    assert peers[..n + 1][..n] == peers[..n];
    EarlierErrorStays(userKey, peers, n + 1);
  }

  // The keys collected since the last write are those of the peers from done to i.
  predicate Collected(userKey: ActiveUserKey, peers: seq<Uuid>, done: nat, i: nat, batch: seq<RomanceKey>) {
    && done <= i <= |peers| && |batch| == i - done
    && AllValid(userKey, peers[done..i]) && batch == KeysOf(userKey, peers[done..i])
  }

  lemma NothingCollected(userKey: ActiveUserKey, peers: seq<Uuid>, i: nat)
    requires i <= |peers|
    ensures Collected(userKey, peers, i, i, [])
  {
  }

  lemma CollectOne(userKey: ActiveUserKey, peers: seq<Uuid>, done: nat, i: nat, batch: seq<RomanceKey>)
    requires Collected(userKey, peers, done, i, batch) && i < |peers| && ValidPeer(userKey, peers[i])
    ensures Collected(userKey, peers, done, i + 1, batch + [PairKey(userKey.user, peers[i])])
  {
    assert peers[done..i + 1] == peers[done..i] + [peers[i]];
    assert peers[done..i + 1][..i - done] == peers[done..i];
  }

  lemma StopsAtInvalidPeer(
      rows: Rows, userKey: ActiveUserKey, peers: seq<Uuid>, done: nat, i: nat, batch: seq<RomanceKey>,
      replies: BatchReplies, b: nat)
    requires Collected(userKey, peers, done, i, batch) && |batch| < 25
    requires i < |peers| && !ValidPeer(userKey, peers[i])
    ensures DeleteGroup(rows, userKey, peers[done..], replies, b) ==
      (rows, Some(InvalidPeer(IdErrorOf(userKey, peers[i]))))
  {
    var first := FirstOf(peers[done..], 25);
    assert first[..i - done] == peers[done..i] && first[i - done] == peers[i];
    FailsAtInvalidPeer(userKey, first, i - done);
  }

  lemma WritesCollected(
      rows: Rows, userKey: ActiveUserKey, peers: seq<Uuid>, done: nat, i: nat, batch: seq<RomanceKey>,
      replies: BatchReplies, b: nat)
    requires Collected(userKey, peers, done, i, batch) && batch != []
    requires |batch| == 25 || (|batch| < 25 && i == |peers|)
    ensures var (after, written) := BatchWrite(rows, batch, replies(b));
      DeleteGroup(rows, userKey, peers[done..], replies, b) ==
      if !written then (after, Some(WriteFailed)) else DeleteGroup(after, userKey, peers[i..], replies, b + 1)
  {
    hide BatchWrite;
    assert FirstOf(peers[done..], 25) == peers[done..i];
    assert peers[done..][|batch|..] == peers[i..];
  }

  lemma NothingToDelete(rows: Rows, userKey: ActiveUserKey, replies: BatchReplies, b: nat)
    ensures DeleteGroup(rows, userKey, [], replies, b) == (rows, None)
  {
  }

  lemma PeerIdIsChecked(userKey: ActiveUserKey, peer: Uuid)
    ensures match NewVoteId(userKey.country, userKey.user, peer)
      case Err(error) => !ValidPeer(userKey, peer) && error == IdErrorOf(userKey, peer)
      case Ok(id) => ValidPeer(userKey, peer) && KeyOf(id) == PairKey(userKey.user, peer)
  {
  }

  // Write batches are filled from the list, and whatever an earlier batch deleted stays deleted.
  method DeleteRomancesGroup(
      repository: RomancesRepository, userKey: ActiveUserKey, peerIds: seq<Uuid>, replies: BatchReplies)
    returns (error: Option<GroupFailure>)
    modifies repository
    ensures (repository.rows, error) == DeleteGroup(old(repository.rows), userKey, peerIds, replies, 0)
  {
    hide *;
    ghost var whole := DeleteGroup(repository.rows, userKey, peerIds, replies, 0);
    var batch: seq<RomanceKey> := [];
    var b := 0;
    ghost var done := 0;
    assert peerIds[0..] == peerIds;
    NothingCollected(userKey, peerIds, 0);
    for i := 0 to |peerIds|
      invariant |batch| < 25 && Collected(userKey, peerIds, done, i, batch) && done + |batch| == i
      invariant DeleteGroup(repository.rows, userKey, peerIds[done..], replies, b) == whole
    {
      PeerIdIsChecked(userKey, peerIds[i]);
      var id := NewVoteId(userKey.country, userKey.user, peerIds[i]);
      if id.Err? {
        StopsAtInvalidPeer(repository.rows, userKey, peerIds, done, i, batch, replies, b);
        return Some(InvalidPeer(id.error));
      }
      CollectOne(userKey, peerIds, done, i, batch);
      batch := batch + [KeyOf(id.value)];
      if |batch| == 25 {
        WritesCollected(repository.rows, userKey, peerIds, done, i + 1, batch, replies, b);
        var ok := BatchWriteItem(repository, batch, replies(b));
        if !ok {
          return Some(WriteFailed);
        }
        batch, b, done := [], b + 1, i + 1;
        NothingCollected(userKey, peerIds, done);
      }
    }
    assert peerIds[|peerIds|..] == [];
    if |batch| > 0 {
      WritesCollected(repository.rows, userKey, peerIds, done, |peerIds|, batch, replies, b);
      var ok := BatchWriteItem(repository, batch, replies(b));
      if !ok {
        return Some(WriteFailed);
      }
      b := b + 1;
    }
    NothingToDelete(repository.rows, userKey, replies, b);
    return None;
  }

  // ---------- What one group deletion does ----------

  function KeySet(user: Uuid, peers: seq<Uuid>): (keys: set<RomanceKey>)
    ensures forall key :: key in keys <==> Contains(key, user) && OtherUser(key, user) in peers
  {
    var keys := set peer | peer in peers && peer != NIL_UUID && user != NIL_UUID && peer != user :: PairKey(user, peer);
    forall key: RomanceKey | Contains(key, user) && OtherUser(key, user) in peers
      ensures key in keys
    {
      assert PairKey(user, OtherUser(key, user)) == key;
    }
    keys
  }

  lemma KeysOfPeers(userKey: ActiveUserKey, peers: seq<Uuid>)
    requires AllValid(userKey, peers)
    ensures Elements(KeysOf(userKey, peers)) == KeySet(userKey.user, peers)
    ensures NoRepeats(KeysOf(userKey, peers)) <==> NoRepeats(peers)
  {
    hide KeysOf, KeySet;
    var user, keys := userKey.user, KeysOf(userKey, peers);
    forall i | 0 <= i < |keys|
      ensures Contains(keys[i], user) && OtherUser(keys[i], user) == peers[i]
    {
      assert keys[i] == PairKey(user, peers[i]);
    }
    forall key | key in KeySet(user, peers)
      ensures key in keys
    {
      var i :| 0 <= i < |peers| && peers[i] == OtherUser(key, user);
      assert keys[i] == PairKey(user, peers[i]) == key;
    }
  }

  lemma BatchDeletesOnlyItsRows(rows: Rows, userKey: ActiveUserKey, batch: seq<Uuid>, reply: BatchReply)
    requires AllValid(userKey, batch)
    ensures var after := BatchWrite(rows, KeysOf(userKey, batch), reply).0;
      forall key: RomanceKey ::
        Lookup(after, key) == Lookup(rows, key)
        || (Lookup(after, key) == None && key in KeySet(userKey.user, batch))
  {
    hide KeysOf, KeySet, NoRepeats;
    KeysOfPeers(userKey, batch);
  }

  // Whatever is answered, only rows of the user with the listed peers can disappear, and nothing else changes.
  lemma {:induction false} GroupDeletesOnlyItsRows(
      rows: Rows, userKey: ActiveUserKey, peers: seq<Uuid>, replies: BatchReplies, b: nat)
    ensures var after := DeleteGroup(rows, userKey, peers, replies, b).0;
      forall key: RomanceKey ::
        Lookup(after, key) == Lookup(rows, key)
        || (Lookup(after, key) == None && key in KeySet(userKey.user, peers))
    decreases |peers|
  {
    hide BatchWrite, KeysOf, Lookup;
    if peers != [] && FirstError(userKey, FirstOf(peers, 25)).None? {
      var batch, rest := FirstOf(peers, 25), peers[|FirstOf(peers, 25)|..];
      var (written, ok) := BatchWrite(rows, KeysOf(userKey, batch), replies(b));
      BatchDeletesOnlyItsRows(rows, userKey, batch, replies(b));
      assert peers == batch + rest;
      if ok {
        GroupDeletesOnlyItsRows(written, userKey, rest, replies, b + 1);
      }
    }
  }

  ghost predicate AllCarried(replies: BatchReplies) {
    forall b :: replies(b).Carried?
  }

  ghost predicate NothingLeftOver(replies: BatchReplies) {
    forall b :: replies(b) == Carried({})
  }

  // Repeats matter to DynamoDB only within one batch.
  predicate BatchesRepeatNobody(peers: seq<Uuid>)
    decreases |peers|
  {
    peers == []
    || (NoRepeats(FirstOf(peers, 25)) && BatchesRepeatNobody(peers[|FirstOf(peers, 25)|..]))
  }

  lemma {:induction false} DistinctListsHaveDistinctBatches(peers: seq<Uuid>)
    requires NoRepeats(peers)
    ensures BatchesRepeatNobody(peers)
    decreases |peers|
  {
    if peers != [] {
      DistinctListsHaveDistinctBatches(peers[|FirstOf(peers, 25)|..]);
    }
  }

  // When DynamoDB carries out every write, the call succeeds exactly on valid ids without repeats in a batch.
  lemma {:induction false} GroupSucceedsIff(
      rows: Rows, userKey: ActiveUserKey, peers: seq<Uuid>, replies: BatchReplies, b: nat)
    requires AllCarried(replies)
    ensures DeleteGroup(rows, userKey, peers, replies, b).1 == None <==>
      AllValid(userKey, peers) && BatchesRepeatNobody(peers)
    decreases |peers|
  {
    if peers != [] {
      var batch, rest := FirstOf(peers, 25), peers[|FirstOf(peers, 25)|..];
      assert peers == batch + rest;
      assert AllValid(userKey, peers) <==> AllValid(userKey, batch) && AllValid(userKey, rest);
      hide NoRepeats, KeysOf;
      if AllValid(userKey, batch) {
        KeysOfPeers(userKey, batch);
        GroupSucceedsIff(BatchWrite(rows, KeysOf(userKey, batch), replies(b)).0, userKey, rest, replies, b + 1);
      }
    }
  }

  lemma DeletedTogether(rows: Rows, user: Uuid, first: seq<Uuid>, rest: seq<Uuid>, all: seq<Uuid>)
    requires all == first + rest
    ensures rows - KeySet(user, first) - KeySet(user, rest) == rows - KeySet(user, all)
  {
    assert KeySet(user, all) == KeySet(user, first) + KeySet(user, rest);
  }

  lemma BatchIsDeleted(rows: Rows, userKey: ActiveUserKey, batch: seq<Uuid>, reply: BatchReply)
    requires 0 < |batch| <= 25 && AllValid(userKey, batch) && NoRepeats(batch) && reply == Carried({})
    ensures BatchWrite(rows, KeysOf(userKey, batch), reply) == (rows - KeySet(userKey.user, batch), true)
  {
    hide KeySet, KeysOf, NoRepeats;
    KeysOfPeers(userKey, batch);
    var keys := KeysOf(userKey, batch);
    assert Elements(keys) - {} == Elements(keys);
  }

  lemma FirstBatchIsDeleted(rows: Rows, userKey: ActiveUserKey, peers: seq<Uuid>, replies: BatchReplies, b: nat)
    requires peers != [] && NothingLeftOver(replies) && BatchesRepeatNobody(peers)
    requires AllValid(userKey, FirstOf(peers, 25))
    ensures var batch := FirstOf(peers, 25);
      DeleteGroup(rows, userKey, peers, replies, b) ==
      DeleteGroup(rows - KeySet(userKey.user, batch), userKey, peers[|batch|..], replies, b + 1)
  {
    hide KeySet, KeysOf, NoRepeats, BatchWrite;
    BatchIsDeleted(rows, userKey, FirstOf(peers, 25), replies(b));
  }

  lemma FirstBatchIsInvalid(rows: Rows, userKey: ActiveUserKey, peers: seq<Uuid>, replies: BatchReplies, b: nat, n: nat)
    requires n < |peers| && n < 25 && AllValid(userKey, peers[..n]) && !ValidPeer(userKey, peers[n])
    ensures DeleteGroup(rows, userKey, peers, replies, b) == (rows, Some(InvalidPeer(IdErrorOf(userKey, peers[n]))))
  {
    var batch := FirstOf(peers, 25);
    assert batch[..n] == peers[..n];
    FailsAtInvalidPeer(userKey, batch, n);
  }

  // What the first batch and the batches after it deleted, taken together.
  lemma DeletedSoFar(rows: Rows, user: Uuid, peers: seq<Uuid>, n: nat)
    requires |FirstOf(peers, 25)| <= n <= |peers|
    ensures var batch := FirstOf(peers, 25);
      var rest, m := peers[|batch|..], n - |batch|;
      && rows - KeySet(user, batch) - KeySet(user, rest) == rows - KeySet(user, peers)
      && (n < |peers| ==>
            rows - KeySet(user, batch) - KeySet(user, rest[..25 * (m / 25)]) ==
            rows - KeySet(user, peers[..25 * (n / 25)]))
  {
    hide KeySet;
    var batch := FirstOf(peers, 25);
    var rest := peers[|batch|..];
    DeletedTogether(rows, user, batch, rest, peers);
    if n < |peers| {
      var more := 25 * ((n - 25) / 25);
      assert |batch| == 25 && 25 * (n / 25) == 25 + more && more <= n - 25;
      assert peers[..25 + more] == batch + rest[..more];
      DeletedTogether(rows, user, batch, rest[..more], peers[..25 + more]);
    }
  }

  // With nothing left unprocessed: up to the batch of the first invalid id, exactly the rows of the user with
  // the listed peers are gone. n is the position of that id, or the length of the list.
  lemma {:induction false} GroupDeletesFullBatches(
      rows: Rows, userKey: ActiveUserKey, peers: seq<Uuid>, replies: BatchReplies, b: nat, n: nat)
    requires NothingLeftOver(replies) && BatchesRepeatNobody(peers)
    requires n <= |peers| && AllValid(userKey, peers[..n]) && (n < |peers| ==> !ValidPeer(userKey, peers[n]))
    ensures DeleteGroup(rows, userKey, peers, replies, b) ==
      if n == |peers| then (rows - KeySet(userKey.user, peers), None)
      else
        (rows - KeySet(userKey.user, peers[..25 * (n / 25)]), Some(InvalidPeer(IdErrorOf(userKey, peers[n]))))
    decreases |peers|
  {
    hide KeySet, DeleteGroup, NothingLeftOver, NoRepeats;
    var batch, user := FirstOf(peers, 25), userKey.user;
    if peers == [] {
      NothingToDelete(rows, userKey, replies, b);
      DeletingNobody(rows, user);
    } else if n < |batch| {
      FirstBatchIsInvalid(rows, userKey, peers, replies, b, n);
      assert peers[..25 * (n / 25)] == [];
      DeletingNobody(rows, user);
    } else {
      var rest := peers[|batch|..];
      assert AllValid(userKey, batch) by {
        assert batch == peers[..n][..|batch|];
      }
      assert rest[..n - |batch|] == peers[..n][|batch|..];
      FirstBatchIsDeleted(rows, userKey, peers, replies, b);
      GroupDeletesFullBatches(rows - KeySet(user, batch), userKey, rest, replies, b + 1, n - |batch|);
      DeletedSoFar(rows, user, peers, n);
    }
  }

  lemma DeletingNobody(rows: Rows, user: Uuid)
    ensures rows - KeySet(user, []) == rows
  {
  }

  // Deleting a valid group a second time succeeds and changes nothing.
  lemma GroupDeletionIsIdempotent(
      rows: Rows, userKey: ActiveUserKey, peers: seq<Uuid>, replies: BatchReplies, again: BatchReplies)
    requires NothingLeftOver(replies) && NothingLeftOver(again)
    requires DeleteGroup(rows, userKey, peers, replies, 0).1 == None
    ensures var after := DeleteGroup(rows, userKey, peers, replies, 0).0;
      DeleteGroup(after, userKey, peers, again, 0) == (after, None)
  {
    hide DeleteGroup, NoRepeats, BatchesRepeatNobody;
    GroupSucceedsIff(rows, userKey, peers, replies, 0);
    assert peers[..|peers|] == peers;
    GroupDeletesFullBatches(rows, userKey, peers, replies, 0, |peers|);
    var after := rows - KeySet(userKey.user, peers);
    GroupDeletesFullBatches(after, userKey, peers, again, 0, |peers|);
    assert after - KeySet(userKey.user, peers) == after;
  }

  // A published message fits one batch write, so the whole call is that write.
  lemma MessageIsOneWrite(rows: Rows, userKey: ActiveUserKey, peers: seq<Uuid>, replies: BatchReplies)
    requires 0 < |peers| <= 25 && AllValid(userKey, peers) && NoRepeats(peers)
    ensures var keys := KeySet(userKey.user, peers);
      DeleteGroup(rows, userKey, peers, replies, 0) ==
      if replies(0).Carried? then (rows - (keys - replies(0).unprocessed), None)
      else (rows - keys * replies(0).deleted, Some(WriteFailed))
  {
    hide KeySet, KeysOf, NoRepeats;
    KeysOfPeers(userKey, peers);
    assert FirstOf(peers, 25) == peers && peers[|peers|..] == [];
  }

  // ---------- One group, whatever is answered ----------

  // The batch write deletes the row if the batch names it.
  predicate Takes(reply: BatchReply, key: RomanceKey) {
    match reply
    case Carried(unprocessed) => key !in unprocessed
    case Failed(deleted) => key in deleted
  }

  // One of the first upTo batches names the row and its write, answered by replies(b) and on, takes it.
  ghost predicate Taken(
      batches: seq<seq<Uuid>>, user: Uuid, replies: BatchReplies, b: nat, upTo: nat, key: RomanceKey)
  {
    exists k: nat :: k < upTo && k < |batches| && key in KeySet(user, batches[k]) && Takes(replies(b + k), key)
  }

  lemma TakenByFirstOrRest(
      batch: seq<Uuid>, rest: seq<seq<Uuid>>, user: Uuid, replies: BatchReplies, b: nat, upTo: nat, key: RomanceKey)
    requires upTo > 0
    ensures Taken([batch] + rest, user, replies, b, upTo, key) <==>
      (key in KeySet(user, batch) && Takes(replies(b), key)) || Taken(rest, user, replies, b + 1, upTo - 1, key)
  {
    hide KeySet, Takes;
    var all := [batch] + rest;
    if k: nat :| k < upTo && k < |all| && key in KeySet(user, all[k]) && Takes(replies(b + k), key) {
      assert k > 0 ==> rest[k - 1] == all[k] && b + 1 + (k - 1) == b + k;
    }
    if k: nat :| k < upTo - 1 && k < |rest| && key in KeySet(user, rest[k]) && Takes(replies(b + 1 + k), key) {
      assert all[k + 1] == rest[k] && b + (k + 1) == b + 1 + k;
    }
    assert all[0] == batch && b + 0 == b;
  }

  lemma TakenByNone(batches: seq<seq<Uuid>>, user: Uuid, replies: BatchReplies, b: nat, key: RomanceKey)
    ensures !Taken(batches, user, replies, b, 0, key)
  {
  }

  lemma ChunksFirst(s: seq<Uuid>)
    requires s != []
    ensures Chunks(s) == [FirstOf(s, 25)] + Chunks(s[|FirstOf(s, 25)|..])
  {
    var first := FirstOf(s, 25);
    if |s| <= 25 {
      assert first == s && s[|first|..] == [];
    }
  }

  // The batches that are written if nothing fails: all, or those before the one with the first invalid id, at n.
  function BatchesBefore(peers: seq<Uuid>, n: nat): nat {
    if n >= |peers| then |Chunks(peers)| else n / 25
  }

  // For every list without repeats in a batch and every sequence of answers: f is the first write that fails, or the
  // number of batches due. The call stops there; what is gone is what the writes up to there took; and the error is
  // the failed write's, else the invalid id's, else none.
  lemma {:induction false} GroupDeletionExactly(
      rows: Rows, userKey: ActiveUserKey, peers: seq<Uuid>, replies: BatchReplies, b: nat, n: nat, f: nat,
      key: RomanceKey)
    requires BatchesRepeatNobody(peers)
    requires n <= |peers| && AllValid(userKey, peers[..n]) && (n < |peers| ==> !ValidPeer(userKey, peers[n]))
    requires f <= BatchesBefore(peers, n) && forall c :: b <= c < b + f ==> replies(c).Carried?
    requires f < BatchesBefore(peers, n) ==> replies(b + f).Failed?
    ensures var (after, error) := DeleteGroup(rows, userKey, peers, replies, b);
      var due := BatchesBefore(peers, n);
      && error == (if f < due then Some(WriteFailed)
                   else if n < |peers| then Some(InvalidPeer(IdErrorOf(userKey, peers[n])))
                   else None)
      && (key in after <==>
            key in rows && !Taken(Chunks(peers), userKey.user, replies, b, if f < due then f + 1 else due, key))
    decreases |peers|
  {
    hide KeySet, DeleteGroup, NoRepeats, Chunks, Takes, Taken, AllValid, BatchWrite, KeysOf;
    var batch, user := FirstOf(peers, 25), userKey.user;
    TakenByNone(Chunks(peers), user, replies, b, key);
    if peers == [] {
      NothingToDelete(rows, userKey, replies, b);
      NoChunks();
    } else if n < |batch| {
      FirstBatchIsInvalid(rows, userKey, peers, replies, b, n);
    } else {
      var rest := peers[|batch|..];
      ChunksFirst(peers);
      assert batch == peers[..|batch|];
      ValidAfter(userKey, peers, n, |batch|);
      FirstBatchIsWritten(rows, userKey, peers, replies, b, key);
      var due := BatchesBefore(peers, n);
      TakenByFirstOrRest(batch, Chunks(rest), user, replies, b, if f < due then f + 1 else due, key);
      TakenByNone(Chunks(rest), user, replies, b + 1, key);
      if f > 0 {
        assert replies(b).Carried?;
        var written := BatchWrite(rows, KeysOf(userKey, batch), replies(b)).0;
        GroupDeletionExactly(written, userKey, rest, replies, b + 1, n - |batch|, f - 1, key);
      }
    }
  }

  lemma ValidAfter(userKey: ActiveUserKey, peers: seq<Uuid>, n: nat, m: nat)
    requires m <= n <= |peers| && AllValid(userKey, peers[..n])
    ensures AllValid(userKey, peers[m..][..n - m]) && AllValid(userKey, peers[..m])
    ensures n < |peers| ==> peers[m..][n - m] == peers[n]
  {
    assert peers[m..][..n - m] == peers[..n][m..];
    assert peers[..m] == peers[..n][..m];
  }

  lemma NoChunks()
    ensures Chunks([]) == []
  {
  }

  lemma FirstBatchIsWritten(
      rows: Rows, userKey: ActiveUserKey, peers: seq<Uuid>, replies: BatchReplies, b: nat, key: RomanceKey)
    requires peers != [] && BatchesRepeatNobody(peers) && AllValid(userKey, FirstOf(peers, 25))
    ensures var batch := FirstOf(peers, 25);
      var (written, ok) := BatchWrite(rows, KeysOf(userKey, batch), replies(b));
      && ok == replies(b).Carried?
      && (key in written <==> key in rows && !(key in KeySet(userKey.user, batch) && Takes(replies(b), key)))
      && DeleteGroup(rows, userKey, peers, replies, b) ==
         if ok then DeleteGroup(written, userKey, peers[|batch|..], replies, b + 1) else (written, Some(WriteFailed))
  {
    hide KeySet, KeysOf, NoRepeats;
    KeysOfPeers(userKey, FirstOf(peers, 25));
  }
}
