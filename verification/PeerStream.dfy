/**
 The stream of all users who share a row with one user: a paged query of the table, then a paged query of
 the index that has the two users of each row the other way round. Both queries share one variable for the
 key to resume from, a failed query or an undecodable row ends a side silently, and DynamoDB refuses a
 resume key outside the queried partition. The table stands still while the stream is read.
 */
module PeerStream {
  import opened Results
  import opened Identity
  import opened Romances

  type Rows = map<RomanceKey, Row>

  // ---------- The two sides ----------

  datatype Side = Table | Index

  predicate On(side: Side, key: RomanceKey, user: Uuid) {
    if side.Table? then key.pk == user else key.sk == user
  }

  predicate Contains(key: RomanceKey, user: Uuid) {
    key.pk == user || key.sk == user
  }

  function PeersOn(rows: Rows, side: Side, user: Uuid): set<Uuid> {
    set key | key in rows && On(side, key, user) :: OtherUser(key, user)
  }

  function Peers(rows: Rows, user: Uuid): set<Uuid> {
    set key | key in rows && Contains(key, user) :: OtherUser(key, user)
  }

  predicate CanPair(side: Side, user: Uuid, peer: Uuid) {
    NIL_UUID < user && NIL_UUID < peer && if side.Table? then user < peer else peer < user
  }

  function PairKey(user: Uuid, peer: Uuid): (key: RomanceKey)
    requires NIL_UUID < user && NIL_UUID < peer && user != peer
    ensures Contains(key, user) && Contains(key, peer) && OtherUser(key, user) == peer
  {
    if user < peer then RomanceKey(user, peer) else RomanceKey(peer, user)
  }

  // Keys are in byte order, so a row is on one side of each of its users, and never on both.
  lemma SidesSplitThePeers(rows: Rows, user: Uuid)
    ensures PeersOn(rows, Table, user) + PeersOn(rows, Index, user) == Peers(rows, user)
    ensures PeersOn(rows, Table, user) !! PeersOn(rows, Index, user)
    ensures forall side, peer :: peer in PeersOn(rows, side, user) ==>
      CanPair(side, user, peer) && PairKey(user, peer) in rows
  {
    forall side, peer | peer in PeersOn(rows, side, user)
      ensures CanPair(side, user, peer) && PairKey(user, peer) in rows && peer in Peers(rows, user)
    {
      var key :| key in rows && On(side, key, user) && OtherUser(key, user) == peer;
      assert Contains(key, user) && PairKey(user, peer) == key;
    }
    forall peer | peer in Peers(rows, user)
      ensures peer in PeersOn(rows, Table, user) + PeersOn(rows, Index, user)
    {
      var key :| key in rows && Contains(key, user) && OtherUser(key, user) == peer;
      assert On(Table, key, user) || On(Index, key, user);
    }
  }

  // ---------- Sorted listings ----------

  ghost predicate StrictlyIncreasing(s: seq<Uuid>) {
    forall i, j :: 0 <= i < j < |s| ==> s[i] < s[j]
  }

  lemma {:induction false} GreatestExists(s: set<Uuid>) returns (m: Uuid)
    requires s != {}
    ensures m in s && forall x :: x in s ==> x <= m
  {
    var some :| some in s;
    m := some;
    if s - {some} != {} {
      var other := GreatestExists(s - {some});
      m := if other > some then other else some;
    }
    forall x | x in s
      ensures x <= m
    {
      assert x == some || x in s - {some};
    }
  }

  function Greatest(s: set<Uuid>): (m: Uuid)
    requires s != {}
    ensures m in s && forall x :: x in s ==> x <= m
  {
    assert exists m: Uuid :: m in s && forall x :: x in s ==> x <= m by {
      var m := GreatestExists(s);
    }
    var m :| m in s && forall x :: x in s ==> x <= m;
    m
  }

  // The order in which a query lists the sort attributes of a partition.
  function Ascending(s: set<Uuid>): (r: seq<Uuid>)
    ensures StrictlyIncreasing(r)
    ensures forall x :: x in r <==> x in s
  {
    if s == {} then []
    else
      var m := Greatest(s);
      Ascending(s - {m}) + [m]
  }

  function Listing(rows: Rows, side: Side, user: Uuid): seq<Uuid> {
    Ascending(PeersOn(rows, side, user))
  }

  // Each entry listed is the other user of a stored row of that side.
  lemma ListedAt(rows: Rows, side: Side, user: Uuid, i: nat)
    requires i < |Listing(rows, side, user)|
    ensures var peer := Listing(rows, side, user)[i];
      peer in PeersOn(rows, side, user) && CanPair(side, user, peer) && PairKey(user, peer) in rows
  {
    SidesSplitThePeers(rows, user);
    assert Listing(rows, side, user)[i] in Listing(rows, side, user);
  }

  // How many entries come up to and including the given one.
  function PositionAfter(s: seq<Uuid>, last: Uuid): (n: nat)
    ensures n <= |s|
  {
    if s == [] || last < s[0] then 0 else 1 + PositionAfter(s[1..], last)
  }

  lemma {:induction false} ResumeAfter(s: seq<Uuid>, i: nat)
    requires StrictlyIncreasing(s) && i < |s|
    ensures PositionAfter(s, s[i]) == i + 1
  {
    if i > 0 {
      ResumeAfter(s[1..], i - 1);
    } else {
      assert |s| > 1 ==> s[0] < s[1];
    }
  }

  // ---------- Queries ----------

  // What DynamoDB does with a query from a position: fail, or give some entries, at least one if any are
  // left. A page that reaches the end may still carry a key to resume from.
  datatype Reply = Fails | Gives(size: nat, trailing: bool)

  type Replies = (Side, nat) -> Reply

  datatype Page = Page(peers: seq<Uuid>, lastEvaluatedKey: Option<RomanceKey>)

  function PageSize(left: nat, size: nat): (n: nat)
    ensures n <= left && (n == 0 <==> left == 0)
  {
    if size == 0 && left > 0 then 1 else if size < left then size else left
  }

  function Query(rows: Rows, side: Side, user: Uuid, start: Option<RomanceKey>, replies: Replies): Result<Page, Error>
  {
    if start.Some? && !On(side, start.value, user) then Err(StoreError)
    else
      var listing := Listing(rows, side, user);
      var from := if start.None? then 0 else PositionAfter(listing, OtherUser(start.value, user));
      match replies(side, from)
      case Fails => Err(StoreError)
      case Gives(size, trailing) =>
        var to := from + PageSize(|listing| - from, size);
        Ok(Page(
          listing[from..to],
          if from < to && (to < |listing| || trailing) then ResumeKey(rows, side, user, to) else None))
  }

  // The key of the last of the first n listed rows.
  function ResumeKey(rows: Rows, side: Side, user: Uuid, n: nat): Option<RomanceKey>
    requires n <= |Listing(rows, side, user)|
  {
    if n == 0 then None
    else
      ListedAt(rows, side, user, n - 1);
      Some(PairKey(user, Listing(rows, side, user)[n - 1]))
  }

  // The index projects nothing but the keys.
  const KEYS_ONLY := Row(NO_BALLOT, NO_BALLOT, 0, 0)

  function Decoded(rows: Rows, side: Side, userKey: ActiveUserKey, peer: Uuid): Result<Romance, Error>
    requires CanPair(side, userKey.user, peer) && PairKey(userKey.user, peer) in rows
  {
    var key := PairKey(userKey.user, peer);
    TransformItem(userKey.country, userKey.user, key, if side.Table? then rows[key] else KEYS_ONLY)
  }

  // ---------- Reading one side ----------

  // How many of the first n listed rows come before the first one that cannot be decoded.
  function Decodable(rows: Rows, side: Side, userKey: ActiveUserKey, n: nat): (good: nat)
    requires n <= |Listing(rows, side, userKey.user)|
    ensures good <= n
  {
    if n == 0 then 0
    else
      var good := Decodable(rows, side, userKey, n - 1);
      var peer := Listing(rows, side, userKey.user)[n - 1];
      ListedAt(rows, side, userKey.user, n - 1);
      if good == n - 1 && Decoded(rows, side, userKey, peer).Ok? then n else good
  }

  // Reading n listed rows, good of which come before the first undecodable one, from position i on:
  // how many are emitted in all, and the position of the resume key left behind (0 for none).
  function Drain(side: Side, n: nat, good: nat, i: nat, replies: Replies): (r: (nat, nat))
    requires i <= good <= n
    ensures i <= r.0 <= good && i <= r.1 <= n
    decreases n - i
  {
    match replies(side, i)
    case Fails => (i, i)
    case Gives(size, trailing) =>
      if i == n then (i, i)
      else
        var j := i + PageSize(n - i, size);
        if good < j then (good, i)
        else if j == n && !trailing then (n, i)
        else Drain(side, n, good, j, replies)
  }

  lemma {:induction false} DecodableStopsAtTheFirstFailure(rows: Rows, side: Side, userKey: ActiveUserKey, n: nat, k: nat)
    requires k < n <= |Listing(rows, side, userKey.user)|
    ensures var peer := Listing(rows, side, userKey.user)[k];
      && peer in PeersOn(rows, side, userKey.user)
      && CanPair(side, userKey.user, peer) && PairKey(userKey.user, peer) in rows
      && (k < Decodable(rows, side, userKey, n) ==>
            && Decoded(rows, side, userKey, peer).Ok?
            && Decoded(rows, side, userKey, peer).value.active.id.peer == peer)
      && (k == Decodable(rows, side, userKey, n) ==> Decoded(rows, side, userKey, peer).Err?)
  {
    hide TransformItem;
    ListedAt(rows, side, userKey.user, k);
    if k < n - 1 {
      DecodableStopsAtTheFirstFailure(rows, side, userKey, n - 1, k);
    } else {
      DecodedPeer(rows, side, userKey, Listing(rows, side, userKey.user)[k]);
    }
  }

  lemma DecodedPeer(rows: Rows, side: Side, userKey: ActiveUserKey, peer: Uuid)
    requires CanPair(side, userKey.user, peer) && PairKey(userKey.user, peer) in rows
    ensures Decoded(rows, side, userKey, peer).Ok? ==>
      Decoded(rows, side, userKey, peer).value.active.id.peer == peer
    ensures Decoded(rows, side, userKey, peer).Ok? <==>
      side.Table? ==> Readable(rows[PairKey(userKey.user, peer)])
  {
  }

  function Resumed(rows: Rows, side: Side, user: Uuid, resume: Option<RomanceKey>): nat {
    if resume.None? then 0 else PositionAfter(Listing(rows, side, user), OtherUser(resume.value, user))
  }

  lemma ResumeKeyResumes(rows: Rows, side: Side, user: Uuid, n: nat)
    requires n <= |Listing(rows, side, user)|
    ensures Resumed(rows, side, user, ResumeKey(rows, side, user, n)) == n
    ensures ResumeKey(rows, side, user, n).Some? <==> n > 0
    ensures n > 0 ==> On(side, ResumeKey(rows, side, user, n).value, user)
  {
    if n > 0 {
      ResumeAfter(Listing(rows, side, user), n - 1);
      ListedAt(rows, side, user, n - 1);
    }
  }

  function DrainFrom(rows: Rows, userKey: ActiveUserKey, side: Side, i: nat, replies: Replies): (r: (nat, nat))
    requires var n := |Listing(rows, side, userKey.user)|;
      i <= Decodable(rows, side, userKey, n)
    ensures var n := |Listing(rows, side, userKey.user)|;
      r.0 <= n && r.1 <= n
  {
    var n := |Listing(rows, side, userKey.user)|;
    Drain(side, n, Decodable(rows, side, userKey, n), i, replies)
  }

  lemma QueryAt(rows: Rows, side: Side, user: Uuid, i: nat, replies: Replies)
    requires i <= |Listing(rows, side, user)|
    ensures var listing := Listing(rows, side, user);
      var page := Query(rows, side, user, ResumeKey(rows, side, user, i), replies);
      match replies(side, i)
      case Fails => page.Err?
      case Gives(size, trailing) =>
        var j := i + PageSize(|listing| - i, size);
        page == Ok(Page(
          listing[i..j],
          if i < j && (j < |listing| || trailing) then ResumeKey(rows, side, user, j) else None))
  {
    hide Listing, On, ResumeKey, PositionAfter;
    ResumeKeyResumes(rows, side, user, i);
  }

  // One turn of the loop: what the query from position i returns, and what that means for the drain.
  lemma OneTurn(rows: Rows, userKey: ActiveUserKey, side: Side, i: nat, replies: Replies)
    requires i <= Decodable(rows, side, userKey, |Listing(rows, side, userKey.user)|)
    ensures var listing := Listing(rows, side, userKey.user);
      var good := Decodable(rows, side, userKey, |listing|);
      var page := Query(rows, side, userKey.user, ResumeKey(rows, side, userKey.user, i), replies);
      var drained := DrainFrom(rows, userKey, side, i, replies);
      if page.Err? || page.value.peers == [] then drained == (i, i)
      else
        var Page(peers, lastEvaluatedKey) := page.value;
        var j := i + |peers|;
        && j <= |listing| && peers == listing[i..j]
        && (good < j ==> drained == (good, i))
        && (j <= good && lastEvaluatedKey.None? ==> drained == (j, i))
        && (j <= good && lastEvaluatedKey.Some? ==>
              && lastEvaluatedKey == ResumeKey(rows, side, userKey.user, j)
              && drained == DrainFrom(rows, userKey, side, j, replies))
  {
    hide Listing, On, ResumeKey, PositionAfter, Decodable, Query;
    QueryAt(rows, side, userKey.user, i, replies);
    if replies(side, i).Gives? {
      var left := |Listing(rows, side, userKey.user)| - i;
      ResumeKeyResumes(rows, side, userKey.user, i + PageSize(left, replies(side, i).size));
    }
  }

  lemma SentUpTo(out: seq<Uuid>, listing: seq<Uuid>, i: nat, j: nat)
    requires i <= j <= |listing|
    ensures out + listing[..i] + listing[i..j] == out + listing[..j]
  {
  }

  // The items of one page, sent in order up to the first that cannot be decoded.
  method SendPage(
      repository: RomancesRepository, userKey: ActiveUserKey, side: Side, peers: seq<Uuid>, out: seq<Uuid>,
      ghost from: nat)
    returns (sent: seq<Uuid>, complete: bool)
    requires var listing := Listing(repository.rows, side, userKey.user);
      && from + |peers| <= |listing| && peers == listing[from..from + |peers|]
      && from <= Decodable(repository.rows, side, userKey, |listing|)
    ensures var listing := Listing(repository.rows, side, userKey.user);
      var good := Decodable(repository.rows, side, userKey, |listing|);
      && complete == (from + |peers| <= good)
      && sent == out + listing[from..if complete then from + |peers| else good]
  {
    hide Decodable, Listing, Decoded;
    ghost var listing := Listing(repository.rows, side, userKey.user);
    ghost var good := Decodable(repository.rows, side, userKey, |listing|);
    sent := out;
    for k := 0 to |peers|
      invariant from + k <= good
      invariant sent == out + listing[from..from + k]
    {
      DecodableStopsAtTheFirstFailure(repository.rows, side, userKey, |listing|, from + k);
      var romance := Decoded(repository.rows, side, userKey, peers[k]);
      if romance.Err? {
        return sent, false;
      }
      sent := sent + [romance.value.active.id.peer];
      assert listing[from..from + k] + [peers[k]] == listing[from..from + k + 1];
    }
    return sent, true;
  }

  lemma ForeignKeyIsRefused(rows: Rows, side: Side, user: Uuid, start: RomanceKey, replies: Replies)
    requires !On(side, start, user)
    ensures Query(rows, side, user, Some(start), replies).Err?
  {
  }

  // One side: page after page, until a page names no key to resume from.
  method QuerySide(
      repository: RomancesRepository, userKey: ActiveUserKey, side: Side, replies: Replies,
      lastEvaluatedKey: Option<RomanceKey>, out: seq<Uuid>)
    returns (sent: seq<Uuid>, resume: Option<RomanceKey>)
    requires lastEvaluatedKey.Some? ==> !On(side, lastEvaluatedKey.value, userKey.user)
    ensures lastEvaluatedKey.Some? ==> sent == out && resume == lastEvaluatedKey
    ensures lastEvaluatedKey.None? ==>
      var (emitted, at) := DrainFrom(repository.rows, userKey, side, 0, replies);
      && sent == out + Listing(repository.rows, side, userKey.user)[..emitted]
      && resume == ResumeKey(repository.rows, side, userKey.user, at)
  {
    hide *;
    if lastEvaluatedKey.Some? {
      ForeignKeyIsRefused(repository.rows, side, userKey.user, lastEvaluatedKey.value, replies);
    }
    sent, resume := out, lastEvaluatedKey;
    ghost var listing := Listing(repository.rows, side, userKey.user);
    ghost var good := Decodable(repository.rows, side, userKey, |listing|);
    ghost var i := 0;
    ResumeKeyResumes(repository.rows, side, userKey.user, 0);
    while true
      invariant lastEvaluatedKey.Some? ==> resume == lastEvaluatedKey && sent == out
      invariant i <= good && (lastEvaluatedKey.None? ==>
        && resume == ResumeKey(repository.rows, side, userKey.user, i) && sent == out + listing[..i]
        && DrainFrom(repository.rows, userKey, side, i, replies) ==
           DrainFrom(repository.rows, userKey, side, 0, replies))
      decreases |listing| - i
    {
      OneTurn(repository.rows, userKey, side, i, replies);
      var page := Query(repository.rows, side, userKey.user, resume, replies);
      if page.Err? || page.value.peers == [] {
        return;
      }
      var complete;
      sent, complete := SendPage(repository, userKey, side, page.value.peers, sent, i);
      SentUpTo(out, listing, i, if complete then i + |page.value.peers| else good);
      if !complete || page.value.lastEvaluatedKey.None? {
        return;
      }
      resume := page.value.lastEvaluatedKey;
      i := i + |page.value.peers|;
    }
  }

  // ---------- The whole stream ----------

  function Stream(rows: Rows, userKey: ActiveUserKey, replies: Replies): seq<Uuid> {
    var (fromTable, at) := DrainFrom(rows, userKey, Table, 0, replies);
    var (fromIndex, _) := DrainFrom(rows, userKey, Index, 0, replies);
    Listing(rows, Table, userKey.user)[..fromTable]
    + if at == 0 then Listing(rows, Index, userKey.user)[..fromIndex] else []
  }

  // The second query inherits the resume key of the first, and only works when there is none.
  method GetAllPeersForActiveUser(repository: RomancesRepository, userKey: ActiveUserKey, replies: Replies)
    returns (peers: seq<Uuid>)
    ensures peers == Stream(repository.rows, userKey, replies)
  {
    hide Decodable, Listing, ResumeKey, DrainFrom;
    var lastEvaluatedKey: Option<RomanceKey> := None;
    peers, lastEvaluatedKey := QuerySide(repository, userKey, Table, replies, lastEvaluatedKey, []);
    ResumeKeyResumes(repository.rows, Table, userKey.user, DrainFrom(repository.rows, userKey, Table, 0, replies).1);
    peers, lastEvaluatedKey := QuerySide(repository, userKey, Index, replies, lastEvaluatedKey, peers);
  }

  // Whatever goes wrong, nobody is sent twice and nobody is sent who shares no row with the user.
  lemma StreamRepeatsNobody(rows: Rows, userKey: ActiveUserKey, replies: Replies)
    ensures var stream := Stream(rows, userKey, replies);
      && (forall i, j :: 0 <= i < j < |stream| ==> stream[i] != stream[j])
      && (forall peer :: peer in stream ==> peer in Peers(rows, userKey.user))
  {
    hide DrainFrom, Listing, Peers, PeersOn;
    var user := userKey.user;
    SidesSplitThePeers(rows, user);
    ListingListsTheSide(rows, Table, user);
    ListingListsTheSide(rows, Index, user);
    var stream, table, index := Stream(rows, userKey, replies), Listing(rows, Table, user), Listing(rows, Index, user);
    var n := DrainFrom(rows, userKey, Table, 0, replies).0;
    forall i, j | 0 <= i < j < |stream|
      ensures stream[i] != stream[j]
    {
      assert i < n ==> stream[i] == table[i] && stream[i] in table;
      assert i >= n ==> stream[i] == index[i - n];
      assert j < n ==> stream[j] == table[j];
      assert j >= n ==> stream[j] == index[j - n] && stream[j] in index;
    }
  }

  lemma ListingListsTheSide(rows: Rows, side: Side, user: Uuid)
    ensures StrictlyIncreasing(Listing(rows, side, user))
    ensures forall peer :: peer in Listing(rows, side, user) <==> peer in PeersOn(rows, side, user)
  {
  }

  ghost predicate NeverFails(replies: Replies) {
    forall side, i :: replies(side, i).Gives?
  }

  // The first page of the table side is its last: it holds everything and names no key to resume from.
  predicate FitsOnePage(rows: Rows, user: Uuid, replies: Replies) {
    var n := |Listing(rows, Table, user)|;
    n == 0
    || (replies(Table, 0).Gives? && PageSize(n, replies(Table, 0).size) == n && !replies(Table, 0).trailing)
  }

  // Every row the table query returns can be decoded.
  predicate TableSideReadable(rows: Rows, user: Uuid) {
    forall key :: key in rows && On(Table, key, user) ==> Readable(rows[key])
  }

  // No query of the side fails before its end, from position i of n on. A failure at the end loses nothing.
  predicate AnsweredFrom(side: Side, n: nat, i: nat, replies: Replies)
    requires i <= n
    decreases n - i
  {
    i == n
    || (replies(side, i).Gives? && AnsweredFrom(side, n, i + PageSize(n - i, replies(side, i).size), replies))
  }

  predicate Answered(rows: Rows, side: Side, user: Uuid, replies: Replies) {
    AnsweredFrom(side, |Listing(rows, side, user)|, 0, replies)
  }

  lemma {:induction false} NeverFailsAnswers(side: Side, n: nat, i: nat, replies: Replies)
    requires i <= n && NeverFails(replies)
    ensures AnsweredFrom(side, n, i, replies)
    decreases n - i
  {
    if i < n {
      NeverFailsAnswers(side, n, i + PageSize(n - i, replies(side, i).size), replies);
    }
  }

  // A side is sent whole exactly when it can all be decoded and every query before its end is answered.
  lemma {:induction false} DrainsWholeIff(side: Side, n: nat, good: nat, i: nat, replies: Replies)
    requires i <= good <= n
    ensures Drain(side, n, good, i, replies).0 == n <==> good == n && AnsweredFrom(side, n, i, replies)
    decreases n - i
  {
    if i < n && replies(side, i).Gives? {
      var j := i + PageSize(n - i, replies(side, i).size);
      if j <= good {
        DrainsWholeIff(side, n, good, j, replies);
      }
    }
  }

  lemma {:induction false} AllDecodable(rows: Rows, side: Side, userKey: ActiveUserKey, n: nat)
    requires n <= |Listing(rows, side, userKey.user)|
    requires side.Table? ==> TableSideReadable(rows, userKey.user)
    ensures Decodable(rows, side, userKey, n) == n
  {
    hide Decoded, Listing;
    if n > 0 {
      AllDecodable(rows, side, userKey, n - 1);
      ListedAt(rows, side, userKey.user, n - 1);
      DecodedPeer(rows, side, userKey, Listing(rows, side, userKey.user)[n - 1]);
    }
  }

  lemma DecodableRowsAreReadable(rows: Rows, userKey: ActiveUserKey)
    requires var n := |Listing(rows, Table, userKey.user)|; Decodable(rows, Table, userKey, n) == n
    ensures TableSideReadable(rows, userKey.user)
  {
    hide Decoded, Listing, Decodable, Readable;
    ListingListsTheSide(rows, Table, userKey.user);
    var listing := Listing(rows, Table, userKey.user);
    forall key | key in rows && On(Table, key, userKey.user)
      ensures Readable(rows[key])
    {
      assert OtherUser(key, userKey.user) in PeersOn(rows, Table, userKey.user);
      var k :| 0 <= k < |listing| && listing[k] == OtherUser(key, userKey.user);
      DecodableStopsAtTheFirstFailure(rows, Table, userKey, |listing|, k);
      DecodedPeer(rows, Table, userKey, listing[k]);
      assert PairKey(userKey.user, listing[k]) == key;
    }
  }

  // What it takes for everybody to be named: the table side can be decoded and its queries are answered, and on
  // the index side there is nobody, or its queries are answered and the first query left no key to resume from.
  predicate NamesEverybody(rows: Rows, user: Uuid, replies: Replies) {
    && TableSideReadable(rows, user) && Answered(rows, Table, user, replies)
    && (PeersOn(rows, Index, user) == {}
        || (FitsOnePage(rows, user, replies) && Answered(rows, Index, user, replies)))
  }

  lemma TableSideIsWholeIff(rows: Rows, userKey: ActiveUserKey, replies: Replies)
    ensures var table := Listing(rows, Table, userKey.user);
      var (fromTable, at) := DrainFrom(rows, userKey, Table, 0, replies);
      && (fromTable == |table| <==> TableSideReadable(rows, userKey.user) && Answered(rows, Table, userKey.user, replies))
      && (fromTable == |table| ==> (at == 0 <==> FitsOnePage(rows, userKey.user, replies)))
  {
    hide Listing, Decodable, TableSideReadable;
    var n := |Listing(rows, Table, userKey.user)|;
    var good := Decodable(rows, Table, userKey, n);
    DrainsWholeIff(Table, n, good, 0, replies);
    if good == n {
      DecodableRowsAreReadable(rows, userKey);
    } else if TableSideReadable(rows, userKey.user) {
      AllDecodable(rows, Table, userKey, n);
      assert false;
    }
  }

  lemma IndexSideIsWholeIff(rows: Rows, userKey: ActiveUserKey, replies: Replies)
    ensures DrainFrom(rows, userKey, Index, 0, replies).0 == |Listing(rows, Index, userKey.user)| <==>
      Answered(rows, Index, userKey.user, replies)
  {
    hide Listing, Decodable, TableSideReadable;
    var n := |Listing(rows, Index, userKey.user)|;
    AllDecodable(rows, Index, userKey, n);
    DrainsWholeIff(Index, n, n, 0, replies);
  }

  // For every table and whatever the queries answer, the stream names every peer exactly under that condition.
  lemma StreamIsCompleteIff(rows: Rows, userKey: ActiveUserKey, replies: Replies)
    ensures (forall peer :: peer in Peers(rows, userKey.user) ==> peer in Stream(rows, userKey, replies))
      <==> NamesEverybody(rows, userKey.user, replies)
  {
    hide Listing, DrainFrom, PeersOn, Peers, TableSideReadable, Answered, FitsOnePage;
    var user := userKey.user;
    var table, index := Listing(rows, Table, user), Listing(rows, Index, user);
    var (fromTable, at) := DrainFrom(rows, userKey, Table, 0, replies);
    var fromIndex := DrainFrom(rows, userKey, Index, 0, replies).0;
    SidesSplitThePeers(rows, user);
    ListingListsTheSide(rows, Table, user);
    ListingListsTheSide(rows, Index, user);
    TableSideIsWholeIff(rows, userKey, replies);
    IndexSideIsWholeIff(rows, userKey, replies);
    if fromTable < |table| {
      assert table[fromTable] in table && table[fromTable] !in table[..fromTable];
      assert table[fromTable] !in index;
    } else {
      assert table[..fromTable] == table;
      assert fromIndex == |index| ==> index[..fromIndex] == index;
      if fromIndex < |index| {
        assert index[fromIndex] in index && index[fromIndex] !in index[..fromIndex];
        assert index[fromIndex] !in table;
      }
      if index != [] {
        assert index[0] in index && index[0] !in table;
      }
    }
  }

  // ---------- What is sent, entry by entry ----------

  // Every query of the side is answered up to and including the one whose page holds entry k.
  predicate AnsweredUpTo(side: Side, n: nat, i: nat, k: nat, replies: Replies)
    requires i <= k < n
    decreases n - i
  {
    && replies(side, i).Gives?
    && var next := i + PageSize(n - i, replies(side, i).size);
       (k < next || AnsweredUpTo(side, n, next, k, replies))
  }

  lemma {:induction false} DrainSendsIff(side: Side, n: nat, good: nat, i: nat, k: nat, replies: Replies)
    requires i <= good <= n && i <= k < n
    ensures k < Drain(side, n, good, i, replies).0 <==> k < good && AnsweredUpTo(side, n, i, k, replies)
    decreases n - i
  {
    if replies(side, i).Gives? {
      var j := i + PageSize(n - i, replies(side, i).size);
      if j <= good && j <= k {
        DrainSendsIff(side, n, good, j, k, replies);
      }
    }
  }

  // The rows listed on the table side up to and including entry k can all be read.
  ghost predicate ReadableUpTo(rows: Rows, user: Uuid, k: nat) {
    var listing := Listing(rows, Table, user);
    k < |listing| ==>
      forall key: RomanceKey :: key in rows && key.pk == user && key.sk <= listing[k] ==> Readable(rows[key])
  }

  lemma DecodablePastIff(rows: Rows, userKey: ActiveUserKey, k: nat)
    requires k < |Listing(rows, Table, userKey.user)|
    ensures k < Decodable(rows, Table, userKey, |Listing(rows, Table, userKey.user)|) <==>
      ReadableUpTo(rows, userKey.user, k)
  {
    hide Decoded, Listing, Decodable, Readable, PeersOn;
    var user := userKey.user;
    var listing := Listing(rows, Table, user);
    var good := Decodable(rows, Table, userKey, |listing|);
    ListingListsTheSide(rows, Table, user);
    if k < good {
      forall key: RomanceKey | key in rows && key.pk == user && key.sk <= listing[k]
        ensures Readable(rows[key])
      {
        IsOnTheTableSide(rows, key);
        var m :| 0 <= m < |listing| && listing[m] == key.sk;
        assert m <= k;
        DecodableStopsAtTheFirstFailure(rows, Table, userKey, |listing|, m);
        DecodedPeer(rows, Table, userKey, listing[m]);
      }
    } else {
      DecodableStopsAtTheFirstFailure(rows, Table, userKey, |listing|, good);
      DecodedPeer(rows, Table, userKey, listing[good]);
      var key := PairKey(user, listing[good]);
      assert key in rows && key.pk == user && key.sk <= listing[k] && !Readable(rows[key]);
    }
  }

  // On the table side, an entry is sent exactly when every row up to it can be read and every query up to its page
  // is answered; paging and the index side do not matter.
  lemma TableEntryIsSentIff(rows: Rows, userKey: ActiveUserKey, replies: Replies, k: nat)
    requires k < |Listing(rows, Table, userKey.user)|
    ensures var listing := Listing(rows, Table, userKey.user);
      listing[k] in Stream(rows, userKey, replies) <==>
        ReadableUpTo(rows, userKey.user, k) && AnsweredUpTo(Table, |listing|, 0, k, replies)
  {
    hide Listing, Decodable, PeersOn, ReadableUpTo, DrainFrom;
    var user := userKey.user;
    var table, index := Listing(rows, Table, user), Listing(rows, Index, user);
    var sent := DrainFrom(rows, userKey, Table, 0, replies).0;
    SidesSplitThePeers(rows, user);
    ListingListsTheSide(rows, Table, user);
    ListingListsTheSide(rows, Index, user);
    DrainFromSendsIff(rows, userKey, Table, k, replies);
    DecodablePastIff(rows, userKey, k);
    assert table[k] in table && table[k] !in index;
    assert table[k] in table[..sent] <==> k < sent;
  }

  lemma DrainFromSendsIff(rows: Rows, userKey: ActiveUserKey, side: Side, k: nat, replies: Replies)
    requires k < |Listing(rows, side, userKey.user)|
    ensures var n := |Listing(rows, side, userKey.user)|;
      k < DrainFrom(rows, userKey, side, 0, replies).0 <==>
        k < Decodable(rows, side, userKey, n) && AnsweredUpTo(side, n, 0, k, replies)
  {
    hide Listing, Decodable;
    var n := |Listing(rows, side, userKey.user)|;
    DrainSendsIff(side, n, Decodable(rows, side, userKey, n), 0, k, replies);
  }

  // The table side leaves no key to resume from: its first query fails, or its first page names none, or a row of
  // its first page cannot be read, so that the key it names is never taken over.
  ghost predicate LeavesNoKey(rows: Rows, user: Uuid, replies: Replies) {
    var n := |Listing(rows, Table, user)|;
    || n == 0 || replies(Table, 0).Fails?
    || (var page := PageSize(n, replies(Table, 0).size);
        (page == n && !replies(Table, 0).trailing) || !ReadableUpTo(rows, user, page - 1))
  }

  lemma NoKeyIff(rows: Rows, userKey: ActiveUserKey, replies: Replies)
    ensures DrainFrom(rows, userKey, Table, 0, replies).1 == 0 <==> LeavesNoKey(rows, userKey.user, replies)
  {
    hide Listing, Decodable, ReadableUpTo;
    var n := |Listing(rows, Table, userKey.user)|;
    if n > 0 && replies(Table, 0).Gives? {
      DecodablePastIff(rows, userKey, PageSize(n, replies(Table, 0).size) - 1);
    }
  }

  // On the index side, an entry is sent exactly when the table side left no key to resume from and every query up
  // to its page is answered.
  lemma IndexEntryIsSentIff(rows: Rows, userKey: ActiveUserKey, replies: Replies, k: nat)
    requires k < |Listing(rows, Index, userKey.user)|
    ensures var listing := Listing(rows, Index, userKey.user);
      listing[k] in Stream(rows, userKey, replies) <==>
        LeavesNoKey(rows, userKey.user, replies) && AnsweredUpTo(Index, |listing|, 0, k, replies)
  {
    hide Listing, Decodable, PeersOn, DrainFrom, LeavesNoKey, TableSideReadable;
    var user := userKey.user;
    var table, index := Listing(rows, Table, user), Listing(rows, Index, user);
    var sent := DrainFrom(rows, userKey, Index, 0, replies).0;
    SidesSplitThePeers(rows, user);
    ListingListsTheSide(rows, Table, user);
    ListingListsTheSide(rows, Index, user);
    DrainFromSendsIff(rows, userKey, Index, k, replies);
    AllDecodable(rows, Index, userKey, |index|);
    NoKeyIff(rows, userKey, replies);
    assert index[k] in index && index[k] !in table;
    assert index[k] in index[..sent] <==> k < sent;
  }

  // Peers that come after the user in byte order are sent first, then those before; each kind in ascending order.
  lemma StreamIsOrdered(rows: Rows, userKey: ActiveUserKey, replies: Replies)
    ensures var stream, user := Stream(rows, userKey, replies), userKey.user;
      forall i, j :: 0 <= i < j < |stream| ==>
        (stream[i] < stream[j] && (stream[i] > user || stream[j] < user)) || (stream[j] < user < stream[i])
  {
    hide DrainFrom, Listing, PeersOn;
    var user := userKey.user;
    SidesSplitThePeers(rows, user);
    ListingListsTheSide(rows, Table, user);
    ListingListsTheSide(rows, Index, user);
    var stream, table, index := Stream(rows, userKey, replies), Listing(rows, Table, user), Listing(rows, Index, user);
    var n := DrainFrom(rows, userKey, Table, 0, replies).0;
    forall i, j | 0 <= i < j < |stream|
      ensures (stream[i] < stream[j] && (stream[i] > user || stream[j] < user)) || (stream[j] < user < stream[i])
    {
      if j < n {
        ListedAt(rows, Table, user, i);
        assert stream[i] == table[i] && stream[j] == table[j];
      } else if i < n {
        ListedAt(rows, Table, user, i);
        ListedAt(rows, Index, user, j - n);
        assert stream[i] == table[i] && stream[j] == index[j - n];
      } else {
        ListedAt(rows, Index, user, j - n);
        assert stream[i] == index[i - n] && stream[j] == index[j - n];
      }
    }
  }

  // ---------- What is lost ----------

  // When the first page of the table side is not its last, nobody of the index side is ever sent.
  lemma SecondPageHidesTheIndexSide(rows: Rows, userKey: ActiveUserKey, replies: Replies, peer: Uuid)
    requires TableSideReadable(rows, userKey.user) && replies(Table, 0).Gives?
    requires !FitsOnePage(rows, userKey.user, replies)
    requires peer in PeersOn(rows, Index, userKey.user)
    ensures peer in Peers(rows, userKey.user) && peer !in Stream(rows, userKey, replies)
  {
    hide Listing, PeersOn, Peers, Decodable, TableSideReadable;
    SidesSplitThePeers(rows, userKey.user);
    ListingListsTheSide(rows, Table, userKey.user);
    AllDecodable(rows, Table, userKey, |Listing(rows, Table, userKey.user)|);
  }

  // A row that cannot be decoded is never named, whatever the pages.
  lemma UnreadableRowIsNeverNamed(rows: Rows, userKey: ActiveUserKey, replies: Replies, key: RomanceKey)
    requires key in rows && key.pk == userKey.user && !Readable(rows[key])
    ensures key.sk !in Stream(rows, userKey, replies)
  {
    hide Listing, PeersOn, Peers, Decodable, Decoded, Readable;
    var user, peer := userKey.user, key.sk;
    var table := Listing(rows, Table, user);
    SidesSplitThePeers(rows, user);
    ListingListsTheSide(rows, Table, user);
    ListingListsTheSide(rows, Index, user);
    IsOnTheTableSide(rows, key);
    var k :| 0 <= k < |table| && table[k] == peer;
    DecodableStopsAtTheFirstFailure(rows, Table, userKey, |table|, k);
    DecodedPeer(rows, Table, userKey, peer);
    assert Decodable(rows, Table, userKey, |table|) <= k;
    assert peer !in table[..k];
  }

  lemma IsOnTheTableSide(rows: Rows, key: RomanceKey)
    requires key in rows
    ensures key.sk in PeersOn(rows, Table, key.pk) && PairKey(key.pk, key.sk) == key
    ensures key.pk in PeersOn(rows, Index, key.sk)
  {
    assert On(Table, key, key.pk) && On(Index, key, key.sk);
    assert OtherUser(key, key.pk) == key.sk && OtherUser(key, key.sk) == key.pk;
  }

  // Three rows of user 2, one to a page: users 3 and 4 come after it in byte order, user 1 before it.
  const SAMPLE_ROW := Row(NO_BALLOT, NO_BALLOT, 1, 0)
  const SAMPLE_ROWS: Rows :=
    map[RomanceKey(2, 3) := SAMPLE_ROW, RomanceKey(2, 4) := SAMPLE_ROW, RomanceKey(1, 2) := SAMPLE_ROW]
  const SAMPLE_USER: ActiveUserKey := ActiveUserKey(1, 2)

  function OneToAPage(): Replies {
    (side, i) => Gives(1, false)
  }

  // With every query answered and every row readable, the stream still never names user 1.
  lemma PagingLosesTheIndexSide()
    ensures NeverFails(OneToAPage()) && TableSideReadable(SAMPLE_ROWS, 2)
    ensures 1 in Peers(SAMPLE_ROWS, 2) && 1 !in Stream(SAMPLE_ROWS, SAMPLE_USER, OneToAPage())
  {
    hide Listing, PeersOn, Stream, Peers;
    var table := Listing(SAMPLE_ROWS, Table, 2);
    ListingListsTheSide(SAMPLE_ROWS, Table, 2);
    IsOnTheTableSide(SAMPLE_ROWS, RomanceKey(2, 3));
    IsOnTheTableSide(SAMPLE_ROWS, RomanceKey(2, 4));
    IsOnTheTableSide(SAMPLE_ROWS, RomanceKey(1, 2));
    assert 3 in table && 4 in table;
    SecondPageHidesTheIndexSide(SAMPLE_ROWS, SAMPLE_USER, OneToAPage(), 1);
  }

  // The same user with one row, which is on the index side, whose query fails.
  const LONE_ROW: Rows := map[RomanceKey(1, 2) := SAMPLE_ROW]

  function IndexFails(): Replies {
    (side: Side, i: nat) => if side.Table? then Gives(1, false) else Fails
  }

  // The failure ends the side and is not reported: nobody is sent.
  lemma FailedQueryLosesTheIndexSide()
    ensures TableSideReadable(LONE_ROW, 2) && FitsOnePage(LONE_ROW, 2, IndexFails())
    ensures 1 in Peers(LONE_ROW, 2) && Stream(LONE_ROW, SAMPLE_USER, IndexFails()) == []
  {
    hide Listing, PeersOn, Peers, Decodable;
    SidesSplitThePeers(LONE_ROW, 2);
    ListingListsTheSide(LONE_ROW, Table, 2);
    IsOnTheTableSide(LONE_ROW, RomanceKey(1, 2));
    TableSideIsEmpty();
  }

  lemma TableSideIsEmpty()
    ensures Listing(LONE_ROW, Table, 2) == []
  {
    assert PeersOn(LONE_ROW, Table, 2) == {};
  }
}
