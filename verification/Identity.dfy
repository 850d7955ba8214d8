/** User ids, directed vote ids, and the canonical table key of an unordered pair of users. */
module Identity {
  import opened Results

  // ---------- Sixteen bytes as a number ----------

  newtype byte = x: int | 0 <= x < 256

  // bytes.Compare(a, b) == -1
  predicate Less(a: seq<byte>, b: seq<byte>) {
    if a == [] then b != []
    else if b == [] then false
    else a[0] < b[0] || (a[0] == b[0] && Less(a[1..], b[1..]))
  }

  function Power256(n: nat): (p: nat)
    ensures p > 0
  {
    if n == 0 then 1 else 256 * Power256(n - 1)
  }

  // Big-endian value.
  function Number(bytes: seq<byte>): nat {
    if bytes == [] then 0 else bytes[0] as nat * Power256(|bytes| - 1) + Number(bytes[1..])
  }

  // The leading digit decides, whatever the rest.
  lemma LeadingDigitDecides(p: nat, x: nat, y: nat, u: nat, v: nat)
    requires x < y && u < p
    ensures x * p + u < y * p + v
  {
    var more := y - x - 1;
    assert y * p == x * p + p + more * p by {
      assert y == x + 1 + more;
    }
    assert more * p >= 0;
  }

  lemma {:induction false} NumberIsBounded(bytes: seq<byte>)
    ensures Number(bytes) < Power256(|bytes|)
  {
    if bytes != [] {
      NumberIsBounded(bytes[1..]);
      LeadingDigitDecides(Power256(|bytes| - 1), bytes[0] as nat, 256, Number(bytes[1..]), 0);
    }
  }

  // Comparing ids byte by byte is comparing them as numbers, so the model uses the numbers.
  lemma {:induction false} ByteOrderIsNumericOrder(a: seq<byte>, b: seq<byte>)
    requires |a| == |b|
    ensures Less(a, b) <==> Number(a) < Number(b)
    ensures a == b <==> Number(a) == Number(b)
  {
    if a != [] {
      var p, u, v := Power256(|a| - 1), Number(a[1..]), Number(b[1..]);
      ByteOrderIsNumericOrder(a[1..], b[1..]);
      NumberIsBounded(a[1..]);
      NumberIsBounded(b[1..]);
      assert a == [a[0]] + a[1..] && b == [b[0]] + b[1..];
      if a[0] < b[0] {
        LeadingDigitDecides(p, a[0] as nat, b[0] as nat, u, v);
      } else if b[0] < a[0] {
        LeadingDigitDecides(p, b[0] as nat, a[0] as nat, v, u);
      }
    }
  }

  // ---------- Ids ----------

  // A 16-byte uuid, as its number.
  type Uuid = n: nat | n < 0x1_0000_0000_0000_0000_0000_0000_0000_0000

  type Country = n: nat | n < 0x1_0000

  const NIL_UUID: Uuid := 0

  datatype IdError = ZeroCountry | NilActiveUser | NilPeerUser | SameUser

  datatype RawVoteId = VoteId(country: Country, active: Uuid, peer: Uuid) {
    predicate Valid() {
      country != 0 && active != NIL_UUID && peer != NIL_UUID && active != peer
    }
  }

  // A vote id can only be obtained through NewVoteId, so every one in use is valid.
  type VoteId = id: RawVoteId | id.Valid()
    witness VoteId(1, 1, 2)

  function NewVoteId(country: Country, active: Uuid, peer: Uuid): (r: Result<VoteId, IdError>)
    ensures r.Ok? <==> VoteId(country, active, peer).Valid()
    ensures r.Ok? ==> r.value == VoteId(country, active, peer)
    ensures r.Err? ==>
      match r.error
      case ZeroCountry => country == 0
      case NilActiveUser => active == NIL_UUID
      case NilPeerUser => peer == NIL_UUID != active
      case SameUser => peer == active != NIL_UUID
  {
    if country == 0 then Err(ZeroCountry)
    else if active == NIL_UUID then Err(NilActiveUser)
    else if peer == NIL_UUID then Err(NilPeerUser)
    else if active == peer then Err(SameUser)
    else Ok(VoteId(country, active, peer))
  }

  function ToPeerVoteId(id: VoteId): (r: VoteId)
    ensures r.active == id.peer && r.peer == id.active && r.country == id.country
  {
    VoteId(id.country, id.peer, id.active)
  }

  datatype RawUserKey = ActiveUserKey(country: Country, user: Uuid)

  type ActiveUserKey = key: RawUserKey | key.country != 0 && key.user != NIL_UUID
    witness ActiveUserKey(1, 1)

  function NewActiveUserKey(country: Country, user: Uuid): (r: Result<ActiveUserKey, IdError>)
    ensures r.Ok? <==> country != 0 && user != NIL_UUID
    ensures r.Ok? ==> r.value == ActiveUserKey(country, user)
    ensures r.Err? ==> if r.error.ZeroCountry? then country == 0 else r.error.NilActiveUser? && user == NIL_UUID
  {
    if country == 0 then Err(ZeroCountry)
    else if user == NIL_UUID then Err(NilActiveUser)
    else Ok(ActiveUserKey(country, user))
  }

  datatype RawKey = RomanceKey(pk: Uuid, sk: Uuid)

  // Every key the repository builds has its users in byte order, and neither is nil.
  type RomanceKey = k: RawKey | NIL_UUID < k.pk < k.sk
    witness RomanceKey(1, 2)

  function KeyOf(id: VoteId): (k: RomanceKey)
    ensures Covers(k, id)
  {
    if id.active < id.peer then RomanceKey(id.active, id.peer)
    else RomanceKey(id.peer, id.active)
  }

  // The two users of the id are the two users of the key.
  predicate Covers(k: RomanceKey, id: VoteId) {
    (k.pk == id.active && k.sk == id.peer) || (k.pk == id.peer && k.sk == id.active)
  }

  // The peer's peer is the user again, and both sides of a pair have the same row.
  lemma PeerOfPeerIsSelf(id: VoteId)
    ensures ToPeerVoteId(ToPeerVoteId(id)) == id && ToPeerVoteId(id) != id
    ensures KeyOf(ToPeerVoteId(id)) == KeyOf(id)
    ensures IsPartitionKey(KeyOf(id), id.active) <==> !IsPartitionKey(KeyOf(id), ToPeerVoteId(id).active)
  {
    KeysNameUnorderedPairs(id, ToPeerVoteId(id));
  }

  lemma KeysNameUnorderedPairs(x: VoteId, y: VoteId)
    ensures KeyOf(x) == KeyOf(y) <==> {x.active, x.peer} == {y.active, y.peer}
    ensures KeyOf(x) == KeyOf(ToPeerVoteId(x))
  {
    assert x.active in {x.active, x.peer} && x.peer in {x.active, x.peer};
    assert y.active in {y.active, y.peer} && y.peer in {y.active, y.peer};
  }

  predicate IsPartitionKey(key: RomanceKey, user: Uuid) {
    user == key.pk
  }

  // The other user of a row; the partition key user when the given one is not in the row at all.
  function OtherUser(key: RomanceKey, user: Uuid): Uuid {
    if user == key.pk then key.sk else key.pk
  }
}
