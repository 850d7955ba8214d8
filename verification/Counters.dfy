/**
 Hourly and lifetime counters: one transaction of four updates per counted vote, hourly rows that may
 disappear 48 hours after their hour, and windows read back by summing the hourly rows.
 */
module Counters {
  import opened Results
  import opened Identity
  import opened Widths

  // An hour is 3600 seconds.
  const TTL_HOURS := 48
  const TTL_SECONDS := 172800
  const LIFETIME_KEY := 0

  // ---------- Hours ----------

  // The local clock fields of an instant, cut to the hour and relabelled as UTC; zone is the offset of
  // the process in seconds. The reads pass UTC times, the add operation passes a local one.
  function HourStart(unix: int, zone: int): int {
    (unix + zone) / 3600 * 3600
  }

  // time.Time's zero value, the first second of year 1
  const ZERO_TIME := -62135596800

  datatype GroupError = ZeroEventTime

  function NewCounterUpdateGroup(eventTime: int, zone: int): (r: Result<int, GroupError>)
    ensures r.Err? <==> eventTime == -62135596800
    ensures r.Ok? ==> r.value % 3600 == 0 && r.value <= eventTime + zone < r.value + 3600
  {
    if eventTime == ZERO_TIME then Err(ZeroEventTime) else Ok(HourStart(eventTime, zone))
  }

  predicate OnTheHour(hour: int) {
    hour % 3600 == 0
  }

  // The one multiple of an hour within the hour up to the instant.
  lemma HourStartIsTheHour(unix: int, zone: int, hour: int)
    ensures HourStart(unix, zone) == hour <==> OnTheHour(hour) && hour <= unix + zone < hour + 3600
  {
  }

  lemma HourStartIsMonotone(unix: int, later: int, zone: int)
    requires unix <= later
    ensures HourStart(unix, zone) <= HourStart(later, zone)
  {
  }

  // The relabelled hour is the true UTC hour exactly when the zone does not carry the instant out of it.
  lemma RelabellingIsHarmlessIff(unix: int, zone: int)
    ensures HourStart(unix, zone) == HourStart(unix, 0) <==> 0 <= unix % 3600 + zone < 3600
  {
  }

  // ---------- Counts ----------

  datatype Counts = Counts(incomingYes: nat, incomingNo: nat, outgoingYes: nat, outgoingNo: nat)

  const ZERO := Counts(0, 0, 0, 0)

  function Plus(a: Counts, b: Counts): Counts {
    Counts(
      a.incomingYes + b.incomingYes, a.incomingNo + b.incomingNo,
      a.outgoingYes + b.outgoingYes, a.outgoingNo + b.outgoingNo)
  }

  predicate Leq(a: Counts, b: Counts) {
    && a.incomingYes <= b.incomingYes && a.incomingNo <= b.incomingNo
    && a.outgoingYes <= b.outgoingYes && a.outgoingNo <= b.outgoingNo
  }

  // The four uint32 fields of a group after unsigned addition.
  function Wrap(a: Counts): Counts {
    Counts(Uint32(a.incomingYes), Uint32(a.incomingNo), Uint32(a.outgoingYes), Uint32(a.outgoingNo))
  }

  predicate FitsUint32(a: Counts) {
    && a.incomingYes < 0x1_0000_0000 && a.incomingNo < 0x1_0000_0000
    && a.outgoingYes < 0x1_0000_0000 && a.outgoingNo < 0x1_0000_0000
  }

  lemma WrapAbsorbs(a: Counts, b: Counts)
    ensures Wrap(Plus(Wrap(a), b)) == Wrap(Plus(a, b)) == Wrap(Plus(b, a))
    ensures FitsUint32(a) ==> Wrap(a) == a
  {
    hide Uint32;
    Uint32Absorbs(a.incomingYes, b.incomingYes);
    Uint32Absorbs(a.incomingNo, b.incomingNo);
    Uint32Absorbs(a.outgoingYes, b.outgoingYes);
    Uint32Absorbs(a.outgoingNo, b.outgoingNo);
  }

  // ---------- Rows and the increment transaction ----------

  datatype CounterKey = CounterKey(user: Uuid, hour: int)

  datatype CounterRow = CounterRow(counts: Counts, ttl: Option<int>)

  type Table = map<CounterKey, CounterRow>

  function CountsAt(rows: Table, user: Uuid, hour: int): Counts {
    if CounterKey(user, hour) in rows then rows[CounterKey(user, hour)].counts else ZERO
  }

  // One update of the transaction; a lifetime update does not mention the ttl attribute.
  datatype Update = Update(key: CounterKey, increment: Counts, ttl: Option<int>)

  function ApplyUpdate(rows: Table, update: Update): Table {
    var ttl :=
      if update.ttl.Some? then update.ttl else if update.key in rows then rows[update.key].ttl else None;
    rows[update.key := CounterRow(Plus(CountsAt(rows, update.key.user, update.key.hour), update.increment), ttl)]
  }

  function ApplyUpdates(rows: Table, updates: seq<Update>): Table {
    if updates == [] then rows else ApplyUpdate(ApplyUpdates(rows, updates[..|updates| - 1]), updates[|updates| - 1])
  }

  // DynamoDB rejects a transaction that names one item twice.
  predicate DistinctKeys(updates: seq<Update>) {
    forall i, j :: 0 <= i < j < |updates| ==> updates[i].key != updates[j].key
  }

  function OutgoingIncrement(positive: bool): Counts {
    if positive then Counts(0, 0, 1, 0) else Counts(0, 0, 0, 1)
  }

  function IncomingIncrement(positive: bool): Counts {
    if positive then Counts(1, 0, 0, 0) else Counts(0, 1, 0, 0)
  }

  function IncrUpdates(id: VoteId, hour: int, positive: bool): seq<Update> {
    var ttl := Some(hour + TTL_SECONDS);
    [ Update(CounterKey(id.active, hour), OutgoingIncrement(positive), ttl),
      Update(CounterKey(id.active, LIFETIME_KEY), OutgoingIncrement(positive), None),
      Update(CounterKey(id.peer, hour), IncomingIncrement(positive), ttl),
      Update(CounterKey(id.peer, LIFETIME_KEY), IncomingIncrement(positive), None) ]
  }

  // Only in the first hour of the epoch does an hourly row collide with the lifetime row.
  lemma KeysAreDistinctIff(id: VoteId, hour: int, positive: bool)
    ensures DistinctKeys(IncrUpdates(id, hour, positive)) <==> hour != 0
  {
    var updates := IncrUpdates(id, hour, positive);
    assert updates[0].key == CounterKey(id.active, hour) && updates[1].key == CounterKey(id.active, LIFETIME_KEY);
  }

  // ---------- The log the rows index ----------

  datatype VoteEvent = VoteEvent(active: Uuid, peer: Uuid, positive: bool, hour: int)

  // What one event contributes to one user.
  function Share(event: VoteEvent, user: Uuid): Counts {
    Counts(
      if event.peer == user && event.positive then 1 else 0,
      if event.peer == user && !event.positive then 1 else 0,
      if event.active == user && event.positive then 1 else 0,
      if event.active == user && !event.positive then 1 else 0)
  }

  function LogAll(log: seq<VoteEvent>, user: Uuid): Counts {
    if log == [] then ZERO else Plus(LogAll(log[..|log| - 1], user), Share(log[|log| - 1], user))
  }

  function LogIn(log: seq<VoteEvent>, user: Uuid, hours: set<int>): Counts {
    if log == [] then ZERO
    else
      Plus(LogIn(log[..|log| - 1], user, hours),
           if log[|log| - 1].hour in hours then Share(log[|log| - 1], user) else ZERO)
  }

  function LogFrom(log: seq<VoteEvent>, user: Uuid, from: int): Counts {
    if log == [] then ZERO
    else
      Plus(LogFrom(log[..|log| - 1], user, from),
           if log[|log| - 1].hour >= from then Share(log[|log| - 1], user) else ZERO)
  }

  // ---------- Sums over hourly rows ----------

  // The hours of the user's rows in the range of a query.
  function HoursFrom(rows: Table, user: Uuid, from: int): (hours: set<int>)
    ensures forall h :: h in hours <==> h >= from && CounterKey(user, h) in rows
  {
    var hours := set key | key in rows && key.user == user && key.hour >= from :: key.hour;
    assert forall h :: h >= from && CounterKey(user, h) in rows ==> CounterKey(user, h).hour in hours;
    hours
  }

  ghost function SumHours(rows: Table, user: Uuid, hours: set<int>): Counts {
    if hours == {} then ZERO
    else
      var h := Pick(hours);
      Plus(CountsAt(rows, user, h), SumHours(rows, user, hours - {h}))
  }

  lemma SomeHour(hours: set<int>)
    requires hours != {}
    ensures exists h :: h in hours
  {
    if forall h :: h !in hours {
      assert false;
    }
  }

  ghost function Pick(hours: set<int>): int
    requires hours != {}
  {
    SomeHour(hours);
    var h :| h in hours;
    h
  }

  lemma PlusExchanges(a: Counts, b: Counts, c: Counts)
    ensures Plus(a, Plus(b, c)) == Plus(b, Plus(a, c))
  {
  }

  lemma {:induction false} SumHoursTakes(rows: Table, user: Uuid, hours: set<int>, x: int)
    requires x in hours
    ensures SumHours(rows, user, hours) == Plus(CountsAt(rows, user, x), SumHours(rows, user, hours - {x}))
    decreases hours
  {
    hide Plus, CountsAt;
    var h := Pick(hours);
    if h != x {
      PlusExchanges(CountsAt(rows, user, h), CountsAt(rows, user, x), SumHours(rows, user, hours - {h} - {x}));
      SumHoursTakes(rows, user, hours - {h}, x);
      SumHoursTakes(rows, user, hours - {x}, h);
      assert hours - {h} - {x} == hours - {x} - {h};
    }
  }

  // ---------- The repository ----------

  datatype ReadError = StoreError | Malformed

  datatype Group = Group(hour: int, counts: Counts)

  predicate RowReadable(hour: int, counts: Counts) {
    FitsInt32(hour) && FitsUint32(counts)
  }

  // What HoursOffsetGroups guarantees of its values.
  predicate ValidOffsets(offsets: seq<nat>) {
    && offsets != []
    && (forall i :: 0 <= i < |offsets| ==> 1 <= offsets[i] <= 48)
    && (forall i, j :: 0 <= i < j < |offsets| ==> offsets[i] < offsets[j])
  }

  function WindowStart(now: int, offset: nat): int {
    HourStart(now - offset * 3600, 0)
  }

  class CountersRepository {
    var rows: Table

    constructor ()
      ensures rows == map[]
    {
      rows := map[];
    }

    // incrCounters: all four updates or none. IncrYesCounters and IncrNoCounters call it and only log errors.
    method IncrCounters(id: VoteId, hour: int, positive: bool, refused: bool) returns (applied: bool)
      modifies this
      ensures applied <==> !refused && hour != 0
      ensures rows == if applied then ApplyUpdates(old(rows), IncrUpdates(id, hour, positive)) else old(rows)
    {
      KeysAreDistinctIff(id, hour, positive);
      if refused || hour == LIFETIME_KEY {
        return false;
      }
      rows := ApplyUpdates(rows, IncrUpdates(id, hour, positive));
      return true;
    }

    // An absent row is answered with an empty group. A row is answered unchanged exactly when its four counts are
    // unsigned 32-bit numbers.
    method GetLifetimeCounter(user: Uuid, refused: bool) returns (r: Result<Counts, ReadError>)
      ensures refused ==> r == Err(StoreError)
      ensures !refused ==>
        var counts := CountsAt(rows, user, 0);
        r == if counts.incomingYes <= 4294967295 && counts.incomingNo <= 4294967295
                && counts.outgoingYes <= 4294967295 && counts.outgoingNo <= 4294967295
             then Ok(counts)
             else Err(Malformed)
    {
      if refused {
        return Err(StoreError);
      }
      var key := CounterKey(user, LIFETIME_KEY);
      if key !in rows {
        return Ok(ZERO);
      }
      if !FitsUint32(rows[key].counts) {
        return Err(Malformed);
      }
      return Ok(rows[key].counts);
    }

    // clock[i] is what the clock shows while group i is prepared, the last entry while the filter is.
    method GetHourlyCounters(user: Uuid, offsets: seq<nat>, clock: seq<int>, refused: bool)
      returns (r: Result<map<nat, Group>, ReadError>)
      requires ValidOffsets(offsets) && |clock| == |offsets| + 1
      ensures
        var filter := WindowStart(clock[|offsets|], offsets[|offsets| - 1]);
        var hours := HoursFrom(rows, user, filter);
        if refused then r == Err(StoreError)
        else if !(forall h :: h in hours ==>
                    && -2147483648 <= h <= 2147483647
                    && CountsAt(rows, user, h).incomingYes <= 4294967295
                    && CountsAt(rows, user, h).incomingNo <= 4294967295
                    && CountsAt(rows, user, h).outgoingYes <= 4294967295
                    && CountsAt(rows, user, h).outgoingNo <= 4294967295)
        then r == Err(Malformed)
        else
          && r.Ok? && r.value.Keys == (set i | 0 <= i < |offsets| :: offsets[i])
          && forall i :: 0 <= i < |offsets| ==>
               var start := Int32(WindowStart(clock[i], offsets[i]));
               r.value[offsets[i]] == Group(start, Wrap(SumHours(rows, user, Above(hours, start))))
    {
      var groups, maxHour := PrepareGroups(offsets, clock);
      var filter := WindowStart(clock[|offsets|], maxHour);
      if refused {
        return Err(StoreError);
      }
      r := AddRows(rows, user, HoursFrom(rows, user, filter), groups);
    }
  }

  predicate AllReadable(rows: Table, user: Uuid, hours: set<int>) {
    forall h :: h in hours ==> RowReadable(h, CountsAt(rows, user, h))
  }

  method PrepareGroups(offsets: seq<nat>, clock: seq<int>) returns (groups: map<nat, Group>, maxHour: nat)
    requires ValidOffsets(offsets) && |clock| == |offsets| + 1
    ensures maxHour == offsets[|offsets| - 1]
    ensures groups.Keys == set i | 0 <= i < |offsets| :: offsets[i]
    ensures forall i :: 0 <= i < |offsets| ==>
      groups[offsets[i]] == Group(Int32(WindowStart(clock[i], offsets[i])), ZERO)
  {
    groups, maxHour := map[], 0;
    for i := 0 to |offsets|
      invariant groups.Keys == set j | 0 <= j < i :: offsets[j]
      invariant forall j :: 0 <= j < i ==>
        groups[offsets[j]] == Group(Int32(WindowStart(clock[j], offsets[j])), ZERO)
      invariant maxHour == if i == 0 then 0 else offsets[i - 1]
    {
      groups := groups[offsets[i] := Group(Int32(WindowStart(clock[i], offsets[i])), ZERO)];
      if offsets[i] > maxHour {
        maxHour := offsets[i];
      }
    }
  }

  // The loop over the queried rows, in whatever order they come.
  method AddRows(rows: Table, user: Uuid, hours: set<int>, groups: map<nat, Group>)
    returns (r: Result<map<nat, Group>, ReadError>)
    requires forall k :: k in groups ==> groups[k].counts == ZERO
    ensures !AllReadable(rows, user, hours) ==> r == Err(Malformed)
    ensures AllReadable(rows, user, hours) ==>
      && r.Ok? && r.value.Keys == groups.Keys
      && forall k :: k in groups ==>
           r.value[k] == Group(groups[k].hour, Wrap(SumHours(rows, user, Above(hours, groups[k].hour))))
  {
    var result := groups;
    var left := hours;
    while left != {}
      invariant left <= hours
      invariant AllReadable(rows, user, hours - left)
      invariant result.Keys == groups.Keys
      invariant forall k :: k in groups ==>
        result[k] == Group(groups[k].hour, Wrap(SumHours(rows, user, Above(hours - left, groups[k].hour))))
      decreases left
    {
      SomeHour(left);
      var h :| h in left;
      var counts := CountsAt(rows, user, h);
      if !RowReadable(h, counts) {
        return Err(Malformed);
      }
      ghost var seen := hours - left;
      left := left - {h};
      assert hours - left == seen + {h};
      forall k | k in groups {
        AboveGrows(rows, user, seen, h, groups[k].hour);
      }
      result := AddToGroups(result, h, counts);
    }
    assert hours - left == hours;
    return Ok(result);
  }

  // The queried hours that a group's own bound lets through.
  function Above(hours: set<int>, start: int): set<int> {
    set h | h in hours && h >= start
  }

  lemma AboveGrows(rows: Table, user: Uuid, seen: set<int>, h: int, start: int)
    requires h !in seen
    ensures Wrap(SumHours(rows, user, Above(seen + {h}, start))) ==
      if h < start then Wrap(SumHours(rows, user, Above(seen, start)))
      else Wrap(Plus(Wrap(SumHours(rows, user, Above(seen, start))), CountsAt(rows, user, h)))
  {
    hide Wrap, Plus, CountsAt, SumHours;
    if h < start {
      assert Above(seen + {h}, start) == Above(seen, start);
    } else {
      SumHoursTakes(rows, user, Above(seen + {h}, start), h);
      assert Above(seen + {h}, start) - {h} == Above(seen, start);
      WrapAbsorbs(SumHours(rows, user, Above(seen, start)), CountsAt(rows, user, h));
    }
  }

  // The inner loop: one row is added to every group whose window it is in.
  method AddToGroups(groups: map<nat, Group>, hour: int, counts: Counts) returns (r: map<nat, Group>)
    ensures r.Keys == groups.Keys
    ensures forall k :: k in groups ==>
      r[k] == if hour < groups[k].hour then groups[k]
              else Group(groups[k].hour, Wrap(Plus(groups[k].counts, counts)))
  {
    r := groups;
    var left := groups.Keys;
    while left != {}
      invariant left <= groups.Keys == r.Keys
      invariant forall k :: k in left ==> r[k] == groups[k]
      invariant forall k :: k in groups && k !in left ==>
        r[k] == if hour < groups[k].hour then groups[k]
                else Group(groups[k].hour, Wrap(Plus(groups[k].counts, counts)))
      decreases left
    {
      var k :| k in left;
      left := left - {k};
      if hour < r[k].hour {
        continue;
      }
      r := r[k := Group(r[k].hour, Wrap(Plus(r[k].counts, counts)))];
    }
  }
}
