/** What the counters promise over every run: exact windows, bounded queries, conservation. */
module CounterGuarantees {
  import opened Results
  import opened Identity
  import opened Counters
  import opened CounterRuns
  import opened Widths

  // ---------- From rows to the log ----------

  lemma PlusIsCommutative(a: Counts, b: Counts, c: Counts)
    ensures Plus(Plus(a, b), c) == Plus(Plus(a, c), b) == Plus(a, Plus(b, c))
    ensures Plus(a, b) == Plus(b, a)
  {
  }

  lemma {:induction false} LogInSplits(log: seq<VoteEvent>, user: Uuid, hours: set<int>, x: int)
    requires x in hours
    ensures LogIn(log, user, hours) == Plus(LogIn(log, user, hours - {x}), LogIn(log, user, {x}))
  {
    hide Plus, Share;
    PlusZero(ZERO);
    if log != [] {
      var before, event := log[..|log| - 1], log[|log| - 1];
      LogInSplits(before, user, hours, x);
      var a, b, share := LogIn(before, user, hours - {x}), LogIn(before, user, {x}), Share(event, user);
      PlusIsCommutative(a, b, share);
      PlusIsCommutative(a, share, b);
      PlusZero(a);
      PlusZero(b);
      PlusZero(Plus(a, b));
    }
  }

  lemma {:induction false} EmptyLogIn(log: seq<VoteEvent>, user: Uuid)
    ensures LogIn(log, user, {}) == ZERO
  {
    hide Plus;
    PlusZero(ZERO);
    if log != [] {
      EmptyLogIn(log[..|log| - 1], user);
    }
  }

  lemma {:induction false} SumIsLogIn(rows: Table, log: seq<VoteEvent>, user: Uuid, hours: set<int>)
    requires forall h :: h in hours ==> CountsAt(rows, user, h) == LogIn(log, user, {h})
    ensures SumHours(rows, user, hours) == LogIn(log, user, hours)
    decreases hours
  {
    hide Plus, LogIn, CountsAt;
    if hours == {} {
      EmptyLogIn(log, user);
    } else {
      var h := Pick(hours);
      SumIsLogIn(rows, log, user, hours - {h});
      LogInSplits(log, user, hours, h);
      PlusIsCommutative(LogIn(log, user, hours - {h}), LogIn(log, user, {h}), ZERO);
    }
  }

  lemma {:induction false} LogInIsLogFrom(log: seq<VoteEvent>, user: Uuid, hours: set<int>, from: int)
    requires forall h :: h in hours ==> h >= from
    requires forall i :: 0 <= i < |log| && log[i].hour >= from && Share(log[i], user) != ZERO ==> log[i].hour in hours
    ensures LogIn(log, user, hours) == LogFrom(log, user, from)
  {
    if log != [] {
      LogInIsLogFrom(log[..|log| - 1], user, hours, from);
    }
  }

  lemma {:induction false} LogInCoversEvent(log: seq<VoteEvent>, user: Uuid, i: nat)
    requires i < |log|
    ensures Leq(Share(log[i], user), LogIn(log, user, {log[i].hour}))
  {
    hide Share;
    if i < |log| - 1 {
      LogInCoversEvent(log[..|log| - 1], user, i);
    }
  }

  // An event whose hour cannot have expired has a row.
  lemma EventsHaveRows(s: Store, user: Uuid, i: nat)
    requires Indexed(s) && WellKeyed(s) && i < |s.log|
    requires !MayHaveExpired(s, s.log[i].hour) && Share(s.log[i], user) != ZERO
    ensures CounterKey(user, s.log[i].hour) in s.rows
  {
    hide LogIn, Share;
    LogInCoversEvent(s.log, user, i);
    assert CountsAt(s.rows, user, s.log[i].hour) == LogIn(s.log, user, {s.log[i].hour});
  }

  // The rows from a bound on, none of which can have expired, hold exactly the logged events from it on.
  lemma WindowSumIsLogCount(s: Store, user: Uuid, from: int)
    requires Indexed(s) && WellKeyed(s) && from > LIFETIME_KEY
    requires forall h :: h >= from && OnTheHour(h) ==> !MayHaveExpired(s, h)
    ensures SumHours(s.rows, user, HoursFrom(s.rows, user, from)) == LogFrom(s.log, user, from)
  {
    hide LogIn, LogFrom, Share, OnTheHour, LogAll;
    var hours := HoursFrom(s.rows, user, from);
    forall h | h in hours
      ensures h >= from && CountsAt(s.rows, user, h) == LogIn(s.log, user, {h})
    {
      assert CounterKey(user, h) in s.rows;
    }
    forall i | 0 <= i < |s.log| && s.log[i].hour >= from && Share(s.log[i], user) != ZERO
      ensures s.log[i].hour in hours
    {
      EventsHaveRows(s, user, i);
      assert CounterKey(user, s.log[i].hour) in s.rows;
    }
    SumIsLogIn(s.rows, s.log, user, hours);
    LogInIsLogFrom(s.log, user, hours, from);
  }

  // ---------- The hourly windows ----------

  lemma WindowStartInHour(now: int, reading: int, offset: nat)
    requires HourStart(reading, 0) == HourStart(now, 0)
    ensures WindowStart(reading, offset) == HourStart(now, 0) - offset * 3600
  {
  }

  // While the clock stays within one hour and in the int32 range, the range filter drops nothing a group
  // needs, and the lifetime row at hour 0 is never counted.
  lemma FilterDropsNothing(rows: Table, user: Uuid, now: int, offset: nat, widest: nat)
    requires 1 <= offset <= widest <= TTL_HOURS && 49 * 3600 <= now < 0x8000_0000
    ensures var start := WindowStart(now, offset);
      && start > LIFETIME_KEY && Int32(start) == start
      && Above(HoursFrom(rows, user, WindowStart(now, widest)), start) == HoursFrom(rows, user, start)
  {
    WindowStartInHour(now, now, offset);
    WindowStartInHour(now, now, widest);
    var start, filter := WindowStart(now, offset), WindowStart(now, widest);
    assert filter <= start && 0 < start < now;
    assert Above(HoursFrom(rows, user, filter), start) == HoursFrom(rows, user, start) by {
      hide WindowStart;
      forall h | h in HoursFrom(rows, user, start)
        ensures h in Above(HoursFrom(rows, user, filter), start)
      {
        assert CounterKey(user, h) in rows;
      }
    }
  }

  // What GetHourlyCounters answers for an offset, over every run: the number of logged votes from that
  // window's first hour on. At 48 hours the single oldest hour is as much as its row still holds.
  lemma HourlyCountersCountTheLog(zone: int, began: int, steps: seq<Step>, user: Uuid, offset: nat, widest: nat)
    requires 1 <= offset <= widest <= 48
    requires 49 * 3600 <= Run(Init(zone, began), steps).now < 0x8000_0000
    ensures var s := Run(Init(zone, began), steps);
      var start := WindowStart(s.now, offset);
      var answer := SumHours(s.rows, user, Above(HoursFrom(s.rows, user, WindowStart(s.now, widest)), Int32(start)));
      && (offset < 48 ==> answer == LogFrom(s.log, user, start))
      && (offset == 48 ==>
            && answer == Plus(CountsAt(s.rows, user, start), LogFrom(s.log, user, start + 1))
            && Leq(CountsAt(s.rows, user, start), LogIn(s.log, user, {start})))
  {
    hide Indexed, WellKeyed, WindowStart, Plus, Leq, Int32, Above;
    RunIndexes(zone, began, steps);
    var s := Run(Init(zone, began), steps);
    FilterDropsNothing(s.rows, user, s.now, offset, widest);
    if offset < TTL_HOURS {
      forall h | h >= WindowStart(s.now, offset) && OnTheHour(h)
        ensures !MayHaveExpired(s, h)
      {
        FreshAt(s, offset, h);
      }
      WindowSumIsLogCount(s, user, WindowStart(s.now, offset));
    } else {
      LongestWindow(s, user);
    }
  }

  // Hours in a window of less than 48 hours cannot have expired, nor can any but the oldest of 48.
  lemma WindowsAreFresh(now: int, offset: nat, hour: int)
    requires 1 <= offset <= 48 && OnTheHour(hour)
    requires hour >= WindowStart(now, offset) + if offset < 48 then 0 else 1
    ensures hour + 48 * 3600 > now
  {
    WindowStartInHour(now, now, offset);
  }

  lemma LongestWindow(s: Store, user: Uuid)
    requires Indexed(s) && WellKeyed(s) && WindowStart(s.now, TTL_HOURS) > LIFETIME_KEY
    ensures var start := WindowStart(s.now, TTL_HOURS);
      && SumHours(s.rows, user, HoursFrom(s.rows, user, start)) ==
         Plus(CountsAt(s.rows, user, start), LogFrom(s.log, user, start + 1))
      && Leq(CountsAt(s.rows, user, start), LogIn(s.log, user, {start}))
  {
    hide WellKeyed, Plus, LogFrom, LogIn, WindowStart, MayHaveExpired, SumHours;
    var start := WindowStart(s.now, TTL_HOURS);
    forall h | h >= start + 1 && OnTheHour(h)
      ensures !MayHaveExpired(s, h)
    {
      FreshAt(s, TTL_HOURS, h);
    }
    WindowSumIsLogCount(s, user, start + 1);
    SumFromOldest(s.rows, user, start);
  }

  lemma FreshAt(s: Store, offset: nat, hour: int)
    requires 1 <= offset <= TTL_HOURS && OnTheHour(hour)
    requires hour >= WindowStart(s.now, offset) + if offset < TTL_HOURS then 0 else 1
    ensures !MayHaveExpired(s, hour)
  {
    WindowsAreFresh(s.now, offset, hour);
  }

  lemma SumFromOldest(rows: Table, user: Uuid, start: int)
    ensures SumHours(rows, user, HoursFrom(rows, user, start)) ==
      Plus(CountsAt(rows, user, start), SumHours(rows, user, HoursFrom(rows, user, start + 1)))
  {
    hide Plus, SumHours;
    var all, rest := HoursFrom(rows, user, start), HoursFrom(rows, user, start + 1);
    PlusZero(SumHours(rows, user, rest));
    assert start in all <==> CounterKey(user, start) in rows;
    if start in all {
      SumHoursTakes(rows, user, all, start);
      assert all - {start} == rest;
    } else {
      assert CountsAt(rows, user, start) == ZERO;
      assert all == rest;
    }
  }

  // ---------- The operation ----------

  lemma {:induction false} WindowsAreMonotone(log: seq<VoteEvent>, user: Uuid, from: int, earlier: int)
    requires earlier <= from
    ensures Leq(LogFrom(log, user, from), LogFrom(log, user, earlier))
    ensures Leq(LogFrom(log, user, from), LogAll(log, user))
  {
    hide Share;
    if log != [] {
      WindowsAreMonotone(log[..|log| - 1], user, from, earlier);
    }
  }

  lemma {:induction false} HourIsPartOfAll(log: seq<VoteEvent>, user: Uuid, hours: set<int>)
    ensures Leq(LogIn(log, user, hours), LogAll(log, user))
  {
    hide Share;
    if log != [] {
      HourIsPartOfAll(log[..|log| - 1], user, hours);
    }
  }

  lemma RowsAreReadable(s: Store, user: Uuid, hours: set<int>)
    requires Indexed(s) && WellKeyed(s) && FitsUint32(LogAll(s.log, user))
    requires HourStart(s.now, s.zone) < 0x8000_0000
    requires forall h :: h in hours ==> h > LIFETIME_KEY && CounterKey(user, h) in s.rows
    ensures AllReadable(s.rows, user, hours)
  {
    hide HourStart, OnTheHour, LogIn, LogAll;
    forall h | h in hours
      ensures RowReadable(h, CountsAt(s.rows, user, h))
    {
      HourIsPartOfAll(s.log, user, {h});
      assert Leq(CountsAt(s.rows, user, h), LogIn(s.log, user, {h}));
      assert CounterKey(user, h).hour <= HourStart(s.now, s.zone);
    }
  }

  // What is counted in a window: the log from its first hour on, except that of the oldest of 48 hours only what
  // its row still holds.
  function WindowCount(s: Store, user: Uuid, offset: nat): Counts {
    var start := WindowStart(s.now, offset);
    if offset < TTL_HOURS then LogFrom(s.log, user, start)
    else Plus(CountsAt(s.rows, user, start), LogFrom(s.log, user, start + 1))
  }

  lemma {:induction false} LogFromSplits(log: seq<VoteEvent>, user: Uuid, from: int)
    ensures LogFrom(log, user, from) == Plus(LogIn(log, user, {from}), LogFrom(log, user, from + 1))
  {
    hide Plus, Share;
    PlusZero(ZERO);
    if log != [] {
      var before, event := log[..|log| - 1], log[|log| - 1];
      LogFromSplits(before, user, from);
      var a, b, share := LogIn(before, user, {from}), LogFrom(before, user, from + 1), Share(event, user);
      PlusIsCommutative(a, b, share);
      PlusZero(a);
      PlusZero(b);
      PlusZero(Plus(a, b));
    }
  }

  lemma WindowCountIsBounded(s: Store, user: Uuid, offset: nat)
    requires Indexed(s) && 1 <= offset <= TTL_HOURS && WindowStart(s.now, offset) > LIFETIME_KEY
    ensures var start := WindowStart(s.now, offset);
      && Leq(WindowCount(s, user, offset), LogFrom(s.log, user, start))
      && Leq(LogFrom(s.log, user, start + 1), WindowCount(s, user, offset))
      && Leq(WindowCount(s, user, offset), LogAll(s.log, user))
  {
    hide LogFrom, LogIn, LogAll, CountsAt, WindowStart;
    var start := WindowStart(s.now, offset);
    LogFromSplits(s.log, user, start);
    WindowsAreMonotone(s.log, user, start, start);
  }

  lemma WindowCountsAreMonotone(s: Store, user: Uuid, shorter: nat, longer: nat)
    requires Indexed(s) && 1 <= shorter < longer <= TTL_HOURS && WindowStart(s.now, longer) > LIFETIME_KEY
    ensures Leq(WindowCount(s, user, shorter), WindowCount(s, user, longer))
  {
    hide LogFrom, LogIn, LogAll, CountsAt, WindowStart, Indexed, HourStart;
    WindowStartInHour(s.now, s.now, shorter);
    WindowStartInHour(s.now, s.now, longer);
    WindowCountIsBounded(s, user, longer);
    WindowsAreMonotone(s.log, user, WindowStart(s.now, shorter), WindowStart(s.now, longer) + 1);
  }

  // GetHourlyCountersOperation over the table of any run: with all clock readings in the present hour and
  // totals within uint32, every window of less than 48 hours counts exactly the votes logged in it, the longest
  // window at most those, and a longer window never less than a shorter one.
  method ReadHourlyCounters(
      repository: CountersRepository, user: Uuid, offsets: seq<nat>, clock: seq<int>,
      ghost zone: int, ghost began: int, ghost steps: seq<Step>)
    returns (r: Result<map<nat, Group>, ReadError>)
    requires ValidOffsets(offsets) && |clock| == |offsets| + 1
    requires repository.rows == Run(Init(zone, began), steps).rows
    requires var s := Run(Init(zone, began), steps);
      && 49 * 3600 <= s.now < 0x8000_0000 && HourStart(s.now, zone) < 0x8000_0000
      && (forall i :: 0 <= i < |clock| ==> HourStart(clock[i], 0) == HourStart(s.now, 0))
      && LogAll(s.log, user).incomingYes <= 4294967295 && LogAll(s.log, user).incomingNo <= 4294967295
      && LogAll(s.log, user).outgoingYes <= 4294967295 && LogAll(s.log, user).outgoingNo <= 4294967295
    ensures r.Ok? && r.value.Keys == (set i | 0 <= i < |offsets| :: offsets[i])
    ensures var s := Run(Init(zone, began), steps);
      forall i :: 0 <= i < |offsets| ==>
        var start := WindowStart(s.now, offsets[i]);
        && r.value[offsets[i]] == Group(start, WindowCount(s, user, offsets[i]))
        && (offsets[i] < 48 ==> r.value[offsets[i]].counts == LogFrom(s.log, user, start))
        && Leq(LogFrom(s.log, user, start + 1), r.value[offsets[i]].counts)
        && Leq(r.value[offsets[i]].counts, LogFrom(s.log, user, start))
        && Leq(r.value[offsets[i]].counts, LogAll(s.log, user))
    ensures forall i, j :: 0 <= i < j < |offsets| ==> Leq(r.value[offsets[i]].counts, r.value[offsets[j]].counts)
  {
    hide Indexed, WellKeyed, LogFrom, LogAll, SumHours, Leq, Wrap, HourStart, Run, Int32, Above, FitsUint32, AllReadable,
      WindowCount, CountsAt;
    ghost var s := Run(Init(zone, began), steps);
    ghost var widest := offsets[|offsets| - 1];
    TotalFits(LogAll(s.log, user));
    RunIndexes(zone, began, steps);
    FilterDropsNothing(s.rows, user, s.now, widest, widest);
    RowsAreReadable(s, user, HoursFrom(s.rows, user, WindowStart(s.now, widest)));
    ReadableMeans(s.rows, user, HoursFrom(s.rows, user, WindowStart(s.now, widest)));
    WindowStartInHour(s.now, clock[|offsets|], widest);
    WindowStartInHour(s.now, s.now, widest);
    r := repository.GetHourlyCounters(user, offsets, clock, false);
    forall i | 0 <= i < |offsets|
      ensures var start := WindowStart(s.now, offsets[i]);
        && start > LIFETIME_KEY && r.value[offsets[i]] == Group(start, WindowCount(s, user, offsets[i]))
    {
      WindowStartInHour(s.now, clock[i], offsets[i]);
      WindowStartInHour(s.now, s.now, offsets[i]);
      FilterDropsNothing(s.rows, user, s.now, offsets[i], widest);
      WindowIsCounted(zone, began, steps, user, offsets[i], widest);
    }
    forall i | 0 <= i < |offsets|
      ensures offsets[i] < TTL_HOURS ==>
        WindowCount(s, user, offsets[i]) == LogFrom(s.log, user, WindowStart(s.now, offsets[i]))
    {
      ShortWindowsCountTheLog(s, user, offsets[i]);
    }
    forall i | 0 <= i < |offsets|
      ensures var start := WindowStart(s.now, offsets[i]);
        && Leq(WindowCount(s, user, offsets[i]), LogFrom(s.log, user, start))
        && Leq(LogFrom(s.log, user, start + 1), WindowCount(s, user, offsets[i]))
        && Leq(WindowCount(s, user, offsets[i]), LogAll(s.log, user))
    {
      WindowCountIsBounded(s, user, offsets[i]);
    }
    forall i, j | 0 <= i < j < |offsets|
      ensures Leq(WindowCount(s, user, offsets[i]), WindowCount(s, user, offsets[j]))
    {
      WindowCountsAreMonotone(s, user, offsets[i], offsets[j]);
    }
  }

  lemma ReadableMeans(rows: Table, user: Uuid, hours: set<int>)
    requires AllReadable(rows, user, hours)
    ensures forall h :: h in hours ==>
      && -2147483648 <= h <= 2147483647
      && CountsAt(rows, user, h).incomingYes <= 4294967295 && CountsAt(rows, user, h).incomingNo <= 4294967295
      && CountsAt(rows, user, h).outgoingYes <= 4294967295 && CountsAt(rows, user, h).outgoingNo <= 4294967295
  {
    hide CountsAt;
  }

  lemma TotalFits(a: Counts)
    ensures FitsUint32(a) <==>
      a.incomingYes <= 4294967295 && a.incomingNo <= 4294967295 && a.outgoingYes <= 4294967295
      && a.outgoingNo <= 4294967295
  {
  }

  lemma ShortWindowsCountTheLog(s: Store, user: Uuid, offset: nat)
    ensures offset < TTL_HOURS ==> WindowCount(s, user, offset) == LogFrom(s.log, user, WindowStart(s.now, offset))
  {
  }

  // The wrapped sum of the rows in a window is what the window counts.
  lemma WindowIsCounted(zone: int, began: int, steps: seq<Step>, user: Uuid, offset: nat, widest: nat)
    requires 1 <= offset <= widest <= TTL_HOURS
    requires var s := Run(Init(zone, began), steps);
      49 * 3600 <= s.now < 0x8000_0000 && FitsUint32(LogAll(s.log, user))
    ensures var s := Run(Init(zone, began), steps);
      var hours := HoursFrom(s.rows, user, WindowStart(s.now, widest));
      Wrap(SumHours(s.rows, user, Above(hours, Int32(WindowStart(s.now, offset))))) == WindowCount(s, user, offset)
  {
    hide Indexed, WellKeyed, LogFrom, LogAll, LogIn, SumHours, HourStart, WindowStart, Run, Int32, Above, CountsAt, Wrap,
      HoursFrom, Plus;
    var s := Run(Init(zone, began), steps);
    RunIndexes(zone, began, steps);
    FilterDropsNothing(s.rows, user, s.now, offset, widest);
    HourlyCountersCountTheLog(zone, began, steps, user, offset, widest);
    WindowCountIsBounded(s, user, offset);
    WrapAbsorbs(WindowCount(s, user, offset), ZERO);
  }

  // ---------- The single query ----------

  lemma {:induction false} OneHourPerSlot(hours: set<int>, from: int, n: nat)
    requires OnTheHour(from)
    requires forall h :: h in hours ==> OnTheHour(h) && from <= h <= from + 3600 * n
    ensures |hours| <= n + 1
  {
    var top := from + 3600 * n;
    if n == 0 {
      assert top == from;
      assert forall h :: h in hours ==> h == from;
      assert hours <= {from};
      SubsetIsSmaller(hours, {from});
    } else {
      forall h | h in hours - {top}
        ensures h <= from + 3600 * (n - 1)
      {
        var p, q := h / 3600, from / 3600;
        assert h == 3600 * p && top == 3600 * (q + n);
        assert p < q + n;
      }
      OneHourPerSlot(hours - {top}, from, n - 1);
      SubsetIsSmaller(hours, (hours - {top}) + {top});
    }
  }

  lemma {:induction false} SubsetIsSmaller(a: set<int>, b: set<int>)
    requires a <= b
    ensures |a| <= |b|
  {
    if a != {} {
      SomeHour(a);
      var x :| x in a;
      SubsetIsSmaller(a - {x}, b - {x});
    }
  }

  lemma WindowSpansItsHours(now: int, widest: nat)
    requires widest <= TTL_HOURS && now >= 49 * 3600
    ensures var from := WindowStart(now, widest);
      OnTheHour(from) && from > LIFETIME_KEY && HourStart(now, 0) == from + 3600 * widest
  {
    WindowStartInHour(now, now, widest);
    HourStartIsTheHour(now, 0, HourStart(now, 0));
  }

  // In a UTC process the unpaged query never matches more than one row per hour of the window.
  lemma QueryMatchesFewRows(began: int, steps: seq<Step>, user: Uuid, widest: nat)
    requires 1 <= widest <= 48 && Run(Init(0, began), steps).now >= 49 * 3600
    ensures var s := Run(Init(0, began), steps);
      |HoursFrom(s.rows, user, WindowStart(s.now, widest))| <= widest + 1 <= 49
  {
    hide WindowStart, HourStart, Indexed, Run, OnTheHour;
    RunIndexes(0, began, steps);
    var s := Run(Init(0, began), steps);
    var from := WindowStart(s.now, widest);
    WindowSpansItsHours(s.now, widest);
    forall h | h in HoursFrom(s.rows, user, from)
      ensures OnTheHour(h) && from <= h <= from + 3600 * widest
    {
      assert CounterKey(user, h) in s.rows;
    }
    OneHourPerSlot(HoursFrom(s.rows, user, from), from, widest);
  }

  // ---------- Conservation ----------

  ghost function TotalLifetime(rows: Table, users: set<Uuid>): Counts
    decreases users
  {
    if users == {} then ZERO
    else
      var user :| user in users;
      Plus(CountsAt(rows, user, LIFETIME_KEY), TotalLifetime(rows, users - {user}))
  }

  ghost function TotalLog(log: seq<VoteEvent>, users: set<Uuid>): Counts {
    if log == [] then ZERO
    else Plus(TotalLog(log[..|log| - 1], users), ShareOfAll(log[|log| - 1], users))
  }

  // What one event contributes to a set of users.
  function ShareOfAll(event: VoteEvent, users: set<Uuid>): Counts {
    Counts(
      if event.peer in users && event.positive then 1 else 0,
      if event.peer in users && !event.positive then 1 else 0,
      if event.active in users && event.positive then 1 else 0,
      if event.active in users && !event.positive then 1 else 0)
  }

  lemma SharesSplit(event: VoteEvent, users: set<Uuid>, user: Uuid)
    requires user in users
    ensures ShareOfAll(event, users) == Plus(Share(event, user), ShareOfAll(event, users - {user}))
    ensures ShareOfAll(event, {}) == ZERO
  {
  }

  lemma PlusShuffles(a: Counts, b: Counts, c: Counts, d: Counts)
    ensures Plus(Plus(a, b), Plus(c, d)) == Plus(Plus(a, c), Plus(b, d))
  {
  }

  lemma {:induction false} TotalLogTakes(log: seq<VoteEvent>, users: set<Uuid>, user: Uuid)
    requires user in users
    ensures TotalLog(log, users) == Plus(LogAll(log, user), TotalLog(log, users - {user}))
  {
    hide Plus, Share, ShareOfAll;
    PlusZero(ZERO);
    if log != [] {
      var before, event, others := log[..|log| - 1], log[|log| - 1], users - {user};
      TotalLogTakes(before, users, user);
      SharesSplit(event, users, user);
      PlusShuffles(
        LogAll(before, user), TotalLog(before, others), Share(event, user), ShareOfAll(event, others));
    }
  }

  lemma {:induction false} EmptyTotalLog(log: seq<VoteEvent>)
    ensures TotalLog(log, {}) == ZERO
  {
    hide Plus, ShareOfAll;
    PlusZero(ZERO);
    if log != [] {
      EmptyTotalLog(log[..|log| - 1]);
      SharesSplit(log[|log| - 1], {0}, 0);
    }
  }

  lemma {:induction false} LifetimesTotalTheLog(s: Store, users: set<Uuid>)
    requires Indexed(s)
    ensures TotalLifetime(s.rows, users) == TotalLog(s.log, users)
    decreases users
  {
    if users == {} {
      EmptyTotalLog(s.log);
    } else {
      var user :| user in users && TotalLifetime(s.rows, users) ==
        Plus(CountsAt(s.rows, user, LIFETIME_KEY), TotalLifetime(s.rows, users - {user}));
      LifetimesTotalTheLog(s, users - {user});
      TotalLogTakes(s.log, users, user);
    }
  }

  function VotesCast(log: seq<VoteEvent>, positive: bool): nat {
    if log == [] then 0
    else VotesCast(log[..|log| - 1], positive) + if log[|log| - 1].positive == positive then 1 else 0
  }

  lemma {:induction false} EveryVoteIsSentAndReceived(log: seq<VoteEvent>, users: set<Uuid>)
    requires forall i :: 0 <= i < |log| ==> log[i].active in users && log[i].peer in users
    ensures var yes, no := VotesCast(log, true), VotesCast(log, false);
      TotalLog(log, users) == Counts(yes, no, yes, no)
  {
    if log != [] {
      EveryVoteIsSentAndReceived(log[..|log| - 1], users);
    }
  }

  // Over all users, as many yeses (and noes) were received as were given, in every run.
  lemma LifetimeCountersBalance(zone: int, began: int, steps: seq<Step>, users: set<Uuid>)
    requires var log := Run(Init(zone, began), steps).log;
      forall i :: 0 <= i < |log| ==> log[i].active in users && log[i].peer in users
    ensures var s := Run(Init(zone, began), steps);
      var yes, no := VotesCast(s.log, true), VotesCast(s.log, false);
      TotalLifetime(s.rows, users) == Counts(yes, no, yes, no)
  {
    RunIndexes(zone, began, steps);
    LifetimesTotalTheLog(Run(Init(zone, began), steps), users);
    EveryVoteIsSentAndReceived(Run(Init(zone, began), steps).log, users);
  }

  // A user's hourly rows never add up to more than the lifetime row, and to exactly that if none expired.
  lemma HourlyRowsAddUpToLifetime(zone: int, began: int, steps: seq<Step>, user: Uuid, hours: set<int>)
    requires var s := Run(Init(zone, began), steps);
      forall h :: h in hours <==> h != LIFETIME_KEY && CounterKey(user, h) in s.rows
    ensures var s := Run(Init(zone, began), steps);
      var sum, lifetime := SumHours(s.rows, user, hours), CountsAt(s.rows, user, LIFETIME_KEY);
      Leq(sum, lifetime) && (s.expired == 0 ==> sum == lifetime)
  {
    hide Run, Plus;
    RunIndexes(zone, began, steps);
    var s := Run(Init(zone, began), steps);
    SumIsAtMostLogIn(s, user, hours);
    HourIsPartOfAll(s.log, user, hours);
    if s.expired == 0 {
      SumIsLogIn(s.rows, s.log, user, hours);
      AllHoursAreAll(s, user, hours, |s.log|);
      assert s.log[..|s.log|] == s.log;
    }
  }

  lemma {:induction false} SumIsAtMostLogIn(s: Store, user: Uuid, hours: set<int>)
    requires Indexed(s) && LIFETIME_KEY !in hours
    ensures Leq(SumHours(s.rows, user, hours), LogIn(s.log, user, hours))
    decreases hours
  {
    hide LogIn, LogAll, CountsAt;
    if hours != {} {
      var h := Pick(hours);
      SumIsAtMostLogIn(s, user, hours - {h});
      LogInSplits(s.log, user, hours, h);
      assert Leq(CountsAt(s.rows, user, h), LogIn(s.log, user, {h}));
    }
  }

  lemma {:induction false} AllHoursAreAll(s: Store, user: Uuid, hours: set<int>, n: nat)
    requires Indexed(s) && WellKeyed(s) && s.expired == 0 && n <= |s.log|
    requires forall h :: h in hours <==> h != LIFETIME_KEY && CounterKey(user, h) in s.rows
    ensures LogIn(s.log[..n], user, hours) == LogAll(s.log[..n], user)
  {
    hide Plus, Share, CountsAt;
    if n > 0 {
      AllHoursAreAll(s, user, hours, n - 1);
      assert s.log[..n][..n - 1] == s.log[..n - 1];
      PlusZero(LogAll(s.log[..n - 1], user));
      if Share(s.log[n - 1], user) != ZERO {
        EventsHaveRowsForever(s, user, n - 1);
      }
    }
  }

  lemma EventsHaveRowsForever(s: Store, user: Uuid, i: nat)
    requires Indexed(s) && WellKeyed(s) && s.expired == 0 && i < |s.log| && Share(s.log[i], user) != ZERO
    ensures CounterKey(user, s.log[i].hour) in s.rows
  {
    hide LogIn, Share, LogAll;
    LogInCoversEvent(s.log, user, i);
    assert CountsAt(s.rows, user, s.log[i].hour) == LogIn(s.log, user, {s.log[i].hour});
  }
}
