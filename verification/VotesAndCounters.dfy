/** Lifetime counters against the stored votes: what a user's counter row says about all their pairs. */
module VotesAndCounters {
  import opened Identity
  import opened RowHistory
  import opened VoteProtocol
  import opened VoteGuarantees
  import opened ReadBack
  import opened VoteLog
  import Counters
  import CounterRuns

  // ---------- Sums over users ----------

  ghost function Total(users: set<Uuid>, f: Uuid -> nat): nat {
    if users == {} then 0
    else
      var user := AnyOf(users);
      f(user) + Total(users - {user}, f)
  }

  ghost function AnyOf(users: set<Uuid>): Uuid
    requires users != {}
  {
    var user :| user in users;
    user
  }

  lemma {:induction false} TotalsAgree(users: set<Uuid>, f: Uuid -> nat, g: Uuid -> nat)
    requires forall user :: user in users ==> f(user) == g(user)
    ensures Total(users, f) == Total(users, g)
    decreases users
  {
    if users != {} {
      TotalsAgree(users - {AnyOf(users)}, f, g);
    }
  }

  lemma {:induction false} TotalOfZeros(users: set<Uuid>, f: Uuid -> nat)
    requires forall user :: user in users ==> f(user) == 0
    ensures Total(users, f) == 0
    decreases users
  {
    if users != {} {
      TotalOfZeros(users - {AnyOf(users)}, f);
    }
  }

  // One more at one user is one more in all.
  lemma {:induction false} TotalWithOneMore(users: set<Uuid>, f: Uuid -> nat, g: Uuid -> nat, x: Uuid)
    requires x in users && g(x) == f(x) + 1
    requires forall user :: user in users && user != x ==> g(user) == f(user)
    ensures Total(users, g) == Total(users, f) + 1
    decreases users
  {
    var user := AnyOf(users);
    if user == x {
      TotalsAgree(users - {x}, f, g);
    } else {
      TotalWithOneMore(users - {user}, f, g, x);
    }
  }

  lemma {:induction false} TotalsAdd(users: set<Uuid>, f: Uuid -> nat, g: Uuid -> nat, sum: Uuid -> nat)
    requires forall user :: user in users ==> f(user) + g(user) == sum(user)
    ensures Total(users, f) + Total(users, g) == Total(users, sum)
    decreases users
  {
    if users != {} {
      TotalsAdd(users - {AnyOf(users)}, f, g, sum);
    }
  }

  // ---------- The log of events, user by user ----------

  ghost function SentTo(events: seq<Counters.VoteEvent>, user: Uuid, positive: bool): Uuid -> nat {
    peer => CountEvents(events, user, peer, positive)
  }

  ghost function ReceivedFrom(events: seq<Counters.VoteEvent>, user: Uuid, positive: bool): Uuid -> nat {
    peer => CountEvents(events, peer, user, positive)
  }

  function Outgoing(counts: Counters.Counts, positive: bool): nat {
    if positive then counts.outgoingYes else counts.outgoingNo
  }

  function Incoming(counts: Counters.Counts, positive: bool): nat {
    if positive then counts.incomingYes else counts.incomingNo
  }

  lemma {:induction false} SentByPeer(events: seq<Counters.VoteEvent>, user: Uuid, peers: set<Uuid>, positive: bool)
    requires forall i :: 0 <= i < |events| && events[i].active == user ==> events[i].peer in peers
    ensures Outgoing(Counters.LogAll(events, user), positive) == Total(peers, SentTo(events, user, positive))
  {
    if events == [] {
      TotalOfZeros(peers, SentTo(events, user, positive));
    } else {
      var before, event := events[..|events| - 1], events[|events| - 1];
      SentByPeer(before, user, peers, positive);
      if event.active == user && event.positive == positive {
        TotalWithOneMore(peers, SentTo(before, user, positive), SentTo(events, user, positive), event.peer);
      } else {
        TotalsAgree(peers, SentTo(before, user, positive), SentTo(events, user, positive));
      }
    }
  }

  lemma {:induction false} ReceivedByPeer(
      events: seq<Counters.VoteEvent>, user: Uuid, peers: set<Uuid>, positive: bool)
    requires forall i :: 0 <= i < |events| && events[i].peer == user ==> events[i].active in peers
    ensures Incoming(Counters.LogAll(events, user), positive) == Total(peers, ReceivedFrom(events, user, positive))
  {
    if events == [] {
      TotalOfZeros(peers, ReceivedFrom(events, user, positive));
    } else {
      var before, event := events[..|events| - 1], events[|events| - 1];
      ReceivedByPeer(before, user, peers, positive);
      if event.peer == user && event.positive == positive {
        TotalWithOneMore(peers, ReceivedFrom(before, user, positive), ReceivedFrom(events, user, positive), event.active);
      } else {
        TotalsAgree(peers, ReceivedFrom(before, user, positive), ReceivedFrom(events, user, positive));
      }
    }
  }

  // ---------- The users a user has to do with ----------

  predicate Between(key: RomanceKey, user: Uuid, peer: Uuid) {
    (key.pk == user && key.sk == peer) || (key.pk == peer && key.sk == user)
  }

  // Every other user of a row that some step addressed.
  function PeersIn(log: Log, user: Uuid): set<Uuid> {
    set i | 0 <= i < |log| && log[i].Took? && (log[i].key.pk == user || log[i].key.sk == user) ::
      OtherUser(log[i].key, user)
  }

  lemma PeersGrow(log: Log, act: Act, user: Uuid)
    ensures PeersIn(log, user) <= PeersIn(log + [act], user)
    ensures act.Took? && act.key.pk == user ==> act.key.sk in PeersIn(log + [act], user)
    ensures act.Took? && act.key.sk == user ==> act.key.pk in PeersIn(log + [act], user)
  {
    var more := log + [act];
    forall peer | peer in PeersIn(log, user)
      ensures peer in PeersIn(more, user)
    {
      var i :| 0 <= i < |log| && log[i].Took? && (log[i].key.pk == user || log[i].key.sk == user)
        && OtherUser(log[i].key, user) == peer;
      assert more[i] == log[i];
    }
    assert more[|log|] == act;
    if act.Took? && (act.key.pk == user || act.key.sk == user) {
      assert OtherUser(more[|log|].key, user) in PeersIn(more, user);
    }
  }

  ghost predicate EventsNamePeers(events: seq<Counters.VoteEvent>, log: Log, user: Uuid) {
    forall i :: 0 <= i < |events| ==>
      && events[i].active != events[i].peer
      && (events[i].active == user ==> events[i].peer in PeersIn(log, user))
      && (events[i].peer == user ==> events[i].active in PeersIn(log, user))
  }

  lemma CallerIsInTheRow(id: VoteId, key: RomanceKey)
    requires KeyOf(id) == key
    ensures Between(key, id.active, id.peer)
  {
  }

  lemma ActNamesPeers(zone: int, began: int, log: Log, act: Act, user: Uuid)
    requires EventsNamePeers(StoreAt(zone, began, log).log, log, user)
    ensures EventsNamePeers(StoreAt(zone, began, log + [act]).log, log + [act], user)
  {
    hide PeersIn, StoreAt, SystemAt, CallOf, Inv, VoteProtocol.Next, Counters.HourStart, Counters.IncrUpdates,
      Counters.ApplyUpdates, Counters.DistinctKeys;
    StoreGrows(zone, began, log, act);
    PeersGrow(log, act, user);
    if act.Took? {
      SystemIsValid(log, act.key);
      CallIsIssued(SystemAt(log, act.key), act.step);
      if CallOf(SystemAt(log, act.key), act.step).Some? {
        CallerIsInTheRow(CallOf(SystemAt(log, act.key), act.step).value.0, act.key);
      }
    }
  }

  lemma {:induction false} LogNamesPeers(zone: int, began: int, log: Log, user: Uuid)
    ensures EventsNamePeers(StoreAt(zone, began, log).log, log, user)
  {
    hide EventsNamePeers, StoreAt;
    if log == [] {
      EmptyLogNamesPeers(zone, began, user);
    } else {
      LogNamesPeers(zone, began, log[..|log| - 1], user);
      ActNamesPeers(zone, began, log[..|log| - 1], log[|log| - 1], user);
      assert log[..|log| - 1] + [log[|log| - 1]] == log;
    }
  }

  lemma EmptyLogNamesPeers(zone: int, began: int, user: Uuid)
    ensures EventsNamePeers(StoreAt(zone, began, []).log, [], user)
  {
  }

  // ---------- Counters against votes ----------

  predicate Pairs(user: Uuid, peer: Uuid) {
    user != NIL_UUID && peer != NIL_UUID && user != peer
  }

  // The users' calls for their votes on each other, one direction at a time.
  ghost function CallsTo(log: Log, user: Uuid, positive: bool): Uuid -> nat {
    peer =>
      if Pairs(user, peer) then CountCalls(SystemAt(log, KeyOf(VoteId(1, user, peer))).issued, user, positive) else 0
  }

  ghost function CallsFrom(log: Log, user: Uuid, positive: bool): Uuid -> nat {
    peer =>
      if Pairs(user, peer) then CountCalls(SystemAt(log, KeyOf(VoteId(1, peer, user))).issued, peer, positive) else 0
  }

  // The commits that turned the stored vote of one user on another positive (or negative).
  ghost function GainsTo(log: Log, user: Uuid, positive: bool): Uuid -> nat {
    peer =>
      if Pairs(user, peer) then
        var key := KeyOf(VoteId(1, user, peer));
        Gains(key, SystemAt(log, key).history, user, positive)
      else 0
  }

  ghost function GainsFrom(log: Log, user: Uuid, positive: bool): Uuid -> nat {
    peer =>
      if Pairs(user, peer) then
        var key := KeyOf(VoteId(1, peer, user));
        Gains(key, SystemAt(log, key).history, peer, positive)
      else 0
  }

  lemma PeersPair(log: Log, user: Uuid)
    ensures forall peer :: peer in PeersIn(log, user) ==> Pairs(user, peer)
  {
  }

  // Of those calls, the ones that were not applied.
  ghost function LostTo(zone: int, began: int, log: Log, user: Uuid, positive: bool): Uuid -> nat {
    peer => if Pairs(user, peer) then LostCalls(zone, began, log, VoteId(1, user, peer), positive) else 0
  }

  ghost function LostFrom(zone: int, began: int, log: Log, user: Uuid, positive: bool): Uuid -> nat {
    peer => if Pairs(user, peer) then LostCalls(zone, began, log, VoteId(1, peer, user), positive) else 0
  }

  // In every run, whatever calls are refused: a user's lifetime row and the calls lost make up the calls made, for
  // the user's votes on each peer and for each peer's votes on the user. So the row never counts too much.
  lemma LifetimeAndLostCalls(zone: int, began: int, log: Log, user: Uuid, positive: bool)
    ensures var row := Counters.CountsAt(StoreAt(zone, began, log).rows, user, Counters.LIFETIME_KEY);
      var peers := PeersIn(log, user);
      && Outgoing(row, positive) + Total(peers, LostTo(zone, began, log, user, positive)) ==
         Total(peers, CallsTo(log, user, positive))
      && Incoming(row, positive) + Total(peers, LostFrom(zone, began, log, user, positive)) ==
         Total(peers, CallsFrom(log, user, positive))
      && Outgoing(row, positive) <= Total(peers, CallsTo(log, user, positive))
      && Incoming(row, positive) <= Total(peers, CallsFrom(log, user, positive))
  {
    hide PeersIn, StoreAt, SystemAt, CountEvents, CountCalls, Pairs, Outgoing, Incoming, LostCalls, Counters.LogAll,
      KeyOf;
    var peers, events := PeersIn(log, user), StoreAt(zone, began, log).log;
    PeersPair(log, user);
    LogNamesPeers(zone, began, log, user);
    LifetimeIsLog(zone, began, log, user);
    SentByPeer(events, user, peers, positive);
    ReceivedByPeer(events, user, peers, positive);
    forall peer | peer in peers
      ensures SentTo(events, user, positive)(peer) + LostTo(zone, began, log, user, positive)(peer) ==
        CallsTo(log, user, positive)(peer)
      ensures ReceivedFrom(events, user, positive)(peer) + LostFrom(zone, began, log, user, positive)(peer) ==
        CallsFrom(log, user, positive)(peer)
    {
      PairCounts(zone, began, log, user, peer, positive);
    }
    TotalsAdd(
      peers, SentTo(events, user, positive), LostTo(zone, began, log, user, positive), CallsTo(log, user, positive));
    TotalsAdd(
      peers, ReceivedFrom(events, user, positive), LostFrom(zone, began, log, user, positive),
      CallsFrom(log, user, positive));
  }

  lemma PairCounts(zone: int, began: int, log: Log, user: Uuid, peer: Uuid, positive: bool)
    requires Pairs(user, peer)
    ensures var events := StoreAt(zone, began, log).log;
      && CountEvents(events, user, peer, positive) + LostTo(zone, began, log, user, positive)(peer) ==
         CallsTo(log, user, positive)(peer)
      && CountEvents(events, peer, user, positive) + LostFrom(zone, began, log, user, positive)(peer) ==
         CallsFrom(log, user, positive)(peer)
  {
    hide StoreAt, SystemAt, CountEvents, CountCalls, LostCalls;
    CallsAreEventsOrLost(zone, began, log, VoteId(1, user, peer), positive);
    CallsAreEventsOrLost(zone, began, log, VoteId(1, peer, user), positive);
  }

  // When each counter call is applied, the row is exactly the calls made.
  lemma LifetimeCountsCalls(zone: int, began: int, log: Log, user: Uuid, positive: bool)
    requires EveryCallApplied(zone, began, log)
    ensures var row := Counters.CountsAt(StoreAt(zone, began, log).rows, user, Counters.LIFETIME_KEY);
      && Outgoing(row, positive) == Total(PeersIn(log, user), CallsTo(log, user, positive))
      && Incoming(row, positive) == Total(PeersIn(log, user), CallsFrom(log, user, positive))
  {
    hide PeersIn, StoreAt, SystemAt, CountCalls, Pairs, EveryCallApplied, Outgoing, Incoming, LostCalls;
    LifetimeAndLostCalls(zone, began, log, user, positive);
    PeersPair(log, user);
    NoneLost(zone, began, log, user, positive);
    TotalOfZeros(PeersIn(log, user), LostTo(zone, began, log, user, positive));
    TotalOfZeros(PeersIn(log, user), LostFrom(zone, began, log, user, positive));
  }

  lemma NoneLost(zone: int, began: int, log: Log, user: Uuid, positive: bool)
    requires EveryCallApplied(zone, began, log)
    ensures forall peer :: LostTo(zone, began, log, user, positive)(peer) == 0
    ensures forall peer :: LostFrom(zone, began, log, user, positive)(peer) == 0
  {
    hide EveryCallApplied, LostCalls;
    forall peer | Pairs(user, peer)
      ensures LostCalls(zone, began, log, VoteId(1, user, peer), positive) == 0
      ensures LostCalls(zone, began, log, VoteId(1, peer, user), positive) == 0
    {
      AppliedCallsAreNotLost(zone, began, log, VoteId(1, user, peer), positive);
      AppliedCallsAreNotLost(zone, began, log, VoteId(1, peer, user), positive);
    }
  }

  lemma LifetimeIsLog(zone: int, began: int, log: Log, user: Uuid)
    ensures var s := StoreAt(zone, began, log);
      Counters.CountsAt(s.rows, user, Counters.LIFETIME_KEY) == Counters.LogAll(s.log, user)
  {
    hide Counters.CountsAt, Counters.LogAll, CounterRuns.Run;
    CounterRuns.RunIndexes(zone, began, CounterSteps(log));
  }

  // Every number fits, no answer was lost, no commit was stale, and no counter call is outstanding.
  ghost predicate Settled(log: Log, key: RomanceKey) {
    && AllInRange(StepsOn(log, key))
    && StaleCommits(SystemAt(log, key).history) == 0
    && forall c :: c in SystemAt(log, key).clients ==> !SystemAt(log, key).clients[c].phase.Counting?
  }

  lemma SettledCallsAreGains(log: Log, key: RomanceKey, user: Uuid, positive: bool)
    requires Settled(log, key) && (user == key.pk || user == key.sk)
    ensures CountCalls(SystemAt(log, key).issued, user, positive) ==
      Gains(key, SystemAt(log, key).history, user, positive)
  {
    hide Run, AllInRange, CountCalls, Gains, StaleCommits, FlaggedCommits;
    CounterCallsAreGains(key, StepsOn(log, key), user, positive);
    assert Owing(SystemAt(log, key).clients, user, positive) == {};
  }

  // Then a user's lifetime row counts exactly the times a stored vote of theirs on somebody, or of somebody on
  // them, became positive, and became No from nothing.
  lemma LifetimeCountsStoredVotes(zone: int, began: int, log: Log, user: Uuid, positive: bool)
    requires EveryCallApplied(zone, began, log)
    requires forall key: RomanceKey :: (key.pk == user || key.sk == user) ==> Settled(log, key)
    ensures var row := Counters.CountsAt(StoreAt(zone, began, log).rows, user, Counters.LIFETIME_KEY);
      && Outgoing(row, positive) == Total(PeersIn(log, user), GainsTo(log, user, positive))
      && Incoming(row, positive) == Total(PeersIn(log, user), GainsFrom(log, user, positive))
  {
    hide PeersIn, StoreAt, SystemAt, CountCalls, Gains, EveryCallApplied, Settled, Outgoing, Incoming;
    LifetimeCountsCalls(zone, began, log, user, positive);
    forall peer | peer in PeersIn(log, user)
      ensures CallsTo(log, user, positive)(peer) == GainsTo(log, user, positive)(peer)
      ensures CallsFrom(log, user, positive)(peer) == GainsFrom(log, user, positive)(peer)
    {
      if Pairs(user, peer) {
        var key := KeyOf(VoteId(1, user, peer));
        SettledCallsAreGains(log, key, user, positive);
        SettledCallsAreGains(log, key, peer, positive);
      }
    }
    TotalsAgree(PeersIn(log, user), CallsTo(log, user, positive), GainsTo(log, user, positive));
    TotalsAgree(PeersIn(log, user), CallsFrom(log, user, positive), GainsFrom(log, user, positive));
  }
}
