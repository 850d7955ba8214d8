/**
 Nothing in the description of histories is idle: every valid history in which no client commits twice is the
 history of some run. Each client reads at the moment its commit says, waits, and writes when its turn comes.
 */
module Realization {
  import opened Results
  import opened Identity
  import opened Romances
  import opened RowHistory
  import opened VoteProtocol
  import opened VoteGuarantees

  // No client has more than one commit.
  ghost predicate CommitsOnce(h: History) {
    forall i, j :: 0 <= i < j < |h| && h[i].Committed? && h[j].Committed? ==> h[i].client != h[j].client
  }

  // Read by the time the history is n long and the clients of the first k commits have been attended to.
  predicate HasRead(event: Event, j: nat, n: nat, k: nat)
    requires event.Committed?
  {
    event.seenAt < n || (event.seenAt == n && j < k)
  }

  predicate WaitsToWrite(s: System, event: Event)
    requires event.Committed?
  {
    && event.client in s.clients && s.clients[event.client].request == event.request
    && s.clients[event.client].phase == Writing(0, event.snapshot, event.seenAt)
  }

  // The run has produced the first n events, and the clients of the later ones wait where they should.
  ghost predicate Staged(s: System, key: RomanceKey, h: History, n: nat, k: nat) {
    && n <= |h| && s.key == key && s.history == h[..n] && s.row == RowAfter(h[..n])
    && forall j :: n <= j < |h| && h[j].Committed? ==>
         if HasRead(h[j], j, n, k) then WaitsToWrite(s, h[j]) else h[j].client !in s.clients
  }

  // One client starts and reads.
  function Attended(s: System, event: Event, n: nat): System {
    if event.Committed? && event.seenAt == n then
      Next(Next(s, Start(event.client, event.request)), Read(event.client, NoFault))
    else s
  }

  lemma AttendedWaits(s: System, key: RomanceKey, h: History, event: Event)
    requires s.key == key && s.history == h && s.row == RowAfter(h)
    requires event.Committed? && event.client !in s.clients && event.seenAt == |h| && KeyOf(event.request.id) == key
    requires View(event.request.id, RowAfter(h)) == Ok(event.snapshot) && Decide(event.request, event.snapshot) == None
    ensures var s' := Attended(s, event, |h|);
      && s'.key == s.key && s'.history == s.history && s'.row == s.row && WaitsToWrite(s', event)
      && (forall c :: c != event.client ==>
            (c in s'.clients <==> c in s.clients) && (c in s.clients ==> s'.clients[c] == s.clients[c]))
  {
    hide View, Decide;
  }

  lemma AttendOne(s: System, key: RomanceKey, h: History, n: nat, k: nat)
    requires Valid(key, h) && CommitsOnce(h) && n <= k < |h| && Staged(s, key, h, n, k)
    ensures Staged(Attended(s, h[k], n), key, h, n, k + 1)
  {
    hide View, Decide, Valid, RowAfter;
    var event := h[k];
    if event.Committed? && event.seenAt == n {
      ValidAt(key, h, k);
      assert h[..k][..n] == h[..n];
      AttendedWaits(s, key, h[..n], event);
    }
  }

  // Then the next event happens.
  function Happened(s: System, event: Event): System {
    match event
    case Wiped => Next(s, Remove)
    case Committed(c, _, now, _, _) => Next(s, Write(c, now, NoFault))
  }

  lemma HappensNext(s: System, event: Event)
    requires event.Wiped? ==> s.row.Some?
    requires event.Committed? ==> WaitsToWrite(s, event) && Condition(s.row, event.request, event.snapshot.version)
    ensures var s' := Happened(s, event);
      && s'.key == s.key && s'.history == s.history + [event]
      && s'.row == (if event.Wiped? then None else Some(Written(s.row, event.request, event.snapshot, event.now)))
      && (forall c :: !(event.Committed? && c == event.client) ==>
            (c in s'.clients <==> c in s.clients) && (c in s.clients ==> s'.clients[c] == s.clients[c]))
  {
    hide View, Written, Decide, Condition, CommittedPhase;
  }

  lemma HappenOne(s: System, key: RomanceKey, h: History, n: nat)
    requires Valid(key, h) && CommitsOnce(h) && n < |h| && Staged(s, key, h, n, |h|)
    ensures Staged(Happened(s, h[n]), key, h, n + 1, n + 1)
  {
    hide View, Decide, Valid, Written, Happened, Condition;
    ValidAt(key, h, n);
    assert h[n].Committed? ==> HasRead(h[n], n, n, |h|);
    HappensNext(s, h[n]);
    assert Before(h[..n + 1]) == h[..n] && h[..n] + [h[n]] == h[..n + 1];
  }

  lemma AttendedIsReachable(key: RomanceKey, s: System, event: Event, n: nat)
    requires Reachable(key, s)
    ensures Reachable(key, Attended(s, event, n))
  {
    hide Reachable, Next;
    if event.Committed? && event.seenAt == n {
      NextIsReachable(key, s, Start(event.client, event.request));
      NextIsReachable(key, Next(s, Start(event.client, event.request)), Read(event.client, NoFault));
    }
  }

  lemma HappenedIsReachable(key: RomanceKey, s: System, event: Event)
    requires Reachable(key, s)
    ensures Reachable(key, Happened(s, event))
  {
    hide Reachable, Next;
    match event
    case Wiped => NextIsReachable(key, s, Remove);
    case Committed(c, _, now, _, _) => NextIsReachable(key, s, Write(c, now, NoFault));
  }

  lemma NothingStaged(key: RomanceKey, h: History)
    ensures Staged(Init(key), key, h, 0, 0) && Reachable(key, Init(key))
  {
    InitIsReachable(key);
  }

  lemma {:induction false} Stages(key: RomanceKey, h: History, n: nat, k: nat) returns (s: System)
    requires Valid(key, h) && CommitsOnce(h) && n <= k <= |h|
    ensures Staged(s, key, h, n, k) && Reachable(key, s)
    decreases n, k
  {
    hide Staged, Valid, CommitsOnce, Reachable, Attended, Happened;
    if n < k {
      var before := Stages(key, h, n, k - 1);
      AttendOne(before, key, h, n, k - 1);
      AttendedIsReachable(key, before, h[k - 1], n);
      s := Attended(before, h[k - 1], n);
    } else if n > 0 {
      var before := Stages(key, h, n - 1, |h|);
      HappenOne(before, key, h, n - 1);
      HappenedIsReachable(key, before, h[n - 1]);
      s := Happened(before, h[n - 1]);
    } else {
      NothingStaged(key, h);
      s := Init(key);
    }
  }

  // The histories of runs are exactly the valid histories in which no client commits twice.
  lemma HistoryIsReachedIff(key: RomanceKey, h: History)
    ensures (exists steps: seq<Step> :: After(key, steps).history == h) <==> Valid(key, h) && CommitsOnce(h)
  {
    hide Valid, Run, Inv;
    if steps: seq<Step> :| After(key, steps).history == h {
      RunCommitsOnce(key, steps);
    }
    if Valid(key, h) && CommitsOnce(h) {
      var s := Stages(key, h, |h|, |h|);
      assert h[..|h|] == h;
      var steps: seq<Step> :| s == After(key, steps);
      assert After(key, steps).history == h;
    }
  }

  lemma RunCommitsOnce(key: RomanceKey, steps: seq<Step>)
    ensures Valid(key, After(key, steps).history) && CommitsOnce(After(key, steps).history)
  {
    hide Run;
    EveryRunIsValid(key, steps);
    var h := After(key, steps).history;
    forall i, j | 0 <= i < j < |h| && h[i].Committed? && h[j].Committed?
      ensures h[i].client != h[j].client
    {
      if h[i].client == h[j].client {
        CommitsAtMostOnce(key, steps, i, j);
        assert false;
      }
    }
  }

  // So the threefold count of one directed pair around one removal is what some run comes to.
  lemma StaleCommitsAreCountedInSomeRun()
    ensures exists steps: seq<Step> ::
      var h := After(PAIR, steps).history;
      FlaggedCommits(h, 1, true) == 3 && Erasures(h, 1) == 1
  {
    hide Run, FlaggedCommits, Erasures, Valid;
    StaleCommitsAreCountedToo();
    CountedThriceCommitsOnce();
    HistoryIsReachedIff(PAIR, CountedThrice());
    var steps: seq<Step> :| After(PAIR, steps).history == CountedThrice();
    assert FlaggedCommits(After(PAIR, steps).history, 1, true) == 3;
  }

  lemma CountedThriceCommitsOnce()
    ensures CommitsOnce(CountedThrice())
  {
    hide Seen;
  }
}
