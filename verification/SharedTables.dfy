/** The shared tables as the object the threads mutate: packets enter it, the cleanup pass
    empties and archives, the refresh pass updates it in place.

    Each method, left undisturbed, is a run of the steps of the connection table; what several
    threads make of those steps together is the subject of that module. */
module SharedTables {
  import opened Archive
  import opened Connections
  import opened ConnectionTable
  import opened Eviction
  import opened Sums
  import TcpObserver

  function Expired(m: map<Key, Connection>, now: int): set<Key> {
    set k | k in m && ShouldCleanup(m[k], now)
  }

  function Restrict(m: map<Key, Connection>, ks: set<Key>): map<Key, Connection> {
    map k | k in m && k in ks :: m[k]
  }

  /** What the clocks read when the refresh sweep is at each key. */
  type Clocks = Key -> Reading

  function Refreshed(m: map<Key, Connection>, clocks: Clocks): map<Key, Connection> {
    map k | k in m :: RefreshIfNeeded(m[k], clocks(k))
  }

  /** Where connection `c` with key `k` is while `retain` has yet to visit `pending`. */
  predicate Visited(c: Connection, k: Key, pending: map<Key, Connection>, live: map<Key, Connection>,
                    removed: map<Key, Connection>, now: int)
  {
    if k in pending then k in live && live[k] == pending[k] == c && k !in removed
    else if ShouldCleanup(c, now) then k !in live && k in removed && removed[k] == c
    else k in live && live[k] == c && k !in removed
  }

  lemma AllVisited(all: map<Key, Connection>, live: map<Key, Connection>, removed: map<Key, Connection>, now: int)
    requires live.Keys <= all.Keys && removed.Keys <= all.Keys
    requires forall k | k in all :: Visited(all[k], k, map[], live, removed, now)
    ensures live == all - Expired(all, now) && removed == Restrict(all, Expired(all, now))
  {
    hide ShouldCleanup;
  }

  lemma VisitOne(all: map<Key, Connection>, pending: map<Key, Connection>, live: map<Key, Connection>,
                 removed: map<Key, Connection>, now: int, k: Key)
    requires k in pending && k in all
    requires forall j | j in all :: Visited(all[j], j, pending, live, removed, now)
    ensures k in live && live[k] == pending[k] == all[k]
    ensures ShouldCleanup(all[k], now) ==>
              forall j | j in all :: Visited(all[j], j, pending - {k}, live - {k}, removed[k := all[k]], now)
    ensures !ShouldCleanup(all[k], now) ==>
              forall j | j in all :: Visited(all[j], j, pending - {k}, live, removed, now)
  {
    hide ShouldCleanup;
    assert Visited(all[k], k, pending, live, removed, now);
  }

  /** What the entry of `c` is while the refresh sweep has yet to visit `pending`. */
  predicate Turned(c: Connection, k: Key, pending: map<Key, Connection>, live: map<Key, Connection>, r: Reading) {
    k in live && if k in pending then live[k] == pending[k] == c else live[k] == RefreshIfNeeded(c, r)
  }

  lemma TurnOne(all: map<Key, Connection>, pending: map<Key, Connection>, live: map<Key, Connection>, clocks: Clocks,
                k: Key)
    requires k in pending && k in all
    requires forall j | j in all :: Turned(all[j], j, pending, live, clocks(j))
    ensures k in live && live[k] == all[k]
    ensures forall j | j in all ::
              Turned(all[j], j, pending - {k}, live[k := RefreshIfNeeded(all[k], clocks(k))], clocks(j))
  {
    hide RefreshIfNeeded;
    assert Turned(all[k], k, pending, live, clocks(k));
  }

  lemma AllTurned(all: map<Key, Connection>, live: map<Key, Connection>, clocks: Clocks)
    requires live.Keys == all.Keys && forall j | j in all :: Turned(all[j], j, map[], live, clocks(j))
    ensures live == Refreshed(all, clocks)
  {
    hide RefreshIfNeeded;
  }

  /** `pending` and `done` make up `all`. */
  predicate Parted(all: map<Key, Connection>, pending: map<Key, Connection>, done: map<Key, Connection>) {
    && done.Keys == all.Keys - pending.Keys && pending.Keys <= all.Keys
    && (forall k | k in done :: done[k] == all[k]) && forall k | k in pending :: pending[k] == all[k]
  }

  lemma PartOne(all: map<Key, Connection>, pending: map<Key, Connection>, done: map<Key, Connection>, k: Key)
    requires Parted(all, pending, done) && k in pending
    ensures k !in done && Parted(all, pending - {k}, done[k := pending[k]])
  {
  }

  lemma AllParted(all: map<Key, Connection>, done: map<Key, Connection>)
    requires Parted(all, map[], done)
    ensures done == all
  {
  }

  lemma RunOneMore(s: State, steps: seq<Step>, step: Step)
    ensures Run(s, steps + [step]) == Apply(Run(s, steps), step)
  {
    hide Apply;
    assert (steps + [step])[..|steps|] == steps;
  }

  class Tables {
    var connections: map<Key, Connection>
    var historic: map<string, Historic>
    var totals: TcpObserver.Events
    var started: Traffic
    var turnedAway: Traffic
    /** Every connection ever archived. */
    ghost var archived: seq<Connection>
    /** The cleanup passes so far, and the archives before, between and after them. */
    ghost var passes: seq<Pass>
    ghost var archives: seq<map<string, Historic>>

    /** The state of the step machine, seen by a processor with nothing in flight. */
    ghost function State(): State
      reads this
    {
      ConnectionTable.State(connections, [Idle], archived, totals, started, turnedAway)
    }

    /** The archive is what the passes so far have left. */
    ghost predicate Valid()
      reads this
    {
      ArchiveRun(archives, passes) && historic == archives[|passes|]
    }

    constructor ()
      ensures Valid() && State() == Init(1) && historic == map[]
    {
      connections, historic, archived, totals := map[], map[], [], TcpObserver.NO_EVENTS;
      started, turnedAway := Traffic(0, 0), Traffic(0, 0);
      passes, archives := [], [map[]];
    }

    /** `update_connection`: look up, check the limit, enter; `at` is read on entry to it, `stamp`
        under the lock of the entry. */
    method UpdateConnection(key: Key, packet: Packet, at: int, stamp: int)
      modifies this`connections, this`totals, this`started, this`turnedAway
      ensures State() == Run(old(State()), [Start(0, key, packet, at), CheckLimit(0), Enter(0, stamp)])
    {
      ThreeSteps(State(), Start(0, key, packet, at), CheckLimit(0), Enter(0, stamp));
      started := AddPacket(started, packet);
      if key !in connections && |connections| >= MAX_CONNECTIONS {
        turnedAway := AddPacket(turnedAway, packet);
        return;
      }
      if key in connections {
        totals := PlusEvents(totals, PacketEvents(connections[key], packet));
        connections := connections[key := MergePacket(connections[key], packet, at, stamp)];
      } else {
        connections := connections[key := Create(packet, at, stamp)];
      }
    }

    /** The sweep of the rate-refresh thread. */
    method RefreshPass(clocks: Clocks) returns (ghost steps: seq<Step>)
      modifies this`connections
      ensures connections == Refreshed(old(connections), clocks)
      ensures (forall step | step in steps :: step.RefreshOne?) && State() == Run(old(State()), steps)
    {
      hide RefreshIfNeeded, Refreshed, Turned;
      ghost var all := connections;
      var pending := connections;
      steps := [];
      AllWaiting(all, clocks);
      while |pending| > 0
        invariant pending.Keys <= all.Keys == connections.Keys
        invariant forall k | k in all :: Turned(all[k], k, pending, connections, clocks(k))
        invariant (forall step | step in steps :: step.RefreshOne?) && State() == Run(old(State()), steps)
        decreases |pending|
      {
        var k :| k in pending;
        TurnOne(all, pending, connections, clocks, k);
        SmallerMap(pending, k);
        RunOneMore(old(State()), steps, RefreshOne(k, clocks(k)));
        steps := steps + [RefreshOne(k, clocks(k))];
        pending := pending - {k};
        connections := connections[k := RefreshIfNeeded(connections[k], clocks(k))];
      }
      assert pending == map[];
      AllTurned(all, connections, clocks);
    }

    /** One pass of the cleanup thread: expired connections leave the live table and are
        archived under their own keys, and the archive is brought back to its limit by dropping
        the oldest-closed. */
    method CleanupPass(now: int) returns (ghost steps: seq<Step>)
      requires Valid()
      modifies this
      ensures connections == old(connections) - Expired(old(connections), now)
      ensures forall k | k in old(connections) ::
                GoesByTheRules(old(connections)[k], now - old(connections)[k].lastActivity, k !in connections)
      ensures (forall step | step in steps :: step.RetireOne?) && State() == Run(old(State()), steps)
      ensures Valid() && archives == old(archives) + [historic]
      ensures passes == old(passes) + [Pass(Restrict(old(connections), Expired(old(connections), now)), now)]
      ensures |historic| <= 5_000
    {
      hide Expired, Restrict, ArchiveRun, Run, GoesByTheRules;
      var toArchive;
      toArchive, steps := Retain(now);
      ExpiredByTheRules(old(connections), now);
      ArchivePass(toArchive, now);
    }

    /** What the pass does with the connections it has collected. */
    method ArchivePass(gone: map<Key, Connection>, now: int)
      requires Valid()
      modifies this`historic, this`passes, this`archives
      ensures Valid() && archives == old(archives) + [historic] && passes == old(passes) + [Pass(gone, now)]
      ensures |historic| <= 5_000
    {
      hide Enforced, ArchiveOf, ArchiveRun;
      ArchiveAll(gone, now);
      EnforceLimit();
      OnePassMore(archives, passes, Pass(gone, now), historic);
      passes, archives := passes + [Pass(gone, now)], archives + [historic];
    }

    /** Each connection collected goes into the archive under its key. */
    method ArchiveAll(gone: map<Key, Connection>, now: int)
      modifies this`historic
      ensures historic == old(historic) + ArchiveOf(gone, now)
    {
      hide ArchiveOf, ArchiveKey, Parted;
      var pending, done := gone, map[];
      NothingToArchive(gone, now);
      while |pending| > 0
        invariant Parted(gone, pending, done)
        invariant historic == old(historic) + ArchiveOf(done, now)
        decreases |pending|
      {
        var k :| k in pending;
        PartOne(gone, pending, done, k);
        SmallerMap(pending, k);
        ArchiveOne(done, k, pending[k], now);
        PutLast(old(historic), ArchiveOf(done, now), ArchiveKey(k, pending[k].createdAt), Historic(pending[k], now));
        historic := historic[ArchiveKey(k, pending[k].createdAt) := Historic(pending[k], now)];
        done, pending := done[k := pending[k]], pending - {k};
      }
      NothingPends(pending);
      AllParted(gone, done);
    }

    /** `retain`: visits every entry once, keeps those not timed out and collects the others. */
    method Retain(now: int) returns (removed: map<Key, Connection>, ghost steps: seq<Step>)
      modifies this`connections, this`archived
      ensures connections == old(connections) - Expired(old(connections), now)
      ensures removed == Restrict(old(connections), Expired(old(connections), now))
      ensures (forall step | step in steps :: step.RetireOne?) && State() == Run(old(State()), steps)
    {
      hide ShouldCleanup, Expired, Restrict, Visited;
      ghost var all := connections;
      var pending := connections;
      removed, steps := map[], [];
      AllPending(all, now);
      while |pending| > 0
        invariant pending.Keys <= all.Keys && connections.Keys <= all.Keys && removed.Keys <= all.Keys
        invariant forall k | k in all :: Visited(all[k], k, pending, connections, removed, now)
        invariant (forall step | step in steps :: step.RetireOne?) && State() == Run(old(State()), steps)
        decreases |pending|
      {
        var k :| k in pending;
        var conn := pending[k];
        VisitOne(all, pending, connections, removed, now, k);
        SmallerMap(pending, k);
        RunOneMore(old(State()), steps, RetireOne(k, now));
        steps := steps + [RetireOne(k, now)];
        pending := pending - {k};
        if ShouldCleanup(conn, now) {
          removed := removed[k := conn];
          archived := archived + [conn];
          connections := connections - {k};
        }
      }
      assert pending == map[];
      AllVisited(all, connections, removed, now);
    }

    method EnforceLimit()
      modifies this`historic
      ensures Enforced(old(historic), historic) && |historic| <= 5_000
    {
      if |historic| > MAX_HISTORIC_CONNECTIONS {
        var times := ClosedTimes(historic);
        var entries := Collect(times);
        var order := SortByTime(entries);
        var toRemove := |historic| - MAX_HISTORIC_CONNECTIONS;
        SameSize(historic, times);
        SortLists(entries, times, toRemove);
        RemovingOldest(historic, times, order, toRemove);
        historic := RemoveFirst(historic, order, toRemove);
      }
    }

    /** `clear_all_connections`: the tables and then the TCP counters. */
    method ClearAll()
      modifies this
      ensures State() == Run(old(State()), [ClearTable, ClearArchive, ClearTotals])
      ensures Valid() && connections == map[] && historic == map[] && archived == [] && passes == []
      ensures totals == TcpObserver.Events(0, 0, 0)
    {
      ThreeSteps(State(), ClearTable, ClearArchive, ClearTotals);
      connections := map[];
      historic, archived, passes, archives := map[], [], [], [map[]];
      totals := TcpObserver.NO_EVENTS;
    }
  }

  lemma ExpiredByTheRules(all: map<Key, Connection>, now: int)
    ensures forall k | k in all ::
              GoesByTheRules(all[k], now - all[k].lastActivity, k !in all - Expired(all, now))
  {
    hide ShouldCleanup, GoesByTheRules;
    forall k | k in all ensures GoesByTheRules(all[k], now - all[k].lastActivity, k !in all - Expired(all, now)) {
      CleanupKeepsTheRules(all[k], now);
    }
  }

  lemma ThreeSteps(s: State, a: Step, b: Step, c: Step)
    ensures Run(s, [a, b, c]) == Apply(Apply(Apply(s, a), b), c)
  {
    hide Apply;
    assert [a, b, c] == [a] + [b] + [c];
    RunOneMore(s, [a] + [b], c);
    RunOneMore(s, [a], b);
    assert [a][..0] == [];
  }

  lemma OnePassMore(hs: seq<map<string, Historic>>, passes: seq<Pass>, p: Pass, after: map<string, Historic>)
    requires ArchiveRun(hs, passes) && PassStep(hs[|passes|], p, after)
    ensures ArchiveRun(hs + [after], passes + [p]) && (hs + [after])[|passes + [p]|] == after
  {
    hide PassStep;
  }

  lemma PutLast(a: map<string, Historic>, b: map<string, Historic>, k: string, h: Historic)
    ensures (a + b)[k := h] == a + b[k := h]
  {
  }

  lemma NothingPends(pending: map<Key, Connection>)
    requires |pending| == 0
    ensures pending == map[]
  {
  }

  lemma NothingToArchive(gone: map<Key, Connection>, now: int)
    ensures ArchiveOf(map[], now) == map[] && Parted(gone, gone, map[])
  {
  }

  lemma AllWaiting(all: map<Key, Connection>, clocks: Clocks)
    ensures forall k | k in all :: Turned(all[k], k, all, all, clocks(k))
  {
  }

  lemma AllPending(all: map<Key, Connection>, now: int)
    ensures forall k | k in all :: Visited(all[k], k, all, all, map[], now)
  {
  }
}
