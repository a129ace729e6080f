/** The shared connection table under its threads: packet processors that look up, check the
    limit and then enter, the cleanup pass, the rate-refresh pass and the clear command.

    Each operation on the concurrent map is one atomic step: a `contains_key`, a `len`, an
    `entry`, the visit of `retain` or of the refresh sweep to one entry, a `clear`. A run is any
    interleaving of them, so a pass over the map need not be atomic. */
module ConnectionTable {
  import opened Bytes
  import opened Connections
  import opened Sums
  import Rates
  import TcpObserver

  type Key = string

  const MAX_CONNECTIONS: nat := 50_000

  const MAX_PROCESSORS: nat := 4

  /** How many packet processors start, given the parallelism the system reports, if it does. */
  function Processors(available: Option<nat>): nat {
    Min(if available.Some? then available.value else 4, MAX_PROCESSORS)
  }

  /** Where a processor is inside `update_connection`: the key was not in the table and the
      limit has yet to be checked, or the limit check is behind it. */
  datatype Processor = Idle
                     | Looked(key: Key, packet: Packet, at: int)
                     | Admitted(key: Key, packet: Packet, at: int)

  datatype Traffic = Traffic(packets: nat, bytes: nat)

  /** `archive` is every connection cleanup ever removed; `started` and `turnedAway` count the packets
      that entered `update_connection` and those dropped at the limit; `totals` are the three
      global TCP counters. */
  datatype State = State(
    table: map<Key, Connection>,
    processors: seq<Processor>,
    archive: seq<Connection>,
    totals: TcpObserver.Events,
    started: Traffic,
    turnedAway: Traffic)

  datatype Step = Start(i: nat, key: Key, packet: Packet, at: int)
                | CheckLimit(i: nat)
                | Enter(i: nat, stamp: int)
                | RetireOne(key: Key, now: int)
                | RefreshOne(key: Key, reading: Reading)
                | ClearTable
                | ClearArchive
                | ClearTotals

  // ---------------------------------------------------------------- the step machine

  function Init(p: nat): State {
    State(map[], seq(p, _ => Idle), [], TcpObserver.NO_EVENTS, Traffic(0, 0), Traffic(0, 0))
  }

  function PlusEvents(a: TcpObserver.Events, b: TcpObserver.Events): TcpObserver.Events {
    TcpObserver.Events(a.retransmits + b.retransmits, a.outOfOrder + b.outOfOrder,
                       a.fastRetransmits + b.fastRetransmits)
  }

  function AddPacket(t: Traffic, p: Packet): Traffic {
    Traffic(t.packets + 1, t.bytes + p.length)
  }

  function EnterTable(s: State, i: nat, stamp: int): State
    requires i < |s.processors| && s.processors[i].Admitted?
  {
    var pr := s.processors[i];
    var known := pr.key in s.table;
    s.(table := s.table[pr.key := if known then MergePacket(s.table[pr.key], pr.packet, pr.at, stamp)
                                  else Create(pr.packet, pr.at, stamp)],
       totals := PlusEvents(s.totals, if known then PacketEvents(s.table[pr.key], pr.packet)
                                      else TcpObserver.NO_EVENTS),
       processors := s.processors[i := Idle])
  }

  /** One atomic step; a step that is not possible changes nothing. */
  function Apply(s: State, step: Step): State {
    match step
    case Start(i, key, packet, at) =>
      if i < |s.processors| && s.processors[i].Idle? then
        s.(processors := s.processors[i := if key in s.table then Admitted(key, packet, at)
                                           else Looked(key, packet, at)],
           started := AddPacket(s.started, packet))
      else s
    case CheckLimit(i) =>
      if i < |s.processors| && s.processors[i].Looked? then
        var pr := s.processors[i];
        if |s.table| >= MAX_CONNECTIONS then
          s.(processors := s.processors[i := Idle],
             turnedAway := AddPacket(s.turnedAway, pr.packet))
        else s.(processors := s.processors[i := Admitted(pr.key, pr.packet, pr.at)])
      else s
    case Enter(i, stamp) =>
      if i < |s.processors| && s.processors[i].Admitted? then EnterTable(s, i, stamp) else s
    case RetireOne(key, now) =>
      if key in s.table && ShouldCleanup(s.table[key], now) then
        s.(table := s.table - {key}, archive := s.archive + [s.table[key]])
      else s
    case RefreshOne(key, r) =>
      if key in s.table then s.(table := s.table[key := RefreshIfNeeded(s.table[key], r)]) else s
    case ClearTable => s.(table := map[])
    case ClearArchive => s.(archive := [])
    case ClearTotals => s.(totals := TcpObserver.NO_EVENTS)
  }

  /** The clear command empties one thing after the other. */
  predicate Clears(step: Step) {
    step.ClearTable? || step.ClearArchive? || step.ClearTotals?
  }

  function Run(s: State, steps: seq<Step>): State {
    if steps == [] then s else Apply(Run(s, steps[..|steps| - 1]), steps[|steps| - 1])
  }

  lemma {:induction false} RunConcat(s: State, xs: seq<Step>, ys: seq<Step>)
    ensures Run(s, xs + ys) == Run(Run(s, xs), ys)
  {
    if ys == [] {
      assert xs + ys == xs;
    } else {
      assert (xs + ys)[..|xs + ys| - 1] == xs + ys[..|ys| - 1];
      RunConcat(s, xs, ys[..|ys| - 1]);
    }
  }

  // ---------------------------------------------------------------- the bound on the table

  /** The keys whose limit check is behind them but which are not yet entered. */
  function AdmittedKeys(ps: seq<Processor>): set<Key> {
    set i | 0 <= i < |ps| && ps[i].Admitted? :: ps[i].key
  }

  /** The table and the keys on their way into it. */
  function Claimed(s: State): set<Key> {
    s.table.Keys + AdmittedKeys(s.processors)
  }

  lemma {:induction false} FewAdmitted(ps: seq<Processor>)
    ensures |AdmittedKeys(ps)| <= |ps|
  {
    if ps == [] {
      assert AdmittedKeys(ps) == {};
    } else {
      var front := ps[..|ps| - 1];
      var last := ps[|ps| - 1];
      FewAdmitted(front);
      assert AdmittedKeys(ps) == AdmittedKeys(front) + if last.Admitted? then {last.key} else {};
    }
  }

  lemma SubsetIsSmaller<T>(a: set<T>, b: set<T>)
    requires a <= b
    ensures |a| <= |b|
  {
    assert b == a + (b - a);
  }

  lemma UnionIsSmaller<T>(a: set<T>, b: set<T>)
    ensures |a + b| <= |a| + |b|
  {
    assert a + b == a + (b - a);
    SubsetIsSmaller(b - a, b);
  }

  lemma AdmittedAfter(ps: seq<Processor>, i: nat, pr: Processor)
    requires i < |ps|
    ensures AdmittedKeys(ps[i := pr]) <= AdmittedKeys(ps) + if pr.Admitted? then {pr.key} else {}
    ensures ps[i].Admitted? ==> ps[i].key in AdmittedKeys(ps)
  {
  }

  /** The step that passes the limit check. */
  predicate Admits(s: State, step: Step) {
    && step.CheckLimit? && step.i < |s.processors| && s.processors[step.i].Looked?
    && |s.table| < MAX_CONNECTIONS
  }

  lemma ProcessorsStay(s: State, step: Step)
    ensures |Apply(s, step).processors| == |s.processors|
    ensures Admits(s, step) ==> Apply(s, step).table == s.table
  {
    hide ShouldCleanup, MergePacket, Create, PacketEvents, RefreshIfNeeded;
  }

  lemma StepKeepsBound(s: State, step: Step)
    requires |s.processors| > 0 && |Claimed(s)| <= MAX_CONNECTIONS + |s.processors| - 1
    ensures var t := Apply(s, step);
      |t.processors| == |s.processors| && |Claimed(t)| <= MAX_CONNECTIONS + |s.processors| - 1
  {
    hide Apply, AdmittedKeys;
    var t := Apply(s, step);
    ProcessorsStay(s, step);
    if Admits(s, step) {
      FewAdmitted(t.processors);
      UnionIsSmaller(s.table.Keys, AdmittedKeys(t.processors));
    } else {
      ClaimsDoNotGrow(s, step);
      SubsetIsSmaller(Claimed(t), Claimed(s));
    }
  }

  lemma EnterClaims(s: State, i: nat, stamp: int)
    requires i < |s.processors| && s.processors[i].Admitted?
    ensures Claimed(EnterTable(s, i, stamp)) <= Claimed(s)
  {
    hide AdmittedKeys, MergePacket, Create, PacketEvents;
    AdmittedAfter(s.processors, i, Idle);
  }

  lemma StartClaims(s: State, i: nat, key: Key, packet: Packet, at: int)
    ensures Claimed(Apply(s, Start(i, key, packet, at))) <= Claimed(s)
  {
    hide AdmittedKeys;
    if i < |s.processors| {
      AdmittedAfter(s.processors, i, Apply(s, Start(i, key, packet, at)).processors[i]);
    }
  }

  /** Only passing the limit check claims a new key. */
  lemma {:induction false} ClaimsDoNotGrow(s: State, step: Step)
    requires !Admits(s, step)
    ensures Claimed(Apply(s, step)) <= Claimed(s)
  {
    hide AdmittedKeys, ShouldCleanup, EnterTable, RefreshIfNeeded, AddPacket;
    match step
    case Start(i, key, packet, at) => StartClaims(s, i, key, packet, at);
    case CheckLimit(i) =>
      if i < |s.processors| {
        AdmittedAfter(s.processors, i, Idle);
      }
    case Enter(i, stamp) =>
      if i < |s.processors| && s.processors[i].Admitted? {
        EnterClaims(s, i, stamp);
      }
    case _ =>
  }

  /** With p processors racing on check-then-insert, in every run, the table holds at most
      MAX_CONNECTIONS + p - 1 connections: the limit itself when there is one processor. */
  lemma {:induction false} TableIsBounded(p: nat, steps: seq<Step>)
    requires p > 0
    ensures var s := Run(Init(p), steps);
      && |s.processors| == p
      && |Claimed(s)| <= MAX_CONNECTIONS + p - 1
      && |s.table| <= MAX_CONNECTIONS + p - 1
  {
    if steps == [] {
      assert Claimed(Init(p)) == {};
    } else {
      TableIsBounded(p, steps[..|steps| - 1]);
      StepKeepsBound(Run(Init(p), steps[..|steps| - 1]), steps[|steps| - 1]);
    }
    var s := Run(Init(p), steps);
    SubsetIsSmaller(s.table.Keys, Claimed(s));
    assert |s.table| == |s.table.Keys|;
  }

  /** As started, on any machine: never more than three connections over the limit. */
  lemma TableAsStarted(available: Option<nat>, steps: seq<Step>)
    requires available.Some? ==> available.value > 0
    ensures |Run(Init(Processors(available)), steps).table| <= 50_003
  {
    TableIsBounded(Processors(available), steps);
  }

  // ---------------------------------------------------------------- the bound is reached

  function Name(n: nat): Key {
    seq(n, _ => 'k')
  }

  function Names(n: nat): set<Key> {
    set i: nat | i < n :: Name(i)
  }

  lemma {:induction false} NamesAreDistinct(n: nat)
    ensures |Names(n)| == n
  {
    if n > 0 {
      NamesAreDistinct(n - 1);
      forall i: nat | i < n - 1 ensures Name(i) != Name(n - 1) {
        assert |Name(i)| == i && |Name(n - 1)| == n - 1;
      }
      assert Names(n) == Names(n - 1) + {Name(n - 1)};
    } else {
      assert Names(0) == {};
    }
  }

  /** `n` names in the table, the first `j` processors admitted with the names after those. */
  predicate Waiting(s: State, p: nat, n: nat, j: nat) {
    && |s.processors| == p && s.table.Keys == Names(n)
    && forall i | 0 <= i < p ::
         if i < j then s.processors[i].Admitted? && s.processors[i].key == Name(n + i)
         else s.processors[i].Idle?
  }

  lemma FreshName(n: nat, i: nat)
    ensures Name(n + i) !in Names(n)
  {
    forall m: nat | m < n ensures Name(m) != Name(n + i) {
      assert |Name(m)| == m && |Name(n + i)| == n + i;
    }
  }

  /** One processor more passes both checks while the table stays below the limit. */
  lemma AdmitOne(s: State, p: nat, n: nat, j: nat, packet: Packet)
    requires Waiting(s, p, n, j) && j < p && n < MAX_CONNECTIONS
    ensures Waiting(Apply(Apply(s, Start(j, Name(n + j), packet, 0)), CheckLimit(j)), p, n, j + 1)
  {
    FreshName(n, j);
    NamesAreDistinct(n);
    assert |s.table| == |s.table.Keys| == n;
  }

  lemma {:induction false} AdmitMany(s: State, p: nat, n: nat, j: nat, packet: Packet) returns (steps: seq<Step>)
    requires Waiting(s, p, n, 0) && j <= p && n < MAX_CONNECTIONS
    ensures Waiting(Run(s, steps), p, n, j)
  {
    if j == 0 {
      steps := [];
    } else {
      hide Apply, Waiting;
      var before := AdmitMany(s, p, n, j - 1, packet);
      AdmitOne(Run(s, before), p, n, j - 1, packet);
      var a, b := Start(j - 1, Name(n + (j - 1)), packet, 0), CheckLimit(j - 1);
      steps := before + [a, b];
      RunTwo(s, before, a, b);
    }
  }

  lemma RunTwo(s: State, before: seq<Step>, a: Step, b: Step)
    ensures Run(s, before + [a, b]) == Apply(Apply(Run(s, before), a), b)
  {
    assert (before + [a, b])[..|before| + 1] == before + [a];
    assert (before + [a])[..|before|] == before;
  }

  function Later(n: nat, j: nat, k: nat): set<Key> {
    set m: nat | n + j <= m < n + k :: Name(m)
  }

  /** The admitted processors enter one after the other, the last first. */
  predicate Entering(s: State, p: nat, n: nat, j: nat, k: nat) {
    && j <= k <= p && |s.processors| == p
    && s.table.Keys == Names(n) + Later(n, j, k)
    && forall i | 0 <= i < p ::
         if i < j then s.processors[i].Admitted? && s.processors[i].key == Name(n + i)
         else s.processors[i].Idle?
  }

  lemma {:induction false} EnterAll(s: State, p: nat, n: nat, j: nat, k: nat) returns (steps: seq<Step>)
    requires Entering(s, p, n, j, k)
    ensures Run(s, steps).table.Keys == Names(n + k)
    ensures |Run(s, steps).processors| == p && forall i | 0 <= i < p :: Run(s, steps).processors[i].Idle?
    decreases j
  {
    if j == 0 {
      steps := [];
      assert Names(n) + Later(n, 0, k) == Names(n + k);
    } else {
      var a := Enter(j - 1, 0);
      var t := Apply(s, a);
      assert t.table.Keys == s.table.Keys + {Name(n + (j - 1))};
      assert Later(n, j - 1, k) == Later(n, j, k) + {Name(n + (j - 1))};
      assert Entering(t, p, n, j - 1, k);
      var rest := EnterAll(t, p, n, j - 1, k);
      steps := [a] + rest;
      RunConcat(s, [a], rest);
      assert [a][..0] == [];
    }
  }

  lemma {:induction false} Fill(p: nat, n: nat, packet: Packet) returns (steps: seq<Step>)
    requires p > 0 && n < MAX_CONNECTIONS
    ensures Waiting(Run(Init(p), steps), p, n, 0)
  {
    if n == 0 {
      steps := [];
    } else {
      var before := Fill(p, n - 1, packet);
      var s := Run(Init(p), before);
      var admit := AdmitMany(s, p, n - 1, 1, packet);
      var enter := EnterAll(Run(s, admit), p, n - 1, 1, 1);
      steps := before + admit + enter;
      RunConcat(Init(p), before + admit, enter);
      RunConcat(Init(p), before, admit);
    }
  }

  /** The bound is exact: some run of p processors does reach MAX_CONNECTIONS + p - 1. */
  lemma BoundIsReached(p: nat, packet: Packet) returns (steps: seq<Step>)
    requires p > 0
    ensures |Run(Init(p), steps).table| == MAX_CONNECTIONS + p - 1
  {
    var n := MAX_CONNECTIONS - 1;
    var fill := Fill(p, n, packet);
    var s := Run(Init(p), fill);
    var admit := AdmitMany(s, p, n, p, packet);
    var enter := EnterAll(Run(s, admit), p, n, p, p);
    steps := fill + admit + enter;
    RunConcat(Init(p), fill + admit, enter);
    RunConcat(Init(p), fill, admit);
    NamesAreDistinct(n + p);
    assert |Run(Init(p), steps).table| == |Run(Init(p), steps).table.Keys|;
  }

  // ---------------------------------------------------------------- what the entries are

  /** What befell one connection: the packet it was created from and what came after. */
  datatype Story = Story(packet: Packet, at: int, stamp: int, events: seq<Event>)

  function AsTold(y: Story): Connection {
    Life(Create(y.packet, y.at, y.stamp), y.events, true)
  }

  function GoesOn(y: Story, e: Event): Story {
    y.(events := y.events + [e])
  }

  /** What `step` adds to the story of key `k`: a processor that enters with this key begins it or
      adds its packet, a refresh of this key adds its readings, and the key's removal ends it. */
  function StoryAfter(s: State, y: Option<Story>, step: Step, k: Key): Option<Story> {
    match step
    case Enter(i, stamp) =>
      if i < |s.processors| && s.processors[i].Admitted? && s.processors[i].key == k then
        var pr := s.processors[i];
        if y == None then Some(Story(pr.packet, pr.at, stamp, []))
        else Some(GoesOn(y.value, Arrives(pr.packet, pr.at, stamp)))
      else y
    case RefreshOne(key, r) => if key == k && y.Some? then Some(GoesOn(y.value, Tick(r))) else y
    case RetireOne(key, now) => if key == k && y.Some? && ShouldCleanup(AsTold(y.value), now) then None else y
    case ClearTable => None
    case _ => y
  }

  /** The story of key `k` so far, if it is in the table. */
  function StoryOf(p: nat, steps: seq<Step>, k: Key): Option<Story> {
    if steps == [] then None
    else
      var front := steps[..|steps| - 1];
      StoryAfter(Run(Init(p), front), StoryOf(p, front, k), steps[|steps| - 1], k)
  }

  /** The stories that ended with a removal by cleanup, since the archive was last cleared. */
  function StoriesTold(p: nat, steps: seq<Step>): seq<Story> {
    if steps == [] then []
    else
      var front, last := steps[..|steps| - 1], steps[|steps| - 1];
      var told := StoriesTold(p, front);
      match last
      case RetireOne(key, now) =>
        var y := StoryOf(p, front, key);
        if y.Some? && ShouldCleanup(AsTold(y.value), now) then told + [y.value] else told
      case ClearArchive => []
      case _ => told
  }

  /** The entry of `k` is what story `y` tells, and there is none without a story. */
  predicate EntryTold(s: State, y: Option<Story>, k: Key) {
    (k in s.table <==> y.Some?) && (y.Some? ==> s.table[k] == AsTold(y.value))
  }

  lemma StoryBegins(packet: Packet, at: int, stamp: int)
    ensures AsTold(Story(packet, at, stamp, [])) == Create(packet, at, stamp)
  {
  }

  lemma StoryGoesOn(y: Story, e: Event)
    ensures AsTold(GoesOn(y, e)) == Connections.Step(AsTold(y), e, true)
  {
    hide Connections.Step, Create;
    assert (y.events + [e])[..|y.events|] == y.events;
  }

  lemma StoryStep(s: State, y: Option<Story>, step: Step, k: Key)
    requires EntryTold(s, y, k)
    ensures EntryTold(Apply(s, step), StoryAfter(s, y, step, k), k)
  {
    hide AsTold, GoesOn, MergePacket, Create, RefreshIfNeeded, ShouldCleanup, PacketEvents;
    match step
    case Enter(i, stamp) =>
      if i < |s.processors| && s.processors[i].Admitted? {
        var pr := s.processors[i];
        StoryBegins(pr.packet, pr.at, stamp);
        if y.Some? {
          StoryGoesOn(y.value, Arrives(pr.packet, pr.at, stamp));
        }
      }
    case RefreshOne(key, r) =>
      if y.Some? {
        StoryGoesOn(y.value, Tick(r));
      }
    case _ =>
  }

  /** In every run a key is in the table exactly while it has a story, and its entry is the life that
      story tells: the key's own packets and refreshes, in the order of the run, and nothing else. */
  lemma {:induction false} EntriesAreLives(p: nat, steps: seq<Step>, k: Key)
    ensures EntryTold(Run(Init(p), steps), StoryOf(p, steps, k), k)
  {
    if steps == [] {
    } else {
      hide Apply, EntryTold, StoryAfter;
      var front := steps[..|steps| - 1];
      EntriesAreLives(p, front, k);
      StoryStep(Run(Init(p), front), StoryOf(p, front, k), steps[|steps| - 1], k);
    }
  }

  /** The archived connections are, one by one, what the stories that ended in a removal tell. */
  predicate ArchiveTold(s: State, told: seq<Story>) {
    |s.archive| == |told| && forall i | 0 <= i < |told| :: s.archive[i] == AsTold(told[i])
  }

  lemma {:induction false} ArchivedAreLives(p: nat, steps: seq<Step>)
    ensures ArchiveTold(Run(Init(p), steps), StoriesTold(p, steps))
  {
    if steps == [] {
    } else {
      hide AsTold, ShouldCleanup, EnterTable, RefreshIfNeeded, StoryOf;
      var front, last := steps[..|steps| - 1], steps[|steps| - 1];
      ArchivedAreLives(p, front);
      if last.RetireOne? {
        EntriesAreLives(p, front, last.key);
      }
    }
  }

  /** Whatever a processor holds came in with a step of the run, under the key it holds. */
  ghost predicate Began(steps: seq<Step>, k: Key, packet: Packet, at: int) {
    exists i: nat :: Start(i, k, packet, at) in steps
  }

  lemma BeganBefore(front: seq<Step>, last: Step, k: Key, packet: Packet, at: int)
    requires Began(front, k, packet, at)
    ensures Began(front + [last], k, packet, at)
  {
    var i: nat :| Start(i, k, packet, at) in front;
    assert Start(i, k, packet, at) in front + [last];
  }

  lemma {:induction false} HeldWasStarted(p: nat, steps: seq<Step>, i: nat)
    ensures var ps := Run(Init(p), steps).processors;
      i < |ps| && !ps[i].Idle? ==> Began(steps, ps[i].key, ps[i].packet, ps[i].at)
  {
    if steps == [] {
    } else {
      hide Began, ShouldCleanup, MergePacket, Create, PacketEvents, RefreshIfNeeded;
      var front, last := steps[..|steps| - 1], steps[|steps| - 1];
      assert steps == front + [last];
      HeldWasStarted(p, front, i);
      var was, ps := Run(Init(p), front).processors, Run(Init(p), steps).processors;
      if i < |ps| && !ps[i].Idle? {
        if last.Start? && last.i == i && was[i].Idle? {
          BeganNow(steps, i, ps[i].key, ps[i].packet, ps[i].at);
        } else {
          BeganBefore(front, last, ps[i].key, ps[i].packet, ps[i].at);
        }
      }
    }
  }

  lemma BeganNow(steps: seq<Step>, i: nat, k: Key, packet: Packet, at: int)
    requires Start(i, k, packet, at) in steps
    ensures Began(steps, k, packet, at)
  {
  }

  ghost predicate Happened(e: Event, steps: seq<Step>, k: Key) {
    match e
    case Arrives(packet, at, _) => Began(steps, k, packet, at)
    case Tick(r) => RefreshOne(k, r) in steps
  }

  /** Everything in the story happened in the run, to this key. */
  ghost predicate IsOwn(y: Story, steps: seq<Step>, k: Key) {
    Began(steps, k, y.packet, y.at) && forall i | 0 <= i < |y.events| :: Happened(y.events[i], steps, k)
  }

  lemma OwnBefore(y: Story, front: seq<Step>, last: Step, k: Key)
    requires IsOwn(y, front, k)
    ensures IsOwn(y, front + [last], k)
  {
    hide Began;
    BeganBefore(front, last, k, y.packet, y.at);
    forall i | 0 <= i < |y.events| ensures Happened(y.events[i], front + [last], k) {
      assert Happened(y.events[i], front, k);
      if y.events[i].Arrives? {
        BeganBefore(front, last, k, y.events[i].packet, y.events[i].at);
      }
    }
  }

  /** No packet and no refresh in a key's story is another key's, or from outside the run. */
  lemma {:induction false} StoriesAreOwn(p: nat, steps: seq<Step>, k: Key)
    ensures var y := StoryOf(p, steps, k); y.Some? ==> IsOwn(y.value, steps, k)
  {
    if steps == [] {
    } else {
      hide IsOwn, Began, AsTold, ShouldCleanup, Run;
      var front, last := steps[..|steps| - 1], steps[|steps| - 1];
      assert steps == front + [last];
      StoriesAreOwn(p, front, k);
      var y := StoryOf(p, front, k);
      if y.Some? {
        OwnBefore(y.value, front, last, k);
      }
      if last.Enter? {
        HeldWasStarted(p, front, last.i);
      }
      OwnStep(Run(Init(p), front), y, front, last, k);
    }
  }

  lemma OwnStep(s: State, y: Option<Story>, front: seq<Step>, last: Step, k: Key)
    requires y.Some? ==> IsOwn(y.value, front + [last], k)
    requires last.Enter? && last.i < |s.processors| && !s.processors[last.i].Idle? ==>
               var pr := s.processors[last.i]; Began(front, pr.key, pr.packet, pr.at)
    ensures var y' := StoryAfter(s, y, last, k); y'.Some? ==> IsOwn(y'.value, front + [last], k)
  {
    hide Began, AsTold, ShouldCleanup;
    if last.Enter? && last.i < |s.processors| && s.processors[last.i].Admitted? {
      var pr := s.processors[last.i];
      BeganBefore(front, last, pr.key, pr.packet, pr.at);
    }
  }

  /** For one: every tracker's last counts are its connection's byte counters. */
  lemma {:induction false} TrackersAgree(p: nat, steps: seq<Step>, k: Key)
    requires k in Run(Init(p), steps).table
    ensures var c := Run(Init(p), steps).table[k];
      && c.tracker.lastSent == c.bytesSent && c.tracker.lastReceived == c.bytesReceived
      && |c.tracker.samples| <= Rates.MAX_SAMPLES
  {
    hide Run, Life, Create;
    EntriesAreLives(p, steps, k);
    var y := StoryOf(p, steps, k).value;
    CreateIsTracked(y.packet, y.at, y.stamp);
    LifeIsAccounted(Create(y.packet, y.at, y.stamp), y.events, true);
  }

  /** In every run cleanup takes an entry exactly when, by the rules of its protocol and state, too much time
      has passed since the reading that the key's last packet brought along. */
  lemma RetiredByTheRules(p: nat, steps: seq<Step>, k: Key, now: int)
    requires k in Run(Init(p), steps).table
    ensures var c := Run(Init(p), steps).table[k];
      var y := StoryOf(p, steps, k);
      && y.Some? && c.lastActivity == LastHeard(y.value.at, y.value.events)
      && GoesByTheRules(c, now - LastHeard(y.value.at, y.value.events),
                        k !in Run(Init(p), steps + [RetireOne(k, now)]).table)
  {
    hide ShouldCleanup, GoesByTheRules, Life, Create;
    EntriesAreLives(p, steps, k);
    var y := StoryOf(p, steps, k).value;
    LifeCounts(y.packet, y.at, y.stamp, y.events, true);
    CleanupKeepsTheRules(Run(Init(p), steps).table[k], now);
    assert (steps + [RetireOne(k, now)])[..|steps|] == steps;
  }

  // ---------------------------------------------------------------- the skipped refreshes

  /** The machine with a refresh thread that skips nothing. */
  function ApplyEager(s: State, step: Step): State {
    match step
    case RefreshOne(key, r) =>
      if key in s.table then s.(table := s.table[key := Refresh(s.table[key], r)]) else s
    case _ => Apply(s, step)
  }

  function RunEager(s: State, steps: seq<Step>): State {
    if steps == [] then s else ApplyEager(RunEager(s, steps[..|steps| - 1]), steps[|steps| - 1])
  }

  /** A packet is stamped under its entry's lock, so not before the entry's last stamp, and less
      than `MAX_LAG` after the clock reading it brings along; a refresh reads its clocks in turn. */
  predicate Timely(s: State, step: Step) {
    match step
    case Enter(i, stamp) =>
      i < |s.processors| && s.processors[i].Admitted? ==>
        var pr := s.processors[i];
        && stamp < pr.at + MAX_LAG
        && (pr.key in s.table ==> s.table[pr.key].tracker.lastUpdate <= stamp)
    case RefreshOne(_, r) => InSequence(r)
    case _ => true
  }

  predicate AllTimely(s: State, steps: seq<Step>) {
    steps == []
    || (AllTimely(s, steps[..|steps| - 1]) && Timely(Run(s, steps[..|steps| - 1]), steps[|steps| - 1]))
  }

  /** The same but for samples that only pruning would remove. */
  ghost predicate ShowTheSame(eager: State, s: State) {
    && eager.processors == s.processors && eager.totals == s.totals
    && eager.started == s.started && eager.turnedAway == s.turnedAway
    && eager.table.Keys == s.table.Keys && (forall k | k in s.table :: Twins(eager.table[k], s.table[k]))
    && |eager.archive| == |s.archive|
    && (forall i | 0 <= i < |s.archive| :: SameShown(eager.archive[i], s.archive[i]))
  }

  lemma EnterKeepsShown(eager: State, s: State, i: nat, stamp: int)
    requires ShowTheSame(eager, s) && Timely(s, Enter(i, stamp)) && i < |s.processors| && s.processors[i].Admitted?
    ensures ShowTheSame(EnterTable(eager, i, stamp), EnterTable(s, i, stamp))
  {
    hide Twins, SameShown, MergePacket, Create, PacketEvents, ShouldCleanup;
    var pr := s.processors[i];
    if pr.key in s.table {
      var a, b := eager.table[pr.key], s.table[pr.key];
      TwinsLookAlike(a, b);
      ReportAlike(a, b, pr.packet);
      PacketKeepsTwins(a, b, pr.packet, pr.at, stamp);
    } else {
      CreateIsTracked(pr.packet, pr.at, stamp);
      BornTwins(Create(pr.packet, pr.at, stamp));
    }
  }

  lemma TwinsLookAlike(full: Connection, lazy: Connection)
    requires Twins(full, lazy)
    ensures SameShown(full, lazy) && full.tracker.lastUpdate == lazy.tracker.lastUpdate
  {
  }

  lemma RetireKeepsShown(eager: State, s: State, key: Key, now: int)
    requires ShowTheSame(eager, s)
    ensures ShowTheSame(Apply(eager, RetireOne(key, now)), Apply(s, RetireOne(key, now)))
  {
    hide Twins, SameShown, ShouldCleanup;
    if key in s.table {
      TwinsLookAlike(eager.table[key], s.table[key]);
      ExpireAlike(eager.table[key], s.table[key], now);
    }
  }

  lemma RefreshKeepsShown(eager: State, s: State, key: Key, r: Reading)
    requires ShowTheSame(eager, s) && InSequence(r)
    ensures ShowTheSame(ApplyEager(eager, RefreshOne(key, r)), Apply(s, RefreshOne(key, r)))
  {
    hide Twins, SameShown, Refresh, RefreshIfNeeded;
    if key in s.table {
      RefreshKeepsTwins(eager.table[key], s.table[key], r);
    }
  }

  /** The other steps look at nothing but keys and processors. */
  lemma OthersKeepShown(eager: State, s: State, step: Step)
    requires ShowTheSame(eager, s) && (step.Start? || step.CheckLimit? || Clears(step))
    ensures ShowTheSame(ApplyEager(eager, step), Apply(s, step))
  {
    hide Twins, SameShown;
    assert |eager.table| == |eager.table.Keys| && |s.table| == |s.table.Keys|;
  }

  lemma StepKeepsShown(eager: State, s: State, step: Step)
    requires ShowTheSame(eager, s) && Timely(s, step)
    ensures ShowTheSame(ApplyEager(eager, step), Apply(s, step))
  {
    hide ShowTheSame, EnterTable;
    match step
    case Enter(i, stamp) =>
      SameProcessors(eager, s);
      if i < |s.processors| && s.processors[i].Admitted? {
        EnterKeepsShown(eager, s, i, stamp);
      }
    case RetireOne(key, now) => RetireKeepsShown(eager, s, key, now);
    case RefreshOne(key, r) => RefreshKeepsShown(eager, s, key, r);
    case _ => OthersKeepShown(eager, s, step);
  }

  lemma SameProcessors(eager: State, s: State)
    requires ShowTheSame(eager, s)
    ensures eager.processors == s.processors
  {
  }

  /** Over every timely run of the whole machine, in whatever order the clock readings of racing
      processors enter, skipping idle connections with zero rates changes nothing that shows: the
      same keys, rates, counters and archive as refreshing every connection. */
  lemma {:induction false} SkippingNeverShows(p: nat, steps: seq<Step>)
    requires AllTimely(Init(p), steps)
    ensures ShowTheSame(RunEager(Init(p), steps), Run(Init(p), steps))
  {
    if steps == [] {
    } else {
      hide ShowTheSame, Apply, ApplyEager, Timely;
      var front := steps[..|steps| - 1];
      SkippingNeverShows(p, front);
      StepKeepsShown(RunEager(Init(p), front), Run(Init(p), front), steps[|steps| - 1]);
    }
  }

  // ---------------------------------------------------------------- conservation

  function Measures(t: map<Key, Connection>, m: Metric): map<Key, nat> {
    map k | k in t :: Measure(t[k], m)
  }

  function SumArchive(a: seq<Connection>, m: Metric): nat {
    if a == [] then 0 else SumArchive(a[..|a| - 1], m) + Measure(a[|a| - 1], m)
  }

  /** Everything the live and the archived connections have counted. */
  ghost function Counted(s: State, m: Metric): nat {
    SumMap(Measures(s.table, m)) + SumArchive(s.archive, m)
  }

  function InFlightOf(pr: Processor, m: Metric): nat {
    if pr.Idle? then 0 else Worth(pr.packet, m)
  }

  /** Packets inside `update_connection` whose step into the table is still to come. */
  function InFlight(ps: seq<Processor>, m: Metric): seq<nat> {
    seq(|ps|, i requires 0 <= i < |ps| => InFlightOf(ps[i], m))
  }

  function TrafficOf(t: Traffic, m: Metric): nat {
    match m
    case Packets => t.packets
    case Bytes => t.bytes
    case _ => 0
  }

  /** What the application reports: packets and bytes started, and the global TCP counters. */
  function Reported(s: State, m: Metric): nat {
    TrafficOf(s.started, m) + EventCount(s.totals, m)
  }

  /** Nothing is lost and nothing counted twice. */
  ghost predicate Conserved(s: State, m: Metric) {
    Reported(s, m) == Counted(s, m) + TrafficOf(s.turnedAway, m) + SumSeq(InFlight(s.processors, m))
  }

  lemma InFlightReplace(ps: seq<Processor>, i: nat, pr: Processor, m: Metric)
    requires i < |ps|
    ensures SumSeq(InFlight(ps[i := pr], m)) + InFlightOf(ps[i], m) == SumSeq(InFlight(ps, m)) + InFlightOf(pr, m)
  {
    assert InFlight(ps[i := pr], m) == InFlight(ps, m)[i := InFlightOf(pr, m)];
    SumSeqReplace(InFlight(ps, m), i, InFlightOf(pr, m));
  }

  lemma TableReplace(t: map<Key, Connection>, k: Key, c: Connection, m: Metric)
    ensures SumMap(Measures(t[k := c], m)) + (if k in t then Measure(t[k], m) else 0)
         == SumMap(Measures(t, m)) + Measure(c, m)
  {
    assert Measures(t[k := c], m) == Measures(t, m)[k := Measure(c, m)];
    SumReplace(Measures(t, m), k, Measure(c, m));
  }

  lemma EnterConserves(s: State, i: nat, stamp: int, m: Metric)
    requires Conserved(s, m) && i < |s.processors| && s.processors[i].Admitted?
    ensures Conserved(EnterTable(s, i, stamp), m)
  {
    hide Measure, Measures, MergePacket, Create, PacketEvents, SumMap, SumArchive, SumSeq, InFlight, TrafficOf, Worth;
    var pr := s.processors[i];
    InFlightReplace(s.processors, i, Idle, m);
    var c := if pr.key in s.table then MergePacket(s.table[pr.key], pr.packet, pr.at, stamp)
             else Create(pr.packet, pr.at, stamp);
    TableReplace(s.table, pr.key, c, m);
    if pr.key in s.table {
      CountersAddUp(s.table[pr.key], pr.packet, pr.at, stamp, m);
    } else {
      CountersAddUp(c, pr.packet, pr.at, stamp, m);
    }
  }

  lemma TableTakeOut(t: map<Key, Connection>, k: Key, m: Metric)
    requires k in t
    ensures SumMap(Measures(t, m)) == Measure(t[k], m) + SumMap(Measures(t - {k}, m))
  {
    hide Measure;
    SumTakeOut(Measures(t, m), k);
    assert Measures(t, m) - {k} == Measures(t - {k}, m);
  }

  lemma ArchiveGrows(a: seq<Connection>, c: Connection, m: Metric)
    ensures SumArchive(a + [c], m) == SumArchive(a, m) + Measure(c, m)
  {
    hide Measure;
    assert (a + [c])[..|a|] == a;
  }

  lemma RetireConserves(s: State, key: Key, now: int, m: Metric)
    requires Conserved(s, m)
    ensures Conserved(Apply(s, RetireOne(key, now)), m)
  {
    hide Measure, Measures, SumMap, SumArchive, SumSeq, InFlight, TrafficOf, EventCount, ShouldCleanup;
    if key in s.table && ShouldCleanup(s.table[key], now) {
      TableTakeOut(s.table, key, m);
      ArchiveGrows(s.archive, s.table[key], m);
    }
  }

  lemma RefreshConserves(s: State, key: Key, r: Reading, m: Metric)
    requires Conserved(s, m)
    ensures Conserved(Apply(s, RefreshOne(key, r)), m)
  {
    hide Measure, Measures, RefreshIfNeeded, SumMap, SumArchive, SumSeq, InFlight, TrafficOf, EventCount;
    if key in s.table {
      RefreshCountsNothing(s.table[key], r, m);
      TableReplace(s.table, key, RefreshIfNeeded(s.table[key], r), m);
    }
  }

  lemma StepConserves(s: State, step: Step, m: Metric)
    requires Conserved(s, m) && !Clears(step)
    ensures Conserved(Apply(s, step), m)
  {
    hide SumMap, SumSeq, SumArchive, Measures, InFlight, ShouldCleanup, RefreshIfNeeded, MergePacket, Create;
    match step
    case Start(i, key, packet, at) =>
      if i < |s.processors| {
        InFlightReplace(s.processors, i, Apply(s, step).processors[i], m);
      }
    case CheckLimit(i) =>
      if i < |s.processors| {
        InFlightReplace(s.processors, i, Apply(s, step).processors[i], m);
      }
    case Enter(i, stamp) =>
      if i < |s.processors| && s.processors[i].Admitted? {
        EnterConserves(s, i, stamp, m);
      }
    case RetireOne(key, now) => RetireConserves(s, key, now, m);
    case RefreshOne(key, r) => RefreshConserves(s, key, r, m);
  }

  /** Over every run without a clear, no packet and no byte is lost or counted twice between the
      live table, the archive, the packets turned away and those in flight, and each global TCP
      counter is the sum of the connections' own. */
  lemma {:induction false} RunConserves(p: nat, steps: seq<Step>, m: Metric)
    requires forall step :: step in steps ==> !Clears(step)
    ensures Conserved(Run(Init(p), steps), m)
  {
    if steps == [] {
      SumSeqZero(InFlight(Init(p).processors, m));
      assert Measures(map[], m) == map[];
    } else {
      var front := steps[..|steps| - 1];
      assert steps[|steps| - 1] in steps;
      forall step | step in front ensures step in steps {}
      RunConserves(p, front, m);
      StepConserves(Run(Init(p), front), steps[|steps| - 1], m);
    }
  }

  /** At rest: the sums over live and archived connections are exactly the packets and bytes
      parsed and not turned away, and the global TCP counters. */
  lemma AtRestNothingIsMissing(p: nat, steps: seq<Step>)
    requires forall step :: step in steps ==> !Clears(step)
    requires forall i | 0 <= i < |Run(Init(p), steps).processors| :: Run(Init(p), steps).processors[i] == Idle
    ensures var s := Run(Init(p), steps);
      && Counted(s, Packets) == s.started.packets - s.turnedAway.packets
      && Counted(s, Bytes) == s.started.bytes - s.turnedAway.bytes
      && Counted(s, Retransmits) == s.totals.retransmits
      && Counted(s, OutOfOrder) == s.totals.outOfOrder
      && Counted(s, FastRetransmits) == s.totals.fastRetransmits
  {
    AtRest(p, steps, Packets);
    AtRest(p, steps, Bytes);
    AtRest(p, steps, Retransmits);
    AtRest(p, steps, OutOfOrder);
    AtRest(p, steps, FastRetransmits);
  }

  lemma AtRest(p: nat, steps: seq<Step>, m: Metric)
    requires forall step :: step in steps ==> !Clears(step)
    requires forall i | 0 <= i < |Run(Init(p), steps).processors| :: Run(Init(p), steps).processors[i] == Idle
    ensures var s := Run(Init(p), steps); Reported(s, m) == Counted(s, m) + TrafficOf(s.turnedAway, m)
  {
    RunConserves(p, steps, m);
    SumSeqZero(InFlight(Run(Init(p), steps).processors, m));
  }
}
