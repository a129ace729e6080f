/** One tracked connection: created from a packet, merged into by later packets, refreshed by
    the rate thread, and timed out by the cleanup thread. */
module Connections {
  import opened Bytes
  import opened Clock
  import TcpObserver
  import QuicMerge
  import opened Rates

  /** The transport state; the protocols other than TCP carry no state the model needs. */
  datatype Transport = Tcp(state: TcpObserver.TcpState) | Udp | Icmp | Igmp | Arp

  /** The recognised application. Only QUIC is merged field by field here; for the rest the
      first recognised application stays. */
  datatype Application = Quic(info: QuicMerge.QuicInfo) | Http | Https | Dns | Ssh | Ntp | Mdns | Llmnr
                       | Dhcp | Snmp | Ssdp | NetBios | BitTorrent | Stun | Mqtt

  datatype Packet = Packet(
    outgoing: bool,
    length: nat,
    isTcp: bool,
    header: Option<TcpObserver.Header>,
    transport: Transport,
    application: Option<Application>,
    extractor: QuicMerge.Extractor)

  datatype Connection = Connection(
    createdAt: int, lastActivity: int,
    packetsSent: nat, packetsReceived: nat, bytesSent: nat, bytesReceived: nat,
    transport: Transport,
    application: Option<Application>,
    analytics: Option<TcpObserver.Analytics>,
    tracker: Tracker,
    incomingRate: real, outgoingRate: real)

  // ---------------------------------------------------------------- specification functions

  function MergeTransport(t: Transport, p: Packet): Transport {
    if p.header.Some? then
      var current := if t.Tcp? then t.state else TcpObserver.Unknown;
      Tcp(TcpObserver.UpdateTcpState(current, p.header.value.flags, p.outgoing))
    else if t.Tcp? then t
    else p.transport
  }

  function MergeApplication(a: Option<Application>, p: Packet): Option<Application> {
    if p.application == None then a
    else if a == None then p.application
    else if a.value.Quic? && p.application.value.Quic? then
      Some(Quic(QuicMerge.Merge(a.value.info, p.application.value.info, p.extractor)))
    else a
  }

  function MergeAnalytics(a: Option<TcpObserver.Analytics>, p: Packet): Option<TcpObserver.Analytics> {
    if p.header.Some? && a.Some? then
      Some(TcpObserver.Analyze(a.value, TcpObserver.Segment(p.header.value, p.outgoing)))
    else a
  }

  /** `merge_packet_into_connection`, the connection part. `at` is the system-clock reading taken
      on entry to `update_connection`; `stamp` is the monotonic-clock reading that the rate tracker
      takes here, under the lock of the table entry. */
  function MergePacket(c: Connection, p: Packet, at: int, stamp: int): Connection {
    var sent := c.bytesSent + if p.outgoing then p.length else 0;
    var received := c.bytesReceived + if p.outgoing then 0 else p.length;
    c.(lastActivity := at,
       packetsSent := c.packetsSent + if p.outgoing then 1 else 0,
       packetsReceived := c.packetsReceived + if p.outgoing then 0 else 1,
       bytesSent := sent,
       bytesReceived := received,
       transport := MergeTransport(c.transport, p),
       application := MergeApplication(c.application, p),
       analytics := MergeAnalytics(c.analytics, p),
       tracker := UpdateAt(c.tracker, stamp, sent, received))
  }

  /** ... and the events it reports to the global counters. */
  function PacketEvents(c: Connection, p: Packet): TcpObserver.Events {
    if p.header.Some? && c.analytics.Some? then
      TcpObserver.NewEvents(c.analytics.value, TcpObserver.Segment(p.header.value, p.outgoing))
    else TcpObserver.NO_EVENTS
  }

  /** `create_connection_from_packet`. */
  function Create(p: Packet, at: int, stamp: int): Connection {
    var sent := if p.outgoing then p.length else 0;
    var received := if p.outgoing then 0 else p.length;
    Connection(
      at, at,
      if p.outgoing then 1 else 0, if p.outgoing then 0 else 1, sent, received,
      if p.header.Some? then
        Tcp(TcpObserver.UpdateTcpState(TcpObserver.Unknown, p.header.value.flags, p.outgoing))
      else p.transport,
      p.application,
      if p.isTcp then Some(TcpObserver.NO_ANALYTICS) else None,
      Tracker([], stamp, sent, received),
      0.0, 0.0)
  }

  /** The clock readings of one turn of the refresh thread at a connection: the system clock to
      see how long it is idle, then the monotonic clock for each rate. */
  datatype Reading = Reading(idle: int, incoming: int, outgoing: int)

  predicate InSequence(r: Reading) {
    r.idle <= r.incoming <= r.outgoing
  }

  /** `refresh_rates`. */
  function Refresh(c: Connection, r: Reading): Connection {
    var t := Prune(c.tracker);
    c.(tracker := t,
       incomingRate := SmoothRate(RawRate(t, r.incoming, Received), c.incomingRate),
       outgoingRate := SmoothRate(RawRate(t, r.outgoing, Sent), c.outgoingRate))
  }

  predicate HasNonzeroRates(c: Connection) {
    c.incomingRate != 0.0 || c.outgoingRate != 0.0
  }

  /** One connection's turn in the rate-refresh thread; `as_secs` drops the fraction. */
  function RefreshIfNeeded(c: Connection, r: Reading): Connection {
    if Since(r.idle, c.lastActivity) / SECOND <= 30 || HasNonzeroRates(c) then Refresh(c, r) else c
  }

  function TcpTimeout(c: Connection, s: TcpObserver.TcpState, now: int): nat {
    match s
    case Established =>
      if c.application == Some(Ssh) then 1800 * SECOND
      else if c.application == Some(Http) || c.application == Some(Https) then 600 * SECOND
      else if Since(now, c.lastActivity) < 60 * SECOND then 600 * SECOND
      else 300 * SECOND
    case TimeWait => 30 * SECOND
    case Closed => 5 * SECOND
    case FinWait1 => 60 * SECOND
    case FinWait2 => 60 * SECOND
    case CloseWait => 60 * SECOND
    case LastAck => 60 * SECOND
    case SynSent => 60 * SECOND
    case SynReceived => 60 * SECOND
    case Closing => 30 * SECOND
    case Unknown => 120 * SECOND
  }

  function ApplicationTimeout(a: Application): nat {
    match a
    case Quic(q) => QuicMerge.Timeout(q)
    case Http => 600 * SECOND
    case Https => 600 * SECOND
    case Ssh => 1800 * SECOND
    case Dhcp => 60 * SECOND
    case Snmp => 60 * SECOND
    case NetBios => 60 * SECOND
    case BitTorrent => 60 * SECOND
    case Mqtt => 120 * SECOND
    case _ => 30 * SECOND
  }

  /** `get_timeout`. */
  function ConnectionTimeout(c: Connection, now: int): nat {
    match c.transport
    case Tcp(s) => TcpTimeout(c, s, now)
    case Udp => if c.application.Some? then ApplicationTimeout(c.application.value) else 60 * SECOND
    case Icmp => 10 * SECOND
    case Igmp => 10 * SECOND
    case Arp => 30 * SECOND
  }

  predicate ShouldCleanup(c: Connection, now: int) {
    Since(now, c.lastActivity) > ConnectionTimeout(c, now)
  }

  // ---------------------------------------------------------------- runs

  datatype Event = Arrives(packet: Packet, at: int, stamp: int) | Tick(reading: Reading)

  /** Packets are stamped under the entry's lock, so a later one never before an earlier one. The
      readings taken outside the lock may come in any order. */
  predicate InOrder(events: seq<Event>, start: int) {
    && (forall i | 0 <= i < |events| && events[i].Arrives? :: start <= events[i].stamp)
    && (forall i, j | 0 <= i <= j < |events| && events[i].Arrives? && events[j].Arrives? ::
          events[i].stamp <= events[j].stamp)
  }

  /** The refresh thread skips a connection only after 31 seconds of idleness by the system clock,
      and a rate is stale 11 seconds after its last sample: a packet may lag by what lies between. */
  const MAX_LAG: int := 20 * SECOND

  /** No packet is merged as much as `MAX_LAG` after its reading of the system clock, and each turn
      of the refresh thread reads its clocks one after the other. */
  predicate Prompt(events: seq<Event>) {
    forall i | 0 <= i < |events| ::
      match events[i]
      case Arrives(_, at, stamp) => stamp < at + MAX_LAG
      case Tick(r) => InSequence(r)
  }

  function Step(c: Connection, e: Event, lazy: bool): Connection {
    match e
    case Arrives(p, at, stamp) => MergePacket(c, p, at, stamp)
    case Tick(r) => if lazy then RefreshIfNeeded(c, r) else Refresh(c, r)
  }

  /** A connection's life; `lazy` is the refresh thread as it is, and not `lazy` the one that
      refreshes every connection at every tick. */
  function Life(c: Connection, events: seq<Event>, lazy: bool): Connection {
    if events == [] then c
    else Step(Life(c, events[..|events| - 1], lazy), events[|events| - 1], lazy)
  }

  /** What a packet adds to the history. */
  function SampleOf(p: Packet, stamp: int): Sample {
    Sample(stamp, if p.outgoing then p.length else 0, if p.outgoing then 0 else p.length)
  }

  /** One sample per packet: when it was merged and how long it was. */
  function SamplesOf(events: seq<Event>): seq<Sample> {
    if events == [] then []
    else
      var rest := SamplesOf(events[..|events| - 1]);
      match events[|events| - 1]
      case Arrives(p, _, stamp) => rest + [SampleOf(p, stamp)]
      case Tick(_) => rest
  }

  /** The byte counter of one direction. */
  function Counter(c: Connection, way: Way): nat {
    if way == Sent then c.bytesSent else c.bytesReceived
  }

  /** What ties a tracker to its connection and to the packets `h` since creation. */
  ghost predicate Accounted(c: Connection, born: Connection, h: seq<Sample>) {
    && Follows(c.tracker, h)
    && c.tracker.lastSent == c.bytesSent && c.tracker.lastReceived == c.bytesReceived
    && c.bytesSent == born.bytesSent + Sum(h, Sent)
    && c.bytesReceived == born.bytesReceived + Sum(h, Received)
  }

  ghost predicate NewlyCreated(c: Connection) {
    c.tracker == Tracker([], c.tracker.lastUpdate, c.bytesSent, c.bytesReceived)
  }

  lemma CreateIsTracked(p: Packet, at: int, stamp: int)
    ensures var c := Create(p, at, stamp);
      NewlyCreated(c) && c.tracker.lastUpdate == stamp && Tracks(c.tracker, []) && Accounted(c, c, [])
    ensures !HasNonzeroRates(Create(p, at, stamp))
  {
  }

  lemma PacketKeepsAccounts(c: Connection, born: Connection, h: seq<Sample>, p: Packet, at: int, stamp: int)
    requires Accounted(c, born, h)
    ensures Accounted(MergePacket(c, p, at, stamp), born, h + [SampleOf(p, stamp)])
    ensures c.tracker.lastUpdate <= stamp && Tracks(c.tracker, h) ==>
              Tracks(MergePacket(c, p, at, stamp).tracker, h + [SampleOf(p, stamp)])
  {
    hide Tracks, Follows, Sum, UpdateAt, MergeTransport, MergeApplication, MergeAnalytics;
    var x, m := SampleOf(p, stamp), MergePacket(c, p, at, stamp);
    UpdateFollows(c.tracker, h, x, m.bytesSent, m.bytesReceived);
    UpdateFields(c.tracker, x, m.bytesSent, m.bytesReceived);
    SumOneMore(h, x, Sent);
    SumOneMore(h, x, Received);
    if c.tracker.lastUpdate <= stamp && Tracks(c.tracker, h) {
      UpdateTracks(c.tracker, h, x, m.bytesSent, m.bytesReceived);
    }
  }

  lemma PacketKeepsTracks(c: Connection, h: seq<Sample>, p: Packet, at: int, stamp: int)
    requires Tracks(c.tracker, h) && c.tracker.lastUpdate <= stamp
    requires c.tracker.lastSent == c.bytesSent && c.tracker.lastReceived == c.bytesReceived
    ensures Tracks(MergePacket(c, p, at, stamp).tracker, h + [SampleOf(p, stamp)])
  {
    hide Tracks, UpdateAt, MergeTransport, MergeApplication, MergeAnalytics;
    var m := MergePacket(c, p, at, stamp);
    UpdateTracks(c.tracker, h, SampleOf(p, stamp), m.bytesSent, m.bytesReceived);
  }

  lemma RefreshKeepsAccounts(c: Connection, born: Connection, h: seq<Sample>, r: Reading)
    requires Accounted(c, born, h)
    ensures Accounted(Refresh(c, r), born, h)
    ensures Tracks(c.tracker, h) ==> Tracks(Refresh(c, r).tracker, h)
  {
    hide Tracks, Follows, Sum, RawRate, SmoothRate, DropOld, Capped;
    PruneFollows(c.tracker, h);
    if Tracks(c.tracker, h) {
      PruneIsCanonical(c.tracker, h);
    }
  }

  lemma InOrderFront(events: seq<Event>, start: int)
    requires events != [] && InOrder(events, start)
    ensures InOrder(events[..|events| - 1], start)
  {
  }

  /** The stamp of the last packet. */
  function LastStamp(c: Connection, events: seq<Event>): int {
    if events == [] then c.tracker.lastUpdate
    else if events[|events| - 1].Arrives? then events[|events| - 1].stamp
    else LastStamp(c, events[..|events| - 1])
  }

  lemma {:induction false} LastStampIsPast(c: Connection, events: seq<Event>, stamp: int)
    requires c.tracker.lastUpdate <= stamp
    requires forall i | 0 <= i < |events| && events[i].Arrives? :: events[i].stamp <= stamp
    ensures LastStamp(c, events) <= stamp
  {
    if events == [] {
    } else if events[|events| - 1].Tick? {
      LastStampIsPast(c, events[..|events| - 1], stamp);
    }
  }

  /** In every life the accounts hold, whatever the clocks do. */
  lemma {:induction false} LifeIsAccounted(c: Connection, events: seq<Event>, lazy: bool)
    requires NewlyCreated(c)
    ensures Accounted(Life(c, events, lazy), c, SamplesOf(events))
    ensures Life(c, events, lazy).tracker.lastUpdate == LastStamp(c, events)
  {
    if events == [] {
    } else {
      hide Accounted, MergePacket, Refresh, HasNonzeroRates;
      var front := events[..|events| - 1];
      LifeIsAccounted(c, front, lazy);
      var m := Life(c, front, lazy);
      match events[|events| - 1]
      case Arrives(p, at, stamp) =>
        PacketKeepsAccounts(m, c, SamplesOf(front), p, at, stamp);
        PacketIsStamped(m, p, at, stamp);
      case Tick(r) =>
        RefreshKeepsAccounts(m, c, SamplesOf(front), r);
        RefreshIsNoUpdate(m, r);
    }
  }

  lemma PacketIsStamped(c: Connection, p: Packet, at: int, stamp: int)
    ensures var m := MergePacket(c, p, at, stamp);
      && m.tracker.lastUpdate == stamp && m.lastActivity == at
      && m.tracker.lastSent == m.bytesSent && m.tracker.lastReceived == m.bytesReceived
  {
  }

  lemma RefreshIsNoUpdate(c: Connection, r: Reading)
    ensures Refresh(c, r).tracker.lastUpdate == c.tracker.lastUpdate
    ensures Refresh(c, r).lastActivity == c.lastActivity
  {
  }

  /** And the tracker misses nothing of its window. */
  lemma {:induction false} LifeIsTracked(c: Connection, events: seq<Event>, lazy: bool)
    requires NewlyCreated(c) && InOrder(events, c.tracker.lastUpdate)
    ensures Tracks(Life(c, events, lazy).tracker, SamplesOf(events))
  {
    if events == [] {
    } else {
      hide Accounted, Tracks, MergePacket, Refresh, HasNonzeroRates;
      var front := events[..|events| - 1];
      InOrderFront(events, c.tracker.lastUpdate);
      LifeIsTracked(c, front, lazy);
      LifeIsAccounted(c, front, lazy);
      var m := Life(c, front, lazy);
      match events[|events| - 1]
      case Arrives(p, at, stamp) =>
        LastStampIsPast(c, front, stamp);
        PacketKeepsAccounts(m, c, SamplesOf(front), p, at, stamp);
      case Tick(r) => RefreshKeepsAccounts(m, c, SamplesOf(front), r);
    }
  }

  // ---------------------------------------------------------------- what a life has counted

  /** The packets merged after creation. */
  function PacketsOf(events: seq<Event>): seq<Packet> {
    if events == [] then []
    else
      var rest := PacketsOf(events[..|events| - 1]);
      if events[|events| - 1].Arrives? then rest + [events[|events| - 1].packet] else rest
  }

  /** How many packets go this way. */
  function CountOf(ps: seq<Packet>, outgoing: bool): nat {
    if ps == [] then 0
    else CountOf(ps[..|ps| - 1], outgoing) + if ps[|ps| - 1].outgoing == outgoing then 1 else 0
  }

  /** How many bytes they have. */
  function BytesOf(ps: seq<Packet>, outgoing: bool): nat {
    if ps == [] then 0
    else BytesOf(ps[..|ps| - 1], outgoing) + if ps[|ps| - 1].outgoing == outgoing then ps[|ps| - 1].length else 0
  }

  /** The system-clock reading that the last packet brought along. */
  function LastHeard(at: int, events: seq<Event>): int {
    if events == [] then at
    else if events[|events| - 1].Arrives? then events[|events| - 1].at
    else LastHeard(at, events[..|events| - 1])
  }

  /** The counters of `c` are those of the packets `ps`. */
  predicate Counts(c: Connection, ps: seq<Packet>) {
    && c.packetsSent == CountOf(ps, true) && c.packetsReceived == CountOf(ps, false)
    && c.bytesSent == BytesOf(ps, true) && c.bytesReceived == BytesOf(ps, false)
  }

  lemma PacketCounts(c: Connection, ps: seq<Packet>, p: Packet, at: int, stamp: int)
    requires Counts(c, ps)
    ensures Counts(MergePacket(c, p, at, stamp), ps + [p])
  {
    hide MergeTransport, MergeApplication, MergeAnalytics, UpdateAt;
    assert (ps + [p])[..|ps|] == ps;
  }

  lemma FirstCounts(p: Packet, at: int, stamp: int)
    ensures Counts(Create(p, at, stamp), [p]) && Create(p, at, stamp).createdAt == at
  {
    assert [p][..0] == [];
  }

  /** Over every life each counter is exactly that of the packets of its direction, the time of creation
      stays, and the last activity is the reading of the last packet. */
  lemma {:induction false} LifeCounts(p: Packet, at: int, stamp: int, events: seq<Event>, lazy: bool)
    ensures var c := Life(Create(p, at, stamp), events, lazy);
      && Counts(c, [p] + PacketsOf(events))
      && c.createdAt == at && c.lastActivity == LastHeard(at, events)
  {
    FirstCounts(p, at, stamp);
    if events == [] {
      assert [p] + PacketsOf(events) == [p];
    } else {
      hide MergeTransport, MergeApplication, MergeAnalytics, UpdateAt, Prune, RawRate, SmoothRate, CountOf, BytesOf;
      var front, last := events[..|events| - 1], events[|events| - 1];
      LifeCounts(p, at, stamp, front, lazy);
      if last.Arrives? {
        PacketCounts(Life(Create(p, at, stamp), front, lazy), [p] + PacketsOf(front), last.packet, last.at, last.stamp);
        assert [p] + PacketsOf(events) == [p] + PacketsOf(front) + [last.packet];
      }
    }
  }

  // ---------------------------------------------------------------- what a life has recognised

  /** What of `ps` a QUIC merge meets. */
  function QuicArrivals(ps: seq<Packet>): seq<QuicMerge.Arrival> {
    if ps == [] then []
    else
      var rest, p := QuicArrivals(ps[..|ps| - 1]), ps[|ps| - 1];
      if p.application.Some? && p.application.value.Quic? then
        rest + [QuicMerge.Arrival(p.application.value.info, p.extractor)]
      else rest
  }

  /** Packet `i` is the first whose application is recognised, and `a` is that application, with the QUIC
      facts of those after it merged in. */
  predicate FirstIs(a: Option<Application>, ps: seq<Packet>, i: nat) {
    && i < |ps| && ps[i].application.Some? && (forall j | 0 <= j < i :: ps[j].application == None)
    && a == match ps[i].application.value
            case Quic(info) => Some(Quic(QuicMerge.Run(info, QuicArrivals(ps[i + 1..]))))
            case _ => ps[i].application
  }

  ghost predicate Recognised(a: Option<Application>, ps: seq<Packet>) {
    if forall i | 0 <= i < |ps| :: ps[i].application == None then a == None
    else exists i: nat :: FirstIs(a, ps, i)
  }

  lemma RecognisedStep(a: Option<Application>, ps: seq<Packet>, p: Packet)
    requires Recognised(a, ps)
    ensures Recognised(MergeApplication(a, p), ps + [p])
  {
    hide QuicMerge.Merge, QuicMerge.Run, QuicArrivals;
    var all := ps + [p];
    assert all[|ps|] == p && all[|ps| + 1..] == [] && forall i | 0 <= i < |ps| :: all[i] == ps[i];
    if a == None {
      if p.application.Some? {
        if p.application.value.Quic? {
          NoQuicArrivals(p.application.value.info);
        }
        assert FirstIs(MergeApplication(a, p), all, |ps|);
      }
    } else {
      var i: nat :| FirstIs(a, ps, i);
      assert all[i + 1..] == ps[i + 1..] + [p];
      if ps[i].application.value.Quic? {
        QuicRunStep(ps[i].application.value.info, ps[i + 1..], p);
      }
      assert FirstIs(MergeApplication(a, p), all, i);
    }
  }

  lemma QuicRunStep(info: QuicMerge.QuicInfo, ps: seq<Packet>, p: Packet)
    ensures QuicMerge.Run(info, QuicArrivals(ps + [p]))
         == if p.application.Some? && p.application.value.Quic? then
              QuicMerge.Merge(QuicMerge.Run(info, QuicArrivals(ps)), p.application.value.info, p.extractor)
            else QuicMerge.Run(info, QuicArrivals(ps))
  {
    hide QuicMerge.Merge;
    assert (ps + [p])[..|ps|] == ps;
    var before := QuicArrivals(ps);
    if p.application.Some? && p.application.value.Quic? {
      assert QuicArrivals(ps + [p])[..|before|] == before;
    }
  }

  lemma NoQuicArrivals(info: QuicMerge.QuicInfo)
    ensures QuicMerge.Run(info, QuicArrivals([])) == info
  {
  }

  /** Over every life the application is the first one recognised; if that is QUIC, its facts are those of a
      run over all QUIC packets since, so what holds of every run holds of them. */
  lemma {:induction false} LifeRecognises(p: Packet, at: int, stamp: int, events: seq<Event>, lazy: bool)
    ensures Recognised(Life(Create(p, at, stamp), events, lazy).application, [p] + PacketsOf(events))
  {
    if events == [] {
      assert [p] + PacketsOf(events) == [p];
      FirstRecognised(p);
    } else {
      hide Recognised, MergeTransport, MergeApplication, MergeAnalytics, UpdateAt, Prune, RawRate, SmoothRate;
      var front, last := events[..|events| - 1], events[|events| - 1];
      LifeRecognises(p, at, stamp, front, lazy);
      if last.Arrives? {
        var c := Life(Create(p, at, stamp), front, lazy);
        RecognisedStep(c.application, [p] + PacketsOf(front), last.packet);
        assert [p] + PacketsOf(events) == [p] + PacketsOf(front) + [last.packet];
      }
    }
  }

  lemma FirstRecognised(p: Packet)
    ensures Recognised(p.application, [p])
  {
    assert [] + [p] == [p];
    RecognisedStep(None, [], p);
  }

  // ---------------------------------------------------------------- the TCP observer of a connection

  /** The segments among the packets merged after creation. */
  function SegmentsOf(events: seq<Event>): seq<TcpObserver.Segment> {
    if events == [] then []
    else
      var rest := SegmentsOf(events[..|events| - 1]);
      match events[|events| - 1]
      case Arrives(p, _, _) => if p.header.Some? then rest + [TcpObserver.Segment(p.header.value, p.outgoing)] else rest
      case Tick(_) => rest
  }

  lemma ObserverStep(c: Connection, p: Packet, at: int, stamp: int, all: seq<TcpObserver.Segment>,
                     merged: seq<TcpObserver.Segment>)
    requires c.transport == Tcp(TcpObserver.StateAfter(TcpObserver.Unknown, all))
    requires c.analytics == Some(TcpObserver.AnalyzeAll(merged)) && p.header.Some?
    ensures var g := TcpObserver.Segment(p.header.value, p.outgoing);
      var m := MergePacket(c, p, at, stamp);
      && m.transport == Tcp(TcpObserver.StateAfter(TcpObserver.Unknown, all + [g]))
      && m.analytics == Some(TcpObserver.AnalyzeAll(merged + [g]))
  {
    hide TcpObserver.UpdateTcpState, TcpObserver.Analyze, UpdateAt, MergeApplication;
    var g := TcpObserver.Segment(p.header.value, p.outgoing);
    assert (all + [g])[..|all|] == all && (merged + [g])[..|merged|] == merged;
  }

  lemma FirstSegment(p: Packet, at: int, stamp: int)
    requires p.header.Some? && p.isTcp
    ensures var g := TcpObserver.Segment(p.header.value, p.outgoing);
      && Create(p, at, stamp).transport == Tcp(TcpObserver.StateAfter(TcpObserver.Unknown, [g]))
      && Create(p, at, stamp).analytics == Some(TcpObserver.AnalyzeAll([]))
  {
    var g := TcpObserver.Segment(p.header.value, p.outgoing);
    assert [g][..0] == [];
  }

  /** The state of a TCP connection is the observer's after all its segments; its counters are
      those of the segments after the first, which creation does not analyse. */
  lemma {:induction false} LifeIsObserved(p: Packet, at: int, stamp: int, events: seq<Event>, lazy: bool)
    requires p.header.Some? && p.isTcp
    ensures var c := Life(Create(p, at, stamp), events, lazy);
      && c.transport == Tcp(TcpObserver.StateAfter(TcpObserver.Unknown,
           [TcpObserver.Segment(p.header.value, p.outgoing)] + SegmentsOf(events)))
      && c.analytics == Some(TcpObserver.AnalyzeAll(SegmentsOf(events)))
  {
    hide Create, MergePacket, TcpObserver.StateAfter, TcpObserver.AnalyzeAll, Prune, RawRate, SmoothRate;
    var first := [TcpObserver.Segment(p.header.value, p.outgoing)];
    FirstSegment(p, at, stamp);
    if events == [] {
      assert first + SegmentsOf(events) == first;
    } else {
      var front, last := events[..|events| - 1], events[|events| - 1];
      LifeIsObserved(p, at, stamp, front, lazy);
      if last.Arrives? {
        var c := Life(Create(p, at, stamp), front, lazy);
        if last.packet.header.Some? {
          ObserverStep(c, last.packet, last.at, last.stamp, first + SegmentsOf(front), SegmentsOf(front));
          assert first + SegmentsOf(events) == first + SegmentsOf(front) + SegmentsOf(events)[|SegmentsOf(front)|..];
        } else {
          NoHeader(c, last.packet, last.at, last.stamp);
        }
      }
    }
  }

  lemma NoHeader(c: Connection, p: Packet, at: int, stamp: int)
    requires p.header == None && c.transport.Tcp?
    ensures var m := MergePacket(c, p, at, stamp); m.transport == c.transport && m.analytics == c.analytics
  {
  }

  /** So, in every life of a TCP connection: what its state says it has seen, it has seen, and
      its counters are the numbers of long runs of equal inbound ACK numbers, of retransmitted and of
      late segments. */
  lemma LifeIsJustified(p: Packet, at: int, stamp: int, events: seq<Event>, lazy: bool)
    requires p.header.Some? && p.isTcp
    ensures var c := Life(Create(p, at, stamp), events, lazy);
      var segs := [TcpObserver.Segment(p.header.value, p.outgoing)] + SegmentsOf(events);
      && c.transport.Tcp? && TcpObserver.Justified(c.transport.state, TcpObserver.Seen(segs))
      && c.analytics.Some?
      && TcpObserver.CountsLongRuns(c.analytics.value, TcpObserver.InboundAcks(SegmentsOf(events)))
      && TcpObserver.CountsSegments(c.analytics.value, SegmentsOf(events))
  {
    hide Life, Create, SegmentsOf, TcpObserver.Justified, TcpObserver.CountsLongRuns, TcpObserver.CountsSegments;
    LifeIsObserved(p, at, stamp, events, lazy);
    TcpObserver.RunIsJustified([TcpObserver.Segment(p.header.value, p.outgoing)] + SegmentsOf(events));
    TcpObserver.FastRetransmitsAreLongRuns(SegmentsOf(events));
    TcpObserver.CountersCountSegments(SegmentsOf(events));
  }

  /** The segments of `ps`. */
  function Segments(ps: seq<Packet>): seq<TcpObserver.Segment> {
    if ps == [] then []
    else
      var rest, p := Segments(ps[..|ps| - 1]), ps[|ps| - 1];
      if p.header.Some? then rest + [TcpObserver.Segment(p.header.value, p.outgoing)] else rest
  }

  /** A packet without a TCP header is not TCP. */
  predicate OfItsKind(p: Packet) {
    p.header == None ==> !p.transport.Tcp?
  }

  /** The transport after `ps`: that of the last packet, until TCP is met, from when on it is the observer's. */
  function TransportAfter(ps: seq<Packet>): Transport
    requires ps != []
  {
    if Segments(ps) == [] then ps[|ps| - 1].transport
    else Tcp(TcpObserver.StateAfter(TcpObserver.Unknown, Segments(ps)))
  }

  lemma TransportStep(ps: seq<Packet>, p: Packet)
    requires ps != [] && OfItsKind(ps[|ps| - 1])
    ensures TransportAfter(ps + [p]) == MergeTransport(TransportAfter(ps), p)
  {
    hide TcpObserver.UpdateTcpState;
    assert (ps + [p])[..|ps|] == ps;
    if Segments(ps) == [] {
      LastHasHeader(ps);
    }
    if p.header.Some? {
      var g := TcpObserver.Segment(p.header.value, p.outgoing);
      TcpObserver.StateStep(TcpObserver.Unknown, Segments(ps), g);
    }
  }

  lemma LastHasHeader(ps: seq<Packet>)
    requires ps != [] && Segments(ps) == []
    ensures ps[|ps| - 1].header == None
  {
  }

  /** Over every life, whatever is mixed. */
  lemma {:induction false} LifeTransports(p: Packet, at: int, stamp: int, events: seq<Event>, lazy: bool)
    requires OfItsKind(p) && forall q :: q in PacketsOf(events) ==> OfItsKind(q)
    ensures Life(Create(p, at, stamp), events, lazy).transport == TransportAfter([p] + PacketsOf(events))
  {
    if events == [] {
      assert [p] + PacketsOf(events) == [p] && [p][..0] == [];
      FirstTransport(p);
    } else {
      hide TransportAfter, MergeTransport, MergeApplication, MergeAnalytics, UpdateAt, Prune, RawRate, SmoothRate;
      var front, last := events[..|events| - 1], events[|events| - 1];
      var ps := [p] + PacketsOf(front);
      assert forall q :: q in PacketsOf(front) ==> q in PacketsOf(events);
      LifeTransports(p, at, stamp, front, lazy);
      if last.Arrives? {
        assert OfItsKind(ps[|ps| - 1]);
        TransportStep(ps, last.packet);
        assert [p] + PacketsOf(events) == ps + [last.packet];
      }
    }
  }

  lemma FirstTransport(p: Packet)
    ensures TransportAfter([p]) == if p.header.Some? then
              Tcp(TcpObserver.UpdateTcpState(TcpObserver.Unknown, p.header.value.flags, p.outgoing))
            else p.transport
  {
    hide TcpObserver.UpdateTcpState;
    assert [p][..0] == [] && Segments([]) == [];
    if p.header.Some? {
      var g := TcpObserver.Segment(p.header.value, p.outgoing);
      assert Segments([p]) == [g];
      assert [g][..0] == [] && TcpObserver.StateAfter(TcpObserver.Unknown, []) == TcpObserver.Unknown;
    }
  }

  // ---------------------------------------------------------------- window accounting

  /** The byte counter of `way` just before the oldest of the last `n` packets of `events`. */
  function CounterBefore(start: Connection, events: seq<Event>, n: nat, way: Way): nat
    requires n <= |SamplesOf(events)|
  {
    Counter(start, way) + Sum(SamplesOf(events)[..|SamplesOf(events)| - n], way)
  }

  lemma SuffixSum(s: seq<Sample>, h: seq<Sample>, way: Way)
    requires IsSuffix(s, h)
    ensures Sum(s, way) == Sum(h, way) - Sum(h[..|h| - |s|], way)
  {
    assert h == h[..|h| - |s|] + s;
    SumConcat(h[..|h| - |s|], s, way);
  }

  /** In every life of a connection the samples are the last so many packets, at most 20,000,
      and their bytes are the counter now less the counter before the first of them. */
  lemma WindowAccounting(p: Packet, at: int, stamp: int, events: seq<Event>, lazy: bool, way: Way)
    ensures var start := Create(p, at, stamp);
      var c := Life(start, events, lazy);
      && IsSuffix(c.tracker.samples, SamplesOf(events)) && |c.tracker.samples| <= MAX_SAMPLES
      && c.tracker.lastSent == c.bytesSent && c.tracker.lastReceived == c.bytesReceived
      && Counter(c, way) == CounterBefore(start, events, 0, way)
      && Sum(c.tracker.samples, way) == Counter(c, way) - CounterBefore(start, events, |c.tracker.samples|, way)
  {
    hide Sum, Life, SamplesOf, IsSuffix;
    var start := Create(p, at, stamp);
    CreateIsTracked(p, at, stamp);
    LifeIsAccounted(start, events, lazy);
    SuffixSum(Life(start, events, lazy).tracker.samples, SamplesOf(events), way);
    assert SamplesOf(events)[..|SamplesOf(events)|] == SamplesOf(events);
  }

  /** A raw rate that is not zero, times the time its samples span, is exactly the bytes counted
      since just before the oldest of them; after a refresh all of them are within the window that
      ends with the last packet. */
  lemma RawRateIsTraffic(p: Packet, at: int, stamp: int, events: seq<Event>, lazy: bool, r: Reading, now: int,
                         way: Way)
    ensures var c := Life(Create(p, at, stamp), events, lazy);
      var t := Refresh(c, r).tracker;
      && IsSuffix(t.samples, SamplesOf(events))
      && (InOrder(events, stamp) ==>
            var last := LastStamp(Create(p, at, stamp), events);
            forall x :: x in t.samples ==> last - WINDOW <= x.timestamp <= last)
      && RateAccounts(t, now, way,
                      Counter(c, way) - CounterBefore(Create(p, at, stamp), events, |t.samples|, way))
  {
    hide Sum, Life, SamplesOf, IsSuffix, RawRate, SmoothRate, Tracks, DropOld, Capped, InOrder, RateAccounts, LastStamp;
    var start := Create(p, at, stamp);
    CreateIsTracked(p, at, stamp);
    LifeIsAccounted(start, events, lazy);
    var c := Life(start, events, lazy);
    var t := Prune(c.tracker);
    PruneFollows(c.tracker, SamplesOf(events));
    SuffixSum(t.samples, SamplesOf(events), way);
    RateTimesSpan(t, now, way);
    if InOrder(events, stamp) {
      LifeIsTracked(start, events, lazy);
      PrunedIsRecent(c.tracker, SamplesOf(events));
    }
  }

  // ---------------------------------------------------------------- what shows

  lemma {:induction false} SamplesArePackets(events: seq<Event>)
    ensures |SamplesOf(events)| == |PacketsOf(events)|
    ensures forall i | 0 <= i < |PacketsOf(events)| ::
              var x, q := SamplesOf(events)[i], PacketsOf(events)[i];
              && x.sent == (if q.outgoing then q.length else 0)
              && x.received == if q.outgoing then 0 else q.length
  {
    if events == [] {
    } else {
      SamplesArePackets(events[..|events| - 1]);
    }
  }

  lemma {:induction false} SumIsBytes(ss: seq<Sample>, ps: seq<Packet>)
    requires |ss| == |ps|
    requires forall i | 0 <= i < |ps| :: ss[i].sent == if ps[i].outgoing then ps[i].length else 0
    requires forall i | 0 <= i < |ps| :: ss[i].received == if ps[i].outgoing then 0 else ps[i].length
    ensures Sum(ss, Sent) == BytesOf(ps, true) && Sum(ss, Received) == BytesOf(ps, false)
  {
    if ps == [] {
    } else {
      SumIsBytes(ss[..|ss| - 1], ps[..|ps| - 1]);
    }
  }

  /** `rate` shows `bytes` over `seconds`, if that is at least a byte per second. */
  predicate Shows(rate: real, bytes: nat, seconds: real) {
    if bytes as real < seconds then rate == 0.0 else rate * seconds == bytes as real
  }

  /** When a window of two packets or more spans a second or more and is not stale, a rate that does not
      fall is exactly the bytes of the window's packets of its own direction over that time. */
  lemma ShownRatesAreTraffic(p: Packet, at: int, stamp: int, events: seq<Event>, r: Reading, n: nat)
    requires InOrder(events, stamp) && IsWindow(n, SamplesOf(events)) && n >= 2
    requires r.idle < LastHeard(at, events) + 31 * SECOND
    requires var h := SamplesOf(events);
      && h[|h| - n].timestamp + SECOND <= h[|h| - 1].timestamp
      && r.incoming <= h[|h| - 1].timestamp + 11 * SECOND && r.outgoing <= h[|h| - 1].timestamp + 11 * SECOND
    ensures var c := Life(Create(p, at, stamp), events, true);
      var d := Life(Create(p, at, stamp), events + [Tick(r)], true);
      var h, ps := SamplesOf(events), PacketsOf(events);
      var seconds := (h[|h| - 1].timestamp - h[|h| - n].timestamp) as real / SECOND as real;
      && n <= |ps|
      && var received, sent := BytesOf(ps[|ps| - n..], false), BytesOf(ps[|ps| - n..], true);
      && (c.incomingRate * seconds <= received as real ==> Shows(d.incomingRate, received, seconds))
      && (c.outgoingRate * seconds <= sent as real ==> Shows(d.outgoingRate, sent, seconds))
  {
    hide Create, Life, Step, Tracks, InOrder, IsWindow, Prune, SmoothRate, RawRate, Sum, BytesOf, Shows, Accounted;
    var start := Create(p, at, stamp);
    var c, h, ps := Life(start, events, true), SamplesOf(events), PacketsOf(events);
    CreateIsTracked(p, at, stamp);
    LifeCounts(p, at, stamp, events, true);
    LifeIsTracked(start, events, true);
    LifeGoesOn(start, events, Tick(r), true);
    SamplesArePackets(events);
    WindowFits(n, h);
    SumIsBytes(h[|h| - n..], ps[|ps| - n..]);
    PruneLeavesWindow(c.tracker, h, n);
    var t := Prune(c.tracker);
    assert t.samples == h[|h| - n..];
    TurnIsTaken(c, r);
    RateOfWindow(t, r.incoming, Received, c.incomingRate);
    RateOfWindow(t, r.outgoing, Sent, c.outgoingRate);
  }

  lemma TurnIsTaken(c: Connection, r: Reading)
    requires r.idle < c.lastActivity + 31 * SECOND
    ensures var t, d := Prune(c.tracker), Step(c, Tick(r), true);
      && d.incomingRate == SmoothRate(RawRate(t, r.incoming, Received), c.incomingRate)
      && d.outgoingRate == SmoothRate(RawRate(t, r.outgoing, Sent), c.outgoingRate)
  {
    hide Prune, SmoothRate, RawRate;
  }

  lemma WindowFits(n: nat, h: seq<Sample>)
    requires IsWindow(n, h)
    ensures n <= |h|
  {
  }

  lemma LifeGoesOn(c: Connection, events: seq<Event>, e: Event, lazy: bool)
    ensures Life(c, events + [e], lazy) == Step(Life(c, events, lazy), e, lazy)
  {
    hide Step;
    assert (events + [e])[..|events|] == events;
  }

  lemma RateOfWindow(t: Tracker, now: int, way: Way, prev: real)
    requires |t.samples| >= 2 && t.samples[0].timestamp + SECOND <= t.samples[|t.samples| - 1].timestamp
    requires now <= t.samples[|t.samples| - 1].timestamp + 11 * SECOND
    ensures var seconds := (t.samples[|t.samples| - 1].timestamp - t.samples[0].timestamp) as real / SECOND as real;
      prev * seconds <= Sum(t.samples, way) as real ==>
        Shows(SmoothRate(RawRate(t, now, way), prev), Sum(t.samples, way), seconds)
  {
    hide Sum;
    var seconds := (t.samples[|t.samples| - 1].timestamp - t.samples[0].timestamp) as real / SECOND as real;
    var bytes, raw := Sum(t.samples, way) as real, RawRate(t, now, way);
    assert raw == bytes / seconds && seconds >= 1.0;
    RateIsQuotient(raw, bytes, seconds, prev);
  }

  lemma RateIsQuotient(raw: real, bytes: real, seconds: real, prev: real)
    requires seconds >= 1.0 && raw == bytes / seconds
    ensures raw * seconds == bytes
    ensures prev * seconds <= bytes ==> prev <= raw
    ensures bytes < seconds <==> raw < 1.0
  {
    if prev > raw {
      assert prev * seconds > raw * seconds;
    }
    if raw < 1.0 {
      assert raw * seconds < 1.0 * seconds;
    } else {
      assert raw * seconds >= 1.0 * seconds;
    }
  }

  /** A connection that only sends never shows an incoming rate, and one that only receives no outgoing one. */
  lemma {:induction false} OneWayShowsOneRate(p: Packet, at: int, stamp: int, events: seq<Event>, lazy: bool)
    ensures var c := Life(Create(p, at, stamp), events, lazy);
      && ((forall q :: q in PacketsOf(events) ==> q.outgoing) ==> c.incomingRate == 0.0)
      && ((forall q :: q in PacketsOf(events) ==> !q.outgoing) ==> c.outgoingRate == 0.0)
  {
    if events == [] {
    } else {
      hide Sum, MergeTransport, MergeApplication, MergeAnalytics, UpdateAt, Prune, RawRate, SmoothRate, SamplesOf;
      var front, last := events[..|events| - 1], events[|events| - 1];
      var start, ps := Create(p, at, stamp), PacketsOf(front);
      OneWayShowsOneRate(p, at, stamp, front, lazy);
      assert forall q :: q in ps ==> q in PacketsOf(events);
      if last.Tick? {
        var c := Life(start, front, lazy);
        CreateIsTracked(p, at, stamp);
        LifeIsAccounted(start, front, lazy);
        PruneFollows(c.tracker, SamplesOf(front));
        NothingThatWay(Prune(c.tracker), front, last.reading.incoming, Received);
        NothingThatWay(Prune(c.tracker), front, last.reading.outgoing, Sent);
      }
    }
  }

  lemma NothingThatWay(t: Tracker, events: seq<Event>, now: int, way: Way)
    requires Follows(t, SamplesOf(events))
    ensures (forall q :: q in PacketsOf(events) ==> q.outgoing == (way == Received)) ==>
              SmoothRate(RawRate(t, now, way), 0.0) == 0.0
  {
    hide Sum;
    SamplesArePackets(events);
    if forall q :: q in PacketsOf(events) ==> q.outgoing == (way == Received) {
      var h, ps := SamplesOf(events), PacketsOf(events);
      forall i | 0 <= i < |t.samples| ensures Delta(t.samples[i], way) == 0 {
        assert t.samples[i] == h[|h| - |t.samples| + i] && ps[|h| - |t.samples| + i] in ps;
      }
      SumOfNothing(t.samples, way);
    }
  }

  lemma {:induction false} SumOfNothing(ss: seq<Sample>, way: Way)
    requires forall i | 0 <= i < |ss| :: Delta(ss[i], way) == 0
    ensures Sum(ss, way) == 0
  {
    if ss == [] {
    } else {
      SumOfNothing(ss[..|ss| - 1], way);
    }
  }

  // ---------------------------------------------------------------- when a connection is given up

  predicate After(gone: bool, idle: int, seconds: nat) {
    gone <==> idle > seconds * SECOND
  }

  /** An established connection is kept five minutes whether or not it was active within the last one: the
      ten minutes meant for an active one never apply. */
  predicate TcpRules(c: Connection, s: TcpObserver.TcpState, idle: int, gone: bool) {
    match s
    case Established =>
      After(gone, idle, if c.application == Some(Ssh) then 1800
                        else if c.application in {Some(Http), Some(Https)} then 600
                        else 300)
    case TimeWait => After(gone, idle, 30)
    case Closing => After(gone, idle, 30)
    case Closed => After(gone, idle, 5)
    case Unknown => After(gone, idle, 120)
    case _ => After(gone, idle, 60)
  }

  /** By the close that was seen, or else by the state, and when connected by the peer's own idle timeout
      (RFC 9000, section 10.1) if that is known. */
  predicate QuicRules(q: QuicMerge.QuicInfo, idle: int, gone: bool) {
    match q.close
    case Some(close) =>
      After(gone, idle, if close.frameType == 0x1c then 10 else if close.frameType == 0x1d then 1 else 5)
    case None =>
      match q.state
      case Connected =>
        if q.idleTimeout.Some? then gone <==> idle > 0 && idle > q.idleTimeout.value else After(gone, idle, 180)
      case Draining => After(gone, idle, 10)
      case Closed => After(gone, idle, 1)
      case Unknown => After(gone, idle, 120)
      case _ => After(gone, idle, 60)
  }

  predicate UdpRules(a: Application, idle: int, gone: bool) {
    match a
    case Quic(q) => QuicRules(q, idle, gone)
    case Ssh => After(gone, idle, 1800)
    case Mqtt => After(gone, idle, 120)
    case Http => After(gone, idle, 600)
    case Https => After(gone, idle, 600)
    case Dhcp => After(gone, idle, 60)
    case Snmp => After(gone, idle, 60)
    case NetBios => After(gone, idle, 60)
    case BitTorrent => After(gone, idle, 60)
    case _ => After(gone, idle, 30)
  }

  /** When cleanup takes a connection: exactly when nothing has come for longer than its protocol and state
      allow. */
  predicate GoesByTheRules(c: Connection, idle: int, gone: bool) {
    match c.transport
    case Tcp(s) => TcpRules(c, s, idle, gone)
    case Udp => if c.application.Some? then UdpRules(c.application.value, idle, gone) else After(gone, idle, 60)
    case Arp => After(gone, idle, 30)
    case _ => After(gone, idle, 10)
  }

  lemma CleanupKeepsTheRules(c: Connection, now: int)
    ensures GoesByTheRules(c, now - c.lastActivity, ShouldCleanup(c, now))
  {
  }

  /** The code reads the clock once more for the last minute's activity. A later reading there changes
      nothing. */
  lemma SecondReadingIsHarmless(c: Connection, now: int, again: int)
    requires now <= again
    ensures Since(now, c.lastActivity) > ConnectionTimeout(c, again) <==> ShouldCleanup(c, now)
  {
  }

  /** So no established connection goes within five minutes of its last packet, and whatever is not QUIC
      is gone after thirty. */
  lemma RulesAtTheEnds(c: Connection, idle: int, gone: bool)
    requires GoesByTheRules(c, idle, gone)
    ensures c.transport == Tcp(TcpObserver.Established) && idle <= 300 * SECOND ==> !gone
    ensures (c.application.Some? ==> !c.application.value.Quic?) && idle > 1800 * SECOND ==> gone
    ensures c.transport.Tcp? && idle > 1800 * SECOND ==> gone
  {
  }

  // ---------------------------------------------------------------- the skipped refresh

  /** Equal but for samples that only pruning would remove. */
  ghost predicate SameShown(full: Connection, lazy: Connection) {
    full == lazy.(tracker := lazy.tracker.(samples := full.tracker.samples))
  }

  /** The last sample was stamped less than `MAX_LAG` after the activity it belongs to. */
  predicate OnTime(c: Connection) {
    c.tracker.samples != [] ==> c.tracker.lastUpdate < c.lastActivity + MAX_LAG
  }

  /** A connection the refresh thread may skip would show zero anyway. */
  lemma SkippedShowsZero(c: Connection, h: seq<Sample>, r: Reading)
    requires Tracks(c.tracker, h) && OnTime(c) && InSequence(r)
    requires Since(r.idle, c.lastActivity) / SECOND > 30 && !HasNonzeroRates(c)
    ensures !HasNonzeroRates(Refresh(c, r))
  {
    hide Tracks, RawRate, Prune;
    StaleIsZero(c.tracker, h, r.incoming, Received);
    StaleIsZero(c.tracker, h, r.outgoing, Sent);
  }

  /** Two trackers of one history, and nothing else to tell the connections apart. */
  ghost predicate Twins(full: Connection, lazy: Connection) {
    && SameShown(full, lazy) && OnTime(full)
    && full.tracker.lastSent == full.bytesSent && full.tracker.lastReceived == full.bytesReceived
    && exists h :: Tracks(full.tracker, h) && Tracks(lazy.tracker, h)
  }

  lemma BornTwins(c: Connection)
    requires NewlyCreated(c)
    ensures Twins(c, c)
  {
    assert Tracks(c.tracker, []);
  }

  lemma RefreshAgrees(full: Connection, lazy: Connection, h: seq<Sample>, r: Reading)
    requires SameShown(full, lazy) && Tracks(full.tracker, h) && Tracks(lazy.tracker, h)
    requires OnTime(full) && InSequence(r)
    ensures SameShown(Refresh(full, r), RefreshIfNeeded(lazy, r))
  {
    hide Tracks, DropOld, Capped, RawRate, SmoothRate;
    PruneIsCanonical(full.tracker, h);
    PruneIsCanonical(lazy.tracker, h);
    if Since(r.idle, lazy.lastActivity) / SECOND <= 30 || HasNonzeroRates(lazy) {
      assert Prune(full.tracker) == Prune(lazy.tracker);
    } else {
      SkippedShowsZero(full, h, r);
    }
  }

  lemma RefreshKeepsTwins(full: Connection, lazy: Connection, r: Reading)
    requires Twins(full, lazy) && InSequence(r)
    ensures Twins(Refresh(full, r), RefreshIfNeeded(lazy, r))
  {
    hide Tracks, DropOld, Capped, RawRate, SmoothRate;
    var h :| Tracks(full.tracker, h) && Tracks(lazy.tracker, h);
    RefreshAgrees(full, lazy, h, r);
    PruneIsCanonical(full.tracker, h);
    PruneIsCanonical(lazy.tracker, h);
    PrunedIsEnd(full.tracker);
    assert Tracks(Refresh(full, r).tracker, h) && Tracks(RefreshIfNeeded(lazy, r).tracker, h);
  }

  lemma PacketAgrees(full: Connection, lazy: Connection, p: Packet, at: int, stamp: int)
    requires SameShown(full, lazy)
    ensures SameShown(MergePacket(full, p, at, stamp), MergePacket(lazy, p, at, stamp))
  {
  }

  lemma PacketKeepsTwins(full: Connection, lazy: Connection, p: Packet, at: int, stamp: int)
    requires Twins(full, lazy) && full.tracker.lastUpdate <= stamp < at + MAX_LAG
    ensures Twins(MergePacket(full, p, at, stamp), MergePacket(lazy, p, at, stamp))
  {
    hide Tracks, MergePacket;
    var h :| Tracks(full.tracker, h) && Tracks(lazy.tracker, h);
    PacketAgrees(full, lazy, p, at, stamp);
    PacketIsStamped(full, p, at, stamp);
    PacketKeepsTracks(full, h, p, at, stamp);
    PacketKeepsTracks(lazy, h, p, at, stamp);
  }

  /** Refreshing only where it can matter shows, after every run of packets and ticks, the same
      rates (and everything else but unpruned samples) as refreshing every connection. */
  lemma {:induction false} LazyRefreshIsFaithful(c: Connection, events: seq<Event>)
    requires NewlyCreated(c) && InOrder(events, c.tracker.lastUpdate) && Prompt(events)
    ensures Twins(Life(c, events, false), Life(c, events, true))
    ensures Life(c, events, false).incomingRate == Life(c, events, true).incomingRate
    ensures Life(c, events, false).outgoingRate == Life(c, events, true).outgoingRate
  {
    if events == [] {
      BornTwins(c);
    } else {
      hide MergePacket, Refresh, RefreshIfNeeded, Tracks, OnTime, InSequence;
      var front := events[..|events| - 1];
      InOrderFront(events, c.tracker.lastUpdate);
      LazyRefreshIsFaithful(c, front);
      LifeIsAccounted(c, front, false);
      var full, lazy := Life(c, front, false), Life(c, front, true);
      match events[|events| - 1]
      case Arrives(p, at, stamp) =>
        LastStampIsPast(c, front, stamp);
        PacketKeepsTwins(full, lazy, p, at, stamp);
      case Tick(r) => RefreshKeepsTwins(full, lazy, r);
    }
  }

  /** What shows the same is cleaned up at the same time and reports the same events. */
  lemma ExpireAlike(full: Connection, lazy: Connection, now: int)
    requires SameShown(full, lazy)
    ensures ShouldCleanup(full, now) == ShouldCleanup(lazy, now)
  {
  }

  lemma ReportAlike(full: Connection, lazy: Connection, p: Packet)
    requires SameShown(full, lazy)
    ensures PacketEvents(full, p) == PacketEvents(lazy, p)
  {
  }

  /** Two packets, read at 0 but merged after 19 and 20 seconds, and a tick at 31. */
  function LateEvents(p: Packet): seq<Event> {
    [Arrives(p, 0, 19 * SECOND), Arrives(p, 0, 20 * SECOND), Tick(Reading(31 * SECOND, 31 * SECOND, 31 * SECOND))]
  }

  function LateConnection(p: Packet): Connection {
    MergePacket(MergePacket(Create(p, 0, 0), p, 0, 19 * SECOND), p, 0, 20 * SECOND)
  }

  lemma LateLife(p: Packet, lazy: bool)
    ensures Life(Create(p, 0, 0), LateEvents(p), lazy) == Step(LateConnection(p), LateEvents(p)[2], lazy)
  {
    hide Create, MergePacket, Refresh, RefreshIfNeeded;
    var c, e := Create(p, 0, 0), LateEvents(p);
    assert e[..2] == [e[0], e[1]] && e[..2][..1] == [e[0]] && [e[0]][..0] == [];
    assert Life(c, [e[0]], lazy) == Step(c, e[0], lazy);
    assert Life(c, e[..2], lazy) == Step(Life(c, [e[0]], lazy), e[1], lazy);
  }

  lemma LateTracker(p: Packet)
    requires p.outgoing
    ensures LateConnection(p).tracker
         == Tracker([Sample(19 * SECOND, p.length, 0), Sample(20 * SECOND, p.length, 0)], 20 * SECOND, 3 * p.length, 0)
  {
    hide MergeTransport, MergeApplication, MergeAnalytics;
  }

  lemma LateRate(t: Tracker, n: nat)
    requires t.samples == [Sample(19 * SECOND, n, 0), Sample(20 * SECOND, n, 0)] && t.lastUpdate == 20 * SECOND
    ensures Prune(t) == t && RawRate(t, 31 * SECOND, Sent) == (2 * n) as real
  {
    var a, b := t.samples[0], t.samples[1];
    assert t.samples == [a] + [b] && [a] == [] + [a];
    SumOneMore([a], b, Sent);
    SumOneMore([], a, Sent);
  }

  /** The bound on the lag cannot be raised: a packet merged exactly `MAX_LAG` after its reading
      is enough for the thread to skip a rate that should show. */
  lemma LagBoundIsTight(p: Packet)
    requires p.outgoing && p.length > 0
    ensures var c := Create(p, 0, 0);
      Life(c, LateEvents(p), true).outgoingRate == 0.0 && Life(c, LateEvents(p), false).outgoingRate > 0.0
  {
    hide Prune, RawRate, UpdateAt, MergeTransport, MergeApplication, MergeAnalytics, Life;
    LateLife(p, true);
    LateLife(p, false);
    LateTracker(p);
    LateRate(LateConnection(p).tracker, p.length);
  }

  // ---------------------------------------------------------------- counters

  /** The counters the application sums. */
  datatype Metric = Packets | Bytes | Retransmits | OutOfOrder | FastRetransmits

  function EventCount(e: TcpObserver.Events, m: Metric): nat {
    match m
    case Retransmits => e.retransmits
    case OutOfOrder => e.outOfOrder
    case FastRetransmits => e.fastRetransmits
    case _ => 0
  }

  function AnalyticsCount(a: TcpObserver.Analytics, m: Metric): nat {
    match m
    case Retransmits => a.retransmitCount
    case OutOfOrder => a.outOfOrderCount
    case FastRetransmits => a.fastRetransmitCount
    case _ => 0
  }

  /** What a connection has counted. */
  function Measure(c: Connection, m: Metric): nat {
    match m
    case Packets => c.packetsSent + c.packetsReceived
    case Bytes => c.bytesSent + c.bytesReceived
    case _ => if c.analytics.Some? then AnalyticsCount(c.analytics.value, m) else 0
  }

  /** What a packet is worth by itself, apart from the TCP events it may turn out to be. */
  function Worth(p: Packet, m: Metric): nat {
    match m
    case Packets => 1
    case Bytes => p.length
    case _ => 0
  }

  /** A packet adds itself and its reported events. */
  lemma CountersAddUp(c: Connection, p: Packet, at: int, stamp: int, m: Metric)
    ensures Measure(Create(p, at, stamp), m) == Worth(p, m)
    ensures Measure(MergePacket(c, p, at, stamp), m)
         == Measure(c, m) + Worth(p, m) + EventCount(PacketEvents(c, p), m)
  {
    hide MergeTransport, MergeApplication, UpdateAt, TcpObserver.Analyze;
    if p.header.Some? && c.analytics.Some? {
      TcpObserver.CountersGrow(c.analytics.value, TcpObserver.Segment(p.header.value, p.outgoing));
    }
  }

  /** A refresh adds nothing. */
  lemma RefreshCountsNothing(c: Connection, r: Reading, m: Metric)
    ensures Measure(RefreshIfNeeded(c, r), m) == Measure(c, m)
  {
    hide RawRate, SmoothRate, Prune;
  }

  // ---------------------------------------------------------------- a closed QUIC connection

  /** Once a CONNECTION_CLOSE is recorded for a UDP connection, or it is draining or closed,
      ten idle seconds always suffice for cleanup, whatever arrives over UDP in between. */
  lemma {:induction false} ClosedQuicIsCleanedUp(c: Connection, events: seq<Event>, now: int)
    requires c.transport == Udp && c.application.Some? && c.application.value.Quic?
    requires var q := c.application.value.info; q.close.Some? || QuicMerge.Ended(q.state)
    requires forall i | 0 <= i < |events| && events[i].Arrives? ::
               events[i].packet.header == None && events[i].packet.transport == Udp
    ensures var d := Life(c, events, true);
      && d.transport == Udp && d.application.Some? && d.application.value.Quic?
      && (var q := d.application.value.info; q.close.Some? || QuicMerge.Ended(q.state))
      && (Since(now, d.lastActivity) > 10 * SECOND ==> ShouldCleanup(d, now))
  {
    if events == [] {
      QuicMerge.ClosingIsAbsorbing(c.application.value.info, []);
    } else {
      var front := events[..|events| - 1];
      assert forall i | 0 <= i < |front| :: front[i] == events[i];
      ClosedQuicIsCleanedUp(c, front, now);
      var m := Life(c, front, true).application.value.info;
      QuicMerge.ClosingIsAbsorbing(m, []);
      if events[|events| - 1].Arrives? {
        var p := events[|events| - 1].packet;
        if p.application.Some? && p.application.value.Quic? {
          var a := QuicMerge.Arrival(p.application.value.info, p.extractor);
          QuicMerge.ClosingIsAbsorbing(m, [a]);
          assert [a][..0] == [];
        }
      }
    }
  }
}
