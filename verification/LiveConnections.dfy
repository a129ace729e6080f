/** A connection as the object the packet processors mutate. */
module LiveConnections {
  import opened Bytes
  import opened Clock
  import opened Connections
  import opened Rates
  import TcpObserver
  import QuicMerge

  method NewAnalytics(isTcp: bool) returns (a: TcpObserver.TcpAnalytics?)
    ensures if isTcp then a != null && fresh(a) && a.State() == TcpObserver.NO_ANALYTICS else a == null
  {
    a := null;
    if isTcp {
      a := new TcpObserver.TcpAnalytics();
    }
  }

  method NewQuic(application: Option<Application>) returns (q: QuicMerge.QuicConnection?)
    ensures if application.Some? && application.value.Quic?
            then q != null && fresh(q.Parts()) && q.Info() == application.value.info
            else q == null
  {
    q := null;
    if application.Some? && application.value.Quic? {
      q := new QuicMerge.QuicConnection(application.value.info);
    }
  }

  class LiveConnection {
    var createdAt: int
    var lastActivity: int
    var packetsSent: nat
    var packetsReceived: nat
    var bytesSent: nat
    var bytesReceived: nat
    var transport: Transport
    var quic: QuicMerge.QuicConnection?
    var otherApplication: Option<Application>
    var analytics: TcpObserver.TcpAnalytics?
    var tracker: RateTracker
    var incomingRate: real
    var outgoingRate: real

    /** The objects a connection owns: itself, its tracker, its analytics, its QUIC facts. */
    ghost function Parts(): set<object>
      reads this, quic
    {
      PlainParts() + QuicParts()
    }

    ghost function PlainParts(): set<object>
      reads this
    {
      {this, tracker} + if analytics == null then {} else var a: object := analytics; {a}
    }

    ghost function QuicParts(): set<object>
      reads this, quic
    {
      if quic == null then {} else quic.Parts()
    }

    ghost function State(): Connection
      reads Parts()
    {
      Connection(createdAt, lastActivity, packetsSent, packetsReceived, bytesSent, bytesReceived, transport,
                 if quic != null then Some(Quic(quic.Info())) else otherApplication,
                 if analytics != null then Some(analytics.State()) else None,
                 tracker.State(), incomingRate, outgoingRate)
    }

    /** QUIC facts live in their own object. */
    predicate Valid()
      reads this
    {
      otherApplication.Some? ==> !otherApplication.value.Quic?
    }

    /** `create_connection_from_packet`. */
    constructor FromPacket(p: Packet, at: int, stamp: int)
      ensures Valid() && fresh(PlainParts()) && fresh(QuicParts()) && State() == Create(p, at, stamp)
    {
      hide TcpObserver.UpdateTcpState;
      createdAt, lastActivity := at, at;
      packetsSent, packetsReceived := if p.outgoing then 1 else 0, if p.outgoing then 0 else 1;
      var sent, received := if p.outgoing then p.length else 0, if p.outgoing then 0 else p.length;
      bytesSent, bytesReceived := sent, received;
      transport := Create(p, at, stamp).transport;
      otherApplication := if p.application.Some? && p.application.value.Quic? then None else p.application;
      incomingRate, outgoingRate := 0.0, 0.0;
      var t := new RateTracker(stamp);
      t.InitializeWithCounts(sent, received);
      tracker := t;
      var a := NewAnalytics(p.isTcp);
      var q := NewQuic(p.application);
      analytics, quic := a, q;
    }

    /** `merge_packet_into_connection`. */
    method MergeIn(p: Packet, at: int, stamp: int) returns (events: TcpObserver.Events)
      requires Valid()
      modifies Parts()
      ensures Valid() && fresh(Parts() - old(Parts()))
      ensures State() == MergePacket(old(State()), p, at, stamp)
      ensures events == PacketEvents(old(State()), p)
    {
      hide MergeTransport, MergeApplication, MergeAnalytics, UpdateAt, TcpObserver.NewEvents, PacketEvents;
      events := MergeFacts(p, at);
      tracker.Update(stamp, bytesSent, bytesReceived);
    }

    /** All of it but the rate sample. */
    method MergeFacts(p: Packet, at: int) returns (events: TcpObserver.Events)
      requires Valid()
      modifies Parts()
      ensures Valid() && PlainParts() == old(PlainParts()) && fresh(QuicParts() - old(QuicParts()))
      ensures tracker == old(tracker)
      ensures State() == MergePacket(old(State()), p, at, 0).(tracker := old(State()).tracker)
      ensures events == PacketEvents(old(State()), p)
    {
      hide MergeTransport, MergeApplication, MergeAnalytics, UpdateAt, TcpObserver.NewEvents, PacketEvents;
      events := MergeHeaders(p, at);
      MergeDpi(p);
    }

    /** What the headers tell: the counters and the TCP state. */
    method MergeHeaders(p: Packet, at: int) returns (events: TcpObserver.Events)
      modifies this`lastActivity, this`packetsSent, this`packetsReceived, this`bytesSent, this`bytesReceived,
               this`transport, analytics
      ensures State() == MergePacket(old(State()), p, at, 0).(tracker := old(State()).tracker,
                                                              application := old(State()).application)
      ensures events == PacketEvents(old(State()), p)
    {
      hide MergeTransport, MergeApplication, MergeAnalytics, UpdateAt, TcpObserver.NewEvents;
      CountPacket(p, at);
      events := MergeTcp(p);
    }

    method CountPacket(p: Packet, at: int)
      modifies this`lastActivity, this`packetsSent, this`packetsReceived, this`bytesSent, this`bytesReceived
      ensures State() == old(State()).(
        lastActivity := at,
        packetsSent := old(packetsSent) + if p.outgoing then 1 else 0,
        packetsReceived := old(packetsReceived) + if p.outgoing then 0 else 1,
        bytesSent := old(bytesSent) + if p.outgoing then p.length else 0,
        bytesReceived := old(bytesReceived) + if p.outgoing then 0 else p.length)
    {
      lastActivity := at;
      if p.outgoing {
        packetsSent, bytesSent := packetsSent + 1, bytesSent + p.length;
      } else {
        packetsReceived, bytesReceived := packetsReceived + 1, bytesReceived + p.length;
      }
    }

    method MergeTcp(p: Packet) returns (events: TcpObserver.Events)
      modifies this`transport, analytics
      ensures State() == old(State()).(transport := MergeTransport(old(transport), p),
                                       analytics := MergeAnalytics(old(State()).analytics, p))
      ensures events == PacketEvents(old(State()), p)
    {
      events := TcpObserver.NO_EVENTS;
      if p.header.Some? {
        var current := if transport.Tcp? then transport.state else TcpObserver.Unknown;
        transport := Tcp(TcpObserver.UpdateTcpState(current, p.header.value.flags, p.outgoing));
        if analytics != null {
          events := analytics.AnalyzeSegment(TcpObserver.Segment(p.header.value, p.outgoing));
        }
      } else if !transport.Tcp? {
        transport := p.transport;
      }
    }

    /** `merge_dpi_info`. */
    method MergeDpi(p: Packet)
      requires Valid()
      modifies this`quic, this`otherApplication, quic, if quic == null then {} else {quic.reassembler}
      ensures Valid() && fresh(QuicParts() - old(QuicParts()))
      ensures State() == old(State()).(application := MergeApplication(old(State()).application, p))
    {
      if p.application == None {
        return;
      }
      if quic != null {
        if p.application.value.Quic? {
          quic.MergeInfo(p.application.value.info, p.extractor);
        }
      } else if otherApplication == None {
        if p.application.value.Quic? {
          quic := new QuicMerge.QuicConnection(p.application.value.info);
        } else {
          otherApplication := p.application;
        }
      }
    }

    /** `refresh_rates`. */
    method RefreshRates(r: Reading)
      modifies this`incomingRate, this`outgoingRate, tracker
      ensures State() == Refresh(old(State()), r)
    {
      tracker.PruneSamples();
      var rawIn := tracker.CalculateRate(r.incoming, Received);
      var rawOut := tracker.CalculateRate(r.outgoing, Sent);
      incomingRate := SmoothRate(rawIn, incomingRate);
      outgoingRate := SmoothRate(rawOut, outgoingRate);
    }

    /** One turn of the refresh thread. */
    method TakeTurn(r: Reading)
      modifies this`incomingRate, this`outgoingRate, tracker
      ensures State() == RefreshIfNeeded(old(State()), r)
    {
      if Since(r.idle, lastActivity) / SECOND <= 30 || incomingRate != 0.0 || outgoingRate != 0.0 {
        RefreshRates(r);
      }
    }

    /** Whatever comes, in turn. */
    method Play(events: seq<Event>)
      requires Valid()
      modifies Parts()
      ensures Valid() && fresh(Parts() - old(Parts()))
      ensures State() == Life(old(State()), events, true)
    {
      hide Connections.Step;
      for i := 0 to |events|
        invariant Valid() && fresh(Parts() - old(Parts()))
        invariant State() == Life(old(State()), events[..i], true)
      {
        assert events[..i + 1][..i] == events[..i];
        PlayOne(events[i]);
      }
      assert events[..|events|] == events;
    }

    method PlayOne(e: Event)
      requires Valid()
      modifies Parts()
      ensures Valid() && fresh(Parts() - old(Parts()))
      ensures State() == Connections.Step(old(State()), e, true)
    {
      hide MergePacket, RefreshIfNeeded;
      match e {
        case Arrives(p, at, stamp) => var _ := MergeIn(p, at, stamp);
        case Tick(r) => TakeTurn(r);
      }
    }
  }

  /** A whole life, from the first packet on. */
  method Live(p: Packet, at: int, stamp: int, events: seq<Event>) returns (c: LiveConnection)
    ensures c.Valid() && fresh(c.Parts())
    ensures c.State() == Life(Create(p, at, stamp), events, true)
  {
    hide Life, Create;
    c := new LiveConnection.FromPacket(p, at, stamp);
    c.Play(events);
  }
}
