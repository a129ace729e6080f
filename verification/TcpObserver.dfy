/** What a passive observer concludes about a TCP connection from its segments. */
module TcpObserver {
  import opened Bytes

  datatype TcpState = Unknown | SynSent | SynReceived | Established | FinWait1 | FinWait2 | CloseWait
                    | LastAck | TimeWait | Closing | Closed

  datatype Flags = Flags(syn: bool, ack: bool, fin: bool, rst: bool)

  type U32 = n: int | 0 <= n < 0x1_0000_0000

  datatype Header = Header(seqNo: U32, ackNo: U32, window: nat, flags: Flags, payloadLen: nat)

  /** A header and whether the packet leaves this host. */
  datatype Segment = Segment(header: Header, outgoing: bool)

  // ---------------------------------------------------------------- connection state

  /** `update_tcp_state`; the first matching arm wins. */
  function UpdateTcpState(s: TcpState, f: Flags, outgoing: bool): TcpState {
    if s == Unknown && f == Flags(true, false, false, false) then
      (if outgoing then SynSent else SynReceived)
    else if s == SynSent && f == Flags(true, true, false, false) && !outgoing then Established
    else if s == SynReceived && f == Flags(false, true, false, false) && outgoing then Established
    else if s == Unknown && f == Flags(false, true, false, false) then Established
    else if s == Unknown && f == Flags(false, true, true, false) then Established
    else if s == Established && !f.syn && f.fin && !f.rst then
      (if outgoing then FinWait1 else CloseWait)
    else if s == FinWait1 && f == Flags(false, true, false, false) && !outgoing then FinWait2
    else if s == FinWait1 && !f.syn && f.fin && !f.rst && !outgoing then Closing
    else if s == FinWait2 && !f.syn && f.fin && !f.rst && !outgoing then TimeWait
    else if s == CloseWait && !f.syn && f.fin && !f.rst && outgoing then LastAck
    else if s == LastAck && f == Flags(false, true, false, false) && !outgoing then Closed
    else if s == Closing && f == Flags(false, true, false, false) && !outgoing then TimeWait
    else if f.rst then Closed
    else s
  }

  function StateAfter(s: TcpState, segs: seq<Segment>): TcpState {
    if segs == [] then s
    else
      var last := segs[|segs| - 1];
      UpdateTcpState(StateAfter(s, segs[..|segs| - 1]), last.header.flags, last.outgoing)
  }

  function Rank(s: TcpState): nat {
    match s
    case Unknown => 0
    case SynSent => 1
    case SynReceived => 1
    case Established => 2
    case FinWait1 => 3
    case CloseWait => 3
    case FinWait2 => 4
    case Closing => 4
    case LastAck => 4
    case TimeWait => 5
    case Closed => 6
  }

  /** How often the state differs from one segment to the next. */
  function Changes(s: TcpState, segs: seq<Segment>): nat {
    if segs == [] then 0
    else
      var front := segs[..|segs| - 1];
      Changes(s, front) + if StateAfter(s, segs) != StateAfter(s, front) then 1 else 0
  }

  lemma StepClimbs(s: TcpState, f: Flags, outgoing: bool)
    ensures var t := UpdateTcpState(s, f, outgoing);
      && (t == s || Rank(s) < Rank(t)) && (s == Closed ==> t == Closed)
  {
  }

  /** The state only climbs, so a connection changes state at most six times, and Closed is final. */
  lemma {:induction false} StateClimbs(s: TcpState, segs: seq<Segment>)
    ensures Rank(s) + Changes(s, segs) <= Rank(StateAfter(s, segs)) <= 6
    ensures Changes(s, segs) <= 6
    ensures s == Closed ==> StateAfter(s, segs) == Closed
  {
    hide UpdateTcpState;
    if segs == [] {
    } else {
      var front, last := segs[..|segs| - 1], segs[|segs| - 1];
      StateClimbs(s, front);
      StepClimbs(StateAfter(s, front), last.header.flags, last.outgoing);
    }
  }

  const SYN := Flags(true, false, false, false)
  const SYN_ACK := Flags(true, true, false, false)
  const ACK := Flags(false, true, false, false)

  const FIN_ACK := Flags(false, true, true, false)

  /** An inbound segment that does nothing but acknowledge. */
  predicate RemoteBareAck(g: Segment) {
    !g.outgoing && g.header.flags == ACK
  }

  /** A FIN, with or without an ACK. */
  predicate Finishes(g: Segment) {
    !g.header.flags.syn && g.header.flags.fin && !g.header.flags.rst
  }

  predicate RemoteFinishes(g: Segment) {
    !g.outgoing && Finishes(g)
  }

  predicate LocalFinishes(g: Segment) {
    g.outgoing && Finishes(g)
  }

  predicate Resets(g: Segment) {
    g.header.flags.rst
  }

  predicate SynAckBack(g: Segment) {
    !g.outgoing && g.header.flags == SYN_ACK
  }

  predicate LocalBareAck(g: Segment) {
    g.outgoing && g.header.flags == ACK
  }

  predicate Any(segs: seq<Segment>, p: Segment -> bool) {
    exists i | 0 <= i < |segs| :: p(segs[i])
  }

  lemma AnyStep(front: seq<Segment>, g: Segment, p: Segment -> bool)
    ensures Any(front + [g], p) <==> Any(front, p) || p(g)
  {
    var segs := front + [g];
    assert segs[|front|] == g && forall i | 0 <= i < |front| :: segs[i] == front[i];
    if i :| 0 <= i < |front| && p(front[i]) {
      assert p(segs[i]);
    }
  }

  lemma StateStep(s: TcpState, front: seq<Segment>, g: Segment)
    ensures StateAfter(s, front + [g]) == UpdateTcpState(StateAfter(s, front), g.header.flags, g.outgoing)
  {
    assert (front + [g])[..|front|] == front;
  }

  lemma {:induction false} StateAfterConcat(s: TcpState, xs: seq<Segment>, ys: seq<Segment>)
    ensures StateAfter(s, xs + ys) == StateAfter(StateAfter(s, xs), ys)
  {
    if ys == [] {
      assert xs + ys == xs;
    } else {
      assert (xs + ys)[..|xs + ys| - 1] == xs + ys[..|ys| - 1];
      StateAfterConcat(s, xs, ys[..|ys| - 1]);
    }
  }

  /** The last ACK of a passive close. */
  ghost predicate PassiveEnd(s: TcpState, segs: seq<Segment>) {
    exists i | 0 <= i < |segs| :: StateAfter(s, segs[..i]) == LastAck && RemoteBareAck(segs[i])
  }

  lemma PassiveEndStep(s: TcpState, front: seq<Segment>, g: Segment)
    ensures PassiveEnd(s, front + [g])
       <==> PassiveEnd(s, front) || (StateAfter(s, front) == LastAck && RemoteBareAck(g))
  {
    hide StateAfter;
    var segs := front + [g];
    assert segs[..|front|] == front && segs[|front|] == g;
    assert forall i | 0 <= i < |front| :: segs[..i] == front[..i] && segs[i] == front[i];
    if i :| 0 <= i < |front| && StateAfter(s, front[..i]) == LastAck && RemoteBareAck(front[i]) {
      assert StateAfter(s, segs[..i]) == LastAck && RemoteBareAck(segs[i]);
    }
  }

  /** Over any run Closed is reached by a reset, in whatever state, or by the last ACK of a passive
      close, and by nothing else. */
  lemma {:induction false} ClosedIff(s: TcpState, segs: seq<Segment>)
    ensures StateAfter(s, segs) == Closed <==> s == Closed || Any(segs, Resets) || PassiveEnd(s, segs)
  {
    if segs == [] {
    } else {
      hide Any, PassiveEnd, StateAfter, UpdateTcpState;
      var front, last := segs[..|segs| - 1], segs[|segs| - 1];
      assert segs == front + [last];
      ClosedIff(s, front);
      StateStep(s, front, last);
      AnyStep(front, last, Resets);
      PassiveEndStep(s, front, last);
      ClosedStep(StateAfter(s, front), last);
    }
  }

  lemma ClosedStep(s: TcpState, g: Segment)
    ensures UpdateTcpState(s, g.header.flags, g.outgoing) == Closed
       <==> s == Closed || Resets(g) || (s == LastAck && RemoteBareAck(g))
  {
  }

  /** A segment that says something of a connection nothing is known of. */
  predicate Opens(g: Segment) {
    g.header.flags in {SYN, ACK, FIN_ACK} || Resets(g)
  }

  lemma OpeningStep(s: TcpState, g: Segment)
    ensures var t := UpdateTcpState(s, g.header.flags, g.outgoing);
      && (t == Unknown <==> s == Unknown && !Opens(g))
      && (s == Unknown && g.header.flags == SYN ==> t == if g.outgoing then SynSent else SynReceived)
      && (s == Unknown && g.header.flags in {ACK, FIN_ACK} ==> t == Established)
      && (Resets(g) ==> t == Closed)
  {
  }

  lemma {:induction false} UnknownUntilOpened(segs: seq<Segment>)
    ensures StateAfter(Unknown, segs) == Unknown <==> !Any(segs, Opens)
  {
    if segs == [] {
    } else {
      hide Any, StateAfter, UpdateTcpState, Opens;
      var front, last := segs[..|segs| - 1], segs[|segs| - 1];
      assert segs == front + [last];
      AnyStep(front, last, Opens);
      UnknownUntilOpened(front);
      StateStep(Unknown, front, last);
      OpeningStep(StateAfter(Unknown, front), last);
    }
  }

  /** A connection begins with the first segment that says something of it: a SYN from this host opens it
      from this side, one from the other side from there; met midway, by a bare ACK or a FIN with ACK, it
      is established. */
  lemma ConnectionBegins(before: seq<Segment>, g: Segment, after: seq<Segment>)
    requires !Any(before, Opens)
    ensures var r := StateAfter(Unknown, before + [g] + after);
      && (g.header.flags == SYN && g.outgoing ==> r == StateAfter(SynSent, after))
      && (g.header.flags == SYN && !g.outgoing ==> r == StateAfter(SynReceived, after))
      && (g.header.flags in {ACK, FIN_ACK} ==> r == StateAfter(Established, after))
      && (g.header.flags.rst ==> r == StateAfter(Closed, after))
  {
    hide Any, StateAfter, UpdateTcpState;
    UnknownUntilOpened(before);
    StateStep(Unknown, before, g);
    OpeningStep(StateAfter(Unknown, before), g);
    StateAfterConcat(Unknown, before + [g], after);
  }

  /** An open from this side is recognised exactly by the SYN-ACK that answers it. */
  lemma {:induction false} ActiveOpenIff(segs: seq<Segment>)
    requires !Any(segs, Resets)
    ensures StateAfter(SynSent, segs) == SynSent <==> !Any(segs, SynAckBack)
  {
    if segs == [] {
    } else {
      hide Any;
      var front, last := segs[..|segs| - 1], segs[|segs| - 1];
      assert segs == front + [last];
      AnyStep(front, last, Resets);
      AnyStep(front, last, SynAckBack);
      ActiveOpenIff(front);
      StateClimbs(SynSent, front);
      StateStep(SynSent, front, last);
      LeftForGood(StateAfter(SynSent, front), last);
    }
  }

  /** An open from the other side is not: the inbound ACK that completes its handshake (RFC 9293,
      section 3.5) counts for nothing, and only a bare ACK that this host sends leaves SYN_RECEIVED. */
  lemma {:induction false} PassiveOpenIff(segs: seq<Segment>)
    requires !Any(segs, Resets)
    ensures StateAfter(SynReceived, segs) == SynReceived <==> !Any(segs, LocalBareAck)
  {
    if segs == [] {
    } else {
      hide Any;
      var front, last := segs[..|segs| - 1], segs[|segs| - 1];
      assert segs == front + [last];
      AnyStep(front, last, Resets);
      AnyStep(front, last, LocalBareAck);
      PassiveOpenIff(front);
      StateClimbs(SynReceived, front);
      StateStep(SynReceived, front, last);
      LeftForGood(StateAfter(SynReceived, front), last);
    }
  }

  lemma LeftForGood(s: TcpState, g: Segment)
    requires !Resets(g)
    ensures var t := UpdateTcpState(s, g.header.flags, g.outgoing);
      && (s == SynReceived ==> (t == SynReceived <==> !LocalBareAck(g)))
      && (s == SynSent ==> (t == SynSent <==> !SynAckBack(g)))
      && (s != Unknown && s != SynReceived ==> t != SynReceived)
      && (s != Unknown && s != SynSent ==> t != SynSent)
  {
  }

  /** Either open, once recognised, is an established connection from there on. */
  lemma ActiveOpenCompletes(before: seq<Segment>, g: Segment, after: seq<Segment>)
    requires !Any(before, Resets) && !Any(before, SynAckBack) && SynAckBack(g)
    ensures StateAfter(SynSent, before + [g] + after) == StateAfter(Established, after)
  {
    hide Any, StateAfter;
    ActiveOpenIff(before);
    StateStep(SynSent, before, g);
    StateAfterConcat(SynSent, before + [g], after);
  }

  lemma PassiveOpenCompletes(before: seq<Segment>, g: Segment, after: seq<Segment>)
    requires !Any(before, Resets) && !Any(before, LocalBareAck) && LocalBareAck(g)
    ensures StateAfter(SynReceived, before + [g] + after) == StateAfter(Established, after)
  {
    hide Any, StateAfter;
    PassiveOpenIff(before);
    StateStep(SynReceived, before, g);
    StateAfterConcat(SynReceived, before + [g], after);
  }

  /** The case at hand: the three segments of a handshake opened by the other side. */
  lemma PassiveOpenIsMissed(a: Segment, b: Segment, c: Segment)
    requires a.header.flags == SYN && b.header.flags == SYN_ACK && c.header.flags == ACK
    requires !a.outgoing && b.outgoing && !c.outgoing
    ensures StateAfter(Unknown, [a, b, c]) == SynReceived
  {
    assert [a, b, c] == [a] + [b, c] && [a][..0] == [];
    StateAfterConcat(Unknown, [a], [b, c]);
    PassiveOpenIff([b, c]);
  }

  /** A connection stays established until the first FIN, whose sender decides which side closes. */
  lemma {:induction false} EstablishedUntilFin(segs: seq<Segment>)
    requires !Any(segs, Resets)
    ensures !Any(segs, Finishes) ==> StateAfter(Established, segs) == Established
  {
    if segs == [] {
    } else {
      hide Any;
      var front, last := segs[..|segs| - 1], segs[|segs| - 1];
      assert segs == front + [last];
      AnyStep(front, last, Resets);
      AnyStep(front, last, Finishes);
      EstablishedUntilFin(front);
      StateStep(Established, front, last);
    }
  }

  lemma CloseBegins(before: seq<Segment>, g: Segment, after: seq<Segment>)
    requires !Any(before, Resets) && !Any(before, Finishes) && Finishes(g)
    ensures StateAfter(Established, before + [g] + after)
         == StateAfter(if g.outgoing then FinWait1 else CloseWait, after)
  {
    hide Any, StateAfter;
    EstablishedUntilFin(before);
    StateStep(Established, before, g);
    StateAfterConcat(Established, before + [g], after);
  }

  /** An active close, in any order of what comes: TIME_WAIT once the other side has both sent a
      bare ACK and finished, and short of that what it has done so far. */
  lemma {:induction false} ActiveCloseIff(segs: seq<Segment>)
    requires !Any(segs, Resets)
    ensures StateAfter(FinWait1, segs)
         == if Any(segs, RemoteBareAck) then (if Any(segs, RemoteFinishes) then TimeWait else FinWait2)
            else if Any(segs, RemoteFinishes) then Closing else FinWait1
  {
    if segs == [] {
    } else {
      hide Any, StateAfter, UpdateTcpState;
      var front, last := segs[..|segs| - 1], segs[|segs| - 1];
      assert segs == front + [last];
      AnyStep(front, last, Resets);
      AnyStep(front, last, RemoteBareAck);
      AnyStep(front, last, RemoteFinishes);
      ActiveCloseIff(front);
      StateStep(FinWait1, front, last);
      ActiveCloseStep(StateAfter(FinWait1, front), last);
    }
  }

  lemma ActiveCloseStep(s: TcpState, g: Segment)
    requires !Resets(g)
    ensures var t := UpdateTcpState(s, g.header.flags, g.outgoing);
      && (s == FinWait1 ==> t == if RemoteBareAck(g) then FinWait2 else if RemoteFinishes(g) then Closing else s)
      && (s == FinWait2 ==> t == if RemoteFinishes(g) then TimeWait else s)
      && (s == Closing ==> t == if RemoteBareAck(g) then TimeWait else s)
      && (s == TimeWait ==> t == TimeWait)
  {
  }

  /** The usual close, in which the other side's FIN carries the ACK of ours, does not end in
      TIME_WAIT as RFC 9293, section 3.10.7.4, has it, but stays CLOSING until a bare ACK comes. */
  lemma CombinedFinIsMissed(before: seq<Segment>, fin: Segment, finAck: Segment, after: seq<Segment>)
    requires !Any(before, Resets) && !Any(before, Finishes) && LocalFinishes(fin)
    requires !finAck.outgoing && finAck.header.flags == FIN_ACK && !Any(after, Resets)
    ensures StateAfter(Established, before + [fin] + ([finAck] + after))
         == if Any(after, RemoteBareAck) then TimeWait else Closing
  {
    hide StateAfter;
    CloseBegins(before, fin, [finAck] + after);
    var rest := [finAck] + after;
    assert rest[0] == finAck && forall i | 0 <= i < |after| :: rest[i + 1] == after[i];
    assert forall i | 1 <= i < |rest| :: rest[i] == after[i - 1];
    assert RemoteFinishes(rest[0]) && !RemoteBareAck(rest[0]) && !Resets(rest[0]);
    assert Any(rest, RemoteFinishes);
    assert Any(rest, RemoteBareAck) <==> Any(after, RemoteBareAck) by {
      if i :| 0 <= i < |after| && RemoteBareAck(after[i]) {
        assert RemoteBareAck(rest[i + 1]);
      }
    }
    ActiveCloseIff(rest);
  }

  /** A local FIN and, later, the ACK of it. */
  predicate FinishedAndAcked(segs: seq<Segment>) {
    exists i, j | 0 <= i < j < |segs| :: LocalFinishes(segs[i]) && RemoteBareAck(segs[j])
  }

  lemma FinishedAndAckedStep(front: seq<Segment>, g: Segment)
    ensures FinishedAndAcked(front + [g])
       <==> FinishedAndAcked(front) || (Any(front, LocalFinishes) && RemoteBareAck(g))
  {
    var segs := front + [g];
    assert segs[|front|] == g && forall i | 0 <= i < |front| :: segs[i] == front[i];
    if i, j :| 0 <= i < j < |front| && LocalFinishes(front[i]) && RemoteBareAck(front[j]) {
      assert LocalFinishes(segs[i]) && RemoteBareAck(segs[j]);
    }
    if Any(front, LocalFinishes) && RemoteBareAck(g) {
      var i :| 0 <= i < |front| && LocalFinishes(front[i]);
      assert LocalFinishes(segs[i]) && RemoteBareAck(segs[|front|]);
    }
  }

  /** A passive close: LAST_ACK once this host has finished too, Closed once that is acknowledged. */
  lemma {:induction false} PassiveCloseIff(segs: seq<Segment>)
    requires !Any(segs, Resets)
    ensures StateAfter(CloseWait, segs)
         == if FinishedAndAcked(segs) then Closed else if Any(segs, LocalFinishes) then LastAck else CloseWait
  {
    if segs == [] {
    } else {
      hide Any, FinishedAndAcked, StateAfter, UpdateTcpState;
      var front, last := segs[..|segs| - 1], segs[|segs| - 1];
      assert segs == front + [last];
      AnyStep(front, last, Resets);
      AnyStep(front, last, LocalFinishes);
      FinishedAndAckedStep(front, last);
      PassiveCloseIff(front);
      StateStep(CloseWait, front, last);
      PassiveCloseStep(StateAfter(CloseWait, front), last);
    }
  }

  lemma PassiveCloseStep(s: TcpState, g: Segment)
    requires !Resets(g)
    ensures var t := UpdateTcpState(s, g.header.flags, g.outgoing);
      && (s == CloseWait ==> t == if LocalFinishes(g) then LastAck else CloseWait)
      && (s == LastAck ==> t == if RemoteBareAck(g) then Closed else LastAck)
      && (s == Closed ==> t == Closed)
  {
  }

  predicate LocalFin(g: Segment) { g.outgoing && g.header.flags.fin }

  predicate RemoteFin(g: Segment) { !g.outgoing && g.header.flags.fin }

  predicate RemoteAck(g: Segment) { !g.outgoing && g.header.flags.ack }

  /** A remote FIN and, later, a local one. */
  ghost predicate SawBothFins(segs: seq<Segment>) {
    exists i, j :: 0 <= i < j < |segs| && RemoteFin(segs[i]) && LocalFin(segs[j])
  }

  /** The passive close of RFC 9293, section 3.3.2: remote FIN, local FIN, remote ACK. */
  ghost predicate SawPassiveClose(segs: seq<Segment>) {
    exists i, j, k :: 0 <= i < j < k < |segs| && RemoteFin(segs[i]) && LocalFin(segs[j]) && RemoteAck(segs[k])
  }

  /** What a run of segments has shown. */
  datatype Facts = Facts(localFin: bool, remoteFin: bool, reset: bool, bothFins: bool, passiveClose: bool)

  ghost function Seen(segs: seq<Segment>): Facts {
    Facts(Any(segs, LocalFin), Any(segs, RemoteFin), Any(segs, Resets), SawBothFins(segs), SawPassiveClose(segs))
  }

  /** What each state reached from creation says about the segments seen so far. */
  predicate Justified(s: TcpState, f: Facts) {
    && (s in {FinWait1, FinWait2, Closing, TimeWait} ==> f.localFin)
    && (s in {CloseWait, Closing, TimeWait} ==> f.remoteFin)
    && (s == LastAck ==> f.bothFins)
    && (s == Closed ==> f.reset || f.passiveClose)
  }

  /** What one more segment must add to the facts. */
  predicate FactsGrow(f: Facts, g: Segment, f': Facts) {
    && (f.localFin || LocalFin(g) ==> f'.localFin)
    && (f.remoteFin || RemoteFin(g) ==> f'.remoteFin)
    && (f.reset || g.header.flags.rst ==> f'.reset)
    && (f.bothFins || (f.remoteFin && LocalFin(g)) ==> f'.bothFins)
    && (f.passiveClose || (f.bothFins && RemoteAck(g)) ==> f'.passiveClose)
  }

  lemma JustifiedStep(s: TcpState, f: Facts, g: Segment, f': Facts)
    requires Justified(s, f) && FactsGrow(f, g, f')
    ensures Justified(UpdateTcpState(s, g.header.flags, g.outgoing), f')
  {
  }

  lemma BothFinsGrow(front: seq<Segment>, g: Segment)
    ensures SawBothFins(front) || (Any(front, RemoteFin) && LocalFin(g)) ==> SawBothFins(front + [g])
  {
    var segs := front + [g];
    if SawBothFins(front) {
      var i, j :| 0 <= i < j < |front| && RemoteFin(front[i]) && LocalFin(front[j]);
      assert RemoteFin(segs[i]) && LocalFin(segs[j]);
    } else if Any(front, RemoteFin) && LocalFin(g) {
      var i :| 0 <= i < |front| && RemoteFin(front[i]);
      assert RemoteFin(segs[i]) && LocalFin(segs[|front|]);
    }
  }

  lemma PassiveCloseGrows(front: seq<Segment>, g: Segment)
    ensures SawPassiveClose(front) || (SawBothFins(front) && RemoteAck(g)) ==> SawPassiveClose(front + [g])
  {
    var segs := front + [g];
    if SawPassiveClose(front) {
      var i, j, k :| 0 <= i < j < k < |front| && RemoteFin(front[i]) && LocalFin(front[j]) && RemoteAck(front[k]);
      assert RemoteFin(segs[i]) && LocalFin(segs[j]) && RemoteAck(segs[k]);
    } else if SawBothFins(front) && RemoteAck(g) {
      var i, j :| 0 <= i < j < |front| && RemoteFin(front[i]) && LocalFin(front[j]);
      assert RemoteFin(segs[i]) && LocalFin(segs[j]) && RemoteAck(segs[|front|]);
    }
  }

  /** In every run from creation: TIME_WAIT means a FIN went each way, and CLOSED means a reset
      or a passive close in its order. */
  lemma {:induction false} RunIsJustified(segs: seq<Segment>)
    ensures Justified(StateAfter(Unknown, segs), Seen(segs))
  {
    if segs == [] {
    } else {
      hide StateAfter, UpdateTcpState, Justified, FactsGrow, Any, SawBothFins, SawPassiveClose;
      var front, last := segs[..|segs| - 1], segs[|segs| - 1];
      assert segs == front + [last];
      RunIsJustified(front);
      StateStep(Unknown, front, last);
      SeenGrows(front, last);
      JustifiedStep(StateAfter(Unknown, front), Seen(front), last, Seen(segs));
    }
  }

  lemma SeenGrows(front: seq<Segment>, g: Segment)
    ensures FactsGrow(Seen(front), g, Seen(front + [g]))
  {
    hide Any, SawBothFins, SawPassiveClose;
    AnyStep(front, g, LocalFin);
    AnyStep(front, g, RemoteFin);
    AnyStep(front, g, Resets);
    BothFinsGrow(front, g);
    PassiveCloseGrows(front, g);
  }

  // ---------------------------------------------------------------- retransmission analytics

  datatype Analytics = Analytics(
    lastSeqOutbound: U32, lastSeqInbound: U32, lastAckReceived: U32, duplicateAckCount: nat,
    retransmitCount: nat, outOfOrderCount: nat, fastRetransmitCount: nat, lastWindowSize: nat)

  const NO_ANALYTICS := Analytics(0, 0, 0, 0, 0, 0, 0, 0)

  /** New retransmissions, out-of-order segments and fast retransmits. */
  datatype Events = Events(retransmits: nat, outOfOrder: nat, fastRetransmits: nat)

  const NO_EVENTS := Events(0, 0, 0)

  function WrappingAdd(a: U32, n: nat): U32 {
    (a + n) % 0x1_0000_0000
  }

  /** Sequence space a segment takes: its payload, plus one for SYN and one for FIN. */
  function Consumed(h: Header): nat {
    h.payloadLen + (if h.flags.syn then 1 else 0) + (if h.flags.fin then 1 else 0)
  }

  function AnalyzeOutbound(a: Analytics, h: Header): Analytics {
    if Consumed(h) == 0 then a
    else if a.lastSeqOutbound != 0 && h.seqNo < a.lastSeqOutbound then
      a.(retransmitCount := a.retransmitCount + 1)
    else if a.lastSeqOutbound != 0 && h.seqNo > a.lastSeqOutbound then a
    else a.(lastSeqOutbound := WrappingAdd(h.seqNo, Consumed(h)))
  }

  function AnalyzeInbound(a: Analytics, h: Header): Analytics {
    if Consumed(h) == 0 then a
    else if a.lastSeqInbound != 0 && h.seqNo < a.lastSeqInbound then
      a.(outOfOrderCount := a.outOfOrderCount + 1)
    else a.(lastSeqInbound := WrappingAdd(h.seqNo, Consumed(h)))
  }

  function AnalyzeAck(a: Analytics, ack: U32): Analytics {
    if a.lastAckReceived == 0 then a.(lastAckReceived := ack)
    else if ack == a.lastAckReceived then
      a.(duplicateAckCount := a.duplicateAckCount + 1,
         fastRetransmitCount := a.fastRetransmitCount + if a.duplicateAckCount + 1 == 3 then 1 else 0)
    else a.(lastAckReceived := ack, duplicateAckCount := 0)
  }

  /** `analyze_tcp_segment`, as `merge_packet_into_connection` calls it. */
  function Analyze(a: Analytics, g: Segment): Analytics {
    var w := a.(lastWindowSize := g.header.window);
    if g.outgoing then AnalyzeOutbound(w, g.header)
    else
      var i := AnalyzeInbound(w, g.header);
      if g.header.flags.ack then AnalyzeAck(i, g.header.ackNo) else i
  }

  function AnalyzeAll(segs: seq<Segment>): Analytics {
    if segs == [] then NO_ANALYTICS
    else Analyze(AnalyzeAll(segs[..|segs| - 1]), segs[|segs| - 1])
  }

  /** The ACK numbers of the inbound segments that carry one. */
  function InboundAcks(segs: seq<Segment>): seq<U32> {
    if segs == [] then []
    else
      var rest := InboundAcks(segs[..|segs| - 1]);
      var last := segs[|segs| - 1];
      if !last.outgoing && last.header.flags.ack then rest + [last.header.ackNo] else rest
  }

  /** Length of the run of equal numbers that ends the sequence. */
  function TailRun(acks: seq<U32>): nat {
    if acks == [] then 0
    else if |acks| >= 2 && acks[|acks| - 2] == acks[|acks| - 1] then TailRun(acks[..|acks| - 1]) + 1
    else 1
  }

  /** `s` starts a maximal run of at least four equal non-zero numbers. */
  ghost predicate LongRunStart(acks: seq<U32>, s: nat) {
    && s + 4 <= |acks| && acks[s] != 0
    && (s == 0 || acks[s - 1] != acks[s])
    && forall i | s <= i < s + 4 :: acks[i] == acks[s]
  }

  ghost function LongRuns(acks: seq<U32>): set<nat> {
    set s: nat | s < |acks| && LongRunStart(acks, s)
  }

  lemma {:induction false} TailRunShape(acks: seq<U32>)
    requires acks != []
    ensures var n := TailRun(acks);
      && 1 <= n <= |acks|
      && (forall i | |acks| - n <= i < |acks| :: acks[i] == acks[|acks| - 1])
      && (n < |acks| ==> acks[|acks| - n - 1] != acks[|acks| - 1])
  {
    if |acks| >= 2 && acks[|acks| - 2] == acks[|acks| - 1] {
      TailRunShape(acks[..|acks| - 1]);
    }
  }

  /** A long run that ends here is a run of exactly four, so far. */
  lemma LongRunAtEnd(acks: seq<U32>)
    requires |acks| >= 4
    ensures LongRunStart(acks, |acks| - 4) <==> TailRun(acks) == 4 && acks[|acks| - 1] != 0
  {
    TailRunShape(acks);
    var start := |acks| - 4;
    if LongRunStart(acks, start) {
      assert acks[start] == acks[start + 1] == acks[start + 2] == acks[start + 3];
    }
  }

  lemma LongRunBefore(front: seq<U32>, x: U32, s: nat)
    requires s + 4 <= |front|
    ensures LongRunStart(front + [x], s) <==> LongRunStart(front, s)
  {
    var acks := front + [x];
    assert forall i | 0 <= i < |front| :: acks[i] == front[i];
  }

  lemma LongRunMember(front: seq<U32>, x: U32, s: nat)
    ensures s in LongRuns(front + [x])
       <==> s in LongRuns(front) || (s + 4 == |front| + 1 && TailRun(front + [x]) == 4 && x != 0)
  {
    if s + 4 <= |front| {
      LongRunBefore(front, x, s);
    } else if s + 4 == |front| + 1 {
      LongRunAtEnd(front + [x]);
    }
  }

  /** One more number completes a long run exactly when the run at the end reaches four. */
  lemma LongRunsStep(front: seq<U32>, x: U32)
    ensures |LongRuns(front + [x])| == |LongRuns(front)| + if TailRun(front + [x]) == 4 && x != 0 then 1 else 0
  {
    var was, now := LongRuns(front), LongRuns(front + [x]);
    TailRunShape(front + [x]);
    forall s: nat ensures s in now <==> s in was || (s + 4 == |front| + 1 && TailRun(front + [x]) == 4 && x != 0) {
      LongRunMember(front, x, s);
    }
    OneMore(was, now, |front| - 3, TailRun(front + [x]) == 4 && x != 0);
  }

  lemma OneMore(was: set<nat>, now: set<nat>, e: int, added: bool)
    requires forall s: nat :: s in now <==> s in was || (s == e && added)
    requires added ==> e >= 0 && e !in was
    ensures |now| == |was| + if added then 1 else 0
  {
    if added {
      assert now == was + {e};
    } else {
      assert now == was;
    }
  }

  /** Fast-retransmit counting (RFC 5681, section 3.2) over every run of merged packets: the
      counter is the number of maximal runs of four or more equal non-zero inbound ACK numbers,
      and the duplicate counter is the length of the current run, less one. */
  lemma {:induction false} FastRetransmitsAreLongRuns(segs: seq<Segment>)
    ensures CountsLongRuns(AnalyzeAll(segs), InboundAcks(segs))
  {
    if segs == [] {
      assert LongRuns([]) == {};
    } else {
      var last := segs[|segs| - 1];
      var a := AnalyzeAll(segs[..|segs| - 1]);
      FastRetransmitsAreLongRuns(segs[..|segs| - 1]);
      if !last.outgoing && last.header.flags.ack {
        AckStep(a, InboundAcks(segs[..|segs| - 1]), last.header.ackNo);
      }
    }
  }

  ghost predicate CountsLongRuns(a: Analytics, acks: seq<U32>) {
    && a.fastRetransmitCount == |LongRuns(acks)|
    && a.lastAckReceived == (if acks == [] then 0 else acks[|acks| - 1])
    && a.duplicateAckCount == (if a.lastAckReceived == 0 then 0 else TailRun(acks) - 1)
  }

  lemma AckStep(a: Analytics, acks: seq<U32>, x: U32)
    requires CountsLongRuns(a, acks)
    ensures CountsLongRuns(AnalyzeAck(a, x), acks + [x])
  {
    LongRunsStep(acks, x);
    assert (acks + [x])[..|acks|] == acks;
    if acks != [] {
      TailRunShape(acks);
    }
  }

  // ---------------------------------------------------------------- what the other counters count

  /** Payload, SYN and FIN take sequence numbers (RFC 9293, section 3.4). */
  predicate TakesSpace(h: Header) {
    h.payloadLen > 0 || h.flags.syn || h.flags.fin
  }

  /** The number after the last one `h` takes. */
  function End(h: Header): U32 {
    if h.flags.syn && h.flags.fin then (h.seqNo + h.payloadLen + 2) % 0x1_0000_0000
    else if h.flags.syn || h.flags.fin then (h.seqNo + h.payloadLen + 1) % 0x1_0000_0000
    else (h.seqNo + h.payloadLen) % 0x1_0000_0000
  }

  predicate OutData(g: Segment) { g.outgoing && TakesSpace(g.header) }

  predicate InData(g: Segment) { !g.outgoing && TakesSpace(g.header) }

  /** Where the outbound data without a gap ends; 0 before there is any. */
  function InOrderEnd(segs: seq<Segment>): U32 {
    if segs == [] then 0
    else
      var e, g := InOrderEnd(segs[..|segs| - 1]), segs[|segs| - 1];
      if OutData(g) && e in {0, g.header.seqNo} then End(g.header) else e
  }

  /** Where the newest inbound data ends; 0 before there is any. */
  function NewestEnd(segs: seq<Segment>): U32 {
    if segs == [] then 0
    else
      var e, g := NewestEnd(segs[..|segs| - 1]), segs[|segs| - 1];
      if InData(g) && e <= g.header.seqNo then End(g.header) else e
  }

  /** Outbound data that starts before the end of what went out before it. */
  predicate Repeats(segs: seq<Segment>, i: nat)
    requires i < |segs|
  {
    OutData(segs[i]) && segs[i].header.seqNo < InOrderEnd(segs[..i])
  }

  /** Inbound data that starts before the end of the newest before it. */
  predicate ComesLate(segs: seq<Segment>, i: nat)
    requires i < |segs|
  {
    InData(segs[i]) && segs[i].header.seqNo < NewestEnd(segs[..i])
  }

  function Retransmissions(segs: seq<Segment>): set<nat> {
    set i: nat | i < |segs| && Repeats(segs, i)
  }

  function LateArrivals(segs: seq<Segment>): set<nat> {
    set i: nat | i < |segs| && ComesLate(segs, i)
  }

  lemma RetransmissionsStep(front: seq<Segment>, g: Segment)
    ensures |Retransmissions(front + [g])|
         == |Retransmissions(front)| + if OutData(g) && g.header.seqNo < InOrderEnd(front) then 1 else 0
  {
    hide OutData, InOrderEnd;
    var segs := front + [g];
    assert segs[..|front|] == front && forall i: nat | i < |front| :: segs[..i] == front[..i];
    OneMore(Retransmissions(front), Retransmissions(segs), |front|, Repeats(segs, |front|));
  }

  lemma LateArrivalsStep(front: seq<Segment>, g: Segment)
    ensures |LateArrivals(front + [g])|
         == |LateArrivals(front)| + if InData(g) && g.header.seqNo < NewestEnd(front) then 1 else 0
  {
    hide InData, NewestEnd;
    var segs := front + [g];
    assert segs[..|front|] == front && forall i: nat | i < |front| :: segs[..i] == front[..i];
    OneMore(LateArrivals(front), LateArrivals(segs), |front|, ComesLate(segs, |front|));
  }

  /** The counters, and where the two directions are. */
  ghost predicate CountsSegments(a: Analytics, segs: seq<Segment>) {
    && a.retransmitCount == |Retransmissions(segs)| && a.lastSeqOutbound == InOrderEnd(segs)
    && a.outOfOrderCount == |LateArrivals(segs)| && a.lastSeqInbound == NewestEnd(segs)
    && a.lastWindowSize == if segs == [] then 0 else segs[|segs| - 1].header.window
  }

  lemma AnalyzeMoves(a: Analytics, g: Segment)
    ensures var b := Analyze(a, g);
      && b.lastWindowSize == g.header.window
      && b.lastSeqOutbound == (if OutData(g) && a.lastSeqOutbound in {0, g.header.seqNo} then End(g.header)
                               else a.lastSeqOutbound)
      && b.lastSeqInbound == (if InData(g) && a.lastSeqInbound <= g.header.seqNo then End(g.header)
                              else a.lastSeqInbound)
      && b.retransmitCount == a.retransmitCount + (if OutData(g) && g.header.seqNo < a.lastSeqOutbound then 1 else 0)
      && b.outOfOrderCount == a.outOfOrderCount + (if InData(g) && g.header.seqNo < a.lastSeqInbound then 1 else 0)
  {
  }

  /** Over every run of merged packets: the retransmission counter is the number of outbound segments that
      take sequence numbers and start before the end of the outbound data without a gap; the out-of-order
      counter is the number of inbound ones that start before the end of the newest inbound data. */
  lemma {:induction false} CountersCountSegments(segs: seq<Segment>)
    ensures CountsSegments(AnalyzeAll(segs), segs)
  {
    if segs == [] {
      assert Retransmissions([]) == {} && LateArrivals([]) == {};
    } else {
      hide Analyze, Retransmissions, LateArrivals, OutData, InData, End;
      var front, last := segs[..|segs| - 1], segs[|segs| - 1];
      assert segs == front + [last];
      CountersCountSegments(front);
      AnalyzeMoves(AnalyzeAll(front), last);
      RetransmissionsStep(front, last);
      LateArrivalsStep(front, last);
    }
  }

  /** What one more segment counts. */
  lemma CountStep(front: seq<Segment>, g: Segment)
    ensures var was, now := AnalyzeAll(front), AnalyzeAll(front + [g]);
      && now.retransmitCount
         == was.retransmitCount + (if OutData(g) && g.header.seqNo < InOrderEnd(front) then 1 else 0)
      && now.outOfOrderCount
         == was.outOfOrderCount + (if InData(g) && g.header.seqNo < NewestEnd(front) then 1 else 0)
    ensures InOrderEnd(front + [g])
         == if OutData(g) && InOrderEnd(front) in {0, g.header.seqNo} then End(g.header) else InOrderEnd(front)
    ensures NewestEnd(front + [g])
         == if InData(g) && NewestEnd(front) <= g.header.seqNo then End(g.header) else NewestEnd(front)
  {
    hide Analyze, OutData, InData, End;
    assert (front + [g])[..|front|] == front;
    CountersCountSegments(front);
    AnalyzeMoves(AnalyzeAll(front), g);
  }

  /** The last outbound segment, and the last inbound one, that takes sequence numbers. */
  function LastOf(segs: seq<Segment>, data: Segment -> bool): Option<Header> {
    if segs == [] then None
    else if data(segs[|segs| - 1]) then Some(segs[|segs| - 1].header)
    else LastOf(segs[..|segs| - 1], data)
  }

  /** In one direction each segment starts where the one before it ended, over a wrap too. */
  predicate InSequence(segs: seq<Segment>, data: Segment -> bool) {
    if segs == [] then true
    else
      var front, g := segs[..|segs| - 1], segs[|segs| - 1];
      && InSequence(front, data)
      && (data(g) && LastOf(front, data).Some? ==> g.header.seqNo == End(LastOf(front, data).value))
  }

  /** A stream in sequence counts nothing, whatever goes the other way in between. */
  lemma {:induction false} StreamOutCountsNone(segs: seq<Segment>)
    requires InSequence(segs, OutData)
    ensures AnalyzeAll(segs).retransmitCount == 0
    ensures InOrderEnd(segs) == if LastOf(segs, OutData).Some? then End(LastOf(segs, OutData).value) else 0
  {
    if segs == [] {
    } else {
      hide AnalyzeAll, OutData, End, InOrderEnd;
      var front, last := segs[..|segs| - 1], segs[|segs| - 1];
      assert segs == front + [last];
      StreamOutCountsNone(front);
      CountStep(front, last);
    }
  }

  lemma {:induction false} StreamInCountsNone(segs: seq<Segment>)
    requires InSequence(segs, InData)
    ensures AnalyzeAll(segs).outOfOrderCount == 0
    ensures NewestEnd(segs) == if LastOf(segs, InData).Some? then End(LastOf(segs, InData).value) else 0
  {
    if segs == [] {
    } else {
      hide AnalyzeAll, InData, End, NewestEnd;
      var front, last := segs[..|segs| - 1], segs[|segs| - 1];
      assert segs == front + [last];
      StreamInCountsNone(front);
      CountStep(front, last);
    }
  }

  /** Whatever was sent before, repeats of it count one each. */
  lemma {:induction false} RepeatsCountEach(segs: seq<Segment>, repeats: seq<Segment>)
    requires forall g :: g in repeats ==> OutData(g) && g.header.seqNo < InOrderEnd(segs)
    ensures AnalyzeAll(segs + repeats).retransmitCount == AnalyzeAll(segs).retransmitCount + |repeats|
    ensures InOrderEnd(segs + repeats) == InOrderEnd(segs)
  {
    if repeats == [] {
      assert segs + repeats == segs;
    } else {
      hide AnalyzeAll, OutData, End, InOrderEnd;
      var front, last := repeats[..|repeats| - 1], repeats[|repeats| - 1];
      assert last in repeats && forall g | g in front :: g in repeats;
      RepeatsCountEach(segs, front);
      assert segs + repeats == segs + front + [last];
      CountStep(segs + front, last);
    }
  }

  /** No segment reaches past the largest sequence number. */
  predicate NoWrap(segs: seq<Segment>) {
    forall i | 0 <= i < |segs| && OutData(segs[i]) :: segs[i].header.seqNo < End(segs[i].header)
  }

  lemma {:induction false} SentBeforeEnd(segs: seq<Segment>, i: nat)
    requires InSequence(segs, OutData) && NoWrap(segs) && i < |segs| && OutData(segs[i])
    ensures segs[i].header.seqNo < InOrderEnd(segs)
  {
    hide OutData, End;
    var front := segs[..|segs| - 1];
    assert forall j | 0 <= j < |front| :: front[j] == segs[j];
    StreamOutCountsNone(segs);
    StreamOutCountsNone(front);
    if i < |front| {
      SentBeforeEnd(front, i);
    }
  }

  /** A stream in sequence that does not wrap, and then any of its segments again, as often as may be: the
      counter is exactly how many came again. */
  lemma StreamAndRepeats(segs: seq<Segment>, repeats: seq<Segment>)
    requires InSequence(segs, OutData) && NoWrap(segs)
    requires forall g :: g in repeats ==> g in segs && OutData(g)
    ensures AnalyzeAll(segs + repeats).retransmitCount == |repeats|
  {
    hide OutData, End, InOrderEnd, Analyze;
    StreamOutCountsNone(segs);
    forall g | g in repeats ensures g.header.seqNo < InOrderEnd(segs) {
      var i: nat :| i < |segs| && segs[i] == g;
      SentBeforeEnd(segs, i);
    }
    RepeatsCountEach(segs, repeats);
  }

  /** The numbers are compared as they stand, so a segment that goes out again at once is counted exactly
      when it does not reach past the largest sequence number. */
  lemma RepeatCountsIff(segs: seq<Segment>, g: Segment)
    requires OutData(g) && InOrderEnd(segs) in {0, g.header.seqNo}
    ensures AnalyzeAll(segs + [g, g]).retransmitCount == AnalyzeAll(segs + [g]).retransmitCount + 1
       <==> g.header.seqNo < End(g.header)
  {
    hide AnalyzeAll, OutData, End, InOrderEnd;
    assert segs + [g, g] == segs + [g] + [g];
    CountStep(segs, g);
    CountStep(segs + [g], g);
  }

  /** After a gap in what is seen of the outbound data, nothing is counted until a segment starts where the
      gap does. */
  lemma {:induction false} GapStopsCounting(segs: seq<Segment>, beyond: seq<Segment>)
    requires InOrderEnd(segs) != 0
    requires forall g :: g in beyond && OutData(g) ==> g.header.seqNo > InOrderEnd(segs)
    ensures AnalyzeAll(segs + beyond).retransmitCount == AnalyzeAll(segs).retransmitCount
    ensures InOrderEnd(segs + beyond) == InOrderEnd(segs)
  {
    if beyond == [] {
      assert segs + beyond == segs;
    } else {
      hide AnalyzeAll, OutData, End, InOrderEnd;
      var front, last := beyond[..|beyond| - 1], beyond[|beyond| - 1];
      assert last in beyond && forall g | g in front :: g in beyond;
      GapStopsCounting(segs, front);
      assert segs + beyond == segs + front + [last];
      CountStep(segs + front, last);
    }
  }

  /** What one segment adds to the three counters. */
  function NewEvents(a: Analytics, g: Segment): Events {
    var b := Analyze(a, g);
    CountersGrow(a, g);
    Events(b.retransmitCount - a.retransmitCount, b.outOfOrderCount - a.outOfOrderCount,
           b.fastRetransmitCount - a.fastRetransmitCount)
  }

  lemma CountersGrow(a: Analytics, g: Segment)
    ensures var b := Analyze(a, g);
      && a.retransmitCount <= b.retransmitCount <= a.retransmitCount + 1
      && a.outOfOrderCount <= b.outOfOrderCount <= a.outOfOrderCount + 1
      && a.fastRetransmitCount <= b.fastRetransmitCount <= a.fastRetransmitCount + 1
  {
  }

  // ---------------------------------------------------------------- the object

  /** `TcpAnalytics`, updated in place. */
  class TcpAnalytics {
    var lastSeqOutbound: U32
    var lastSeqInbound: U32
    var lastAckReceived: U32
    var duplicateAckCount: nat
    var retransmitCount: nat
    var outOfOrderCount: nat
    var fastRetransmitCount: nat
    var lastWindowSize: nat

    ghost function State(): Analytics
      reads this
    {
      Analytics(lastSeqOutbound, lastSeqInbound, lastAckReceived, duplicateAckCount, retransmitCount,
                outOfOrderCount, fastRetransmitCount, lastWindowSize)
    }

    constructor ()
      ensures State() == NO_ANALYTICS
    {
      lastSeqOutbound, lastSeqInbound, lastAckReceived, duplicateAckCount := 0, 0, 0, 0;
      retransmitCount, outOfOrderCount, fastRetransmitCount, lastWindowSize := 0, 0, 0, 0;
    }

    method AnalyzeSegment(g: Segment) returns (e: Events)
      modifies this
      ensures State() == Analyze(old(State()), g) && e == NewEvents(old(State()), g)
    {
      var newRetransmits, newOutOfOrder, newFastRetransmits := 0, 0, 0;
      var consumed := Consumed(g.header);
      lastWindowSize := g.header.window;
      if g.outgoing {
        if consumed > 0 {
          if lastSeqOutbound != 0 {
            if g.header.seqNo < lastSeqOutbound {
              retransmitCount, newRetransmits := retransmitCount + 1, 1;
            } else if g.header.seqNo == lastSeqOutbound {
              lastSeqOutbound := WrappingAdd(g.header.seqNo, consumed);
            }
          } else {
            lastSeqOutbound := WrappingAdd(g.header.seqNo, consumed);
          }
        }
      } else {
        if consumed > 0 {
          if lastSeqInbound != 0 && g.header.seqNo < lastSeqInbound {
            outOfOrderCount, newOutOfOrder := outOfOrderCount + 1, 1;
          } else {
            lastSeqInbound := WrappingAdd(g.header.seqNo, consumed);
          }
        }
        if g.header.flags.ack {
          if lastAckReceived != 0 {
            if g.header.ackNo == lastAckReceived {
              duplicateAckCount := duplicateAckCount + 1;
              if duplicateAckCount == 3 {
                fastRetransmitCount, newFastRetransmits := fastRetransmitCount + 1, 1;
              }
            } else {
              lastAckReceived, duplicateAckCount := g.header.ackNo, 0;
            }
          } else {
            lastAckReceived := g.header.ackNo;
          }
        }
      }
      return Events(newRetransmits, newOutOfOrder, newFastRetransmits);
    }
  }
}
