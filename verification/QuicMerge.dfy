/** Merging what one more packet shows of a QUIC connection into what is already known. */
module QuicMerge {
  import opened Bytes
  import opened Clock
  import opened TlsTypes
  import opened Reassembler

  datatype QuicState = Unknown | Initial | Handshaking | Connected | Draining | Closed

  datatype PacketType = InitialPacket | ZeroRtt | HandshakePacket | Retry | VersionNegotiation
                      | OneRtt | UnknownPacket

  datatype Close = Close(frameType: Byte, errorCode: nat)

  datatype QuicInfo = QuicInfo(
    versionString: Option<Octets>,
    packetType: PacketType,
    connectionId: Octets,
    connectionIdHex: Option<Octets>,
    state: QuicState,
    tls: Option<TlsInfo>,
    hasCryptoFrame: bool,
    reassembler: Option<Buffer>,
    close: Option<Close>,
    idleTimeout: Option<nat>)

  /** What `try_extract_tls_from_reassembler` happens to answer during one merge: its result
      without and with partial extraction, and what it leaves in the reassembler's cache. */
  datatype Extractor = Extractor(complete: Option<TlsInfo>, partial: Option<TlsInfo>,
                                 cached: Option<TlsInfo>)

  datatype Arrival = Arrival(info: QuicInfo, extractor: Extractor)

  // ---------------------------------------------------------------- specification functions

  function Priority(s: QuicState): nat {
    match s
    case Unknown => 0
    case Initial => 1
    case Handshaking => 2
    case Connected => 3
    case Draining => 4
    case Closed => 5
  }

  function Progress(known: QuicState, seen: QuicState): QuicState {
    if Priority(seen) > Priority(known) then seen else known
  }

  function CloseState(c: Close): QuicState {
    if c.frameType == 0x1c && c.errorCode == 0 then Draining else Closed
  }

  predicate SniUnfinished(tls: Option<TlsInfo>) {
    tls == None || tls.value.sni == None || IsPartialSni(tls.value.sni.value)
  }

  function Retried(tls: Option<TlsInfo>, x: Extractor): Option<TlsInfo> {
    if !SniUnfinished(tls) then tls
    else if x.complete.Some? then x.complete
    else if x.partial.Some? then x.partial
    else tls
  }

  function FromCache(tls: Option<TlsInfo>, cached: Option<TlsInfo>): Option<TlsInfo> {
    if cached == None then tls
    else
      var newIsComplete := cached.value.sni.Some? && !IsPartialSni(cached.value.sni.value);
      var update := tls == None || tls.value.sni == None
                    || (IsPartialSni(tls.value.sni.value) && newIsComplete);
      if update then cached else tls
  }

  function MergedTls(known: TlsInfo, seen: TlsInfo): TlsInfo {
    TlsInfo(
      if known.version == None then seen.version else known.version,
      if known.sni == None then seen.sni
      else if IsPartialSni(known.sni.value) && seen.sni.Some? && !IsPartialSni(seen.sni.value) then seen.sni
      else known.sni,
      if known.alpn == [] then seen.alpn else known.alpn,
      if known.cipherSuite == None then seen.cipherSuite else known.cipherSuite)
  }

  function WithPacketTls(tls: Option<TlsInfo>, seen: Option<TlsInfo>): Option<TlsInfo> {
    if seen == None then tls
    else if tls == None then seen
    else Some(MergedTls(tls.value, seen.value))
  }

  /** The TLS facts after the CRYPTO-frame part of a merge. */
  function CryptoTls(known: QuicInfo, seen: QuicInfo, x: Extractor): Option<TlsInfo> {
    if known.reassembler == None || seen.reassembler == None then known.tls
    else FromCache(Retried(known.tls, x), seen.reassembler.value.cached)
  }

  function CryptoBuffer(known: QuicInfo, seen: QuicInfo, x: Extractor): Option<Buffer> {
    if seen.reassembler == None then known.reassembler
    else if known.reassembler == None then seen.reassembler
    else
      var b := Deliver(known.reassembler.value, seen.reassembler.value.fragments);
      Some(if SniUnfinished(known.tls) && x.cached.Some? then b.(cached := x.cached) else b)
  }

  /** `merge_quic_info`. */
  function Merge(known: QuicInfo, seen: QuicInfo, x: Extractor): QuicInfo {
    var takeId := known.connectionId == [] && seen.connectionId != [];
    QuicInfo(
      if known.versionString == None then seen.versionString else known.versionString,
      seen.packetType,
      if takeId then seen.connectionId else known.connectionId,
      if takeId then seen.connectionIdHex else known.connectionIdHex,
      if seen.close.Some? then CloseState(seen.close.value) else Progress(known.state, seen.state),
      WithPacketTls(CryptoTls(known, seen, x), seen.tls),
      known.hasCryptoFrame || seen.hasCryptoFrame,
      CryptoBuffer(known, seen, x),
      if seen.close.Some? then seen.close else known.close,
      if seen.idleTimeout.Some? then seen.idleTimeout else known.idleTimeout)
  }

  function Run(info: QuicInfo, arrivals: seq<Arrival>): QuicInfo {
    if arrivals == [] then info
    else
      var last := arrivals[|arrivals| - 1];
      Merge(Run(info, arrivals[..|arrivals| - 1]), last.info, last.extractor)
  }

  /** `get_quic_timeout`. */
  function Timeout(q: QuicInfo): nat {
    if q.close.Some? then
      (if q.close.value.frameType == 0x1c then 10 * SECOND
       else if q.close.value.frameType == 0x1d then 1 * SECOND
       else 5 * SECOND)
    else match q.state
      case Initial => 60 * SECOND
      case Handshaking => 60 * SECOND
      case Connected => if q.idleTimeout.Some? then q.idleTimeout.value else 180 * SECOND
      case Draining => 10 * SECOND
      case Closed => 1 * SECOND
      case Unknown => 120 * SECOND
  }

  // ---------------------------------------------------------------- runs

  lemma {:induction false} RunConcat(info: QuicInfo, xs: seq<Arrival>, ys: seq<Arrival>)
    ensures Run(info, xs + ys) == Run(Run(info, xs), ys)
  {
    if ys == [] {
      assert xs + ys == xs;
    } else {
      var front := ys[..|ys| - 1];
      assert (xs + ys)[..|xs + ys| - 1] == xs + front;
      RunConcat(info, xs, front);
    }
  }

  // ---------------------------------------------------------------- what a run remembers

  /** `r` is the first of `start` and `xs` that is known, in this order. */
  ghost predicate FirstKnown<T(!new)>(r: Option<T>, start: Option<T>, xs: seq<Option<T>>) {
    if start.Some? then r == start
    else if forall i | 0 <= i < |xs| :: xs[i] == None then r == None
    else exists i | 0 <= i < |xs| :: r.Some? && xs[i] == r && forall j | 0 <= j < i :: xs[j] == None
  }

  /** `r` is the last of them that is known. */
  ghost predicate LastKnown<T(!new)>(r: Option<T>, start: Option<T>, xs: seq<Option<T>>) {
    if forall i | 0 <= i < |xs| :: xs[i] == None then r == start
    else exists i | 0 <= i < |xs| :: r.Some? && xs[i] == r && forall j | i < j < |xs| :: xs[j] == None
  }

  lemma FirstKnownStep<T(!new)>(r: Option<T>, start: Option<T>, xs: seq<Option<T>>, x: Option<T>)
    requires FirstKnown(r, start, xs)
    ensures FirstKnown(if r == None then x else r, start, xs + [x])
  {
    var ys := xs + [x];
    assert ys[|xs|] == x && forall i | 0 <= i < |xs| :: ys[i] == xs[i];
    if start == None && r.Some? {
      var i :| 0 <= i < |xs| && xs[i] == r && forall j | 0 <= j < i :: xs[j] == None;
      assert ys[i] == r && forall j | 0 <= j < i :: ys[j] == None;
    }
  }

  lemma LastKnownStep<T(!new)>(r: Option<T>, start: Option<T>, xs: seq<Option<T>>, x: Option<T>)
    requires LastKnown(r, start, xs)
    ensures LastKnown(if x.Some? then x else r, start, xs + [x])
  {
    var ys := xs + [x];
    assert ys[|xs|] == x && forall i | 0 <= i < |xs| :: ys[i] == xs[i];
    if x == None && exists i | 0 <= i < |xs| :: xs[i] != None {
      var i :| 0 <= i < |xs| && r.Some? && xs[i] == r && forall j | i < j < |xs| :: xs[j] == None;
      assert ys[i] == r && forall j | i < j < |ys| :: ys[j] == None;
    }
  }

  /** An empty connection id is none. */
  function KnownId(id: Octets): Option<Octets> {
    if id == [] then None else Some(id)
  }

  function VersionsIn(arrivals: seq<Arrival>): seq<Option<Octets>> {
    seq(|arrivals|, i requires 0 <= i < |arrivals| => arrivals[i].info.versionString)
  }

  function IdsIn(arrivals: seq<Arrival>): seq<Option<Octets>> {
    seq(|arrivals|, i requires 0 <= i < |arrivals| => KnownId(arrivals[i].info.connectionId))
  }

  function ClosesIn(arrivals: seq<Arrival>): seq<Option<Close>> {
    seq(|arrivals|, i requires 0 <= i < |arrivals| => arrivals[i].info.close)
  }

  function IdleTimeoutsIn(arrivals: seq<Arrival>): seq<Option<nat>> {
    seq(|arrivals|, i requires 0 <= i < |arrivals| => arrivals[i].info.idleTimeout)
  }

  ghost predicate Remembers(r: QuicInfo, info: QuicInfo, arrivals: seq<Arrival>) {
    && FirstKnown(r.versionString, info.versionString, VersionsIn(arrivals))
    && FirstKnown(KnownId(r.connectionId), KnownId(info.connectionId), IdsIn(arrivals))
    && LastKnown(r.close, info.close, ClosesIn(arrivals))
    && LastKnown(r.idleTimeout, info.idleTimeout, IdleTimeoutsIn(arrivals))
    && (r.hasCryptoFrame <==> info.hasCryptoFrame || exists i | 0 <= i < |arrivals| :: arrivals[i].info.hasCryptoFrame)
  }

  lemma ListsGrow(front: seq<Arrival>, a: Arrival)
    ensures VersionsIn(front + [a]) == VersionsIn(front) + [a.info.versionString]
    ensures IdsIn(front + [a]) == IdsIn(front) + [KnownId(a.info.connectionId)]
    ensures ClosesIn(front + [a]) == ClosesIn(front) + [a.info.close]
    ensures IdleTimeoutsIn(front + [a]) == IdleTimeoutsIn(front) + [a.info.idleTimeout]
  {
  }

  lemma CryptoSeen(front: seq<Arrival>, a: Arrival)
    ensures (exists i | 0 <= i < |front + [a]| :: (front + [a])[i].info.hasCryptoFrame)
       <==> a.info.hasCryptoFrame || exists i | 0 <= i < |front| :: front[i].info.hasCryptoFrame
  {
    var all := front + [a];
    assert all[|front|] == a && forall i | 0 <= i < |front| :: all[i] == front[i];
    if i :| 0 <= i < |front| && front[i].info.hasCryptoFrame {
      assert all[i].info.hasCryptoFrame;
    }
  }

  lemma RemembersStep(m: QuicInfo, info: QuicInfo, front: seq<Arrival>, a: Arrival)
    requires Remembers(m, info, front)
    ensures Remembers(Merge(m, a.info, a.extractor), info, front + [a])
  {
    hide FirstKnown, LastKnown, VersionsIn, IdsIn, ClosesIn, IdleTimeoutsIn, CryptoTls, CryptoBuffer;
    ListsGrow(front, a);
    CryptoSeen(front, a);
    FirstKnownStep(m.versionString, info.versionString, VersionsIn(front), a.info.versionString);
    FirstKnownStep(KnownId(m.connectionId), KnownId(info.connectionId), IdsIn(front), KnownId(a.info.connectionId));
    LastKnownStep(m.close, info.close, ClosesIn(front), a.info.close);
    LastKnownStep(m.idleTimeout, info.idleTimeout, IdleTimeoutsIn(front), a.info.idleTimeout);
  }

  /** Over any run the first version and the first connection id stay, the last close and the
      last idle timeout count, and CRYPTO data once seen is not forgotten. */
  lemma {:induction false} RunRemembers(info: QuicInfo, arrivals: seq<Arrival>)
    ensures Remembers(Run(info, arrivals), info, arrivals)
  {
    if arrivals == [] {
    } else {
      hide Remembers, Merge;
      var front, last := arrivals[..|arrivals| - 1], arrivals[|arrivals| - 1];
      RunRemembers(info, front);
      RemembersStep(Run(info, front), info, front, last);
      assert arrivals == front + [last];
    }
  }

  /** The text of a connection id is never that of another: over any run, if each packet's goes with its id,
      so does the connection's. */
  lemma {:induction false} HexFollowsId(info: QuicInfo, arrivals: seq<Arrival>, hex: Octets -> Option<Octets>)
    requires info.connectionIdHex == hex(info.connectionId)
    requires forall i | 0 <= i < |arrivals| :: arrivals[i].info.connectionIdHex == hex(arrivals[i].info.connectionId)
    ensures Run(info, arrivals).connectionIdHex == hex(Run(info, arrivals).connectionId)
  {
    if arrivals == [] {
    } else {
      HexFollowsId(info, arrivals[..|arrivals| - 1], hex);
    }
  }

  /** The packet type shown is that of the last packet. */
  lemma LastTypeShows(info: QuicInfo, arrivals: seq<Arrival>)
    ensures Run(info, arrivals).packetType
         == if arrivals == [] then info.packetType else arrivals[|arrivals| - 1].info.packetType
  {
  }

  // ---------------------------------------------------------------- closing

  predicate Ended(s: QuicState) {
    s == Draining || s == Closed
  }

  ghost predicate CloseFree(arrivals: seq<Arrival>) {
    forall a :: a in arrivals ==> a.info.close == None
  }

  /** Known at the start, or said by an arrival. */
  predicate Seen(s: QuicState, start: QuicState, arrivals: seq<Arrival>) {
    start == s || exists i | 0 <= i < |arrivals| :: arrivals[i].info.state == s
  }

  /** The furthest of `start` and the states in `arrivals`: closed, else draining, else connected, else in
      its handshake, else at its first packet. */
  function Furthest(start: QuicState, arrivals: seq<Arrival>): QuicState {
    if Seen(Closed, start, arrivals) then Closed
    else if Seen(Draining, start, arrivals) then Draining
    else if Seen(Connected, start, arrivals) then Connected
    else if Seen(Handshaking, start, arrivals) then Handshaking
    else if Seen(Initial, start, arrivals) then Initial
    else Unknown
  }

  lemma SeenStep(s: QuicState, start: QuicState, front: seq<Arrival>, a: Arrival)
    ensures Seen(s, start, front + [a]) <==> Seen(s, start, front) || a.info.state == s
  {
    var all := front + [a];
    assert all[|front|] == a && forall i | 0 <= i < |front| :: all[i] == front[i];
    if i :| 0 <= i < |front| && front[i].info.state == s {
      assert all[i].info.state == s;
    }
  }

  lemma FurthestStep(start: QuicState, front: seq<Arrival>, a: Arrival)
    ensures Furthest(start, front + [a]) == Progress(Furthest(start, front), a.info.state)
  {
    hide Seen;
    forall s ensures Seen(s, start, front + [a]) <==> Seen(s, start, front) || a.info.state == s {
      SeenStep(s, start, front, a);
    }
    if Furthest(start, front) == Unknown {
      SomethingSeen(start, front);
    }
  }

  lemma SomethingSeen(start: QuicState, arrivals: seq<Arrival>)
    ensures Seen(start, start, arrivals)
  {
  }

  /** Without a CONNECTION_CLOSE the state is the furthest one seen. */
  lemma {:induction false} CloseFreeRunIsMaximum(info: QuicInfo, arrivals: seq<Arrival>)
    requires CloseFree(arrivals)
    ensures Run(info, arrivals).state == Furthest(info.state, arrivals)
    ensures Run(info, arrivals).close == info.close
  {
    if arrivals == [] {
    } else {
      hide Furthest, CryptoTls, CryptoBuffer;
      var front := arrivals[..|arrivals| - 1];
      var last := arrivals[|arrivals| - 1];
      assert arrivals == front + [last] && last in arrivals;
      forall a | a in front ensures a in arrivals {}
      CloseFreeRunIsMaximum(info, front);
      FurthestStep(info.state, front, last);
    }
  }

  /** What a close calls for: draining after a transport close (RFC 9000, section 19.19) without error. */
  function Called(c: Close): QuicState {
    if c == Close(0x1c, 0) then Draining else Closed
  }

  /** With one, the recorded close is the last one seen and the state is the furthest of the
      state it calls for and the states seen after it. */
  lemma LastCloseDecides(info: QuicInfo, before: seq<Arrival>, a: Arrival, after: seq<Arrival>)
    requires a.info.close.Some? && CloseFree(after)
    ensures var r := Run(info, before + [a] + after);
      && r.close == a.info.close
      && r.state == Furthest(Called(a.info.close.value), after)
      && Ended(r.state)
      && Timeout(r) <= 10 * SECOND
  {
    hide Run, Merge;
    RunConcat(info, before + [a], after);
    var m := Run(info, before + [a]);
    CloseTaken(info, before, a);
    CloseFreeRunIsMaximum(m, after);
  }

  lemma CloseTaken(info: QuicInfo, before: seq<Arrival>, a: Arrival)
    requires a.info.close.Some?
    ensures var m := Run(info, before + [a]);
      m.close == a.info.close && m.state == CloseState(a.info.close.value)
  {
    assert (before + [a])[..|before|] == before;
  }

  /** Draining and Closed are left for nothing else, a recorded close is never forgotten, and
      from either on the cleanup timeout is at most ten seconds (RFC 9000, section 10.2). */
  lemma {:induction false} ClosingIsAbsorbing(info: QuicInfo, arrivals: seq<Arrival>)
    ensures var r := Run(info, arrivals);
      && (Ended(info.state) ==> Ended(r.state))
      && (info.close.Some? ==> r.close.Some?)
      && (Ended(info.state) || info.close.Some? ==> Timeout(r) <= 10 * SECOND)
      && (info.state == Closed && CloseFree(arrivals) ==> r.state == Closed)
  {
    if arrivals == [] {
    } else {
      var front := arrivals[..|arrivals| - 1];
      assert arrivals[|arrivals| - 1] in arrivals;
      forall a | a in front ensures a in arrivals {}
      ClosingIsAbsorbing(info, front);
    }
  }

  /** `arrivals` ends with `a`'s close and no later state of Closed. */
  ghost predicate DrainsLast(before: seq<Arrival>, a: Arrival, after: seq<Arrival>) {
    && a.info.close == Some(Close(0x1c, 0)) && CloseFree(after)
    && forall b :: b in after ==> b.info.state != Closed
  }

  lemma {:induction false} LastClose(arrivals: seq<Arrival>)
    returns (before: seq<Arrival>, a: Arrival, after: seq<Arrival>)
    requires !CloseFree(arrivals)
    ensures arrivals == before + [a] + after && a.info.close.Some? && CloseFree(after)
  {
    var front, last := arrivals[..|arrivals| - 1], arrivals[|arrivals| - 1];
    assert arrivals == front + [last];
    if last.info.close.Some? {
      before, a, after := front, last, [];
    } else {
      before, a, after := LastClose(front);
      after := after + [last];
    }
  }

  /** The one way back among the two: over any run Closed becomes Draining if and only if the last
      close is a transport close without error and no packet after it says Closed. */
  lemma ClosedDrainsIff(info: QuicInfo, arrivals: seq<Arrival>)
    requires info.state == Closed
    ensures Run(info, arrivals).state == Draining
       <==> exists before, a, after :: arrivals == before + [a] + after && DrainsLast(before, a, after)
  {
    hide Run;
    if CloseFree(arrivals) {
      CloseFreeRunIsMaximum(info, arrivals);
      forall before, a, after | arrivals == before + [a] + after ensures a in arrivals {}
    } else {
      var before, a, after := LastClose(arrivals);
      LastCloseDecides(info, before, a, after);
      if DrainsLast(before, a, after) {
      } else {
        forall x, y, z | arrivals == x + [y] + z && y.info.close.Some? && CloseFree(z) ensures y == a && z == after {
          LastCloseIsOne(before, a, after, x, y, z);
        }
      }
    }
  }

  lemma LastCloseIsOne(before: seq<Arrival>, a: Arrival, after: seq<Arrival>,
                       x: seq<Arrival>, y: Arrival, z: seq<Arrival>)
    requires before + [a] + after == x + [y] + z
    requires a.info.close.Some? && CloseFree(after) && y.info.close.Some? && CloseFree(z)
    ensures y == a && z == after
  {
    var all := before + [a] + after;
    assert all[|before|] == a && all[|x|] == y;
    assert forall i | |before| < i < |all| :: all[i] == after[i - |before| - 1] && all[i] in after;
    assert forall i | |x| < i < |all| :: all[i] == z[i - |x| - 1] && all[i] in z;
    assert |before| == |x|;
    assert all[|before| + 1..] == after && all[|x| + 1..] == z;
  }

  // ---------------------------------------------------------------- server name and TLS facts

  predicate CompleteSni(t: TlsInfo) {
    t.sni.Some? && !IsPartialSni(t.sni.value)
  }

  predicate NothingElseKnown(t: TlsInfo) {
    t.alpn == [] && t.version == None && t.cipherSuite == None
  }

  /** Everything `t` had settled is still there in `r`. */
  predicate Kept(t: TlsInfo, r: Option<TlsInfo>) {
    && r.Some?
    && (CompleteSni(t) ==> r.value.sni == t.sni)
    && (t.alpn != [] ==> r.value.alpn == t.alpn)
    && (t.version.Some? ==> r.value.version == t.version)
    && (t.cipherSuite.Some? ==> r.value.cipherSuite == t.cipherSuite)
  }

  /** A complete SNI, and the ALPN list, version and cipher suite set by then, survive every
      later sequence of merges, whatever the TLS extractor answers. */
  lemma {:induction false} CompleteSniIsStable(info: QuicInfo, arrivals: seq<Arrival>)
    requires info.tls.Some? && CompleteSni(info.tls.value)
    ensures Kept(info.tls.value, Run(info, arrivals).tls)
  {
    if arrivals == [] {
    } else {
      CompleteSniIsStable(info, arrivals[..|arrivals| - 1]);
    }
  }

  lemma {:induction false} TlsStaysKnown(info: QuicInfo, arrivals: seq<Arrival>)
    requires info.tls.Some?
    ensures Run(info, arrivals).tls.Some?
  {
    if arrivals == [] {
    } else {
      TlsStaysKnown(info, arrivals[..|arrivals| - 1]);
    }
  }

  ghost predicate KeptAlong(info: QuicInfo, arrivals: seq<Arrival>)
    requires info.tls.Some?
  {
    Kept(info.tls.value, Run(info, arrivals).tls)
  }

  // ---------------------------------------------------------------- what packets' own TLS facts teach

  function VersionIn(t: Option<TlsInfo>): Option<TlsVersion> {
    if t.Some? then t.value.version else None
  }

  function CipherIn(t: Option<TlsInfo>): Option<nat> {
    if t.Some? then t.value.cipherSuite else None
  }

  /** An empty list is none. */
  function ProtocolsIn(t: Option<TlsInfo>): Option<seq<Octets>> {
    if t.Some? && t.value.alpn != [] then Some(t.value.alpn) else None
  }

  function NameIn(t: Option<TlsInfo>): Option<Octets> {
    if t.Some? then t.value.sni else None
  }

  function CompleteNameIn(t: Option<TlsInfo>): Option<Octets> {
    if t.Some? && CompleteSni(t.value) then t.value.sni else None
  }

  function TlsIn(arrivals: seq<Arrival>): seq<Option<TlsInfo>> {
    seq(|arrivals|, i requires 0 <= i < |arrivals| => arrivals[i].info.tls)
  }

  function Each<T>(ts: seq<Option<TlsInfo>>, f: Option<TlsInfo> -> Option<T>): seq<Option<T>> {
    seq(|ts|, i requires 0 <= i < |ts| => f(ts[i]))
  }

  /** Of version, cipher suite and protocols the first known; of the name the first complete one, or else the
      first. */
  ghost predicate Learned(r: Option<TlsInfo>, start: Option<TlsInfo>, ts: seq<Option<TlsInfo>>) {
    && FirstKnown(VersionIn(r), VersionIn(start), Each(ts, VersionIn))
    && FirstKnown(CipherIn(r), CipherIn(start), Each(ts, CipherIn))
    && FirstKnown(ProtocolsIn(r), ProtocolsIn(start), Each(ts, ProtocolsIn))
    && FirstKnown(CompleteNameIn(r), CompleteNameIn(start), Each(ts, CompleteNameIn))
    && (CompleteNameIn(r) == None ==> FirstKnown(NameIn(r), NameIn(start), Each(ts, NameIn)))
  }

  lemma EachStep<T>(ts: seq<Option<TlsInfo>>, t: Option<TlsInfo>, f: Option<TlsInfo> -> Option<T>)
    ensures Each(ts + [t], f) == Each(ts, f) + [f(t)]
  {
  }

  lemma NothingLearned(start: Option<TlsInfo>)
    ensures Learned(start, start, [])
  {
  }

  lemma FactsOf(r: Option<TlsInfo>, t: Option<TlsInfo>)
    ensures var m := WithPacketTls(r, t);
      && VersionIn(m) == (if VersionIn(r) == None then VersionIn(t) else VersionIn(r))
      && CipherIn(m) == (if CipherIn(r) == None then CipherIn(t) else CipherIn(r))
      && ProtocolsIn(m) == (if ProtocolsIn(r) == None then ProtocolsIn(t) else ProtocolsIn(r))
      && CompleteNameIn(m) == (if CompleteNameIn(r) == None then CompleteNameIn(t) else CompleteNameIn(r))
      && (CompleteNameIn(m) == None ==>
            CompleteNameIn(r) == None && NameIn(m) == if NameIn(r) == None then NameIn(t) else NameIn(r))
  {
    hide IsPartialSni;
  }

  lemma LearnedStep(r: Option<TlsInfo>, start: Option<TlsInfo>, ts: seq<Option<TlsInfo>>, t: Option<TlsInfo>)
    requires Learned(r, start, ts)
    ensures Learned(WithPacketTls(r, t), start, ts + [t])
  {
    hide FirstKnown, VersionIn, CipherIn, ProtocolsIn, NameIn, CompleteNameIn, WithPacketTls, Each;
    FactsOf(r, t);
    EachStep(ts, t, VersionIn);
    EachStep(ts, t, CipherIn);
    EachStep(ts, t, ProtocolsIn);
    EachStep(ts, t, CompleteNameIn);
    EachStep(ts, t, NameIn);
    FirstKnownStep(VersionIn(r), VersionIn(start), Each(ts, VersionIn), VersionIn(t));
    FirstKnownStep(CipherIn(r), CipherIn(start), Each(ts, CipherIn), CipherIn(t));
    FirstKnownStep(ProtocolsIn(r), ProtocolsIn(start), Each(ts, ProtocolsIn), ProtocolsIn(t));
    FirstKnownStep(CompleteNameIn(r), CompleteNameIn(start), Each(ts, CompleteNameIn), CompleteNameIn(t));
    if CompleteNameIn(WithPacketTls(r, t)) == None {
      FirstKnownStep(NameIn(r), NameIn(start), Each(ts, NameIn), NameIn(t));
    }
  }

  /** Over every run of packets without CRYPTO data. */
  lemma {:induction false} PacketsTeach(info: QuicInfo, arrivals: seq<Arrival>)
    requires forall i | 0 <= i < |arrivals| :: arrivals[i].info.reassembler == None
    ensures Learned(Run(info, arrivals).tls, info.tls, TlsIn(arrivals))
  {
    if arrivals == [] {
      NothingLearned(info.tls);
    } else {
      hide Learned, WithPacketTls;
      var front, last := arrivals[..|arrivals| - 1], arrivals[|arrivals| - 1];
      PacketsTeach(info, front);
      LearnedStep(Run(info, front).tls, info.tls, TlsIn(front), last.info.tls);
      assert TlsIn(arrivals) == TlsIn(front) + [last.info.tls];
    }
  }

  /** The first CRYPTO data is adopted as it is, and nothing is extracted from it yet. */
  lemma FirstCryptoIsAdopted(info: QuicInfo, a: Arrival)
    requires info.reassembler == None
    ensures var m := Merge(info, a.info, a.extractor);
      m.reassembler == a.info.reassembler && Learned(m.tls, info.tls, [a.info.tls])
  {
    hide Learned, WithPacketTls;
    NothingLearned(info.tls);
    LearnedStep(info.tls, info.tls, [], a.info.tls);
    assert [] + [a.info.tls] == [a.info.tls];
  }

  // ---------------------------------------------------------------- reassembly across packets

  ghost predicate Sound(r: Option<Buffer>) {
    r.Some? ==> Inv(r.value) && NoEmpty(r.value.fragments)
  }

  /** `s` still holds every byte of `r`, and its prefix is no shorter. */
  ghost predicate Preserved(r: Option<Buffer>, s: Option<Buffer>) {
    r.Some? ==>
      && s.Some? && r.value.contiguous <= s.value.contiguous
      && forall p: nat, x: Byte :: HoldsAt(r.value.fragments, p, x) ==> HoldsAt(s.value.fragments, p, x)
  }

  lemma PreservedTwice(r: Option<Buffer>, s: Option<Buffer>, t: Option<Buffer>)
    requires Preserved(r, s) && Preserved(s, t)
    ensures Preserved(r, t)
  {
    hide HoldsAt;
  }

  lemma MergeKeepsReassembler(info: QuicInfo, a: Arrival)
    requires Sound(info.reassembler) && Sound(a.info.reassembler)
    ensures var r := Merge(info, a.info, a.extractor).reassembler;
      Sound(r) && Preserved(info.reassembler, r)
  {
    hide Deliver, HoldsAt, Ordered, LeastUncovered, Total, NoEmpty;
    if info.reassembler.Some? && a.info.reassembler.Some? {
      MergeKeeps(info.reassembler.value, a.info.reassembler.value.fragments);
    }
  }

  /** Over any run the connection's reassembler keeps its invariant and never changes a byte. */
  lemma {:induction false} RunKeepsReassembler(info: QuicInfo, arrivals: seq<Arrival>)
    requires Sound(info.reassembler)
    requires forall a :: a in arrivals ==> Sound(a.info.reassembler)
    ensures var r := Run(info, arrivals).reassembler;
      Sound(r) && Preserved(info.reassembler, r)
  {
    if arrivals == [] {
    } else {
      hide Merge, Sound, Preserved;
      var front := arrivals[..|arrivals| - 1];
      var last := arrivals[|arrivals| - 1];
      assert last in arrivals;
      forall a | a in front ensures a in arrivals {}
      RunKeepsReassembler(info, front);
      var m := Run(info, front);
      MergeKeepsReassembler(m, last);
      PreservedTwice(info.reassembler, m.reassembler, Run(info, arrivals).reassembler);
    }
  }

  // ---------------------------------------------------------------- when settled facts are lost

  /** What the first of the two extractions that finds anything finds. */
  function Answer(x: Extractor): Option<TlsInfo> {
    if x.complete.Some? then x.complete else x.partial
  }

  /** What every extractor keeps to, whatever it makes of the data in `b`: a cached record with a
      complete name is its answer, without CRYPTO data it has none, an answer has a name or a
      protocol list, and only answers are cached, those with a complete name always. */
  predicate Possible(x: Extractor, b: Buffer) {
    if b.cached.Some? && CompleteSni(b.cached.value) then x.complete == b.cached && x.cached == None
    else
      && (b.fragments == [] ==> Answer(x) == None)
      && (Answer(x).Some? ==> Answer(x).value.sni.Some? || Answer(x).value.alpn != [])
      && (x.cached.Some? ==> x.cached == Answer(x))
      && (Answer(x).Some? && CompleteSni(Answer(x).value) ==> x.cached == Answer(x))
  }

  /** The buffers are those of real reassemblers, and a complete name in the cache is known. */
  ghost predicate Consistent(info: QuicInfo) {
    && Sound(info.reassembler)
    && (info.reassembler.Some? ==>
          && info.reassembler.value.limit == MAX_BUFFER_SIZE
          && (info.reassembler.value.cached.Some? && CompleteSni(info.reassembler.value.cached.value)
              ==> info.tls.Some? && CompleteSni(info.tls.value)))
  }

  /** `a` can come when `info` is known. */
  ghost predicate Feasible(info: QuicInfo, a: Arrival) {
    && Consistent(a.info)
    && (info.reassembler.Some? && a.info.reassembler.Some? && SniUnfinished(info.tls) ==>
          Possible(a.extractor, Deliver(info.reassembler.value, a.info.reassembler.value.fragments)))
  }

  ghost predicate FeasibleRun(info: QuicInfo, arrivals: seq<Arrival>) {
    arrivals == []
    || (FeasibleRun(info, arrivals[..|arrivals| - 1])
        && Feasible(Run(info, arrivals[..|arrivals| - 1]), arrivals[|arrivals| - 1]))
  }

  lemma DeliverKeepsCache(b: Buffer, ds: seq<Fragment>)
    ensures Deliver(b, ds).cached == b.cached && Deliver(b, ds).limit == b.limit
  {
    if ds == [] {
    } else {
      DeliverKeepsCache(b, ds[..|ds| - 1]);
    }
  }

  /** A complete name that is found is cached and is the connection's name from then on. */
  lemma FoundNameIsCached(info: QuicInfo, a: Arrival)
    requires Consistent(info) && Feasible(info, a) && info.reassembler.Some? && a.info.reassembler.Some?
    requires SniUnfinished(info.tls) && Answer(a.extractor).Some? && CompleteSni(Answer(a.extractor).value)
    ensures var m := Merge(info, a.info, a.extractor);
      && m.reassembler.Some? && m.reassembler.value.cached == Answer(a.extractor)
      && m.tls.Some? && m.tls.value.sni == Answer(a.extractor).value.sni
  {
    hide Deliver, Inv, NoEmpty, IsPartialSni;
    DeliverKeepsCache(info.reassembler.value, a.info.reassembler.value.fragments);
  }

  /** And once a complete name is known, no run changes the cache. */
  lemma {:induction false} CacheIsSettled(info: QuicInfo, arrivals: seq<Arrival>)
    requires info.tls.Some? && CompleteSni(info.tls.value) && info.reassembler.Some?
    ensures var r := Run(info, arrivals).reassembler;
      r.Some? && r.value.cached == info.reassembler.value.cached
  {
    if arrivals == [] {
    } else {
      hide Deliver, IsPartialSni;
      var front, last := arrivals[..|arrivals| - 1], arrivals[|arrivals| - 1];
      CacheIsSettled(info, front);
      CompleteSniIsStable(info, front);
      if last.info.reassembler.Some? {
        DeliverKeepsCache(Run(info, front).reassembler.value, last.info.reassembler.value.fragments);
      }
    }
  }

  lemma MergeKeepsConsistent(info: QuicInfo, a: Arrival)
    requires Consistent(info) && Feasible(info, a)
    ensures Consistent(Merge(info, a.info, a.extractor))
  {
    hide Deliver, Inv, NoEmpty, IsPartialSni;
    MergeKeepsReassembler(info, a);
    if info.reassembler.Some? && a.info.reassembler.Some? {
      DeliverKeepsCache(info.reassembler.value, a.info.reassembler.value.fragments);
    }
  }

  /** Over any run a complete name that is cached is known. */
  lemma {:induction false} RunKeepsConsistent(info: QuicInfo, arrivals: seq<Arrival>)
    requires Consistent(info) && FeasibleRun(info, arrivals)
    ensures Consistent(Run(info, arrivals))
  {
    if arrivals == [] {
    } else {
      hide Consistent, Feasible, Merge;
      var front := arrivals[..|arrivals| - 1];
      RunKeepsConsistent(info, front);
      MergeKeepsConsistent(Run(info, front), arrivals[|arrivals| - 1]);
    }
  }

  /** A server-name extension for "a.io": its header, and the name. */
  const SNI_HEADER: Octets := [0, 0, 0, 9, 0, 7, 0, 0, 4]
  const SNI_NAME: Octets := [0x61, 0x2e, 0x69, 0x6f]

  function CryptoPacket(offset: nat, data: Octets, x: Extractor): Arrival {
    var b := Add(Empty(MAX_BUFFER_SIZE), offset, data).buffer;
    Arrival(QuicInfo(None, InitialPacket, [], None, Unknown, None, true, Some(b), None, None), x)
  }

  /** A packet with the header, in which nothing is found, and one with the name, after which the
      extractor finds a name and nothing else. */
  function TwoPackets(): seq<Arrival> {
    var found := Some(TlsInfo(None, Some(SNI_NAME), [], None));
    [CryptoPacket(0, SNI_HEADER, Extractor(None, None, None)),
     CryptoPacket(9, SNI_NAME, Extractor(found, None, found))]
  }

  lemma CryptoPacketIsConsistent(offset: nat, data: Octets, x: Extractor)
    requires 0 < |data| < MAX_BUFFER_SIZE
    ensures var r := CryptoPacket(offset, data, x).info.reassembler;
      && Consistent(CryptoPacket(offset, data, x).info)
      && r.value.fragments == [Fragment(offset, data)] && r.value.cached == None
  {
    EmptyIsInv(MAX_BUFFER_SIZE);
    AddMeaning(Empty(MAX_BUFFER_SIZE), Fragment(offset, data));
    assert Insert([], Fragment(offset, data)) == [Fragment(offset, data)];
  }

  /** Something is held after a fragment that fits has come. */
  lemma SomethingIsHeld(b: Buffer, f: Fragment)
    requires Inv(b) && NoEmpty(b.fragments) && f.data != [] && |f.data| <= b.limit
    ensures Deliver(b, [f]).fragments != []
  {
    assert [f][..0] == [] && Deliver(b, []) == b;
    AddMeaning(b, f);
    assert Deliver(b, [f]) == Add(b, f.offset, f.data).buffer;
    if b.fragments == [] {
      assert !Taken(b.fragments, f) && f in Deliver(b, [f]).fragments;
    }
  }

  lemma IsPartialName()
    ensures !IsPartialSni(SNI_NAME)
  {
  }

  lemma FirstPacketFeasible(info: QuicInfo)
    requires info.tls.Some? && !CompleteSni(info.tls.value) && Consistent(info)
    ensures var a := TwoPackets()[0];
      && Feasible(info, a)
      && Merge(info, a.info, a.extractor).tls == info.tls
      && Merge(info, a.info, a.extractor).reassembler.Some?
  {
    hide Inv, NoEmpty, Deliver, Add, IsPartialSni;
    var a := TwoPackets()[0];
    CryptoPacketIsConsistent(0, SNI_HEADER, a.extractor);
    if info.reassembler.Some? {
      DeliverKeepsCache(info.reassembler.value, a.info.reassembler.value.fragments);
    }
  }

  lemma SecondPacketFeasible(m: QuicInfo)
    requires m.tls.Some? && !CompleteSni(m.tls.value) && Consistent(m) && m.reassembler.Some?
    ensures var a := TwoPackets()[1];
      Feasible(m, a) && Merge(m, a.info, a.extractor).tls == Some(TlsInfo(None, Some(SNI_NAME), [], None))
  {
    hide Inv, NoEmpty, Deliver, Add, IsPartialSni;
    var a := TwoPackets()[1];
    CryptoPacketIsConsistent(9, SNI_NAME, a.extractor);
    DeliverKeepsCache(m.reassembler.value, a.info.reassembler.value.fragments);
    SomethingIsHeld(m.reassembler.value, Fragment(9, SNI_NAME));
    IsPartialName();
  }

  lemma FeasibleNothing(info: QuicInfo)
    ensures FeasibleRun(info, []) && Run(info, []) == info
  {
  }

  /** Two packets that leave a name and nothing else of what was known. */
  lemma TwoPacketsForget(info: QuicInfo)
    requires info.tls.Some? && !CompleteSni(info.tls.value) && Consistent(info)
    ensures FeasibleRun(info, TwoPackets())
    ensures Run(info, TwoPackets()).tls == Some(TlsInfo(None, Some(SNI_NAME), [], None))
  {
    hide Feasible, Merge, Consistent;
    var ps := TwoPackets();
    var a, b := ps[0], ps[1];
    assert ps[..1] == [a] && [a][..0] == [];
    var m := Merge(info, a.info, a.extractor);
    FirstPacketFeasible(info);
    MergeKeepsConsistent(info, a);
    SecondPacketFeasible(m);
    FeasibleNothing(info);
    assert Run(info, [a]) == m && FeasibleRun(info, [a]);
  }

  /** Exactly when settled facts are safe from every later run, with every extractor: the
      re-extraction guard replaces the whole record while the name is missing or partial, so other
      facts are safe only once it is complete. */
  lemma SettledFactsAreSafeIff(info: QuicInfo)
    requires info.tls.Some? && Consistent(info)
    ensures (forall arrivals | FeasibleRun(info, arrivals) :: KeptAlong(info, arrivals))
       <==> CompleteSni(info.tls.value) || NothingElseKnown(info.tls.value)
  {
    hide Consistent, FeasibleRun, Run, IsPartialSni;
    var t := info.tls.value;
    if CompleteSni(t) {
      forall arrivals | FeasibleRun(info, arrivals) ensures KeptAlong(info, arrivals) {
        CompleteSniIsStable(info, arrivals);
      }
    } else if NothingElseKnown(t) {
      forall arrivals | FeasibleRun(info, arrivals) ensures KeptAlong(info, arrivals) {
        TlsStaysKnown(info, arrivals);
      }
    } else {
      TwoPacketsForget(info);
      assert !KeptAlong(info, TwoPackets());
    }
  }

  // ---------------------------------------------------------------- the handshake stream

  ghost predicate FromStream(r: Option<Buffer>, t: Octets) {
    r.Some? ==> Inv(r.value) && forall f :: f in r.value.fragments ==> CutFrom(f, t)
  }

  /** End to end: when every packet's CRYPTO data is cut from one handshake stream, the
      connection's contiguous data is at every moment a prefix of that stream. */
  lemma {:induction false} ConnectionPrefixIsStream(info: QuicInfo, arrivals: seq<Arrival>, t: Octets)
    requires FromStream(info.reassembler, t)
    requires forall a :: a in arrivals ==> FromStream(a.info.reassembler, t)
    ensures var r := Run(info, arrivals).reassembler;
      && FromStream(r, t)
      && (r.Some? ==> r.value.contiguous <= |t|)
      && (r.Some? ==> Contiguous(r.value)
                      == if r.value.contiguous == 0 then None else Some(t[..r.value.contiguous]))
  {
    if arrivals == [] {
    } else {
      var front := arrivals[..|arrivals| - 1];
      var last := arrivals[|arrivals| - 1];
      assert last in arrivals;
      forall a | a in front ensures a in arrivals {}
      ConnectionPrefixIsStream(info, front, t);
      var m := Run(info, front).reassembler;
      if m.Some? && last.info.reassembler.Some? {
        DeliveryKeeps(m.value, last.info.reassembler.value.fragments, t);
      }
    }
    if Run(info, arrivals).reassembler.Some? {
      PrefixIsStream(Run(info, arrivals).reassembler.value, t);
    }
  }

  ghost predicate Chunked(r: Option<Buffer>, t: Octets, cuts: seq<nat>, n: nat)
    requires IsCut(cuts, n) && n <= |t|
  {
    r.Some? ==> HoldsChunks(r.value, t, cuts, n)
  }

  ghost predicate Holds(r: Option<Buffer>, f: Fragment) {
    r.Some? && f in r.value.fragments
  }

  lemma MergeKeepsChunks(info: QuicInfo, a: Arrival, t: Octets, cuts: seq<nat>, n: nat)
    requires IsCut(cuts, n) && n <= |t|
    requires Chunked(info.reassembler, t, cuts, n) && Chunked(a.info.reassembler, t, cuts, n)
    ensures var r := Merge(info, a.info, a.extractor).reassembler;
      && Chunked(r, t, cuts, n)
      && forall f :: Holds(r, f) <==> Holds(info.reassembler, f) || Holds(a.info.reassembler, f)
  {
    hide Deliver, IsCut, Deliveries, Ordered, LeastUncovered, Total;
    if info.reassembler.Some? && a.info.reassembler.Some? {
      ChunksMerge(info.reassembler.value, a.info.reassembler.value, t, cuts, n);
    }
  }

  lemma {:induction false} RunKeepsChunks(info: QuicInfo, arrivals: seq<Arrival>, t: Octets, cuts: seq<nat>, n: nat)
    requires IsCut(cuts, n) && n <= |t| && Chunked(info.reassembler, t, cuts, n)
    requires forall a :: a in arrivals ==> Chunked(a.info.reassembler, t, cuts, n)
    ensures var r := Run(info, arrivals).reassembler;
      && Chunked(r, t, cuts, n)
      && (forall f :: Holds(info.reassembler, f) ==> Holds(r, f))
      && forall a, f :: a in arrivals && Holds(a.info.reassembler, f) ==> Holds(r, f)
  {
    if arrivals == [] {
    } else {
      hide IsCut, Chunked, Holds, Merge;
      var front, last := arrivals[..|arrivals| - 1], arrivals[|arrivals| - 1];
      assert last in arrivals && forall a :: a in front ==> a in arrivals;
      RunKeepsChunks(info, front, t, cuts, n);
      MergeKeepsChunks(Run(info, front), last, t, cuts, n);
      assert arrivals == front + [last];
    }
  }

  ghost predicate Arrived(arrivals: seq<Arrival>, f: Fragment) {
    exists a :: a in arrivals && Holds(a.info.reassembler, f)
  }

  lemma AllHeld(r: Option<Buffer>, t: Octets, cuts: seq<nat>, n: nat)
    requires IsCut(cuts, n) && n <= |t| && n > 0 && Chunked(r, t, cuts, n)
    requires forall i: nat | i < |cuts| - 1 :: Holds(r, Chunk(t, cuts, i))
    ensures r.Some? && r.value.contiguous == n && Contiguous(r.value) == Some(t[..n])
  {
    hide Contiguous, Inv, Deliveries;
    assert |cuts| >= 2 && Holds(r, Chunk(t, cuts, 0));
    WholeIsThere(r.value, t, cuts, n);
  }

  /** End to end: spread the chunks of the first n bytes over packets in any way and order, with
      any repeats; once each has come in some packet, the connection yields exactly those bytes. */
  lemma ConnectionIsOrderIndependent(info: QuicInfo, arrivals: seq<Arrival>, t: Octets, cuts: seq<nat>, n: nat)
    requires IsCut(cuts, n) && n <= |t| && Chunked(info.reassembler, t, cuts, n) && n > 0
    requires forall a :: a in arrivals ==> Chunked(a.info.reassembler, t, cuts, n)
    requires forall i: nat | i < |cuts| - 1 :: Arrived(arrivals, Chunk(t, cuts, i))
    ensures var r := Run(info, arrivals).reassembler;
      r.Some? && r.value.contiguous == n && Contiguous(r.value) == Some(t[..n])
  {
    hide Run, Contiguous, Holds, Chunked;
    RunKeepsChunks(info, arrivals, t, cuts, n);
    var r := Run(info, arrivals).reassembler;
    forall i: nat | i < |cuts| - 1 ensures Holds(r, Chunk(t, cuts, i)) {
      var f := Chunk(t, cuts, i);
      assert Arrived(arrivals, f);
      var a :| a in arrivals && Holds(a.info.reassembler, f);
    }
    AllHeld(r, t, cuts, n);
  }

  // ---------------------------------------------------------------- the object

  /** The connection's `QuicInfo`, which owns its reassembler and is merged into in place. */
  class QuicConnection {
    var versionString: Option<Octets>
    var packetType: PacketType
    var connectionId: Octets
    var connectionIdHex: Option<Octets>
    var state: QuicState
    var tls: Option<TlsInfo>
    var hasCryptoFrame: bool
    var reassembler: CryptoFrameReassembler?
    var close: Option<Close>
    var idleTimeout: Option<nat>

    ghost function Info(): QuicInfo
      reads this, reassembler
    {
      QuicInfo(versionString, packetType, connectionId, connectionIdHex, state, tls, hasCryptoFrame,
               if reassembler == null then None else Some(reassembler.State()), close, idleTimeout)
    }

    /** The objects it owns. */
    ghost function Parts(): set<object>
      reads this
    {
      {this} + if reassembler == null then {} else var r: object := reassembler; {r}
    }

    constructor (q: QuicInfo)
      ensures Info() == q && fresh(Parts())
    {
      versionString, packetType, connectionId := q.versionString, q.packetType, q.connectionId;
      connectionIdHex, state, tls, hasCryptoFrame := q.connectionIdHex, q.state, q.tls, q.hasCryptoFrame;
      close, idleTimeout, reassembler := q.close, q.idleTimeout, null;
      new;
      if q.reassembler.Some? {
        reassembler := new CryptoFrameReassembler.Clone(q.reassembler.value);
      }
    }

    method MergeInfo(q: QuicInfo, x: Extractor)
      modifies this, reassembler
      ensures Info() == Merge(old(Info()), q, x)
      ensures reassembler == old(reassembler) || fresh(reassembler)
    {
      MergeIdentity(q);
      MergeCrypto(q, x);
      MergeRest(q);
    }

    method MergeIdentity(q: QuicInfo)
      modifies this`state, this`packetType, this`connectionId, this`connectionIdHex, this`versionString
      ensures var m := Merge(old(Info()), q, Extractor(None, None, None));
        Info() == old(Info()).(state := Progress(old(state), q.state), packetType := q.packetType,
                               connectionId := m.connectionId, connectionIdHex := m.connectionIdHex,
                               versionString := m.versionString)
    {
      if Priority(q.state) > Priority(state) {
        state := q.state;
      }
      packetType := q.packetType;
      if connectionId == [] && q.connectionId != [] {
        connectionId, connectionIdHex := q.connectionId, q.connectionIdHex;
      }
      if versionString == None && q.versionString.Some? {
        versionString := q.versionString;
      }
    }

    method MergeRest(q: QuicInfo)
      modifies this`state, this`tls, this`hasCryptoFrame, this`close, this`idleTimeout
      ensures Info() == old(Info()).(
        state := if q.close.Some? then CloseState(q.close.value) else old(state),
        tls := WithPacketTls(old(tls), q.tls),
        hasCryptoFrame := old(hasCryptoFrame) || q.hasCryptoFrame,
        close := if q.close.Some? then q.close else old(close),
        idleTimeout := if q.idleTimeout.Some? then q.idleTimeout else old(idleTimeout))
    {
      if q.tls.Some? {
        if tls == None {
          tls := q.tls;
        } else {
          tls := Some(MergedTls(tls.value, q.tls.value));
        }
      }
      if q.hasCryptoFrame {
        hasCryptoFrame := true;
      }
      if q.close.Some? {
        close := q.close;
        state := CloseState(q.close.value);
      }
      if q.idleTimeout.Some? {
        idleTimeout := q.idleTimeout;
      }
    }

    /** The CRYPTO-frame part of `merge_quic_info`. */
    method MergeCrypto(q: QuicInfo, x: Extractor)
      modifies this`reassembler, this`tls, reassembler
      ensures Info() == old(Info()).(reassembler := CryptoBuffer(old(Info()), q, x),
                                     tls := CryptoTls(old(Info()), q, x))
      ensures reassembler == old(reassembler) || fresh(reassembler)
    {
      if q.reassembler == None {
        return;
      }
      if reassembler == null {
        reassembler := new CryptoFrameReassembler.Clone(q.reassembler.value);
        return;
      }
      MergeFragments(q.reassembler.value.fragments);
      var shouldRetry := SniUnfinished(tls);
      if shouldRetry {
        if x.cached.Some? {
          reassembler.SetCompleteTlsInfo(x.cached.value);
        }
        if x.complete.Some? {
          tls := x.complete;
        } else if x.partial.Some? {
          tls := x.partial;
        }
      }
      tls := FromCache(tls, q.reassembler.value.cached);
    }

    method MergeFragments(fs: seq<Fragment>)
      requires reassembler != null
      modifies reassembler
      ensures reassembler.State() == Deliver(old(reassembler.State()), fs)
    {
      for i := 0 to |fs|
        invariant reassembler.State() == Deliver(old(reassembler.State()), fs[..i])
      {
        var _ := reassembler.AddFragment(fs[i].offset, fs[i].data);
        assert fs[..i + 1][..i] == fs[..i];
      }
      assert fs[..|fs|] == fs;
    }
  }
}
