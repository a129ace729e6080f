/** Extensions and ClientHello records as RFC 8446 writes them, and what the analysis makes of every
    prefix of them. */
module TlsRoundTrip {
  import opened Bytes
  import opened TlsTypes
  import opened TlsHello

  datatype Extension = ServerName(name: Octets)
                     | Protocols(list: seq<Octets>)
                     | Versions(offered: seq<Octets>)
                     | Selected(version: Octets)
                     | Other(code: nat, data: Octets)

  /** A ClientHello; the version is two bytes, as each offered version is. */
  datatype Hello = Hello(version: Octets, random: Octets, sessionId: Octets, ciphers: Octets, compression: Octets,
                         extensions: seq<Extension>)

  // ---------------------------------------------------------------- well-formed hellos

  /** A client names the server and offers versions, a server selects one; a server's own
      server_name extension names nothing. Protocol names are opaque bytes (RFC 7301, section 3.1). */
  predicate WellFormedExtension(e: Extension, client: bool) {
    match e
    case ServerName(name) => client && |name| <= 65530
    case Protocols(list) =>
      && list != [] && |EncodeProtocols(list)| <= 65533
      && forall i | 0 <= i < |list| :: 1 <= |list[i]| <= 255
    case Versions(offered) =>
      client && 1 <= |offered| <= 127 && forall i | 0 <= i < |offered| :: |offered[i]| == 2
    case Selected(version) => !client && |version| == 2
    case Other(code, data) =>
      && code < 65536 && code !in {ALPN, SUPPORTED_VERSIONS} && (client ==> code != SERVER_NAME)
      && |data| < 65536
  }

  /** No extension type twice, at most 100 extensions, and everything within its length field
      and one handshake record. */
  ghost predicate WellFormed(h: Hello) {
    && |h.version| == 2 && |h.random| == 32 && |h.sessionId| < 256
    && |h.ciphers| < 65536 && |h.compression| < 256
    && |h.extensions| <= 100
    && (forall i | 0 <= i < |h.extensions| :: WellFormedExtension(h.extensions[i], true))
    && DistinctKinds(h.extensions)
    && |EncodeExtensions(h.extensions)| < 65536
    && |Body(h)| <= 16384
  }

  ghost predicate DistinctKinds(es: seq<Extension>) {
    forall i, j | 0 <= i < j < |es| :: Kind(es[i]) != Kind(es[j])
  }

  /** The assigned numbers (RFC 6066, section 1.1; RFC 7301, section 6; RFC 8446, section 4.2). */
  function Kind(e: Extension): nat {
    match e
    case ServerName(_) => 0
    case Protocols(_) => 16
    case Versions(_) => 43
    case Selected(_) => 43
    case Other(code, _) => code
  }

  // ---------------------------------------------------------------- encoding

  function Short(n: nat): Octets {
    [n / 256 % 256, n % 256]
  }

  function EncodeProtocols(list: seq<Octets>): Octets {
    if list == [] then [] else [|list[0]| % 256] + list[0] + EncodeProtocols(list[1..])
  }

  function EncodeVersions(offered: seq<Octets>): Octets {
    if offered == [] then [] else offered[0] + EncodeVersions(offered[1..])
  }

  function ExtensionBody(e: Extension): Octets {
    match e
    case ServerName(name) => Short(|name| + 3) + [0] + Short(|name|) + name
    case Protocols(list) => Short(|EncodeProtocols(list)|) + EncodeProtocols(list)
    case Versions(offered) => [|EncodeVersions(offered)| % 256] + EncodeVersions(offered)
    case Selected(version) => version
    case Other(_, data) => data
  }

  function EncodeExtension(e: Extension): Octets {
    Short(Kind(e)) + Short(|ExtensionBody(e)|) + ExtensionBody(e)
  }

  function EncodeExtensions(es: seq<Extension>): Octets {
    if es == [] then [] else EncodeExtension(es[0]) + EncodeExtensions(es[1..])
  }

  /** Everything before the extension bytes, in its parts. */
  function Preamble(h: Hello): Octets {
    h.version + h.random + ([|h.sessionId| % 256] + h.sessionId) + (Short(|h.ciphers|) + h.ciphers)
    + ([|h.compression| % 256] + h.compression) + Short(|EncodeExtensions(h.extensions)|)
  }

  function Body(h: Hello): Octets {
    Preamble(h) + EncodeExtensions(h.extensions)
  }

  /** The headers of a record with one handshake message of `n` bytes. */
  function RecordHead(kind: Byte, n: nat, version: Octets): Octets {
    [0x16] + version + Short(4 + n) + ([kind, n / 65536 % 256] + Short(n))
  }

  /** One handshake message in a record with record-layer version `version`. */
  function HandshakeRecord(kind: Byte, body: Octets, version: Octets): Octets {
    RecordHead(kind, |body|, version) + body
  }

  const CLIENT_HELLO: Byte := 1

  function Record(h: Hello, version: Octets): Octets {
    HandshakeRecord(CLIENT_HELLO, Body(h), version)
  }

  lemma ShortRoundTrip(data: Octets, offset: nat, n: nat)
    requires n < 65536 && At(data, offset, Short(n))
    ensures Be16(data[offset], data[offset + 1]) == n
  {
    AtIndex(data, offset, Short(n), 0);
    AtIndex(data, offset, Short(n), 1);
  }

  // ---------------------------------------------------------------- what should be found

  /** What is reported of a server name when `shown` of its bytes are there. */
  function ShownName(name: Octets, shown: int, before: Option<Octets>): Option<Octets> {
    if name == [] || shown <= 0 || !Visible(name[..Min(shown, |name|)]) then before
    else if shown < |name| then Some(Marked(name[..shown]))
    else Some(name)
  }

  function Named(name: Octets, before: Option<Octets>): Option<Octets> {
    if name != [] && Visible(name) then Some(name) else before
  }

  /** Nothing but visible ASCII. */
  predicate Visible(s: Octets) {
    forall i | 0 <= i < |s| :: 0x21 <= s[i] <= 0x7e
  }

  /** With "[PARTIAL]" behind it. */
  function Marked(part: Octets): Octets {
    part + [0x5b, 0x50, 0x41, 0x52, 0x54, 0x49, 0x41, 0x4c, 0x5d]
  }

  function Text(name: Octets): seq<Octets> {
    if ValidUtf8(name) then [name] else []
  }

  /** The protocol names that are text, which alone are reported. */
  function Texts(list: seq<Octets>): seq<Octets> {
    if list == [] then [] else Text(list[0]) + Texts(list[1..])
  }

  /** The protocols of which something is there in the first `shown` bytes of the encoded list, the
      last one marked when it is cut; what is not text leaves nothing, and so does a cut that
      splits a character. */
  function ProtocolsIn(list: seq<Octets>, shown: int): seq<Octets> {
    if list == [] || shown <= 1 then []
    else if shown >= 1 + |list[0]| then Text(list[0]) + ProtocolsIn(list[1..], shown - 1 - |list[0]|)
    else if ValidUtf8(list[0][..shown - 1]) then [Marked(list[0][..shown - 1])]
    else []
  }

  function NonEmpty(protocols: seq<Octets>, before: seq<Octets>): seq<Octets> {
    if protocols == [] then before else protocols
  }

  /** The versions that are whole in the first `shown` bytes of their list. */
  function ShownVersions(offered: seq<Octets>, shown: int): seq<Octets> {
    if shown <= 0 then [] else offered[..Min(shown / 2, |offered|)]
  }

  /** The versions TLS has had, from 1.0 on (RFC 8446, appendix D). */
  function Offered(v: Octets): Option<TlsVersion> {
    if v == [3, 4] then Some(Tls13)
    else if v == [3, 3] then Some(Tls12)
    else if v == [3, 2] then Some(Tls11)
    else if v == [3, 1] then Some(Tls10)
    else None
  }

  lemma VersionBytes(v: Octets)
    requires |v| == 2
    ensures VersionOf(v[0], v[1]) == Offered(v)
  {
  }

  /** A version that is not known selects none. */
  function Chosen(v: Octets, default: Option<TlsVersion>): Option<TlsVersion> {
    if Offered(v).Some? then Offered(v) else default
  }

  /** The highest known version in `offered`, or `default` when none is known. */
  function Highest(offered: seq<Octets>, default: Option<TlsVersion>): Option<TlsVersion> {
    if [3, 4] in offered then Some(Tls13)
    else if [3, 3] in offered then Some(Tls12)
    else if [3, 2] in offered then Some(Tls11)
    else if [3, 1] in offered then Some(Tls10)
    else default
  }

  /** `r` has what the first `present` bytes of extension `e` tell, over what was known `before`. */
  ghost predicate Tells(r: TlsInfo, before: TlsInfo, e: Extension, present: int) {
    match e
    case ServerName(name) => r.sni == ShownName(name, present - 9, before.sni)
    case Protocols(list) => r.alpn == NonEmpty(ProtocolsIn(list, present - 6), before.alpn)
    case Versions(offered) => r.version == Highest(ShownVersions(offered, present - 5), before.version)
    case Selected(version) => r.version == if present < 6 then before.version else Chosen(version, before.version)
    case Other(_, _) => true
  }

  /** How many bytes of `es[i]` the first `cut` bytes of the encoded list contain, if that is more
      than none and less than all. */
  function Present(es: seq<Extension>, i: nat, cut: int): int
    requires i < |es|
  {
    cut - |EncodeExtensions(es[..i])|
  }

  /** `e` tells what extensions of this kind are for. */
  predicate Says(e: Extension, kind: nat) {
    !e.Other? && Kind(e) == kind
  }

  predicate Lacks(es: seq<Extension>, kind: nat) {
    forall i | 0 <= i < |es| :: !Says(es[i], kind)
  }

  /** `r` is exactly what the first `cut` bytes of the encoded list tell, over what was known before. */
  ghost predicate Exact(r: TlsInfo, before: TlsInfo, es: seq<Extension>, cut: int) {
    && r.cipherSuite == before.cipherSuite
    && (forall i | 0 <= i < |es| :: Tells(r, before, es[i], Present(es, i, cut)))
    && (Lacks(es, SERVER_NAME) ==> r.sni == before.sni)
    && (Lacks(es, ALPN) ==> r.alpn == before.alpn)
    && (Lacks(es, SUPPORTED_VERSIONS) ==> r.version == before.version)
  }

  /** `r` is what whole extensions say: the one server name, the protocols of the one list that are
      text, and the highest known version on offer or the one selected, with what was known before
      where an extension is absent. */
  ghost predicate Reads(r: TlsInfo, before: TlsInfo, es: seq<Extension>) {
    && r.cipherSuite == before.cipherSuite
    && (forall i | 0 <= i < |es| && es[i].ServerName? :: r.sni == Named(es[i].name, before.sni))
    && (forall i | 0 <= i < |es| && es[i].Protocols? :: r.alpn == NonEmpty(Texts(es[i].list), before.alpn))
    && (forall i | 0 <= i < |es| && es[i].Versions? :: r.version == Highest(es[i].offered, before.version))
    && (forall i | 0 <= i < |es| && es[i].Selected? :: r.version == Chosen(es[i].version, before.version))
    && (Lacks(es, SERVER_NAME) ==> r.sni == before.sni)
    && (Lacks(es, ALPN) ==> r.alpn == before.alpn)
    && (Lacks(es, SUPPORTED_VERSIONS) ==> r.version == before.version)
  }

  function BestOf(offered: seq<Octets>, best: Option<TlsVersion>): Option<TlsVersion> {
    if offered == [] then best else BestOf(offered[1..], Better(best, Offered(offered[0])))
  }

  // ---------------------------------------------------------------- extension bodies, cut anywhere

  function SniHeader(n: nat): Octets {
    Short(n + 3) + [0] + Short(n)
  }

  lemma SniParts(name: Octets, data: Octets)
    requires |name| <= 65530 && data <= ExtensionBody(ServerName(name)) && |data| >= 5
    ensures |ExtensionBody(ServerName(name))| == 5 + |name|
    ensures data[2] == 0 && Be16(data[3], data[4]) == |name|
    ensures data[5..] == name[..|data| - 5]
  {
    var header := SniHeader(|name|);
    var body := ExtensionBody(ServerName(name));
    assert body == header + name;
    assert header[2] == 0 && header[3] == Short(|name|)[0] && header[4] == Short(|name|)[1];
    assert data[2] == header[2] && data[3] == header[3] && data[4] == header[4];
  }

  lemma VisibleIsGraphic(s: Octets)
    ensures Visible(s) <==> Graphic(s)
    ensures Visible(s) ==> ValidUtf8(s)
  {
    hide ValidUtf8;
    if Visible(s) {
      AsciiIsUtf8(s);
    } else {
      var i :| 0 <= i < |s| && !(0x21 <= s[i] <= 0x7e);
      assert s[i] in s;
    }
  }

  /** The server-name body cut to `cut` bytes: nothing before the name begins, then a marked prefix of it, and
      the name itself when nothing is missing; and nothing of what is not visible ASCII. */
  lemma SniCut(name: Octets, data: Octets)
    requires |name| <= 65530 && data <= ExtensionBody(ServerName(name))
    ensures ParseSni(data) == if |data| <= 5 || !Visible(name[..|data| - 5]) then None
                              else if |data| < 5 + |name| then Some(Marked(name[..|data| - 5]))
                              else Some(name)
  {
    hide ValidUtf8, Graphic, Visible, ExtensionBody;
    NameLength(name);
    if |data| >= 5 {
      SniParts(name, data);
      VisibleIsGraphic(name[..|data| - 5]);
      assert data[5..5 + (|data| - 5)] == name[..|data| - 5];
      assert name[..|name|] == name;
    }
  }

  lemma ProtocolHead(list: seq<Octets>, data: Octets, offset: nat)
    requires list != [] && |list[0]| <= 255 && At(data, offset, EncodeProtocols(list))
    ensures var n := |list[0]|;
      && data[offset] == n && data[offset + 1..offset + 1 + n] == list[0]
      && At(data, offset + 1 + n, EncodeProtocols(list[1..]))
      && |EncodeProtocols(list)| == 1 + n + |EncodeProtocols(list[1..])|
  {
    NameHead(list[0], EncodeProtocols(list[1..]), data, offset);
  }

  lemma NameHead(p: Octets, rest: Octets, data: Octets, offset: nat)
    requires |p| <= 255 && At(data, offset, [|p| % 256] + p + rest)
    ensures data[offset] == |p| && data[offset + 1..offset + 1 + |p|] == p && At(data, offset + 1 + |p|, rest)
  {
    AtSplit(data, offset, [|p| % 256] + p, rest);
    AtIndex(data, offset, [|p| % 256] + p, 0);
    AtSplit(data, offset, [|p| % 256], p);
  }

  lemma AlpnStep(p: Octets, data: Octets, offset: nat, protocols: seq<Octets>)
    requires 1 <= |p| <= 255 && offset + 1 + |p| <= |data|
    requires data[offset] == |p| && data[offset + 1..offset + 1 + |p|] == p
    ensures AlpnFrom(data, |data|, offset, protocols) == AlpnFrom(data, |data|, offset + 1 + |p|, protocols + Text(p))
  {
    hide AlpnFrom, ValidUtf8;
    NextProtocol(data, |data|, offset, protocols, p);
    WholeName(protocols, p);
    if offset + 1 + |p| == |data| {
      NoMoreProtocols(data, |data|, protocols + Text(p));
    }
  }

  lemma WholeName(protocols: seq<Octets>, p: Octets)
    requires p != []
    ensures WithProtocol(protocols, p, |p|) == protocols + Text(p)
  {
    hide ValidUtf8;
  }

  /** The last protocol, cut short. */
  lemma AlpnEnd(p: Octets, data: Octets, offset: nat, protocols: seq<Octets>)
    requires 1 <= |p| <= 255 && offset < |data| < offset + 1 + |p|
    requires data[offset] == |p| && data[offset + 1..] == p[..|data| - (offset + 1)]
    ensures AlpnFrom(data, |data|, offset, protocols) == protocols + ProtocolsIn([p], |data| - offset)
  {
    hide ValidUtf8;
    assert data[offset + 1..|data|] == data[offset + 1..];
  }

  lemma NoMoreProtocols(data: Octets, offset: nat, protocols: seq<Octets>)
    requires offset >= |data|
    ensures AlpnFrom(data, |data|, offset, protocols) == protocols
  {
  }

  lemma OnlyTheFirst(list: seq<Octets>, shown: int)
    requires list != [] && shown < 1 + |list[0]|
    ensures ProtocolsIn(list, shown) == ProtocolsIn([list[0]], shown)
  {
  }

  lemma PrefixCut(data: Octets, full: Octets, offset: nat, bytes: Octets)
    requires data <= full && At(full, offset, bytes) && offset <= |data| < offset + |bytes|
    ensures data[offset..] == bytes[..|data| - offset]
  {
    assert data[offset..] == full[offset..offset + |bytes|][..|data| - offset];
  }

  /** A protocol list cut anywhere. */
  lemma {:induction false} AlpnCut(list: seq<Octets>, data: Octets, full: Octets, offset: nat, protocols: seq<Octets>,
                                   r: seq<Octets>)
    requires forall i | 0 <= i < |list| :: 1 <= |list[i]| <= 255
    requires At(full, offset, EncodeProtocols(list)) && offset + |EncodeProtocols(list)| == |full| && data <= full
    requires r == AlpnFrom(data, |data|, offset, protocols)
    ensures r == protocols + ProtocolsIn(list, |data| - offset)
    decreases |list|
  {
    hide AlpnFrom, ValidUtf8;
    if list == [] {
      NoMoreProtocols(data, offset, protocols);
    } else if offset >= |data| {
      NoMoreProtocols(data, offset, protocols);
    } else {
      var p, next := list[0], offset + 1 + |list[0]|;
      ProtocolHead(list, full, offset);
      if next <= |data| {
        assert data[offset + 1..next] == full[offset + 1..next];
        AlpnStep(p, data, offset, protocols);
        AlpnCut(list[1..], data, full, next, protocols + Text(p), r);
        Regroup(protocols, Text(p), ProtocolsIn(list[1..], |data| - next), ProtocolsIn(list, |data| - offset));
      } else {
        PrefixCut(data, full, offset + 1, p);
        AlpnEnd(p, data, offset, protocols);
        OnlyTheFirst(list, |data| - offset);
      }
    }
  }

  lemma Regroup(a: seq<Octets>, b: seq<Octets>, rest: seq<Octets>, all: seq<Octets>)
    requires all == b + rest
    ensures a + b + rest == a + all
  {
  }

  lemma ParseAlpnCut(list: seq<Octets>, data: Octets)
    requires WellFormedExtension(Protocols(list), true) && data <= ExtensionBody(Protocols(list))
    ensures ParseAlpn(data) == ProtocolsIn(list, |data| - 2)
  {
    hide ParseAlpn, AlpnFrom, EncodeProtocols, ProtocolsIn, Short, Be16, At;
    var full, bytes := ExtensionBody(Protocols(list)), EncodeProtocols(list);
    LengthFirst(full, bytes);
    AlpnStarts(data, |bytes|);
    if |data| < 2 {
      NothingOf(list, |data| - 2);
    } else {
      AlpnCut(list, data, full, 2, [], AlpnFrom(data, |data|, 2, []));
    }
  }

  lemma AlpnStarts(data: Octets, n: nat)
    requires |data| <= 2 + n && (|data| >= 2 ==> Be16(data[0], data[1]) == n)
    ensures ParseAlpn(data) == if |data| < 2 then [] else AlpnFrom(data, |data|, 2, [])
  {
    hide AlpnFrom;
  }

  lemma LengthFirst(full: Octets, bytes: Octets)
    requires |bytes| < 65536 && full == Short(|bytes|) + bytes
    ensures |full| == 2 + |bytes| && Be16(full[0], full[1]) == |bytes| && At(full, 2, bytes)
  {
    AtSelf(full);
    AtSplit(full, 0, Short(|bytes|), bytes);
    ShortRoundTrip(full, 0, |bytes|);
  }

  lemma NothingOf(list: seq<Octets>, shown: int)
    requires shown <= 1
    ensures ProtocolsIn(list, shown) == []
  {
  }

  /** Of a whole list, all that is text is shown. */
  lemma {:induction false} WholeProtocols(list: seq<Octets>, shown: int)
    requires (forall i | 0 <= i < |list| :: 1 <= |list[i]| <= 255) && shown >= |EncodeProtocols(list)|
    ensures ProtocolsIn(list, shown) == Texts(list)
  {
    hide ValidUtf8;
    if list == [] {
    } else {
      WholeProtocols(list[1..], shown - 1 - |list[0]|);
    }
  }

  lemma {:induction false} VersionsLength(offered: seq<Octets>)
    requires forall i | 0 <= i < |offered| :: |offered[i]| == 2
    ensures |EncodeVersions(offered)| == 2 * |offered|
  {
    if offered == [] {
    } else {
      VersionsLength(offered[1..]);
    }
  }

  /** A version list cut anywhere. */
  lemma {:induction false} VersionsCut(offered: seq<Octets>, data: Octets, full: Octets, offset: nat,
                                       best: Option<TlsVersion>, r: Option<TlsVersion>)
    requires forall i | 0 <= i < |offered| :: |offered[i]| == 2
    requires At(full, offset, EncodeVersions(offered)) && 0 < offset + |EncodeVersions(offered)| == |full|
    requires data <= full
    requires r == VersionsFrom(data, |full| - 1, offset, best)
    ensures r == BestOf(ShownVersions(offered, |data| - offset), best)
    decreases |offered|
  {
    hide VersionsFrom, At, BestOf, ShownVersions, Better, Offered;
    if offered == [] || offset + 1 >= |data| {
      NoneShown(offered, |data| - offset, best);
      NoMoreVersions(data, |full| - 1, offset, best);
    } else {
      var v, rest := offered[0], offered[1..];
      AtSplit(full, offset, v, EncodeVersions(rest));
      AtIndex(full, offset, v, 0);
      AtIndex(full, offset, v, 1);
      VersionsStep(v, data, |full| - 1, offset, best);
      VersionsCut(rest, data, full, offset + 2, Better(best, Offered(v)), r);
      ShownStep(offered, |data| - offset);
      BestStep(v, ShownVersions(rest, |data| - offset - 2), best);
    }
  }

  lemma NoneShown(offered: seq<Octets>, shown: int, best: Option<TlsVersion>)
    requires offered == [] || shown <= 1
    ensures BestOf(ShownVersions(offered, shown), best) == best
  {
  }

  lemma BestStep(v: Octets, rest: seq<Octets>, best: Option<TlsVersion>)
    ensures BestOf([v] + rest, best) == BestOf(rest, Better(best, Offered(v)))
  {
    assert ([v] + rest)[1..] == rest;
  }

  lemma NoMoreVersions(data: Octets, listLen: nat, offset: nat, best: Option<TlsVersion>)
    requires offset + 1 >= |data| || offset >= 1 + listLen
    ensures VersionsFrom(data, listLen, offset, best) == best
  {
  }

  lemma VersionsStep(v: Octets, data: Octets, listLen: nat, offset: nat, best: Option<TlsVersion>)
    requires |v| == 2 && offset + 1 < |data| && offset < 1 + listLen
    requires data[offset] == v[0] && data[offset + 1] == v[1]
    ensures VersionsFrom(data, listLen, offset, best)
         == VersionsFrom(data, listLen, offset + 2, Better(best, Offered(v)))
  {
  }

  lemma ShownStep(offered: seq<Octets>, shown: int)
    requires offered != [] && shown >= 2
    ensures ShownVersions(offered, shown) == [offered[0]] + ShownVersions(offered[1..], shown - 2)
  {
    assert (shown - 2) / 2 == shown / 2 - 1;
  }

  lemma ParseVersionsCut(offered: seq<Octets>, data: Octets)
    requires WellFormedExtension(Versions(offered), true) && data <= ExtensionBody(Versions(offered))
    ensures ParseVersions(data, true) == BestOf(ShownVersions(offered, |data| - 1), None)
  {
    hide VersionsFrom, EncodeVersions;
    var full := ExtensionBody(Versions(offered));
    VersionsLength(offered);
    assert full[1..] == EncodeVersions(offered);
    if data != [] {
      VersionsCut(offered, data, full, 1, None, VersionsFrom(data, |full| - 1, 1, None));
    }
  }

  lemma BestIsHighest(offered: seq<Octets>, default: Option<TlsVersion>)
    ensures var best := BestOf(offered, None); (if best.Some? then best else default) == Highest(offered, default)
  {
    BestOfHighest(offered, None);
  }

  lemma {:induction false} BestOfHighest(offered: seq<Octets>, best: Option<TlsVersion>)
    ensures BestOf(offered, best) == Better(best, Highest(offered, None))
  {
    if offered == [] {
    } else {
      hide Highest, Better;
      BestOfHighest(offered[1..], Better(best, Offered(offered[0])));
      HighestStep(offered);
      BetterIsAssociative(best, Offered(offered[0]), Highest(offered[1..], None));
    }
  }

  lemma BetterIsAssociative(a: Option<TlsVersion>, b: Option<TlsVersion>, c: Option<TlsVersion>)
    ensures Better(Better(a, b), c) == Better(a, Better(b, c))
  {
  }

  lemma HighestStep(offered: seq<Octets>)
    requires offered != []
    ensures Highest(offered, None) == Better(Offered(offered[0]), Highest(offered[1..], None))
  {
    assert offered == [offered[0]] + offered[1..];
    forall v: Octets ensures v in offered <==> v == offered[0] || v in offered[1..] {}
  }

  lemma BodyIsSmall(e: Extension, client: bool)
    requires WellFormedExtension(e, client)
    ensures |ExtensionBody(e)| < 65536 && Kind(e) < 65536
  {
    if e.Versions? {
      VersionsLength(e.offered);
    }
  }

  /** Only what `e` is about is touched. */
  ghost predicate KeepsOthers(r: TlsInfo, t: TlsInfo, e: Extension) {
    && r.cipherSuite == t.cipherSuite
    && (!Says(e, SERVER_NAME) ==> r.sni == t.sni)
    && (!Says(e, ALPN) ==> r.alpn == t.alpn)
    && (!Says(e, SUPPORTED_VERSIONS) ==> r.version == t.version)
  }

  /** An extension of which the first `n` bytes of the body are there. */
  lemma BodyTells(t: TlsInfo, e: Extension, n: nat, client: bool)
    requires WellFormedExtension(e, client) && n <= |ExtensionBody(e)|
    ensures var r := Apply(t, Kind(e), ExtensionBody(e)[..n], client);
      Tells(r, t, e, n + 4) && KeepsOthers(r, t, e)
  {
    hide ParseSni, ParseAlpn, VersionsFrom, ProtocolsIn, ShownVersions, BestOf, Highest, ExtensionBody;
    var data := ExtensionBody(e)[..n];
    match e
    case ServerName(name) =>
      NameLength(name);
      SniCut(name, data);
    case Protocols(list) =>
      ParseAlpnCut(list, data);
      if n < 2 {
        NothingOf(list, n - 2);
      }
    case Versions(offered) =>
      ParseVersionsCut(offered, data);
      BestIsHighest(ShownVersions(offered, n - 1), t.version);
    case Selected(version) =>
      SelectedBody(version);
    case Other(_, _) =>
  }

  lemma NameLength(name: Octets)
    ensures |ExtensionBody(ServerName(name))| == 5 + |name|
  {
  }

  lemma SelectedBody(version: Octets)
    ensures ExtensionBody(Selected(version)) == version
  {
  }

  /** An extension not even whose header is there. */
  lemma HeaderTells(t: TlsInfo, e: Extension, present: int)
    requires present < 4
    ensures Tells(t, t, e, present) && KeepsOthers(t, t, e)
  {
    if e.Protocols? {
      NothingOf(e.list, present - 6);
    }
  }

  // ---------------------------------------------------------------- extension lists, cut anywhere

  lemma HeaderRead(kind: nat, n: nat, data: Octets, full: Octets, offset: nat)
    requires kind < 65536 && n < 65536
    requires At(full, offset, Short(kind) + Short(n)) && data <= full && offset + 4 <= |data|
    ensures Be16(data[offset], data[offset + 1]) == kind && Be16(data[offset + 2], data[offset + 3]) == n
  {
    AtSplit(full, offset, Short(kind), Short(n));
    ShortRoundTrip(full, offset, kind);
    ShortRoundTrip(full, offset + 2, n);
  }

  /** One step of the loop over data that holds an extension, perhaps cut short. */
  lemma StepRaw(kind: nat, body: Octets, data: Octets, full: Octets, offset: nat, count: nat, t: TlsInfo,
                client: bool)
    requires kind < 65536 && |body| < 65536 && count < MAX_TLS_EXTENSIONS
    requires At(full, offset, Short(kind) + Short(|body|) + body) && data <= full && offset + 4 <= |data|
    ensures var next := offset + 4 + |body|;
      ExtensionsFrom(data, offset, count, t, client)
      == if next <= |data| then ExtensionsFrom(data, next, count + 1, Apply(t, kind, body, client), client)
         else Apply(t, kind, body[..|data| - (offset + 4)], client)
  {
    hide ExtensionsFrom, Apply;
    AtSplit(full, offset, Short(kind) + Short(|body|), body);
    HeaderRead(kind, |body|, data, full, offset);
    BodySeen(body, data, full, offset + 4);
    NextExtension(data, offset, count, t, client, kind, |body|, body[..Min(|body|, |data| - (offset + 4))]);
  }

  lemma BodySeen(body: Octets, data: Octets, full: Octets, offset: nat)
    requires At(full, offset, body) && data <= full && offset <= |data|
    ensures var n := Min(|body|, |data| - offset); data[offset..offset + n] == body[..n]
    ensures body[..|body|] == body
  {
    var n := Min(|body|, |data| - offset);
    assert full[offset..offset + |body|][..n] == full[offset..offset + n];
  }

  lemma StepOver(e: Extension, data: Octets, full: Octets, offset: nat, count: nat, t: TlsInfo, client: bool)
    requires WellFormedExtension(e, client) && count < MAX_TLS_EXTENSIONS
    requires At(full, offset, EncodeExtension(e)) && data <= full && offset + 4 <= |data|
    ensures var next := offset + |EncodeExtension(e)|;
      var n := Min(|ExtensionBody(e)|, |data| - (offset + 4));
      var u := Apply(t, Kind(e), ExtensionBody(e)[..n], client);
      && next == offset + 4 + |ExtensionBody(e)|
      && ExtensionsFrom(data, offset, count, t, client)
         == if next <= |data| then ExtensionsFrom(data, next, count + 1, u, client) else u
  {
    hide ExtensionsFrom, Apply, ExtensionBody, Kind, WellFormedExtension, At;
    BodyIsSmall(e, client);
    StepRaw(Kind(e), ExtensionBody(e), data, full, offset, count, t, client);
    assert ExtensionBody(e)[..|ExtensionBody(e)|] == ExtensionBody(e);
  }

  lemma ListHead(es: seq<Extension>, full: Octets, offset: nat)
    requires es != [] && At(full, offset, EncodeExtensions(es))
    ensures var n := |EncodeExtension(es[0])|;
      && n >= 4 && At(full, offset, EncodeExtension(es[0]))
      && At(full, offset + n, EncodeExtensions(es[1..]))
      && |EncodeExtensions(es)| == n + |EncodeExtensions(es[1..])|
  {
    AtSplit(full, offset, EncodeExtension(es[0]), EncodeExtensions(es[1..]));
  }

  lemma PresentTail(es: seq<Extension>, i: nat, cut: int)
    requires 0 < i < |es|
    ensures Present(es, i, cut) == Present(es[1..], i - 1, cut - |EncodeExtension(es[0])|)
  {
    assert es[..i][0] == es[0] && es[..i][1..] == es[1..][..i - 1];
  }

  lemma DistinctTail(es: seq<Extension>)
    requires es != [] && DistinctKinds(es)
    ensures DistinctKinds(es[1..])
    ensures forall kind :: Says(es[0], kind) ==> Lacks(es[1..], kind)
  {
    forall i, j | 0 <= i < j < |es| - 1 ensures Kind(es[1..][i]) != Kind(es[1..][j]) {
      assert es[1..][i] == es[i + 1] && es[1..][j] == es[j + 1];
    }
    forall i | 0 <= i < |es| - 1 ensures Kind(es[1..][i]) != Kind(es[0]) {
      assert es[1..][i] == es[i + 1];
    }
  }

  /** What an extension tells depends on the knowledge of its own kind only. */
  lemma TellsTheSame(r: TlsInfo, u: TlsInfo, t: TlsInfo, e: Extension, first: Extension, present: int)
    requires Tells(r, u, e, present) && KeepsOthers(u, t, first) && Kind(e) != Kind(first)
    ensures Tells(r, t, e, present)
  {
    hide ShownName, ProtocolsIn, Highest, Chosen;
  }

  lemma TellsOnlyItsOwn(r: TlsInfo, u: TlsInfo, t: TlsInfo, e: Extension, present: int)
    requires Tells(u, t, e, present)
    requires e.ServerName? ==> r.sni == u.sni
    requires e.Protocols? ==> r.alpn == u.alpn
    requires e.Versions? || e.Selected? ==> r.version == u.version
    ensures Tells(r, t, e, present)
  {
    hide ShownName, ProtocolsIn, Highest, Chosen;
  }

  lemma LacksTail(es: seq<Extension>, kind: nat)
    requires es != []
    ensures Lacks(es, kind) <==> !Says(es[0], kind) && Lacks(es[1..], kind)
  {
    assert forall i | 0 <= i < |es| - 1 :: es[1..][i] == es[i + 1];
    if !Says(es[0], kind) && Lacks(es[1..], kind) {
      forall i | 0 <= i < |es| ensures !Says(es[i], kind) {
        assert i > 0 ==> es[i] == es[1..][i - 1];
      }
    }
  }

  /** The first extension takes `t` to `u`, the others take `u` to `r`. */
  lemma ExactStep(r: TlsInfo, u: TlsInfo, t: TlsInfo, es: seq<Extension>, cut: int)
    requires es != [] && DistinctKinds(es)
    requires Tells(u, t, es[0], cut) && KeepsOthers(u, t, es[0])
    requires Exact(r, u, es[1..], cut - |EncodeExtension(es[0])|)
    ensures Exact(r, t, es, cut)
  {
    hide Tells, DistinctKinds, EncodeExtension, Lacks;
    var rest := es[1..];
    DistinctTail(es);
    LacksTail(es, SERVER_NAME);
    LacksTail(es, ALPN);
    LacksTail(es, SUPPORTED_VERSIONS);
    forall i | 0 <= i < |es| ensures Tells(r, t, es[i], Present(es, i, cut)) {
      if i == 0 {
        assert es[..0] == [];
        TellsOnlyItsOwn(r, u, t, es[0], cut);
      } else {
        PresentTail(es, i, cut);
        assert es[i] == rest[i - 1] && Tells(r, u, rest[i - 1], Present(rest, i - 1, cut - |EncodeExtension(es[0])|));
        NotThatKind(es, i);
        TellsTheSame(r, u, t, es[i], es[0], Present(es, i, cut));
      }
    }
  }

  lemma NotThatKind(es: seq<Extension>, i: nat)
    requires DistinctKinds(es) && 0 < i < |es|
    ensures Kind(es[i]) != Kind(es[0])
  {
  }

  lemma NothingYet(es: seq<Extension>, t: TlsInfo, cut: int)
    requires cut <= 0 || es == []
    ensures Exact(t, t, es, cut)
  {
    hide Tells, KeepsOthers, EncodeExtensions;
    forall i | 0 <= i < |es| ensures Tells(t, t, es[i], Present(es, i, cut)) {
      HeaderTells(t, es[i], Present(es, i, cut));
    }
  }

  /** The list cut anywhere: exactly what is there of it. */
  lemma {:induction false} ExtensionsCut(es: seq<Extension>, data: Octets, full: Octets, offset: nat, count: nat,
                                         t: TlsInfo, r: TlsInfo, client: bool)
    requires DistinctKinds(es) && forall i | 0 <= i < |es| :: WellFormedExtension(es[i], client)
    requires At(full, offset, EncodeExtensions(es)) && data <= full && offset <= |data|
    requires count + |es| <= MAX_TLS_EXTENSIONS && offset + |EncodeExtensions(es)| == |full|
    requires r == ExtensionsFrom(data, offset, count, t, client)
    ensures Exact(r, t, es, |data| - offset)
    decreases |es|
  {
    hide ExtensionsFrom, WellFormedExtension, EncodeExtension, Apply, At, Exact, Tells, DistinctKinds, KeepsOthers;
    var cut := |data| - offset;
    if es == [] {
      NoMoreExtensions(data, offset, count, t, client);
      NothingYet(es, t, cut);
    } else {
      var e := es[0];
      var next := offset + |EncodeExtension(e)|;
      ListHead(es, full, offset);
      if offset + 4 > |data| {
        NoMoreExtensions(data, offset, count, t, client);
        HeaderTells(t, e, cut);
        NothingYet(es[1..], t, |data| - next);
        ExactStep(t, t, t, es, cut);
      } else {
        StepOver(e, data, full, offset, count, t, client);
        var n := Min(|ExtensionBody(e)|, cut - 4);
        var u := Apply(t, Kind(e), ExtensionBody(e)[..n], client);
        BodyTells(t, e, n, client);
        if next <= |data| {
          MoreTellsNoMore(u, t, e, n + 4, cut, client);
          DistinctTail(es);
          ExtensionsCut(es[1..], data, full, next, count + 1, u, r, client);
        } else {
          NothingYet(es[1..], u, |data| - next);
        }
        ExactStep(r, u, t, es, cut);
      }
    }
  }

  /** Bytes beyond an extension add nothing to it. */
  lemma MoreTellsNoMore(r: TlsInfo, t: TlsInfo, e: Extension, present: int, more: int, client: bool)
    requires WellFormedExtension(e, client) && Tells(r, t, e, present) && |EncodeExtension(e)| <= present <= more
    ensures Tells(r, t, e, more)
  {
    hide Highest, ValidUtf8, ProtocolsIn, EncodeProtocols;
    match e
    case ServerName(_) =>
    case Protocols(list) =>
      WholeProtocols(list, present - 6);
      WholeProtocols(list, more - 6);
    case Versions(offered) =>
      VersionsLength(offered);
    case Selected(_) =>
    case Other(_, _) =>
  }

  /** A whole extension tells all it says. */
  lemma WholeTells(r: TlsInfo, t: TlsInfo, e: Extension, present: int, client: bool)
    requires WellFormedExtension(e, client) && Tells(r, t, e, present) && |EncodeExtension(e)| <= present
    ensures e.ServerName? ==> r.sni == Named(e.name, t.sni)
    ensures e.Protocols? ==> r.alpn == NonEmpty(Texts(e.list), t.alpn)
    ensures e.Versions? ==> r.version == Highest(e.offered, t.version)
    ensures e.Selected? ==> r.version == Chosen(e.version, t.version)
  {
    hide Highest, ValidUtf8;
    match e
    case ServerName(_) =>
    case Protocols(list) => WholeProtocols(list, present - 6);
    case Versions(offered) =>
      VersionsLength(offered);
      assert offered[..|offered|] == offered;
    case Selected(_) =>
    case Other(_, _) =>
  }

  lemma {:induction false} AllPresent(es: seq<Extension>, i: nat, cut: int)
    requires i < |es| && cut >= |EncodeExtensions(es)|
    ensures Present(es, i, cut) >= |EncodeExtension(es[i])|
    decreases i
  {
    if i == 0 {
      assert es[..0] == [];
    } else {
      PresentTail(es, i, cut);
      AllPresent(es[1..], i - 1, cut - |EncodeExtension(es[0])|);
    }
  }

  /** Nothing cut off, all is told. */
  lemma ExactIsReads(r: TlsInfo, t: TlsInfo, es: seq<Extension>, cut: int, client: bool)
    requires Exact(r, t, es, cut) && cut >= |EncodeExtensions(es)|
    requires forall i | 0 <= i < |es| :: WellFormedExtension(es[i], client)
    ensures Reads(r, t, es)
  {
    hide Tells, EncodeExtensions, EncodeExtension, Highest, Lacks, WellFormedExtension;
    forall i | 0 <= i < |es|
      ensures es[i].ServerName? ==> r.sni == Named(es[i].name, t.sni)
      ensures es[i].Protocols? ==> r.alpn == NonEmpty(Texts(es[i].list), t.alpn)
      ensures es[i].Versions? ==> r.version == Highest(es[i].offered, t.version)
      ensures es[i].Selected? ==> r.version == Chosen(es[i].version, t.version)
    {
      AllPresent(es, i, cut);
      WholeTells(r, t, es[i], Present(es, i, cut), client);
    }
  }

  // ---------------------------------------------------------------- the hello

  /** Where the extension bytes start. */
  function Start(h: Hello): nat {
    40 + |h.sessionId| + |h.ciphers| + |h.compression|
  }

  lemma PreambleLayout(h: Hello)
    requires WellFormed(h)
    ensures var b := Body(h);
      var ciphers := 35 + |h.sessionId|;
      var compression := ciphers + 2 + |h.ciphers|;
      && |Preamble(h)| == Start(h) && |b| == Start(h) + |EncodeExtensions(h.extensions)|
      && b[0] == h.version[0] && b[1] == h.version[1] && b[34] == |h.sessionId|
      && Be16(b[ciphers], b[ciphers + 1]) == |h.ciphers|
      && b[compression] == |h.compression|
      && Be16(b[Start(h) - 2], b[Start(h) - 1]) == |EncodeExtensions(h.extensions)|
  {
    hide Body, Preamble, EncodeExtensions, WellFormedExtension;
    var b := Body(h);
    PreambleParts(h);
    AtIndex(b, 0, h.version + h.random, 0);
    AtIndex(b, 0, h.version + h.random, 1);
    ByteField(b, 34, h.sessionId);
    ShortField(b, 35 + |h.sessionId|, h.ciphers);
    ByteField(b, 37 + |h.sessionId| + |h.ciphers|, h.compression);
    ShortRoundTrip(b, Start(h) - 2, |EncodeExtensions(h.extensions)|);
  }

  lemma PreambleParts(h: Hello)
    requires |h.version| == 2 && |h.random| == 32
    ensures var b, n := Body(h), |EncodeExtensions(h.extensions)|;
      && |Preamble(h)| == Start(h) && |b| == Start(h) + n
      && At(b, 0, h.version + h.random)
      && At(b, 34, [|h.sessionId| % 256] + h.sessionId)
      && At(b, 35 + |h.sessionId|, Short(|h.ciphers|) + h.ciphers)
      && At(b, 37 + |h.sessionId| + |h.ciphers|, [|h.compression| % 256] + h.compression)
      && At(b, Start(h) - 2, Short(n))
  {
    hide EncodeExtensions, At;
    var p0 := h.version + h.random;
    var sid := [|h.sessionId| % 256] + h.sessionId;
    var cs := Short(|h.ciphers|) + h.ciphers;
    var cm := [|h.compression| % 256] + h.compression;
    BodyParts(Body(h), p0, sid, cs, cm, Short(|EncodeExtensions(h.extensions)|), EncodeExtensions(h.extensions));
  }

  lemma ByteField(data: Octets, offset: nat, field: Octets)
    requires |field| < 256 && At(data, offset, [|field| % 256] + field)
    ensures data[offset] == |field|
  {
    AtIndex(data, offset, [|field| % 256] + field, 0);
  }

  lemma ShortField(data: Octets, offset: nat, field: Octets)
    requires |field| < 65536 && At(data, offset, Short(|field|) + field)
    ensures Be16(data[offset], data[offset + 1]) == |field|
  {
    AtSplit(data, offset, Short(|field|), field);
    ShortRoundTrip(data, offset, |field|);
  }

  lemma BodyParts(data: Octets, a: Octets, b: Octets, c: Octets, d: Octets, e: Octets, f: Octets)
    requires data == a + b + c + d + e + f
    ensures At(data, 0, a) && At(data, |a|, b) && At(data, |a| + |b|, c)
    ensures At(data, |a| + |b| + |c|, d) && At(data, |a| + |b| + |c| + |d|, e)
  {
    assert At(data, 0, a + b + c + d + e);
    AtSplit(data, 0, a + b + c + d, e);
    AtSplit(data, 0, a + b + c, d);
    AtSplit(data, 0, a + b, c);
    AtSplit(data, 0, a, b);
  }

  /** How far into a prefix of the body the walk to the extensions gets. */
  lemma ExtensionsReached(h: Hello, data: Octets)
    requires WellFormed(h) && data <= Body(h)
    ensures ClientExtensions(data).Some? ==> ClientExtensions(data).value == Start(h)
    ensures ClientExtensions(data).Some? <==> |data| >= Start(h)
    ensures |data| >= Start(h) ==> Block(data, Start(h)) == data[Start(h)..]
    ensures |data| >= Start(h) ==> data[Start(h)..] <= EncodeExtensions(h.extensions)
    ensures |data| == |Body(h)| ==> data[Start(h)..] == EncodeExtensions(h.extensions)
  {
    hide ClientExtensions, Body, EncodeExtensions;
    PreambleLayout(h);
    BodyTail(h);
    ExtensionsUnfold(h, data, |EncodeExtensions(h.extensions)|);
    if |data| >= Start(h) {
      assert data[Start(h)..] <= Body(h)[Start(h)..];
    }
  }

  lemma BodyTail(h: Hello)
    requires |Preamble(h)| == Start(h)
    ensures |Body(h)| >= Start(h) && Body(h)[Start(h)..] == EncodeExtensions(h.extensions)
  {
    hide Preamble, EncodeExtensions;
  }

  lemma ExtensionsUnfold(h: Hello, data: Octets, n: nat)
    requires |h.sessionId| < 256
    requires |data| > 34 ==> data[34] == |h.sessionId|
    requires var ciphers := 35 + |h.sessionId|;
      |data| >= ciphers + 2 ==> Be16(data[ciphers], data[ciphers + 1]) == |h.ciphers|
    requires var compression := 37 + |h.sessionId| + |h.ciphers|;
      |data| > compression ==> data[compression] == |h.compression|
    requires |data| >= Start(h) ==> Be16(data[Start(h) - 2], data[Start(h) - 1]) == n
    requires |data| <= Start(h) + n
    ensures ClientExtensions(data) == if |data| >= Start(h) then Some(Start(h)) else None
    ensures |data| >= Start(h) ==> Block(data, Start(h)) == data[Start(h)..]
  {
  }

  /** The version a hello claims when no extension says otherwise. */
  function Claimed(h: Hello, info: TlsInfo): TlsInfo {
    var v := Offered(h.version);
    if v.Some? then info.(version := v) else info
  }

  /** A prefix of the body: exactly what is there of it. */
  lemma HelloCut(h: Hello, data: Octets, info: TlsInfo)
    requires WellFormed(h) && data <= Body(h)
    ensures Exact(ClientHello(data, info, info.version), if |data| < 2 then info else Claimed(h, info), h.extensions,
                  |data| - Start(h))
  {
    hide ExtensionsFrom, ClientExtensions, Body, EncodeExtensions, Exact, DistinctKinds, WellFormedExtension;
    ExtensionsReached(h, data);
    PreambleLayout(h);
    var t := Claimed(h, info);
    if |data| >= Start(h) {
      var full, block := EncodeExtensions(h.extensions), data[Start(h)..];
      AtSelf(full);
      ExtensionsCut(h.extensions, block, full, 0, 0, t, ExtensionsFrom(block, 0, 0, t, true), true);
      NoMoreExtensions([], 0, 0, t, true);
    } else {
      NothingYet(h.extensions, if |data| < 2 then info else t, |data| - Start(h));
    }
  }

  lemma AtSelf(data: Octets)
    ensures At(data, 0, data)
  {
  }

  // ---------------------------------------------------------------- the record

  lemma RecordLayout(kind: Byte, body: Octets, version: Octets)
    requires |body| <= 16384 && |version| == 2
    ensures var r := HandshakeRecord(kind, body, version);
      && |r| == 9 + |body|
      && r[0] == 0x16 && r[1] == version[0] && r[2] == version[1]
      && Be16(r[3], r[4]) == 4 + |body|
      && r[5] == kind && Be24(r[6], r[7], r[8]) == |body|
      && r[9..] == body
  {
    hide RecordHead, Be16, Be24;
    var n := |body|;
    var head := RecordHead(kind, n, version);
    var r := HandshakeRecord(kind, body, version);
    RecordHeadLayout(kind, n, version);
    assert r == head + body;
    assert forall i | 0 <= i < 9 :: r[i] == head[i];
  }

  lemma RecordHeadLayout(kind: Byte, n: nat, version: Octets)
    requires n <= 16384 && |version| == 2
    ensures var r := RecordHead(kind, n, version);
      && |r| == 9
      && r[0] == 0x16 && r[1] == version[0] && r[2] == version[1]
      && Be16(r[3], r[4]) == 4 + n
      && r[5] == kind && Be24(r[6], r[7], r[8]) == n
  {
    hide Short, Be16, Be24;
    var s, t := Short(4 + n), Short(n);
    ShortIsExact(4 + n);
    Be24IsExact(n);
    var a, b := [0x16] + version + s, [kind, n / 65536 % 256] + t;
    assert a[1] == version[0] && a[2] == version[1] && a[3] == s[0] && a[4] == s[1];
    NextPart(a, b);
  }

  lemma NextPart(a: Octets, b: Octets)
    requires |a| == 5 && |b| == 4
    ensures var r := a + b;
      && r[0] == a[0] && r[1] == a[1] && r[2] == a[2] && r[3] == a[3] && r[4] == a[4]
      && r[5] == b[0] && r[6] == b[1] && r[7] == b[2] && r[8] == b[3]
  {
  }

  lemma ShortIsExact(n: nat)
    requires n < 65536
    ensures |Short(n)| == 2 && Be16(Short(n)[0], Short(n)[1]) == n
  {
  }

  lemma Be24IsExact(n: nat)
    requires n < 65536
    ensures |Short(n)| == 2 && Be24(n / 65536 % 256, Short(n)[0], Short(n)[1]) == n
  {
  }

  lemma HandshakeUnfold(kind: Byte, payload: Octets, n: nat)
    requires 5 <= |payload| <= 9 + n && n <= 16384 && kind <= 0x18
    requires payload[0] == 0x16 && Be16(payload[3], payload[4]) == 4 + n
    requires |payload| >= 9 ==> payload[5] == kind && Be24(payload[6], payload[7], payload[8]) == n
    ensures HandshakeOf(payload) == if |payload| <= 9 then None else Some(Handshake(kind, payload[9..]))
  {
    hide Be16, Be24;
    var data := payload[5..5 + (|payload| - 5)];
    assert data == payload[5..];
    if |payload| > 9 {
      assert data[4..4 + (|payload| - 9)] == payload[9..];
    }
  }

  /** What reaches the parser of the handshake message from a prefix of its record. */
  lemma RecordCut(kind: Byte, body: Octets, version: Octets, payload: Octets)
    requires |body| <= 16384 && kind <= 0x18 && |version| == 2
    requires payload <= HandshakeRecord(kind, body, version) && |payload| >= 5
    ensures HandshakeOf(payload) == if |payload| <= 9 then None else Some(Handshake(kind, payload[9..]))
    ensures |payload| > 9 ==> payload[9..] <= body
    ensures payload[1] == version[0] && payload[2] == version[1]
  {
    hide HandshakeOf, HandshakeRecord;
    RecordLayout(kind, body, version);
    HandshakeUnfold(kind, payload, |body|);
    if |payload| > 9 {
      assert payload[9..] <= HandshakeRecord(kind, body, version)[9..];
    }
  }

  function Defaults(version: Octets): TlsInfo
    requires |version| == 2
  {
    NO_TLS.(version := Offered(version))
  }

  /** What is known before the extensions: the version of the hello once its two bytes are there
      and known, else that of the record layer. */
  function Believed(h: Hello, version: Octets, length: nat): TlsInfo
    requires |version| == 2
  {
    if length < 11 then Defaults(version) else Claimed(h, Defaults(version))
  }

  /** Truncation resilience, exactly, for every prefix of a well-formed record: of the server name
      nothing until its first byte is there, then the marked part that is there, and from its last
      byte on the name itself; of the protocols those that are there, the last one marked when it
      is cut; and the highest known of the versions that are there. */
  lemma AnyPrefixIsExact(h: Hello, version: Octets, payload: Octets)
    requires WellFormed(h) && |version| == 2 && payload <= Record(h, version)
    ensures Analysis(payload) == None <==> |payload| < 5
    ensures Analysis(payload).Some? ==>
              Exact(Analysis(payload).value, Believed(h, version, |payload|), h.extensions, |payload| - 9 - Start(h))
  {
    hide ClientHello, Exact, WellFormedExtension, Body, HandshakeRecord, HandshakeOf, DistinctKinds, EncodeExtensions;
    if |payload| >= 5 {
      RecordCut(CLIENT_HELLO, Body(h), version, payload);
      if |payload| > 9 {
        HelloCut(h, payload[9..], Defaults(version));
      } else {
        NothingYet(h.extensions, Defaults(version), |payload| - 9 - Start(h));
      }
    }
  }

  /** The whole record gives exactly the server name, the protocols that are text and the highest known
      version on offer, or else the version of the hello, or else that of the record layer. */
  lemma WholeRecord(h: Hello, version: Octets)
    requires WellFormed(h) && |version| == 2
    ensures var r := Analysis(Record(h, version));
      r.Some? && Reads(r.value, Claimed(h, Defaults(version)), h.extensions)
  {
    hide Reads, Exact, Analysis, Body, HandshakeRecord, EncodeExtensions, WellFormedExtension;
    var payload := Record(h, version);
    RecordLayout(CLIENT_HELLO, Body(h), version);
    PreambleLayout(h);
    AnyPrefixIsExact(h, version, payload);
    ExactIsReads(Analysis(payload).value, Claimed(h, Defaults(version)), h.extensions, |payload| - 9 - Start(h),
                 true);
  }
}
