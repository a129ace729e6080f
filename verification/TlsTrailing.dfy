/** What stands behind the length fields of a TLS record and its parts: none of it is read. */
module TlsTrailing {
  import opened Bytes
  import opened TlsTypes
  import opened TlsHello
  import TlsRoundTrip
  import TlsReply

  // ---------------------------------------------------------------- extension bodies

  lemma {:induction false} ListBehind(data: Octets, x: Octets, listEnd: nat, offset: nat, protocols: seq<Octets>)
    requires listEnd <= |data|
    ensures AlpnFrom(data + x, listEnd, offset, protocols) == AlpnFrom(data, listEnd, offset, protocols)
    decreases |data| - offset
  {
    hide WithProtocol;
    if offset < listEnd {
      var n := Min(data[offset], listEnd - (offset + 1));
      var seen := data[offset + 1..offset + 1 + n];
      assert (data + x)[offset + 1..offset + 1 + n] == seen;
      NextProtocol(data, listEnd, offset, protocols, seen);
      NextProtocol(data + x, listEnd, offset, protocols, seen);
      if offset + 1 + data[offset] < |data| {
        ListBehind(data, x, listEnd, offset + 1 + data[offset], WithProtocol(protocols, seen, data[offset]));
      }
    }
  }

  /** Behind a whole protocol list. */
  lemma AlpnBehind(data: Octets, x: Octets)
    requires |data| >= 2 && |data| >= 2 + Be16(data[0], data[1])
    ensures ParseAlpn(data + x) == ParseAlpn(data)
  {
    hide AlpnFrom;
    ListBehind(data, x, 2 + Be16(data[0], data[1]), 2, []);
  }

  lemma {:induction false} OfferBehind(data: Octets, x: Octets, n: nat, offset: nat, best: Option<TlsVersion>)
    requires 1 + n <= |data| && offset <= 1 + n && (1 + n - offset) % 2 == 0
    ensures VersionsFrom(data + x, n, offset, best) == VersionsFrom(data, n, offset, best)
    decreases 1 + n - offset
  {
    hide VersionOf, Better;
    if offset < 1 + n {
      OfferBehind(data, x, n, offset + 2, Better(best, VersionOf(data[offset], data[offset + 1])));
    }
  }

  /** Behind a whole version list; one of odd length is read one byte too far. */
  lemma VersionsBehind(data: Octets, x: Octets)
    requires data != [] && |data| >= 1 + data[0] as int && data[0] % 2 == 0
    ensures ParseVersions(data + x, true) == ParseVersions(data, true)
  {
    hide VersionsFrom;
    OfferBehind(data, x, data[0], 1, None);
  }

  /** A version list of one byte, 3, and a byte behind it: the two count as a version. */
  lemma OddListReadsOn(minor: Byte)
    ensures ParseVersions([1, 3], true) == None && ParseVersions([1, 3, minor], true) == VersionOf(3, minor)
  {
    hide VersionOf;
    assert VersionsFrom([1, 3, minor], 1, 3, VersionOf(3, minor)) == VersionOf(3, minor);
  }

  // ---------------------------------------------------------------- hellos

  lemma ExtensionsFound(data: Octets, x: Octets)
    requires ClientExtensions(data).Some?
    ensures ClientExtensions(data + x) == ClientExtensions(data)
  {
  }

  lemma BlockBehind(data: Octets, x: Octets, start: nat)
    requires 2 <= start <= |data| && start + Be16(data[start - 2], data[start - 1]) <= |data|
    ensures Block(data + x, start) == Block(data, start)
  {
    var end := start + Be16(data[start - 2], data[start - 1]);
    assert (data + x)[start..end] == data[start..end];
  }

  /** Behind the extensions of a ClientHello. */
  lemma ClientHelloBehind(data: Octets, x: Octets, info: TlsInfo, record: Option<TlsVersion>)
    requires var start := ClientExtensions(data);
      start.Some? && start.value + Be16(data[start.value - 2], data[start.value - 1]) <= |data|
    ensures ClientHello(data + x, info, record) == ClientHello(data, info, record)
  {
    hide ClientExtensions, Block, ExtensionsFrom, VersionOf;
    FoundInside(data);
    ExtensionsFound(data, x);
    BlockBehind(data, x, ClientExtensions(data).value);
  }

  lemma FoundInside(data: Octets)
    ensures ClientExtensions(data).Some? ==> 34 <= ClientExtensions(data).value <= |data|
  {
  }

  /** Behind those of a ServerHello. */
  lemma ServerHelloBehind(data: Octets, x: Octets, info: TlsInfo)
    requires |data| > 34
    requires var start := 40 + data[34] as int;
      start <= |data| && start + Be16(data[start - 2], data[start - 1]) <= |data|
    ensures ServerHello(data + x, info) == ServerHello(data, info)
  {
    hide Block, ExtensionsFrom, VersionOf;
    BlockBehind(data, x, 40 + data[34] as int);
  }

  // ---------------------------------------------------------------- records

  /** A record whose first handshake message has type `kind` and body `body`, with more messages behind it. */
  function LongRecord(kind: Byte, body: Octets, more: Octets, version: Octets): Octets {
    [0x16] + version + TlsRoundTrip.Short(4 + |body| + |more|)
    + ([kind, |body| / 65536 % 256] + TlsRoundTrip.Short(|body|)) + (body + more)
  }

  lemma LongRecordHead(kind: Byte, body: Octets, more: Octets, version: Octets, rest: Octets)
    requires |body| <= 16384 && 4 + |body| + |more| <= 16384 + 2048 && |version| == 2
    ensures var p := LongRecord(kind, body, more, version) + rest;
      && |p| == 9 + |body| + |more| + |rest|
      && p[0] == 0x16 && p[1] == version[0] && p[2] == version[1]
      && Be16(p[3], p[4]) == 4 + |body| + |more|
      && p[5] == kind && Be24(p[6], p[7], p[8]) == |body|
      && p[9..9 + |body|] == body
  {
    hide TlsRoundTrip.Short, Be16, Be24;
    var s, t := TlsRoundTrip.Short(4 + |body| + |more|), TlsRoundTrip.Short(|body|);
    TlsRoundTrip.ShortIsExact(4 + |body| + |more|);
    TlsRoundTrip.Be24IsExact(|body|);
    var a, b := [0x16] + version + s, [kind, |body| / 65536 % 256] + t;
    assert a[1] == version[0] && a[2] == version[1] && a[3] == s[0] && a[4] == s[1];
    TlsRoundTrip.NextPart(a, b);
    HeadAndBody(a + b, body, more, rest);
  }

  lemma HeadAndBody(head: Octets, body: Octets, more: Octets, rest: Octets)
    requires |head| == 9
    ensures var p := head + (body + more) + rest;
      && |p| == 9 + |body| + |more| + |rest| && p[9..9 + |body|] == body
      && forall i | 0 <= i < 9 :: p[i] == head[i]
  {
  }

  lemma FirstMessage(kind: Byte, body: Octets, p: Octets, length: nat)
    requires 0 < |body| <= 16384 && kind <= 0x18 && 4 + |body| <= length <= 16384 + 2048 && 5 + length <= |p|
    requires p[0] == 0x16 && Be16(p[3], p[4]) == length && p[5] == kind
    requires Be24(p[6], p[7], p[8]) == |body| && p[9..9 + |body|] == body
    ensures HandshakeOf(p) == Some(Handshake(kind, body))
  {
    hide Be16, Be24;
    var data := p[5..5 + length];
    SliceOfSlice(p, 5, 5 + length, 4, 4 + |body|);
    assert data[0] == p[5] && data[1] == p[6] && data[2] == p[7] && data[3] == p[8];
  }

  lemma SliceOfSlice(p: Octets, i: nat, j: nat, a: nat, b: nat)
    requires i <= j <= |p| && a <= b <= j - i
    ensures p[i..j][a..b] == p[i + a..i + b]
  {
    var s, t := p[i..j][a..b], p[i + a..i + b];
    assert |s| == |t| == b - a;
    forall k | 0 <= k < b - a ensures s[k] == t[k] {
      assert s[k] == p[i..j][a + k] == p[i + (a + k)];
      assert t[k] == p[i + a + k];
    }
  }

  /** Only the first message of a record is read, and nothing behind the record. */
  lemma OnlyTheFirstMessage(kind: Byte, body: Octets, more: Octets, version: Octets, rest: Octets)
    requires 0 < |body| <= 16384 && kind <= 0x18 && 4 + |body| + |more| <= 16384 + 2048 && |version| == 2
    ensures Analysis(LongRecord(kind, body, more, version) + rest)
         == Analysis(TlsRoundTrip.HandshakeRecord(kind, body, version))
  {
    hide LongRecord, TlsRoundTrip.HandshakeRecord, HandshakeOf, ClientHello, ServerHello;
    var p, q := LongRecord(kind, body, more, version) + rest, TlsRoundTrip.HandshakeRecord(kind, body, version);
    LongRecordHead(kind, body, more, version, rest);
    FirstMessage(kind, body, p, 4 + |body| + |more|);
    TlsRoundTrip.RecordLayout(kind, body, version);
    assert q[9..9 + |body|] == body;
    FirstMessage(kind, body, q, 4 + |body|);
  }

  /** So a ClientHello gives all it says, whatever follows it in its record and behind that. */
  lemma ClientRecordAndMore(h: TlsRoundTrip.Hello, version: Octets, more: Octets, rest: Octets)
    requires TlsRoundTrip.WellFormed(h) && |version| == 2
    requires 4 + |TlsRoundTrip.Body(h)| + |more| <= 16384 + 2048
    ensures var r := Analysis(LongRecord(1, TlsRoundTrip.Body(h), more, version) + rest);
      r.Some? && TlsRoundTrip.Reads(r.value, TlsRoundTrip.Claimed(h, TlsRoundTrip.Defaults(version)), h.extensions)
  {
    hide TlsRoundTrip.Reads, TlsRoundTrip.Body, LongRecord, Analysis, TlsRoundTrip.HandshakeRecord,
         TlsRoundTrip.EncodeExtensions, TlsRoundTrip.WellFormedExtension, TlsRoundTrip.DistinctKinds;
    TlsRoundTrip.PreambleLayout(h);
    OnlyTheFirstMessage(1, TlsRoundTrip.Body(h), more, version, rest);
    TlsRoundTrip.WholeRecord(h, version);
  }

  /** And a ServerHello too. */
  lemma ServerRecordAndMore(h: TlsReply.Reply, version: Octets, more: Octets, rest: Octets)
    requires TlsReply.WellFormed(h) && |version| == 2
    requires 4 + |TlsReply.Body(h)| + |more| <= 16384 + 2048
    ensures var r := Analysis(LongRecord(2, TlsReply.Body(h), more, version) + rest);
      && r.Some? && r.value.cipherSuite == Some(h.cipher) && r.value.sni == None
      && TlsRoundTrip.Reads(r.value, NO_TLS.(version := TlsRoundTrip.Offered(h.version), cipherSuite := Some(h.cipher)),
                            h.extensions)
  {
    hide TlsRoundTrip.Reads, TlsReply.Body, LongRecord, Analysis, TlsRoundTrip.HandshakeRecord,
         TlsRoundTrip.EncodeExtensions, TlsRoundTrip.WellFormedExtension, TlsRoundTrip.DistinctKinds;
    TlsReply.PreambleLayout(h);
    OnlyTheFirstMessage(2, TlsReply.Body(h), more, version, rest);
    TlsReply.WholeReply(h, version);
  }

  /** On every input: of a record that is no handshake, one longer than 18,432 bytes by its own account, or
      one whose message is longer than 16,384 or neither hello, the record layer's version is all. */
  lemma OthersGiveTheVersion(payload: Octets)
    requires |payload| >= 5
    requires || payload[0] != 22 || Be16(payload[3], payload[4]) > 18_432
             || (|payload| >= 9 && Be24(payload[6], payload[7], payload[8]) > 16_384)
             || (|payload| >= 6 && payload[5] !in {1, 2})
    ensures Analysis(payload)
         == Some(TlsInfo(TlsRoundTrip.Offered([payload[1], payload[2]]), None, [], None))
  {
    hide ClientHello, ServerHello, Be16, Be24;
    TlsRoundTrip.VersionBytes([payload[1], payload[2]]);
  }
}
