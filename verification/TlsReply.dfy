/** ServerHello records as RFC 8446, section 4.1.3 writes them, and what the analysis makes of every
    prefix of one. */
module TlsReply {
  import opened Bytes
  import opened TlsTypes
  import opened TlsHello
  import opened TlsRoundTrip

  /** A ServerHello; the version is two bytes. */
  datatype Reply = Reply(version: Octets, random: Octets, sessionId: Octets, cipher: nat, compression: Byte,
                         extensions: seq<Extension>)

  const SERVER_HELLO: Byte := 2

  ghost predicate WellFormed(h: Reply) {
    && |h.version| == 2 && |h.random| == 32 && |h.sessionId| < 256 && h.cipher < 65536
    && |h.extensions| <= 100
    && (forall i | 0 <= i < |h.extensions| :: WellFormedExtension(h.extensions[i], false))
    && DistinctKinds(h.extensions)
    && |EncodeExtensions(h.extensions)| < 65536
    && |Body(h)| <= 16384
  }

  function Preamble(h: Reply): Octets {
    h.version + h.random + ([|h.sessionId| % 256] + h.sessionId) + Short(h.cipher) + [h.compression]
    + Short(|EncodeExtensions(h.extensions)|)
  }

  function Body(h: Reply): Octets {
    Preamble(h) + EncodeExtensions(h.extensions)
  }

  function Record(h: Reply, version: Octets): Octets {
    HandshakeRecord(SERVER_HELLO, Body(h), version)
  }

  /** Where the cipher suite starts. */
  function CipherAt(h: Reply): nat {
    35 + |h.sessionId|
  }

  /** Where the extension bytes start. */
  function Start(h: Reply): nat {
    CipherAt(h) + 5
  }

  // ---------------------------------------------------------------- the hello

  lemma PreambleParts(h: Reply)
    requires |h.version| == 2 && |h.random| == 32
    ensures var b, n := Body(h), |EncodeExtensions(h.extensions)|;
      && |Preamble(h)| == Start(h) && |b| == Start(h) + n
      && At(b, 0, h.version + h.random)
      && At(b, 34, [|h.sessionId| % 256] + h.sessionId)
      && At(b, CipherAt(h), Short(h.cipher))
      && At(b, Start(h) - 2, Short(n))
      && b[Start(h)..] == EncodeExtensions(h.extensions)
  {
    hide EncodeExtensions, At;
    BodyParts(Body(h), h.version + h.random, [|h.sessionId| % 256] + h.sessionId, Short(h.cipher), [h.compression],
              Short(|EncodeExtensions(h.extensions)|), EncodeExtensions(h.extensions));
  }

  lemma PreambleLayout(h: Reply)
    requires WellFormed(h)
    ensures var b := Body(h);
      && |b| == Start(h) + |EncodeExtensions(h.extensions)|
      && b[0] == h.version[0] && b[1] == h.version[1] && b[34] == |h.sessionId|
      && Be16(b[CipherAt(h)], b[CipherAt(h) + 1]) == h.cipher
      && Be16(b[Start(h) - 2], b[Start(h) - 1]) == |EncodeExtensions(h.extensions)|
      && b[Start(h)..] == EncodeExtensions(h.extensions)
  {
    hide Body, Preamble, EncodeExtensions, WellFormedExtension, DistinctKinds;
    var b := Body(h);
    PreambleParts(h);
    AtIndex(b, 0, h.version + h.random, 0);
    AtIndex(b, 0, h.version + h.random, 1);
    ByteField(b, 34, h.sessionId);
    ShortRoundTrip(b, CipherAt(h), h.cipher);
    ShortRoundTrip(b, Start(h) - 2, |EncodeExtensions(h.extensions)|);
  }

  /** What a ServerHello says before its extensions when its first `length` bytes are there: from two
      on its own version, known or not, in place of the record layer's, and then its cipher suite. */
  function Stated(h: Reply, info: TlsInfo, length: int): TlsInfo {
    if length < 2 then info
    else if length < CipherAt(h) + 2 then info.(version := Offered(h.version))
    else info.(version := Offered(h.version), cipherSuite := Some(h.cipher))
  }

  /** The walk of the parser when the fields it reads are those of the hello. */
  lemma ReplyUnfold(h: Reply, data: Octets, info: TlsInfo, n: nat)
    requires |h.version| == 2 && |h.sessionId| < 256 && |data| <= Start(h) + n
    requires |data| >= 2 ==> data[0] == h.version[0] && data[1] == h.version[1]
    requires |data| > 34 ==> data[34] == |h.sessionId|
    requires |data| >= CipherAt(h) + 2 ==> Be16(data[CipherAt(h)], data[CipherAt(h) + 1]) == h.cipher
    requires |data| >= Start(h) ==> Be16(data[Start(h) - 2], data[Start(h) - 1]) == n
    ensures ServerHello(data, info)
         == if |data| <= Start(h) then Stated(h, info, |data|)
            else ExtensionsFrom(data[Start(h)..], 0, 0, Stated(h, info, |data|), false)
  {
    hide ExtensionsFrom, VersionOf, Offered, Be16;
    VersionBytes(h.version);
    if |data| >= Start(h) {
      assert Block(data, Start(h)) == data[Start(h)..];
    }
  }

  /** A prefix of the body: exactly what is there of it. */
  lemma ReplyCut(h: Reply, data: Octets, info: TlsInfo)
    requires WellFormed(h) && data <= Body(h)
    ensures Exact(ServerHello(data, info), Stated(h, info, |data|), h.extensions, |data| - Start(h))
  {
    hide ServerHello, Stated, ExtensionsFrom, Body, EncodeExtensions, Exact, DistinctKinds, WellFormedExtension;
    var full, t := EncodeExtensions(h.extensions), Stated(h, info, |data|);
    PreambleLayout(h);
    ReplyUnfold(h, data, info, |full|);
    if |data| <= Start(h) {
      NothingYet(h.extensions, t, |data| - Start(h));
    } else {
      var block := data[Start(h)..];
      assert block <= full;
      AtSelf(full);
      ExtensionsCut(h.extensions, block, full, 0, 0, t, ExtensionsFrom(block, 0, 0, t, false), false);
    }
  }

  // ---------------------------------------------------------------- the record

  /** Every prefix of a well-formed record with a ServerHello gives exactly what is there: the cipher
      suite from its second byte on; the version that supported_versions selects from its second byte
      on, before that the hello's own, before that the record layer's; of the protocols those that are
      there, the last one marked when it is cut; and never a server name. */
  lemma AnyReplyPrefixIsExact(h: Reply, version: Octets, payload: Octets)
    requires WellFormed(h) && |version| == 2 && payload <= Record(h, version)
    ensures Analysis(payload) == None <==> |payload| < 5
    ensures var r := Analysis(payload);
      r.Some? ==>
        && Exact(r.value, Stated(h, Defaults(version), |payload| - 9), h.extensions, |payload| - 9 - Start(h))
        && r.value.sni == None
        && r.value.cipherSuite == if |payload| < 9 + CipherAt(h) + 2 then None else Some(h.cipher)
  {
    hide ServerHello, Exact, WellFormedExtension, Body, HandshakeRecord, HandshakeOf, DistinctKinds, EncodeExtensions;
    if |payload| >= 5 {
      RecordCut(SERVER_HELLO, Body(h), version, payload);
      var info := Defaults(version);
      if |payload| > 9 {
        ReplyCut(h, payload[9..], info);
      } else {
        NothingYet(h.extensions, info, |payload| - 9 - Start(h));
      }
      NoNameNoCipher(h, Analysis(payload).value, Stated(h, info, |payload| - 9), |payload| - 9 - Start(h));
    }
  }

  /** No extension of a server is about a name, and none about the cipher suite. */
  lemma NoNameNoCipher(h: Reply, r: TlsInfo, t: TlsInfo, cut: int)
    requires WellFormed(h) && Exact(r, t, h.extensions, cut)
    ensures r.sni == t.sni && r.cipherSuite == t.cipherSuite
  {
    hide Tells, EncodeExtensions, Body, DistinctKinds;
  }

  /** The whole record gives exactly the cipher suite, the version selected or else the hello's own, and
      the protocols that are text. */
  lemma WholeReply(h: Reply, version: Octets)
    requires WellFormed(h) && |version| == 2
    ensures var r := Analysis(Record(h, version));
      && r.Some? && r.value.cipherSuite == Some(h.cipher) && r.value.sni == None
      && Reads(r.value, NO_TLS.(version := Offered(h.version), cipherSuite := Some(h.cipher)), h.extensions)
  {
    hide Reads, Exact, Analysis, Body, HandshakeRecord, EncodeExtensions, WellFormedExtension;
    var payload := Record(h, version);
    RecordLayout(SERVER_HELLO, Body(h), version);
    PreambleLayout(h);
    AnyReplyPrefixIsExact(h, version, payload);
    ExactIsReads(Analysis(payload).value, Stated(h, Defaults(version), |payload| - 9), h.extensions,
                 |payload| - 9 - Start(h), false);
  }

  /** The version of the whole record: what supported_versions selects, if that is known, else the
      hello's own, if that is; the record layer's counts for nothing. */
  lemma NegotiatedVersion(h: Reply, version: Octets)
    requires WellFormed(h) && |version| == 2
    ensures var r := Analysis(Record(h, version));
      && r.Some?
      && (forall i | 0 <= i < |h.extensions| && h.extensions[i].Selected? ::
            r.value.version == Chosen(h.extensions[i].version, Offered(h.version)))
      && ((forall e | e in h.extensions :: !e.Selected?) ==> r.value.version == Offered(h.version))
  {
    hide Analysis, Body, Record, EncodeExtensions;
    WholeReply(h, version);
  }
}
