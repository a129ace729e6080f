/** TLS handshake records cut anywhere: what can be read of the ClientHello.

    RFC 8446, sections 4.1.2 and 4.2.1; RFC 6066, section 3; RFC 7301, section 3.1. */
module TlsHello {
  import opened Bytes
  import opened TlsTypes

  const MAX_TLS_EXTENSIONS: nat := 100

  const SERVER_NAME: nat := 0x0000
  const ALPN: nat := 0x0010
  const SUPPORTED_VERSIONS: nat := 0x002b

  function VersionOf(major: Byte, minor: Byte): Option<TlsVersion> {
    if major != 3 then None
    else match minor
      case 1 => Some(Tls10)
      case 2 => Some(Tls11)
      case 3 => Some(Tls12)
      case 4 => Some(Tls13)
      case _ => None
  }

  function Priority(v: TlsVersion): nat {
    match v
    case Tls10 => 1
    case Tls11 => 2
    case Tls12 => 3
    case Tls13 => 4
  }

  /** Visible ASCII. */
  predicate Graphic(s: Octets) {
    forall b :: b in s ==> 0x21 <= b <= 0x7e
  }

  // ---------------------------------------------------------------- extension bodies

  /** `parse_sni_extension_resilient`. */
  function ParseSni(data: Octets): Option<Octets> {
    if |data| < 5 || data[2] != 0 then None
    else
      var nameLen := Be16(data[3], data[4]);
      var actual := Min(nameLen, |data| - 5);
      var host := data[5..5 + actual];
      if actual > 0 && ValidUtf8(host) && Graphic(host) then
        Some(if actual < nameLen then MarkPartial(host) else host)
      else None
  }

  function WithProtocol(protocols: seq<Octets>, text: Octets, len: nat): seq<Octets> {
    if text != [] && ValidUtf8(text) then protocols + [if |text| < len then MarkPartial(text) else text]
    else protocols
  }

  /** The loop of `parse_alpn_extension_resilient` from `offset` on. */
  function AlpnFrom(data: Octets, listEnd: nat, offset: nat, protocols: seq<Octets>): seq<Octets>
    requires listEnd <= |data|
    decreases |data| - offset
  {
    if offset >= listEnd then protocols
    else
      var len := data[offset];
      var actual := Min(len, listEnd - (offset + 1));
      var protocols' := WithProtocol(protocols, data[offset + 1..offset + 1 + actual], len);
      if offset + 1 + len >= |data| then protocols'
      else AlpnFrom(data, listEnd, offset + 1 + len, protocols')
  }

  /** `parse_alpn_extension_resilient`; the empty list stands for `None`. */
  function ParseAlpn(data: Octets): seq<Octets> {
    if |data| < 2 then []
    else AlpnFrom(data, 2 + Min(Be16(data[0], data[1]), |data| - 2), 2, [])
  }

  function Better(best: Option<TlsVersion>, v: Option<TlsVersion>): Option<TlsVersion> {
    if v == None then best
    else if best == None || Priority(v.value) > Priority(best.value) then v
    else best
  }

  /** The loop of `parse_supported_versions_resilient` from `offset` on. */
  function VersionsFrom(data: Octets, listLen: nat, offset: nat, best: Option<TlsVersion>): Option<TlsVersion>
    decreases |data| - offset
  {
    if offset + 1 >= |data| || offset >= 1 + listLen then best
    else VersionsFrom(data, listLen, offset + 2, Better(best, VersionOf(data[offset], data[offset + 1])))
  }

  /** `parse_supported_versions_resilient`. */
  function ParseVersions(data: Octets, client: bool): Option<TlsVersion> {
    if client then (if data == [] then None else VersionsFrom(data, data[0], 1, None))
    else if |data| < 2 then None
    else VersionOf(data[0], data[1])
  }

  // ---------------------------------------------------------------- extensions

  /** The effect of one extension body on what is known. */
  function Apply(info: TlsInfo, kind: nat, data: Octets, client: bool): TlsInfo {
    if data == [] then info
    else if kind == SERVER_NAME && client then
      var sni := ParseSni(data);
      if sni.Some? then info.(sni := sni) else info
    else if kind == ALPN then
      var alpn := ParseAlpn(data);
      if alpn != [] then info.(alpn := alpn) else info
    else if kind == SUPPORTED_VERSIONS then
      var version := ParseVersions(data, client);
      if version.Some? then info.(version := version) else info
    else info
  }

  /** The loop of `parse_extensions` from `offset` on, after `count` extensions. */
  function ExtensionsFrom(data: Octets, offset: nat, count: nat, info: TlsInfo, client: bool): TlsInfo
    decreases |data| - offset
  {
    if offset + 4 > |data| || count + 1 > MAX_TLS_EXTENSIONS then info
    else
      var kind := Be16(data[offset], data[offset + 1]);
      var len := Be16(data[offset + 2], data[offset + 3]);
      var actual := Min(len, |data| - (offset + 4));
      var info' := Apply(info, kind, data[offset + 4..offset + 4 + actual], client);
      if offset + 4 + len > |data| then info'
      else ExtensionsFrom(data, offset + 4 + len, count + 1, info', client)
  }

  /** One turn of the loop over protocols. */
  lemma NextProtocol(data: Octets, listEnd: nat, offset: nat, protocols: seq<Octets>, seen: Octets)
    requires offset < listEnd <= |data|
    requires seen == data[offset + 1..offset + 1 + Min(data[offset], listEnd - (offset + 1))]
    ensures var next, longer := offset + 1 + data[offset], WithProtocol(protocols, seen, data[offset]);
      AlpnFrom(data, listEnd, offset, protocols)
      == if next >= |data| then longer else AlpnFrom(data, listEnd, next, longer)
  {
    hide WithProtocol;
  }

  /** One turn of the loop over extensions: kind and declared length `n` are read, `seen` is what is
      there of the body. */
  lemma NextExtension(data: Octets, offset: nat, count: nat, t: TlsInfo, client: bool, kind: nat, n: nat, seen: Octets)
    requires offset + 4 <= |data| && count < MAX_TLS_EXTENSIONS
    requires Be16(data[offset], data[offset + 1]) == kind && Be16(data[offset + 2], data[offset + 3]) == n
    requires seen == data[offset + 4..offset + 4 + Min(n, |data| - (offset + 4))]
    ensures ExtensionsFrom(data, offset, count, t, client)
         == if offset + 4 + n <= |data| then
              ExtensionsFrom(data, offset + 4 + n, count + 1, Apply(t, kind, seen, client), client)
            else Apply(t, kind, seen, client)
  {
    hide Apply;
  }

  lemma NoMoreExtensions(data: Octets, offset: nat, count: nat, t: TlsInfo, client: bool)
    requires offset + 4 > |data| || count >= MAX_TLS_EXTENSIONS
    ensures ExtensionsFrom(data, offset, count, t, client) == t
  {
  }

  method ParseAlpnExtension(data: Octets) returns (protocols: seq<Octets>)
    ensures protocols == ParseAlpn(data)
  {
    hide WithProtocol, ValidUtf8;
    protocols := [];
    if |data| < 2 {
      return;
    }
    var offset := 2;
    var listEnd := 2 + Min(Be16(data[0], data[1]), |data| - 2);
    while offset < listEnd && offset < |data|
      invariant AlpnFrom(data, listEnd, offset, protocols) == ParseAlpn(data)
      decreases |data| - offset
    {
      var protoLen := data[offset];
      var actual := Min(protoLen, Min(listEnd - (offset + 1), |data| - (offset + 1)));
      protocols := AppendProtocol(protocols, data[offset + 1..offset + 1 + actual], protoLen);
      offset := offset + 1 + protoLen;
      if offset >= |data| {
        return;
      }
    }
  }

  method AppendProtocol(protocols: seq<Octets>, text: Octets, len: nat) returns (longer: seq<Octets>)
    ensures longer == WithProtocol(protocols, text, len)
  {
    longer := protocols;
    if |text| > 0 && ValidUtf8(text) {
      longer := longer + [if |text| < len then MarkPartial(text) else text];
    }
  }

  method ParseSupportedVersions(data: Octets, client: bool) returns (best: Option<TlsVersion>)
    ensures best == ParseVersions(data, client)
  {
    if !client {
      return if |data| < 2 then None else VersionOf(data[0], data[1]);
    }
    best := None;
    if data == [] {
      return;
    }
    var listLen := data[0];
    var offset := 1;
    while offset + 1 < |data| && offset < 1 + listLen as int
      invariant VersionsFrom(data, listLen, offset, best) == ParseVersions(data, client)
      decreases |data| - offset
    {
      var version := VersionOf(data[offset], data[offset + 1]);
      if version.Some? {
        if best == None || Priority(version.value) > Priority(best.value) {
          best := version;
        }
      }
      offset := offset + 2;
    }
  }

  method ParseExtensions(data: Octets, info: TlsInfo, client: bool) returns (r: TlsInfo)
    ensures r == ExtensionsFrom(data, 0, 0, info, client)
  {
    hide ExtensionsFrom, Apply;
    r := info;
    var offset, parsed := 0, 0;
    while offset + 4 <= |data|
      invariant ExtensionsFrom(data, offset, parsed, r, client) == ExtensionsFrom(data, 0, 0, info, client)
      decreases |data| - offset
    {
      if parsed + 1 > MAX_TLS_EXTENSIONS {
        NoMoreExtensions(data, offset, parsed, r, client);
        return;
      }
      var kind := Be16(data[offset], data[offset + 1]);
      var len := Be16(data[offset + 2], data[offset + 3]);
      var actual := Min(len, |data| - (offset + 4));
      var seen := data[offset + 4..offset + 4 + actual];
      NextExtension(data, offset, parsed, r, client, kind, len, seen);
      r := ApplyExtension(r, kind, seen, client);
      if offset + 4 + len > |data| {
        return;
      }
      offset, parsed := offset + 4 + len, parsed + 1;
    }
    NoMoreExtensions(data, offset, parsed, r, client);
  }

  method ApplyExtension(info: TlsInfo, kind: nat, data: Octets, client: bool) returns (r: TlsInfo)
    ensures r == Apply(info, kind, data, client)
  {
    r := info;
    if |data| > 0 {
      if kind == SERVER_NAME && client {
        var sni := ParseSni(data);
        if sni.Some? {
          r := r.(sni := sni);
        }
      } else if kind == ALPN {
        var alpn := ParseAlpnExtension(data);
        if alpn != [] {
          r := r.(alpn := alpn);
        }
      } else if kind == SUPPORTED_VERSIONS {
        var version := ParseSupportedVersions(data, client);
        if version.Some? {
          r := r.(version := version);
        }
      }
    }
  }

  // ---------------------------------------------------------------- hellos and records

  /** Where the extension bytes of a ClientHello start, if they can be reached. */
  function ClientExtensions(data: Octets): Option<nat> {
    if |data| < 34 || 34 >= |data| then None
    else
      var ciphers := 35 + data[34] as int;
      if ciphers >= |data| || ciphers + 2 > |data| then None
      else
        var compression := ciphers + 2 + Be16(data[ciphers], data[ciphers + 1]);
        if compression >= |data| then None
        else
          var extensions := compression + 1 + data[compression];
          if extensions >= |data| || extensions + 2 > |data| then None else Some(extensions + 2)
  }

  /** The extension bytes at `start`, as far as there are any. */
  function Block(data: Octets, start: nat): Octets
    requires 2 <= start <= |data|
  {
    data[start..Min(|data|, start + Be16(data[start - 2], data[start - 1]))]
  }

  /** `parse_client_hello`. */
  function ClientHello(data: Octets, info: TlsInfo, record: Option<TlsVersion>): TlsInfo {
    if |data| < 2 then info
    else
      var clientVersion := VersionOf(data[0], data[1]);
      var info' := info.(version := if clientVersion.Some? then clientVersion else record);
      var start := ClientExtensions(data);
      if start == None || Block(data, start.value) == [] then info'
      else ExtensionsFrom(Block(data, start.value), 0, 0, info', true)
  }

  /** `parse_server_hello`. */
  function ServerHello(data: Octets, info: TlsInfo): TlsInfo {
    if |data| < 2 then info
    else
      var info' := info.(version := VersionOf(data[0], data[1]));
      if |data| < 35 then info'
      else
        var offset := 35 + data[34] as int;
        if offset >= |data| || offset + 2 > |data| then info'
        else
          var info'' := info'.(cipherSuite := Some(Be16(data[offset], data[offset + 1])));
          var start := offset + 5;
          if offset + 2 >= |data| || start > |data| || Block(data, start) == [] then info''
          else ExtensionsFrom(Block(data, start), 0, 0, info'', false)
  }

  function Be24(a: Byte, b: Byte, c: Byte): nat {
    65536 * a + 256 * b + c
  }

  /** The part of a handshake record that reaches the handshake parsers: its type and its body. */
  datatype Handshake = Handshake(kind: Byte, body: Octets)

  function HandshakeOf(payload: Octets): Option<Handshake>
    requires |payload| >= 5
  {
    var recordLength := Be16(payload[3], payload[4]);
    if payload[0] != 0x16 || recordLength > 16384 + 2048 then None
    else
      var available := Min(|payload| - 5, recordLength);
      if available < 4 then None
      else
        var data := payload[5..5 + available];
        var handshakeLength := Be24(data[1], data[2], data[3]);
        if !(data[0] <= 0x18 || data[0] == 0xfe) || handshakeLength > 16384 then None
        else
          var n := Min(|data| - 4, handshakeLength);
          if n == 0 then None else Some(Handshake(data[0], data[4..4 + n]))
  }

  /** `analyze_https`. */
  function Analysis(payload: Octets): Option<TlsInfo> {
    if |payload| < 5 then None
    else
      var info := NO_TLS.(version := VersionOf(payload[1], payload[2]));
      var h := HandshakeOf(payload);
      if h == None then Some(info)
      else if h.value.kind == 1 then Some(ClientHello(h.value.body, info, info.version))
      else if h.value.kind == 2 then Some(ServerHello(h.value.body, info))
      else Some(info)
  }

  /** The walk of `parse_client_hello` past random, session id, cipher suites and compression. */
  method SkipToExtensions(data: Octets) returns (start: Option<nat>)
    ensures start == ClientExtensions(data)
  {
    if |data| < 34 {
      return None;
    }
    var offset := 34;
    if offset >= |data| {
      return None;
    }
    offset := offset + 1 + data[offset];
    if offset >= |data| || offset + 2 > |data| {
      return None;
    }
    offset := offset + 2 + Be16(data[offset], data[offset + 1]);
    if offset >= |data| {
      return None;
    }
    offset := offset + 1 + data[offset];
    if offset >= |data| || offset + 2 > |data| {
      return None;
    }
    return Some(offset + 2);
  }

  method ParseClientHello(data: Octets, info: TlsInfo, record: Option<TlsVersion>) returns (r: TlsInfo)
    ensures r == ClientHello(data, info, record)
  {
    r := info;
    if |data| < 2 {
      return;
    }
    var clientVersion := VersionOf(data[0], data[1]);
    r := r.(version := if clientVersion.Some? then clientVersion else record);
    var start := SkipToExtensions(data);
    if start.Some? {
      var available := Block(data, start.value);
      if available != [] {
        r := ParseExtensions(available, r, true);
      }
    }
  }

  method ParseServerHello(data: Octets, info: TlsInfo) returns (r: TlsInfo)
    ensures r == ServerHello(data, info)
  {
    r := info;
    if |data| < 2 {
      return;
    }
    r := r.(version := VersionOf(data[0], data[1]));
    if |data| < 34 {
      return;
    }
    var offset := 34;
    if offset >= |data| {
      return;
    }
    offset := offset + 1 + data[offset];
    if offset >= |data| || offset + 2 > |data| {
      return;
    }
    r := r.(cipherSuite := Some(Be16(data[offset], data[offset + 1])));
    offset := offset + 2;
    if offset >= |data| {
      return;
    }
    offset := offset + 1;
    if offset + 2 > |data| {
      return;
    }
    var extensionsLen := Be16(data[offset], data[offset + 1]);
    offset := offset + 2;
    if offset < |data| {
      var available := data[offset..Min(|data|, offset + extensionsLen)];
      if available != [] {
        r := ParseExtensions(available, r, false);
      }
    }
  }

  method AnalyzeHttps(payload: Octets) returns (r: Option<TlsInfo>)
    ensures r == Analysis(payload)
  {
    hide ClientHello, ServerHello;
    if |payload| < 5 {
      return None;
    }
    var recordVersion := VersionOf(payload[1], payload[2]);
    var info := NO_TLS.(version := recordVersion);
    if payload[0] != 0x16 {
      return Some(info);
    }
    var recordLength := Be16(payload[3], payload[4]);
    if recordLength > 16384 + 2048 {
      return Some(info);
    }
    var available := Min(|payload| - 5, recordLength);
    if available < 4 {
      return Some(info);
    }
    var data := payload[5..5 + available];
    if !(data[0] <= 0x18 || data[0] == 0xfe) {
      return Some(info);
    }
    var handshakeLength := Be24(data[1], data[2], data[3]);
    if handshakeLength > 16384 {
      return Some(info);
    }
    var n := Min(|data| - 4, handshakeLength);
    if n == 0 {
      return Some(info);
    }
    if data[0] == 1 {
      info := ParseClientHello(data[4..4 + n], info, recordVersion);
    } else if data[0] == 2 {
      info := ParseServerHello(data[4..4 + n], info);
    }
    return Some(info);
  }
}
