/** MQTT control packets: remaining lengths, CONNECT and PUBLISH (MQTT 3.1.1, sections 2.2.3, 3.1, 3.3). */
module Mqtt {
  import opened Bytes

  datatype PacketType = Connect | Connack | Publish | Puback | Subscribe | Suback | Unsubscribe | Unsuback
                      | Pingreq | Pingresp | Disconnect

  datatype Version = V31 | V311 | V50

  datatype MqttInfo = MqttInfo(version: Option<Version>, packetType: PacketType, clientId: Option<Octets>,
                               topic: Option<Octets>, qos: Option<nat>)

  /** The largest remaining length. */
  const MAX_LENGTH: nat := 268_435_455

  /** The bytes of "MQTT" and "MQIsdp". */
  const NAME: Octets := [0x4d, 0x51, 0x54, 0x54]
  const OLD_NAME: Octets := [0x4d, 0x51, 0x49, 0x73, 0x64, 0x70]

  // ---------------------------------------------------------------- remaining lengths

  datatype Decoded = Decoded(value: nat, consumed: nat)

  /** The loop of `decode_remaining_length` from its `i`-th byte on. */
  function DecodeFrom(payload: Octets, offset: nat, i: nat, multiplier: nat, value: nat): Option<Decoded>
    decreases 4 - i
  {
    if i >= 4 || offset + i >= |payload| then None
    else
      var b := payload[offset + i];
      var value' := value + (b % 128) * multiplier;
      if b < 128 then Some(Decoded(value', i + 1))
      else DecodeFrom(payload, offset, i + 1, multiplier * 128, value')
  }

  function Decode(payload: Octets, offset: nat): Option<Decoded> {
    DecodeFrom(payload, offset, 0, 1, 0)
  }

  /** `decode_remaining_length`. */
  method DecodeRemainingLength(payload: Octets, offset: nat) returns (r: Option<Decoded>)
    ensures r == Decode(payload, offset)
  {
    var multiplier: nat, value: nat := 1, 0;
    for i := 0 to 4
      invariant DecodeFrom(payload, offset, i, multiplier, value) == Decode(payload, offset)
    {
      var idx := offset + i;
      if idx >= |payload| {
        return None;
      }
      var b: int := payload[idx];
      var longer: nat := value + (b % 128) * multiplier;
      assert DecodeFrom(payload, offset, i, multiplier, value)
          == if b < 128 then Some(Decoded(longer, i + 1))
             else DecodeFrom(payload, offset, i + 1, multiplier * 128, longer);
      if b < 128 {
        return Some(Decoded(longer, i + 1));
      }
      value, multiplier := longer, multiplier * 128;
    }
    return None;
  }

  /** The encoder of the standard. */
  function EncodeLength(n: nat): Octets {
    if n < 128 then [n] else [128 + n % 128] + EncodeLength(n / 128)
  }

  /** How many bytes a length takes. */
  lemma LengthBytes(n: nat)
    requires n <= MAX_LENGTH
    ensures 1 <= |EncodeLength(n)| <= 4
  {
    assert n / 128 / 128 / 128 < 128;
    assert |EncodeLength(n / 128 / 128 / 128)| == 1;
    assert |EncodeLength(n / 128 / 128)| <= 2;
    assert |EncodeLength(n / 128)| <= 3;
  }

  lemma SplitDigit(n: nat, m: nat)
    ensures (n % 128) * m + (n / 128) * (m * 128) == n * m
  {
    var q := n / 128;
    assert n == 128 * q + n % 128;
    assert (128 * q + n % 128) * m == 128 * q * m + (n % 128) * m;
    assert q * (m * 128) == 128 * q * m;
  }

  lemma LastDigit(payload: Octets, offset: nat, i: nat, multiplier: nat, value: nat, n: nat)
    requires n < 128 && i < 4 && At(payload, offset + i, [n])
    ensures DecodeFrom(payload, offset, i, multiplier, value) == Some(Decoded(value + n * multiplier, i + 1))
  {
    AtIndex(payload, offset + i, [n], 0);
  }

  lemma OneDigit(payload: Octets, offset: nat, i: nat, multiplier: nat, value: nat, d: nat, longer: nat)
    requires d < 128 && i < 4 && At(payload, offset + i, [128 + d]) && longer == value + d * multiplier
    ensures DecodeFrom(payload, offset, i, multiplier, value)
         == DecodeFrom(payload, offset, i + 1, multiplier * 128, longer)
  {
    AtIndex(payload, offset + i, [128 + d], 0);
  }

  lemma {:induction false} DecodeDigits(payload: Octets, offset: nat, i: nat, multiplier: nat, value: nat, n: nat,
                                        r: Option<Decoded>)
    requires At(payload, offset + i, EncodeLength(n)) && i + |EncodeLength(n)| <= 4
    requires r == DecodeFrom(payload, offset, i, multiplier, value)
    ensures r == Some(Decoded(value + n * multiplier, i + |EncodeLength(n)|))
    decreases n
  {
    hide DecodeFrom, At;
    if n < 128 {
      LastDigit(payload, offset, i, multiplier, value, n);
    } else {
      var d, longer := n % 128, value + (n % 128) * multiplier;
      AtSplit(payload, offset + i, [128 + d], EncodeLength(n / 128));
      OneDigit(payload, offset, i, multiplier, value, d, longer);
      SplitDigit(n, multiplier);
      DecodeDigits(payload, offset, i + 1, multiplier * 128, longer, n / 128, r);
    }
  }

  /** Decoding undoes encoding for every remaining length, wherever it stands. */
  lemma LengthRoundTrip(payload: Octets, offset: nat, n: nat)
    requires n <= MAX_LENGTH && At(payload, offset, EncodeLength(n))
    ensures Decode(payload, offset) == Some(Decoded(n, |EncodeLength(n)|))
    ensures |EncodeLength(n)| <= 4
  {
    LengthBytes(n);
    DecodeDigits(payload, offset, 0, 1, 0, n, Decode(payload, offset));
  }

  /** On every input: at most four bytes are consumed and the value is in range. */
  lemma DecodeIsBounded(payload: Octets, offset: nat)
    ensures Decode(payload, offset).Some? ==>
      && 1 <= Decode(payload, offset).value.consumed <= 4
      && offset + Decode(payload, offset).value.consumed <= |payload|
      && Decode(payload, offset).value.value <= MAX_LENGTH
  {
    if Decode(payload, offset).Some? {
      var v0 := payload[offset] % 128;
      if payload[offset] >= 128 {
        assert Decode(payload, offset) == DecodeFrom(payload, offset, 1, 128, v0);
        var v1 := v0 + (payload[offset + 1] as int % 128) * 128;
        if payload[offset + 1] >= 128 {
          assert Decode(payload, offset) == DecodeFrom(payload, offset, 2, 16384, v1);
          var v2 := v1 + (payload[offset + 2] as int % 128) * 16384;
          if payload[offset + 2] >= 128 {
            assert Decode(payload, offset) == DecodeFrom(payload, offset, 3, 2097152, v2);
          }
        }
      }
    }
  }

  // ---------------------------------------------------------------- analysis

  function TypeOf(n: nat): Option<PacketType> {
    match n
    case 1 => Some(Connect)
    case 2 => Some(Connack)
    case 3 => Some(Publish)
    case 4 => Some(Puback)
    case 8 => Some(Subscribe)
    case 9 => Some(Suback)
    case 10 => Some(Unsubscribe)
    case 11 => Some(Unsuback)
    case 12 => Some(Pingreq)
    case 13 => Some(Pingresp)
    case 14 => Some(Disconnect)
    case _ => None
  }

  function VersionOf(level: Byte): Option<Version> {
    match level
    case 3 => Some(V31)
    case 4 => Some(V311)
    case 5 => Some(V50)
    case _ => None
  }

  /** The length-prefixed text at `offset`, unless it is cut, empty or not UTF-8. */
  function TextAt(payload: Octets, offset: nat): Option<Octets> {
    if offset + 2 > |payload| then None
    else
      var end := offset + 2 + Be16(payload[offset], payload[offset + 1]);
      if end > |payload| then None
      else
        var text := payload[offset + 2..end];
        if ValidUtf8(text) && text != [] then Some(text) else None
  }

  /** `skip_mqtt5_properties`. */
  function SkipProperties(payload: Octets, offset: nat): nat {
    var d := Decode(payload, offset);
    if d.Some? then offset + d.value.consumed + d.value.value else offset
  }

  /** Version and client id. */
  function ConnectFields(payload: Octets, start: nat): (Option<Version>, Option<Octets>) {
    if start + 2 > |payload| then (None, None)
    else
      var afterName := start + 2 + Be16(payload[start], payload[start + 1]);
      if afterName >= |payload| then (None, None)
      else
        var level := payload[afterName];
        var idStart := if level == 5 then SkipProperties(payload, afterName + 4) else afterName + 4;
        (VersionOf(level), TextAt(payload, idStart))
  }

  function Analysis(payload: Octets): Option<MqttInfo> {
    if |payload| < 2 then None
    else
      var d := Decode(payload, 1);
      var t := TypeOf(payload[0] / 16);
      if d == None || t == None then None
      else
        var start := 1 + d.value.consumed;
        var available := payload[..Min(|payload|, start + d.value.value)];
        match t.value
        case Connect =>
          var (version, clientId) := ConnectFields(available, start);
          Some(MqttInfo(version, Connect, clientId, None, None))
        case Publish =>
          Some(MqttInfo(None, Publish, None, TextAt(available, start), Some((payload[0] % 16) / 2 % 4)))
        case Subscribe => Some(MqttInfo(None, Subscribe, None, None, Some(1)))
        case other => Some(MqttInfo(None, other, None, None, None))
  }

  /** `has_mqtt_protocol_name`. */
  predicate HasProtocolName(payload: Octets) {
    && |payload| >= 8
    && var d := Decode(payload, 1);
       var start := 1 + if d.Some? then d.value.consumed else 1;
       && start + 2 <= |payload|
       && var end := start + 2 + Be16(payload[start], payload[start + 1]);
          && end <= |payload|
          && (payload[start + 2..end] == NAME || payload[start + 2..end] == OLD_NAME)
  }

  /** `is_mqtt_packet`. */
  predicate IsMqttPacket(payload: Octets) {
    && |payload| >= 2
    && var t := payload[0] / 16;
       var flags := payload[0] % 16;
       var d := Decode(payload, 1);
       && 1 <= t <= 14
       && (t in {1, 2, 4, 6, 7, 8, 9, 11, 12, 13, 14} ==> flags == if t == 8 || t == 10 then 2 else 0)
       && d.Some?
       && 1 + d.value.consumed + d.value.value <= |payload| + 4
       && t == 1 && HasProtocolName(payload)
  }

  method ParseConnect(payload: Octets, start: nat, info: MqttInfo) returns (r: MqttInfo)
    requires info.version == None && info.clientId == None
    ensures r == info.(version := ConnectFields(payload, start).0, clientId := ConnectFields(payload, start).1)
  {
    r := info;
    if start + 2 > |payload| {
      return;
    }
    var afterName := start + 2 + Be16(payload[start], payload[start + 1]);
    if afterName >= |payload| {
      return;
    }
    var level := payload[afterName];
    r := r.(version := VersionOf(level));
    var payloadStart := afterName + 4;
    if level == 5 {
      var d := DecodeRemainingLength(payload, payloadStart);
      if d.Some? {
        payloadStart := payloadStart + d.value.consumed + d.value.value;
      }
    }
    r := r.(clientId := TextAt(payload, payloadStart));
  }

  /** `analyze_mqtt`. */
  method AnalyzeMqtt(payload: Octets) returns (r: Option<MqttInfo>)
    ensures r == Analysis(payload)
    ensures IsMqttPacket(payload) ==> r.Some? && r.value.packetType == Connect
  {
    if |payload| < 2 {
      return None;
    }
    var d := DecodeRemainingLength(payload, 1);
    var t := TypeOf(payload[0] / 16);
    if d == None || t == None {
      return None;
    }
    var start := 1 + d.value.consumed;
    var available := payload[..Min(|payload|, start + d.value.value)];
    var info := MqttInfo(None, t.value, None, None, None);
    match t.value {
      case Connect => info := ParseConnect(available, start, info);
      case Publish =>
        info := info.(qos := Some((payload[0] % 16) / 2 % 4), topic := TextAt(available, start));
      case Subscribe => info := info.(qos := Some(1));
      case _ =>
    }
    return Some(info);
  }

  // ---------------------------------------------------------------- encoders and round trips

  function EncodeText(text: Octets): Octets
    requires |text| < 65536
  {
    EncodeBe16(|text|) + text
  }

  function Known(text: Octets): Option<Octets> {
    if ValidUtf8(text) && text != [] then Some(text) else None
  }

  function ProtocolName(level: Byte): Octets {
    if level == 3 then OLD_NAME else NAME
  }

  /** The numbers of the packet types (section 2.2.1) and the protocol levels of the versions. */
  function TypeNumber(t: PacketType): nat {
    match t
    case Connect => 1
    case Connack => 2
    case Publish => 3
    case Puback => 4
    case Subscribe => 8
    case Suback => 9
    case Unsubscribe => 10
    case Unsuback => 11
    case Pingreq => 12
    case Pingresp => 13
    case Disconnect => 14
  }

  function Level(v: Version): Byte {
    match v
    case V31 => 3
    case V311 => 4
    case V50 => 5
  }

  /** `v` is the version of this level, if there is one. */
  predicate VersionAt(v: Option<Version>, level: Byte) {
    if v.Some? then Level(v.value) == level else level !in {3, 4, 5}
  }

  function Properties(level: Byte, properties: Octets): Octets {
    if level == 5 then EncodeLength(|properties|) + properties else []
  }

  /** The parts of a CONNECT body: name; level, flags and keep-alive; properties; client id; the rest. */
  function ConnectBody(level: Byte, control: Octets, properties: Octets, clientId: Octets, rest: Octets): Octets
    requires |clientId| < 65536
  {
    EncodeText(ProtocolName(level))
    + ([level] + control + (Properties(level, properties) + (EncodeText(clientId) + rest)))
  }

  /** A control packet with first byte `first` and the given body. */
  function EncodePacket(first: Byte, body: Octets): Octets {
    [first] + EncodeLength(|body|) + body
  }

  lemma TextRoundTrip(payload: Octets, offset: nat, text: Octets)
    requires |text| < 65536 && At(payload, offset, EncodeText(text))
    ensures offset + 2 <= |payload| && |EncodeText(text)| == 2 + |text|
    ensures TextAt(payload, offset) == Known(text)
    ensures Be16(payload[offset], payload[offset + 1]) == |text|
  {
    hide ValidUtf8;
    AtSplit(payload, offset, EncodeBe16(|text|), text);
    AtIndex(payload, offset, EncodeBe16(|text|), 0);
    AtIndex(payload, offset, EncodeBe16(|text|), 1);
    Be16RoundTrip(|text|);
  }

  /** Whatever follows a packet in the stream, its analysis sees exactly the packet. */
  lemma PacketHead(first: Byte, body: Octets, trailing: Octets)
    requires |body| <= MAX_LENGTH
    ensures var payload := EncodePacket(first, body) + trailing;
      var start := 1 + |EncodeLength(|body|)|;
      && |payload| >= 2 && payload[0] == first
      && Decode(payload, 1) == Some(Decoded(|body|, start - 1))
      && |EncodePacket(first, body)| == start + |body| <= |payload|
      && payload[..start + |body|] == EncodePacket(first, body)
      && At(EncodePacket(first, body), start, body)
      && At(payload, start, body)
  {
    var packet := EncodePacket(first, body);
    var payload := packet + trailing;
    var len := EncodeLength(|body|);
    LengthBytes(|body|);
    assert packet[1 + |len|..] == body;
    assert payload[1..1 + |len|] == len;
    LengthRoundTrip(payload, 1, |body|);
    assert payload[1 + |len|..1 + |len| + |body|] == packet[1 + |len|..];
  }

  lemma ConnectFieldsRoundTrip(packet: Octets, start: nat, level: Byte, control: Octets, properties: Octets,
                               clientId: Octets, rest: Octets)
    requires |clientId| < 65536 && |control| == 3 && |properties| <= MAX_LENGTH
    requires At(packet, start, ConnectBody(level, control, properties, clientId, rest))
    ensures ConnectFields(packet, start) == (VersionOf(level), Known(clientId))
  {
    hide At, ConnectFields, TextAt, EncodeText, Properties, EncodeLength, Decode, ValidUtf8;
    var name := ProtocolName(level);
    var props := Properties(level, properties);
    var afterName := start + |EncodeText(name)|;
    AtSplit(packet, start, EncodeText(name), [level] + control + (props + (EncodeText(clientId) + rest)));
    TextRoundTrip(packet, start, name);
    AtSplit(packet, afterName, [level] + control, props + (EncodeText(clientId) + rest));
    AtIndex(packet, afterName, [level] + control, 0);
    AtSplit(packet, afterName + 4, props, EncodeText(clientId) + rest);
    PropertiesSkipped(packet, afterName + 4, level, properties);
    AtSplit(packet, afterName + 4 + |props|, EncodeText(clientId), rest);
    TextRoundTrip(packet, afterName + 4 + |props|, clientId);
    FieldsUnfold(packet, start, afterName, level, afterName + 4 + |props|);
  }

  lemma PropertiesSkipped(packet: Octets, offset: nat, level: Byte, properties: Octets)
    requires |properties| <= MAX_LENGTH && At(packet, offset, Properties(level, properties))
    ensures (if level == 5 then SkipProperties(packet, offset) else offset)
         == offset + |Properties(level, properties)|
  {
    if level == 5 {
      AtSplit(packet, offset, EncodeLength(|properties|), properties);
      LengthRoundTrip(packet, offset, |properties|);
    }
  }

  lemma FieldsUnfold(packet: Octets, start: nat, afterName: nat, level: Byte, idStart: nat)
    requires start + 2 <= |packet| && afterName == start + 2 + Be16(packet[start], packet[start + 1]) < |packet|
    requires level == packet[afterName]
    requires idStart == if level == 5 then SkipProperties(packet, afterName + 4) else afterName + 4
    ensures ConnectFields(packet, start) == (VersionOf(level), TextAt(packet, idStart))
  {
    hide TextAt, SkipProperties;
  }

  /** CONNECT at every level, with any properties block at level 5, any body after the client id
      and anything behind the packet: it is recognised, and analysed to its version and client id. */
  lemma ConnectRoundTrip(level: Byte, control: Octets, properties: Octets, clientId: Octets, rest: Octets,
                         trailing: Octets)
    requires |clientId| < 65536 && |control| == 3 && |properties| <= MAX_LENGTH
    requires |ConnectBody(level, control, properties, clientId, rest)| <= MAX_LENGTH
    ensures var payload := EncodePacket(0x10, ConnectBody(level, control, properties, clientId, rest)) + trailing;
      var r := Analysis(payload);
      && r.Some? && VersionAt(r.value.version, level)
      && r.value == MqttInfo(r.value.version, Connect, Known(clientId), None, None)
      && IsMqttPacket(payload)
  {
    hide At, ConnectFields, HasProtocolName, Decode, EncodeLength, EncodePacket, ConnectBody;
    var body := ConnectBody(level, control, properties, clientId, rest);
    var packet := EncodePacket(0x10, body);
    var payload := packet + trailing;
    PacketHead(0x10, body, trailing);
    var start := 1 + |EncodeLength(|body|)|;
    ConnectFieldsRoundTrip(packet, start, level, control, properties, clientId, rest);
    NameIsSeen(payload, start, level, control, properties, clientId, rest);
  }

  lemma NameIsSeen(payload: Octets, start: nat, level: Byte, control: Octets, properties: Octets,
                   clientId: Octets, rest: Octets)
    requires |clientId| < 65536 && |control| == 3
    requires Decode(payload, 1).Some? && start == 1 + Decode(payload, 1).value.consumed
    requires At(payload, start, ConnectBody(level, control, properties, clientId, rest))
    ensures HasProtocolName(payload)
  {
    var name := ProtocolName(level);
    var others := [level] + control + (Properties(level, properties) + (EncodeText(clientId) + rest));
    AtSplit(payload, start, EncodeText(name), others);
    TextRoundTrip(payload, start, name);
    AtSplit(payload, start, EncodeBe16(|name|), name);
  }

  /** PUBLISH with any flags, topic and content, and anything behind the packet. */
  lemma PublishRoundTrip(flags: nat, topic: Octets, rest: Octets, trailing: Octets)
    requires flags < 16 && |topic| < 65536 && |EncodeText(topic) + rest| <= MAX_LENGTH
    ensures Analysis(EncodePacket(0x30 + flags, EncodeText(topic) + rest) + trailing)
         == Some(MqttInfo(None, Publish, None, Known(topic), Some(flags / 2 % 4)))
  {
    var body := EncodeText(topic) + rest;
    var packet := EncodePacket(0x30 + flags, body);
    PacketHead(0x30 + flags, body, trailing);
    var start := 1 + |EncodeLength(|body|)|;
    AtSplit(packet, start, EncodeText(topic), rest);
    TextRoundTrip(packet, start, topic);
  }

  /** Every other packet, with any flags and body, gives its type and nothing of its body; a SUBSCRIBE counts
      as quality of service 1. The types between, of the longer handshake of PUBLISH, are not analysed. */
  lemma OtherRoundTrip(number: nat, flags: nat, body: Octets, trailing: Octets)
    requires number < 16 && flags < 16 && |body| <= MAX_LENGTH
    requires number !in {TypeNumber(Connect), TypeNumber(Publish)}
    ensures var r := Analysis(EncodePacket(16 * number + flags, body) + trailing);
      && (r == None <==> number in {0, 5, 6, 7, 15})
      && (r.Some? ==>
            && TypeNumber(r.value.packetType) == number
            && r.value == MqttInfo(None, r.value.packetType, None, None,
                                   if r.value.packetType == Subscribe then Some(1) else None))
  {
    hide Decode, EncodePacket;
    PacketHead(16 * number + flags, body, trailing);
    assert (16 * number + flags) / 16 == number;
  }

  // ---------------------------------------------------------------- recognition

  /** The length-prefixed "MQTT" or "MQIsdp" (section 3.1.2.1) stands at `offset`. */
  predicate NameAt(payload: Octets, offset: nat) {
    || At(payload, offset, [0, 4, 0x4d, 0x51, 0x54, 0x54])
    || At(payload, offset, [0, 6, 0x4d, 0x51, 0x49, 0x73, 0x64, 0x70])
  }

  lemma TextStands(payload: Octets, offset: nat, text: Octets)
    requires |text| < 256
    ensures At(payload, offset, [0, |text|] + text)
       <==> && offset + 2 <= |payload| && Be16(payload[offset], payload[offset + 1]) == |text|
            && offset + 2 + |text| <= |payload| && payload[offset + 2..offset + 2 + |text|] == text
  {
    var end := offset + 2 + |text|;
    if end <= |payload| {
      assert payload[offset..end] == [payload[offset], payload[offset + 1]] + payload[offset + 2..end];
      var head := payload[offset..end];
      assert head[..2] == [payload[offset], payload[offset + 1]] && head[2..] == payload[offset + 2..end];
      assert ([0, |text|] + text)[..2] == [0, |text|] && ([0, |text|] + text)[2..] == text;
    }
  }

  lemma NameStands(payload: Octets, offset: nat)
    ensures NameAt(payload, offset)
       <==> && offset + 2 <= |payload|
            && var end := offset + 2 + Be16(payload[offset], payload[offset + 1]);
               && end <= |payload|
               && (payload[offset + 2..end] == NAME || payload[offset + 2..end] == OLD_NAME)
  {
    hide At, Be16;
    TextStands(payload, offset, NAME);
    TextStands(payload, offset, OLD_NAME);
    assert [0, 4] + NAME == [0, 4, 0x4d, 0x51, 0x54, 0x54];
    assert [0, 6] + OLD_NAME == [0, 6, 0x4d, 0x51, 0x49, 0x73, 0x64, 0x70];
  }

  /** On every input: MQTT is recognised exactly by a CONNECT without flags, a length that runs at most four
      bytes past the data, and the protocol name. */
  lemma RecognisedIff(payload: Octets)
    ensures IsMqttPacket(payload)
       <==> && payload != [] && payload[0] == 0x10
            && var d := Decode(payload, 1);
               && d.Some? && 1 + d.value.consumed + d.value.value <= |payload| + 4
               && NameAt(payload, 1 + d.value.consumed)
  {
    hide NameAt, At;
    if Decode(payload, 1).Some? {
      DecodeIsBounded(payload, 1);
      hide Decode;
      var start := 1 + Decode(payload, 1).value.consumed;
      NameStands(payload, start);
      NameIsLong(payload, start);
    }
  }

  lemma NameIsLong(payload: Octets, offset: nat)
    ensures NameAt(payload, offset) ==> |payload| >= offset + 6
  {
  }
}
