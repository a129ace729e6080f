/** DHCP packets: the fixed header and the option list (RFC 2132). */
module Dhcp {
  import opened Bytes

  const MIN_DHCP_SIZE: nat := 240
  const MAGIC_COOKIE: Octets := [0x63, 0x82, 0x53, 0x63]

  const PAD: Byte := 0
  const HOSTNAME: Byte := 12
  const MESSAGE_TYPE: Byte := 53
  const END: Byte := 255

  datatype MessageType = Discover | Offer | Request | Decline | Ack | Nak | Release | Inform | Unknown(code: Byte)

  datatype DhcpInfo = DhcpInfo(messageType: MessageType, hostname: Option<Octets>, clientMac: Octets)

  function ParseMessageType(v: Byte): MessageType {
    match v
    case 1 => Discover
    case 2 => Offer
    case 3 => Request
    case 4 => Decline
    case 5 => Ack
    case 6 => Nak
    case 7 => Release
    case 8 => Inform
    case _ => Unknown(v)
  }

  /** What the option walk has found so far. */
  datatype Found = Found(messageType: Option<Byte>, hostname: Option<Octets>)

  function Note(f: Found, code: Byte, data: Octets): Found {
    if code == MESSAGE_TYPE && |data| >= 1 then f.(messageType := Some(data[0]))
    else if code == HOSTNAME && ValidUtf8(data) then f.(hostname := Some(data))
    else f
  }

  /** The option walk of `parse_dhcp_options` from `offset` on. */
  function Walk(options: Octets, offset: nat, f: Found): Found
    decreases |options| - offset
  {
    if offset >= |options| || options[offset] == END then f
    else if options[offset] == PAD then Walk(options, offset + 1, f)
    else if offset + 1 >= |options| then f
    else
      var next := offset + 2 + options[offset + 1];
      if next > |options| then f
      else Walk(options, next, Note(f, options[offset], options[offset + 2..next]))
  }

  method ParseOptions(options: Octets) returns (found: Found)
    ensures found == Walk(options, 0, Found(None, None))
  {
    var messageType: Option<Byte> := None;
    var hostname: Option<Octets> := None;
    var offset := 0;
    while offset < |options|
      invariant Walk(options, offset, Found(messageType, hostname)) == Walk(options, 0, Found(None, None))
      decreases |options| - offset
    {
      var code := options[offset];
      if code == END {
        break;
      }
      if code == PAD {
        offset := offset + 1;
        continue;
      }
      if offset + 1 >= |options| {
        break;
      }
      var len := options[offset + 1];
      if offset + 2 + len > |options| {
        break;
      }
      var data := options[offset + 2..offset + 2 + len];
      if code == MESSAGE_TYPE && len >= 1 {
        messageType := Some(data[0]);
      } else if code == HOSTNAME && ValidUtf8(data) {
        hostname := Some(data);
      }
      offset := offset + 2 + len;
    }
    return Found(messageType, hostname);
  }

  function HexDigit(n: nat): Byte
    requires n < 16
  {
    if n < 10 then 0x30 + n else 0x57 + n
  }

  function Hex(b: Byte): Octets {
    [HexDigit(b / 16), HexDigit(b % 16)]
  }

  /** `format_mac`: six bytes in hexadecimal, with colons. */
  function FormatMac(m: Octets): Octets
    requires |m| == 6
  {
    Hex(m[0]) + [0x3a] + Hex(m[1]) + [0x3a] + Hex(m[2]) + [0x3a]
    + Hex(m[3]) + [0x3a] + Hex(m[4]) + [0x3a] + Hex(m[5])
  }

  function HexValue(digit: Byte): nat {
    if digit < 0x3a then Max(digit - 0x30, 0) else Max(digit - 0x57, 0)
  }

  function Max(a: int, b: int): int {
    if a < b then b else a
  }

  /** The `i`-th byte of an address as it is shown. */
  function MacByte(shown: Octets, i: nat): nat
    requires i < 6
  {
    if |shown| == 17 then 16 * HexValue(shown[3 * i]) + HexValue(shown[3 * i + 1]) else 0
  }

  /** Six pairs of hexadecimal digits that give the bytes back, with colons between them. */
  lemma MacRoundTrip(m: Octets, i: nat)
    requires |m| == 6 && i < 6
    ensures |FormatMac(m)| == 17 && MacByte(FormatMac(m), i) == m[i]
    ensures i < 5 ==> FormatMac(m)[3 * i + 2] == 0x3a
  {
    HexRoundTrip(m[i]);
    assert FormatMac(m)[3 * i..3 * i + 2] == Hex(m[i]);
    assert FormatMac(m)[3 * i] == FormatMac(m)[3 * i..3 * i + 2][0];
    assert FormatMac(m)[3 * i + 1] == FormatMac(m)[3 * i..3 * i + 2][1];
  }

  lemma HexRoundTrip(b: Byte)
    ensures 16 * HexValue(Hex(b)[0]) + HexValue(Hex(b)[1]) == b
  {
  }

  function Analysis(payload: Octets): Option<DhcpInfo> {
    if |payload| < MIN_DHCP_SIZE || payload[236..240] != MAGIC_COOKIE then None
    else
      var f := Walk(payload[240..], 0, Found(None, None));
      if f.messageType == None then None
      else Some(DhcpInfo(ParseMessageType(f.messageType.value), f.hostname, FormatMac(payload[28..34])))
  }

  /** `analyze_dhcp`. */
  method AnalyzeDhcp(payload: Octets) returns (r: Option<DhcpInfo>)
    ensures r == Analysis(payload)
  {
    if |payload| < MIN_DHCP_SIZE {
      return None;
    }
    if payload[236..240] != MAGIC_COOKIE {
      return None;
    }
    var clientMac := FormatMac(payload[28..34]);
    var f := ParseOptions(payload[240..]);
    if f.messageType == None {
      return None;
    }
    return Some(DhcpInfo(ParseMessageType(f.messageType.value), f.hostname, clientMac));
  }

  // ---------------------------------------------------------------- option lists

  /** RFC 2132, sections 3 and 9: pad is 0, the host name 12, the message type 53, the end 255. */
  datatype Item = Pad | Opt(code: Byte, data: Octets)

  predicate WellFormed(items: seq<Item>) {
    forall i | 0 <= i < |items| && items[i].Opt? :: 0 < items[i].code < 255 && |items[i].data| < 256
  }

  function EncodeItem(o: Item): Octets
    requires o.Opt? ==> |o.data| < 256
  {
    if o.Pad? then [0] else [o.code, |o.data|] + o.data
  }

  function Encode(items: seq<Item>): Octets
    requires WellFormed(items)
  {
    if items == [] then [] else EncodeItem(items[0]) + Encode(items[1..])
  }

  /** What may follow the list: nothing, END and anything, or an option cut short. */
  predicate Ends(tail: Octets) {
    || tail == [] || tail[0] == 255
    || (tail[0] != 0 && (|tail| == 1 || |tail| < 2 + tail[1] as int))
  }

  predicate NamesType(o: Item) {
    o.Opt? && o.code == 53 && o.data != []
  }

  predicate NamesHost(o: Item) {
    o.Opt? && o.code == 12 && ValidUtf8(o.data)
  }

  /** `i` is the last item that satisfies `p`. */
  ghost predicate IsLast(items: seq<Item>, p: Item -> bool, i: nat) {
    i < |items| && p(items[i]) && forall j | i < j < |items| :: !p(items[j])
  }

  /** The last non-empty message type and the last valid hostname, if there are any. */
  ghost predicate LastOnes(items: seq<Item>, f: Found) {
    && (f.messageType == None <==> forall j | 0 <= j < |items| :: !NamesType(items[j]))
    && (f.messageType.Some? ==> exists i: nat :: IsLast(items, NamesType, i)
                                  && NamesType(items[i]) && items[i].data[0] == f.messageType.value)
    && (f.hostname == None <==> forall j | 0 <= j < |items| :: !NamesHost(items[j]))
    && (f.hostname.Some? ==> exists i: nat :: IsLast(items, NamesHost, i)
                               && NamesHost(items[i]) && items[i].data == f.hostname.value)
  }

  function Apply(f: Found, o: Item): Found {
    if o.Pad? then f else Note(f, o.code, o.data)
  }

  function Collected(items: seq<Item>): Found {
    if items == [] then Found(None, None)
    else Apply(Collected(items[..|items| - 1]), items[|items| - 1])
  }

  lemma {:induction false} CollectedIsLast(items: seq<Item>)
    ensures LastOnes(items, Collected(items))
  {
    if items == [] {
    } else {
      var front := items[..|items| - 1];
      CollectedIsLast(front);
      LastOnesStep(front, items[|items| - 1], Collected(front));
      assert items == front + [items[|items| - 1]];
    }
  }

  lemma LastExtends(front: seq<Item>, o: Item, p: Item -> bool, i: nat)
    ensures p(o) ==> IsLast(front + [o], p, |front|)
    ensures !p(o) && IsLast(front, p, i) ==> IsLast(front + [o], p, i)
  {
  }

  lemma LastOnesStep(front: seq<Item>, o: Item, f: Found)
    requires LastOnes(front, f)
    ensures LastOnes(front + [o], Apply(f, o))
  {
    var items := front + [o];
    assert items[|front|] == o && forall j | 0 <= j < |front| :: items[j] == front[j];
    LastExtends(front, o, NamesType, 0);
    LastExtends(front, o, NamesHost, 0);
    if f.messageType.Some? && !NamesType(o) {
      var i: nat :| IsLast(front, NamesType, i) && NamesType(front[i]) && front[i].data[0] == f.messageType.value;
      LastExtends(front, o, NamesType, i);
      assert IsLast(items, NamesType, i) && items[i] == front[i];
    }
    if f.hostname.Some? && !NamesHost(o) {
      var i: nat :| IsLast(front, NamesHost, i) && NamesHost(front[i]) && front[i].data == f.hostname.value;
      LastExtends(front, o, NamesHost, i);
      assert IsLast(items, NamesHost, i) && items[i] == front[i];
    }
  }

  /** One item is one step of the walk. */
  lemma WalkItem(o: Item, options: Octets, offset: nat, f: Found)
    requires o.Opt? ==> 0 < o.code < 255 && |o.data| < 256
    requires At(options, offset, EncodeItem(o))
    ensures Walk(options, offset, f) == Walk(options, offset + |EncodeItem(o)|, Apply(f, o))
  {
    AtIndex(options, offset, EncodeItem(o), 0);
    if o.Opt? {
      AtIndex(options, offset, EncodeItem(o), 1);
      AtSplit(options, offset, [o.code, |o.data|], o.data);
    }
  }

  lemma CollectedStep(done: seq<Item>, o: Item)
    ensures Collected(done + [o]) == Apply(Collected(done), o)
  {
    hide Apply;
    assert (done + [o])[..|done|] == done;
  }

  lemma ListHead(items: seq<Item>, options: Octets, offset: nat)
    requires items != [] && WellFormed(items) && At(options, offset, Encode(items))
    ensures At(options, offset, EncodeItem(items[0]))
    ensures At(options, offset + |EncodeItem(items[0])|, Encode(items[1..]))
    ensures |Encode(items)| == |EncodeItem(items[0])| + |Encode(items[1..])|
  {
    hide At, EncodeItem;
    AtSplit(options, offset, EncodeItem(items[0]), Encode(items[1..]));
  }

  lemma {:induction false} WalkItems(done: seq<Item>, items: seq<Item>, options: Octets, offset: nat, r: Found)
    requires WellFormed(items) && At(options, offset, Encode(items))
    requires r == Walk(options, offset, Collected(done))
    ensures r == Walk(options, offset + |Encode(items)|, Collected(done + items))
    decreases |items|
  {
    hide Walk, Collected, EncodeItem, At, Apply;
    if items == [] {
      assert done + items == done;
    } else {
      var o, rest := items[0], items[1..];
      ListHead(items, options, offset);
      WalkItem(o, options, offset, Collected(done));
      CollectedStep(done, o);
      WalkItems(done + [o], rest, options, offset + |EncodeItem(o)|, r);
      assert done + [o] + rest == done + items;
    }
  }

  lemma WalkStops(options: Octets, end: nat, tail: Octets, f: Found)
    requires end <= |options| && options[end..] == tail && Ends(tail)
    ensures Walk(options, end, f) == f
  {
    assert tail != [] ==> options[end] == tail[0];
    assert |tail| > 1 ==> options[end + 1] == tail[1];
  }

  /** Every option list, with pads, followed by END and anything, by nothing, or by a cut option:
      the walk finds its last non-empty message type and its last valid hostname. */
  lemma OptionsRoundTrip(items: seq<Item>, tail: Octets)
    requires WellFormed(items) && Ends(tail)
    ensures LastOnes(items, Walk(Encode(items) + tail, 0, Found(None, None)))
  {
    hide Walk, LastOnes, Encode, Ends;
    var options := Encode(items) + tail;
    assert At(options, 0, Encode(items));
    WalkItems([], items, options, 0, Walk(options, 0, Collected([])));
    assert [] + items == items;
    WalkStops(options, |Encode(items)|, tail, Collected(items));
    CollectedIsLast(items);
  }

  /** The message types by their codes (RFC 2132, section 9.6). */
  predicate IsMessage(t: MessageType, code: Byte) {
    match t
    case Discover => code == 1
    case Offer => code == 2
    case Request => code == 3
    case Decline => code == 4
    case Ack => code == 5
    case Nak => code == 6
    case Release => code == 7
    case Inform => code == 8
    case Unknown(c) => c == code && !(1 <= code <= 8)
  }

  /** A whole packet: fixed header with the cookie, then such a list. */
  lemma PacketRoundTrip(header: Octets, items: seq<Item>, tail: Octets)
    requires |header| == 240 && header[236..240] == [0x63, 0x82, 0x53, 0x63]
    requires WellFormed(items) && Ends(tail)
    ensures var r := Analysis(header + (Encode(items) + tail));
      var f := Walk(Encode(items) + tail, 0, Found(None, None));
      && LastOnes(items, f)
      && (r == None <==> forall j | 0 <= j < |items| :: !NamesType(items[j]))
      && (r.Some? ==> f.messageType.Some? && IsMessage(r.value.messageType, f.messageType.value)
                      && r.value.hostname == f.hostname)
      && (r.Some? ==> forall i | 0 <= i < 6 :: MacByte(r.value.clientMac, i) == header[28 + i])
  {
    hide Walk, Encode, FormatMac, MacByte, ParseMessageType, IsMessage, LastOnes, WellFormed, Ends;
    var payload := header + (Encode(items) + tail);
    assert payload[236..240] == header[236..240];
    assert payload[28..34] == header[28..34];
    forall i | 0 <= i < 6 ensures MacByte(FormatMac(header[28..34]), i) == header[28 + i] {
      MacRoundTrip(header[28..34], i);
    }
    assert payload[240..] == Encode(items) + tail;
    OptionsRoundTrip(items, tail);
    var f := Walk(Encode(items) + tail, 0, Found(None, None));
    TypeIsThere(items, f);
    if f.messageType.Some? {
      MessageOfCode(f.messageType.value);
    }
  }

  lemma TypeIsThere(items: seq<Item>, f: Found)
    requires LastOnes(items, f)
    ensures f.messageType == None <==> forall j | 0 <= j < |items| :: !NamesType(items[j])
  {
  }

  lemma MessageOfCode(code: Byte)
    ensures IsMessage(ParseMessageType(code), code)
  {
  }
}
