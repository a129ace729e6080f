/** DNS messages: the header bits and the first question (RFC 1035, section 4.1). */
module Dns {
  import opened Bytes

  /** RFC 1035, section 2.3.4. */
  const MAX_DNS_NAME_LEN: nat := 253

  const DOT: Byte := 0x2e

  /** The query type is kept as its code; the table of type names is not part of this model.
      `response_ips` stays empty. */
  datatype DnsInfo = DnsInfo(queryName: Option<Octets>, queryType: Option<nat>, isResponse: bool)

  /** The name read so far and where reading stopped. */
  datatype NameRead = NameRead(name: Octets, offset: nat)

  function WithDot(name: Octets): Octets {
    if name == [] then name else name + [DOT]
  }

  function WithLabel(name: Octets, text: Octets): Octets {
    WithDot(name) + if ValidUtf8(text) then text else []
  }

  /** What the label loop makes of the bytes from `offset` on. */
  function ReadName(payload: Octets, offset: nat, name: Octets): NameRead
    decreases |payload| - offset
  {
    if offset >= |payload| then NameRead(name, offset)
    else
      var len := payload[offset];
      if len == 0 then NameRead(name, offset + 1)
      else if len >= 0xc0 then NameRead(name, offset + 2)
      else if offset + 1 + len > |payload| then NameRead(name, offset)
      else
        var name' := WithLabel(name, payload[offset + 1..offset + 1 + len]);
        if |name'| > MAX_DNS_NAME_LEN then NameRead(name', offset)
        else ReadName(payload, offset + 1 + len, name')
  }

  function Analysis(payload: Octets): Option<DnsInfo> {
    if |payload| < 12 then None
    else
      var isResponse := Be16(payload[2], payload[3]) >= 0x8000;
      if Be16(payload[4], payload[5]) == 0 then Some(DnsInfo(None, None, isResponse))
      else
        var r := ReadName(payload, 12, []);
        Some(DnsInfo(
          if r.name == [] then None else Some(r.name),
          if r.offset + 2 <= |payload| then Some(Be16(payload[r.offset], payload[r.offset + 1])) else None,
          isResponse))
  }

  lemma NextLabel(payload: Octets, offset: nat, name: Octets)
    requires offset < |payload|
    ensures var len := payload[offset];
      ReadName(payload, offset, name)
      == if len == 0 then NameRead(name, offset + 1)
         else if len >= 0xc0 then NameRead(name, offset + 2)
         else if offset + 1 + len > |payload| then NameRead(name, offset)
         else
           var name' := WithLabel(name, payload[offset + 1..offset + 1 + len]);
           if |name'| > MAX_DNS_NAME_LEN then NameRead(name', offset) else ReadName(payload, offset + 1 + len, name')
  {
    hide WithLabel;
  }

  lemma NoLabel(payload: Octets, offset: nat, name: Octets)
    requires offset >= |payload|
    ensures ReadName(payload, offset, name) == NameRead(name, offset)
  {
  }

  /** The label loop of `analyze_dns`. */
  method ParseName(payload: Octets) returns (name: Octets, offset: nat)
    ensures NameRead(name, offset) == ReadName(payload, 12, [])
  {
    hide ReadName, WithLabel;
    offset, name := 12, [];
    while offset < |payload|
      invariant ReadName(payload, offset, name) == ReadName(payload, 12, [])
      decreases |payload| - offset
    {
      NextLabel(payload, offset, name);
      var labelLen := payload[offset];
      if labelLen == 0 {
        return name, offset + 1;
      }
      if labelLen >= 0xc0 {
        return name, offset + 2;
      }
      if offset + 1 + labelLen > |payload| {
        return;
      }
      name := AppendLabel(name, payload[offset + 1..offset + 1 + labelLen]);
      if |name| > MAX_DNS_NAME_LEN {
        return;
      }
      offset := offset + 1 + labelLen;
    }
    NoLabel(payload, offset, name);
  }

  method AppendLabel(name: Octets, text: Octets) returns (longer: Octets)
    ensures longer == WithLabel(name, text)
  {
    longer := name;
    if longer != [] {
      longer := longer + [DOT];
    }
    if ValidUtf8(text) {
      longer := longer + text;
    }
  }

  /** `analyze_dns`. */
  method AnalyzeDns(payload: Octets) returns (r: Option<DnsInfo>)
    ensures r == Analysis(payload)
  {
    if |payload| < 12 {
      return None;
    }
    var info := DnsInfo(None, None, Be16(payload[2], payload[3]) / 0x8000 == 1);
    if Be16(payload[4], payload[5]) > 0 {
      var name, offset := ParseName(payload);
      if name != [] {
        info := info.(queryName := Some(name));
      }
      if offset + 2 <= |payload| {
        info := info.(queryType := Some(Be16(payload[offset], payload[offset + 1])));
      }
    }
    return Some(info);
  }

  // ---------------------------------------------------------------- questions

  /** Labels of 1 to 63 bytes of text (RFC 1035, section 3.1). */
  predicate WellFormed(labels: seq<Octets>) {
    forall i | 0 <= i < |labels| :: 1 <= |labels[i]| <= 63 && ValidUtf8(labels[i])
  }

  /** How a name ends: with the root label, or with a pointer to an earlier name (section 4.1.4), which is
      not followed. */
  datatype Ending = Root | Pointer(hi: Byte, lo: Byte)

  function EncodeEnding(e: Ending): Octets {
    match e
    case Root => [0]
    case Pointer(hi, lo) => [hi, lo]
  }

  predicate WellFormedEnding(e: Ending) {
    e.Pointer? ==> e.hi >= 0xc0
  }

  /** The labels, each behind its length. */
  function EncodeLabels(labels: seq<Octets>): Octets
    requires WellFormed(labels)
  {
    if labels == [] then [] else [|labels[0]|] + labels[0] + EncodeLabels(labels[1..])
  }

  /** The dotted form: labels joined by dots. */
  function Dotted(labels: seq<Octets>): Octets {
    if labels == [] then []
    else if |labels| == 1 then labels[0]
    else labels[0] + [DOT] + Dotted(labels[1..])
  }

  /** What the reader makes of `labels` after it has read `name`. */
  function Joined(name: Octets, labels: seq<Octets>): Octets {
    if labels == [] then name else WithDot(name) + Dotted(labels)
  }

  lemma ReadLabel(l: Octets, payload: Octets, offset: nat, name: Octets)
    requires 1 <= |l| <= 63 && At(payload, offset, [|l|] + l) && |WithLabel(name, l)| <= 253
    ensures ReadName(payload, offset, name) == ReadName(payload, offset + 1 + |l|, WithLabel(name, l))
  {
    hide WithLabel;
    AtIndex(payload, offset, [|l|] + l, 0);
    AtSplit(payload, offset, [|l|], l);
    assert payload[offset + 1..offset + 1 + |l|] == l;
  }

  lemma ReadEnding(e: Ending, payload: Octets, offset: nat, name: Octets)
    requires WellFormedEnding(e) && At(payload, offset, EncodeEnding(e))
    ensures ReadName(payload, offset, name) == NameRead(name, offset + |EncodeEnding(e)|)
  {
    AtIndex(payload, offset, EncodeEnding(e), 0);
  }

  lemma NameHead(labels: seq<Octets>, payload: Octets, offset: nat)
    requires labels != [] && WellFormed(labels) && At(payload, offset, EncodeLabels(labels))
    ensures At(payload, offset, [|labels[0]|] + labels[0])
    ensures At(payload, offset + 1 + |labels[0]|, EncodeLabels(labels[1..]))
    ensures |EncodeLabels(labels)| == 1 + |labels[0]| + |EncodeLabels(labels[1..])|
  {
    hide At, EncodeLabels, WellFormed;
    FirstLabel(labels);
    HeadAndRest(payload, offset, EncodeLabels(labels), [|labels[0]|] + labels[0], EncodeLabels(labels[1..]));
  }

  lemma HeadAndRest(payload: Octets, offset: nat, all: Octets, head: Octets, rest: Octets)
    requires all == head + rest && At(payload, offset, all)
    ensures At(payload, offset, head) && At(payload, offset + |head|, rest)
  {
    hide At;
    AtSplit(payload, offset, head, rest);
  }

  lemma FirstLabel(labels: seq<Octets>)
    requires labels != [] && WellFormed(labels)
    ensures WellFormed(labels[1..]) && 1 <= |labels[0]| <= 63
    ensures EncodeLabels(labels) == [|labels[0]|] + labels[0] + EncodeLabels(labels[1..])
  {
    hide ValidUtf8;
  }

  lemma {:induction false} ReadLabels(labels: seq<Octets>, payload: Octets, offset: nat, name: Octets, full: Octets,
                                      r: NameRead)
    requires WellFormed(labels) && At(payload, offset, EncodeLabels(labels))
    requires full == Joined(name, labels) && |full| <= 253
    requires r == ReadName(payload, offset, name)
    ensures r == ReadName(payload, offset + |EncodeLabels(labels)|, full)
    decreases |labels|
  {
    hide ReadName, At, WithLabel, Dotted, WithDot, ValidUtf8;
    if labels == [] {
    } else {
      var l, rest := labels[0], labels[1..];
      NameHead(labels, payload, offset);
      assert [l] + rest == labels;
      JoinStep(name, l, rest);
      ReadLabel(l, payload, offset, name);
      ReadLabels(rest, payload, offset + 1 + |l|, WithLabel(name, l), full, r);
    }
  }

  lemma JoinStep(name: Octets, l: Octets, rest: seq<Octets>)
    requires l != [] && ValidUtf8(l)
    ensures Joined(name, [l] + rest) == Joined(WithLabel(name, l), rest)
    ensures |WithLabel(name, l)| <= |Joined(name, [l] + rest)|
  {
    if rest != [] {
      assert ([l] + rest)[1..] == rest;
      assert Joined(name, [l] + rest) == WithDot(name) + (l + [DOT] + Dotted(rest));
      assert WithDot(name) + (l + [DOT] + Dotted(rest)) == (WithDot(name) + l) + [DOT] + Dotted(rest);
    }
  }

  /** Whatever stands at the end of the labels, it is read with their dotted form known. */
  lemma LabelsAreRead(header: Octets, labels: seq<Octets>, tail: Octets)
    requires |header| == 12 && WellFormed(labels) && |Dotted(labels)| <= 253
    ensures var payload, end := header + EncodeLabels(labels) + tail, 12 + |EncodeLabels(labels)|;
      && ReadName(payload, 12, []) == ReadName(payload, end, Dotted(labels))
      && |payload| == end + |tail| && payload[end..] == tail
      && forall i | 0 <= i < 12 :: payload[i] == header[i]
  {
    hide ReadName, EncodeLabels, Dotted, Joined, WellFormed;
    var payload, end := header + EncodeLabels(labels) + tail, 12 + |EncodeLabels(labels)|;
    assert payload[12..end] == EncodeLabels(labels);
    JoinedFromNothing(labels);
    ReadLabels(labels, payload, 12, [], Dotted(labels), ReadName(payload, 12, []));
  }

  /** Every question whose labels are text of 1 to 63 bytes and whose dotted form has at most 253: the
      analysis returns that form, the type if both its bytes are there, and the QR bit, whatever else the
      header says and whatever follows. */
  lemma QuestionRoundTrip(header: Octets, labels: seq<Octets>, e: Ending, rest: Octets)
    requires |header| == 12 && Be16(header[4], header[5]) > 0
    requires WellFormed(labels) && |Dotted(labels)| <= 253 && WellFormedEnding(e)
    ensures Analysis(header + EncodeLabels(labels) + (EncodeEnding(e) + rest))
         == Some(DnsInfo(if labels == [] then None else Some(Dotted(labels)),
                         if |rest| >= 2 then Some(Be16(rest[0], rest[1])) else None,
                         header[2] >= 0x80))
  {
    hide ReadName, EncodeLabels, EncodeEnding, Dotted, WellFormed;
    var tail := EncodeEnding(e) + rest;
    var payload, end := header + EncodeLabels(labels) + tail, 12 + |EncodeLabels(labels)|;
    LabelsAreRead(header, labels, tail);
    assert payload[end..][..|EncodeEnding(e)|] == EncodeEnding(e);
    assert At(payload, end, EncodeEnding(e));
    ReadEnding(e, payload, end, Dotted(labels));
    assert payload[end..][|EncodeEnding(e)|..] == rest;
    DottedIsNotEmpty(labels);
  }

  /** A message cut inside a label, or before it: the whole labels are reported as the name; and when the
      label's length and first byte are there, these two are taken for the query type. */
  lemma QuestionCut(header: Octets, labels: seq<Octets>, l: Octets, n: nat)
    requires |header| == 12 && Be16(header[4], header[5]) > 0
    requires WellFormed(labels) && |Dotted(labels)| <= 253 && 1 <= |l| <= 63 && n <= |l|
    ensures Analysis(header + EncodeLabels(labels) + ([|l|] + l)[..n])
         == Some(DnsInfo(if labels == [] then None else Some(Dotted(labels)),
                         if n >= 2 then Some(Be16(|l|, l[0])) else None,
                         header[2] >= 0x80))
  {
    hide ReadName, EncodeLabels, Dotted, ValidUtf8;
    var tail := ([|l|] + l)[..n];
    var payload, end := header + EncodeLabels(labels) + tail, 12 + |EncodeLabels(labels)|;
    LabelsAreRead(header, labels, tail);
    assert n > 0 ==> payload[end] == payload[end..][0] == |l|;
    assert n > 1 ==> payload[end + 1] == payload[end..][1] == l[0];
    ReadCut(payload, end, Dotted(labels));
    DottedIsNotEmpty(labels);
  }

  lemma ReadCut(payload: Octets, offset: nat, name: Octets)
    requires offset < |payload| ==> 0 < payload[offset] < 0xc0 && offset + 1 + payload[offset] > |payload|
    ensures ReadName(payload, offset, name) == NameRead(name, offset)
  {
  }

  /** Without a question there is the QR bit, and without a header nothing. */
  lemma HeaderOnly(payload: Octets)
    ensures Analysis(payload) == None <==> |payload| < 12
    ensures |payload| >= 12 && payload[4] == payload[5] == 0 ==>
              Analysis(payload) == Some(DnsInfo(None, None, payload[2] >= 0x80))
  {
    hide ReadName;
  }

  lemma JoinedFromNothing(labels: seq<Octets>)
    ensures Joined([], labels) == Dotted(labels)
  {
    assert WithDot([]) + Dotted(labels) == Dotted(labels);
  }

  lemma DottedIsNotEmpty(labels: seq<Octets>)
    requires WellFormed(labels)
    ensures Dotted(labels) == [] <==> labels == []
  {
  }

  /** On every input a name is cut at most one label past the limit. */
  lemma {:induction false} NameIsBounded(payload: Octets, offset: nat, name: Octets)
    requires |name| <= MAX_DNS_NAME_LEN
    ensures |ReadName(payload, offset, name).name| <= 253 + 1 + 191
    ensures |ReadName(payload, offset, name).name| <= |name| + |payload| - Min(offset, |payload|)
    decreases |payload| - offset
  {
    if offset < |payload| && 0 < payload[offset] < 0xc0 && offset + 1 + payload[offset] <= |payload| {
      var next := offset + 1 + payload[offset];
      var name' := WithLabel(name, payload[offset + 1..next]);
      if |name'| <= MAX_DNS_NAME_LEN {
        NameIsBounded(payload, next, name');
      }
    }
  }
}
