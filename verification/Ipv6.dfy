/** The walk over IPv6 extension headers to the upper-layer protocol. */
module Ipv6 {
  import opened Bytes

  const HOP_BY_HOP: Byte := 0
  const ROUTING: Byte := 43
  const FRAGMENT: Byte := 44
  const AUTHENTICATION: Byte := 51
  const DESTINATION_OPTIONS: Byte := 60

  predicate IsOptions(p: Byte) {
    p == HOP_BY_HOP || p == ROUTING || p == DESTINATION_OPTIONS
  }

  /** The protocols the walk steps over; ESP (50) ends it like any other. */
  predicate IsExtension(p: Byte) {
    IsOptions(p) || p == FRAGMENT || p == AUTHENTICATION
  }

  /** Bytes that must be there for the walk to step over a header. */
  function Needed(p: Byte): nat {
    if p == FRAGMENT then 8 else 2
  }

  /** Length of the header at `offset`. */
  function HeaderLength(p: Byte, data: Octets, offset: nat): nat
    requires IsExtension(p) && offset + Needed(p) <= |data|
  {
    if p == FRAGMENT then 8
    else if p == AUTHENTICATION then (data[offset + 1] as int + 2) * 4
    else (data[offset + 1] as int + 1) * 8
  }

  /** Where a walk ends and how many headers it stepped over. */
  datatype Walked = Walked(protocol: Byte, offset: nat, headers: nat)

  function Walk(p: Byte, data: Octets, offset: nat, headers: nat): Walked
    decreases |data| - offset
  {
    if !IsExtension(p) || offset + Needed(p) > |data| then Walked(p, offset, headers)
    else
      var next := offset + HeaderLength(p, data, offset);
      if next >= |data| then Walked(data[offset], next, headers + 1)
      else Walk(data[offset], data, next, headers + 1)
  }

  /** `parse_ipv6_extension_headers`. */
  method ParseExtensionHeaders(first: Byte, data: Octets) returns (protocol: Byte, offset: nat)
    ensures protocol == Walk(first, data, 0, 0).protocol && offset == Walk(first, data, 0, 0).offset
  {
    protocol, offset := first, 0;
    ghost var headers := 0;
    while true
      invariant Walk(protocol, data, offset, headers) == Walk(first, data, 0, 0)
      decreases |data| - offset
    {
      var headerLen: nat;
      if protocol == HOP_BY_HOP || protocol == ROUTING || protocol == DESTINATION_OPTIONS {
        if |data| < offset + 2 {
          return;
        }
        headerLen := (data[offset + 1] as int + 1) * 8;
      } else if protocol == FRAGMENT {
        if |data| < offset + 8 {
          return;
        }
        headerLen := 8;
      } else if protocol == AUTHENTICATION {
        if |data| < offset + 2 {
          return;
        }
        headerLen := (data[offset + 1] as int + 2) * 4;
      } else {
        return;
      }
      protocol, offset, headers := data[offset], offset + headerLen, headers + 1;
      if offset >= |data| {
        return;
      }
    }
  }

  /** On every input: each header moves the offset by at least eight, and the walk ends less than
      one longest header past the data. */
  lemma {:induction false} WalkGrows(p: Byte, data: Octets, offset: nat, headers: nat)
    requires offset <= |data|
    ensures var w := Walk(p, data, offset, headers);
      && headers <= w.headers && offset + 8 * (w.headers - headers) <= w.offset < |data| + 2048
    decreases |data| - offset
  {
    if IsExtension(p) && offset + Needed(p) <= |data| {
      var next := offset + HeaderLength(p, data, offset);
      if next < |data| {
        WalkGrows(data[offset], data, next, headers + 1);
      }
    }
  }

  // ---------------------------------------------------------------- chains of headers

  /** A header: its protocol number and its bytes after the next-header byte. */
  datatype Header = Header(kind: Byte, rest: Octets)

  /** RFC 8200, section 4, and RFC 4302, section 2.2: the length byte counts eight-octet units after the
      first in hop-by-hop options (0), routing (43) and destination options (60), or four-octet units after
      the second in authentication (51); a fragment header (44) has eight octets. */
  predicate WellFormed(h: Header) {
    && h.kind in {0, 43, 44, 51, 60} && |h.rest| >= 7
    && (h.kind in {0, 43, 60} ==> |h.rest| + 1 == (h.rest[0] as int + 1) * 8)
    && (h.kind == 44 ==> |h.rest| == 7)
    && (h.kind == 51 ==> |h.rest| + 1 == (h.rest[0] as int + 2) * 4)
  }

  function FirstProtocol(chain: seq<Header>, upper: Byte): Byte {
    if chain == [] then upper else chain[0].kind
  }

  function Encode(chain: seq<Header>, upper: Byte): Octets {
    if chain == [] then []
    else [FirstProtocol(chain[1..], upper)] + chain[0].rest + Encode(chain[1..], upper)
  }

  /** After the chain the walk is over: the upper protocol is no extension header, or what
      follows is too short to be one. */
  predicate Stops(upper: Byte, payload: Octets) {
    upper !in {0, 43, 44, 51, 60} || |payload| < if upper == 44 then 8 else 2
  }

  /** One well-formed header is one step of the walk. */
  lemma WalkHeader(h: Header, next: Byte, data: Octets, offset: nat, headers: nat)
    requires WellFormed(h) && At(data, offset, [next] + h.rest)
    ensures Walk(h.kind, data, offset, headers) == Walk(next, data, offset + 1 + |h.rest|, headers + 1)
  {
    AtIndex(data, offset, [next] + h.rest, 0);
    AtIndex(data, offset, [next] + h.rest, 1);
    assert HeaderLength(h.kind, data, offset) == 1 + |h.rest|;
  }

  lemma ChainHead(chain: seq<Header>, upper: Byte, data: Octets, offset: nat)
    requires chain != [] && At(data, offset, Encode(chain, upper))
    ensures At(data, offset, [FirstProtocol(chain[1..], upper)] + chain[0].rest)
    ensures At(data, offset + 1 + |chain[0].rest|, Encode(chain[1..], upper))
    ensures |Encode(chain, upper)| == 1 + |chain[0].rest| + |Encode(chain[1..], upper)|
  {
    AtSplit(data, offset, [FirstProtocol(chain[1..], upper)] + chain[0].rest, Encode(chain[1..], upper));
  }

  lemma {:induction false} WalkChain(chain: seq<Header>, upper: Byte, data: Octets, offset: nat, headers: nat,
                                     end: nat, total: nat, r: Walked)
    requires forall i | 0 <= i < |chain| :: WellFormed(chain[i])
    requires At(data, offset, Encode(chain, upper))
    requires end == offset + |Encode(chain, upper)| && total == headers + |chain|
    requires r == Walk(FirstProtocol(chain, upper), data, offset, headers)
    ensures r == Walk(upper, data, end, total)
    decreases |chain|
  {
    hide Walk, At;
    if chain == [] {
      assert end == offset && total == headers;
    } else {
      ChainHead(chain, upper, data, offset);
      WalkHeader(chain[0], FirstProtocol(chain[1..], upper), data, offset, headers);
      WalkChain(chain[1..], upper, data, offset + 1 + |chain[0].rest|, headers + 1, end, total, r);
    }
  }

  lemma WalkPasses(p: Byte, data: Octets, offset: nat, headers: nat)
    requires IsExtension(p) && offset + Needed(p) <= |data|
    ensures Walk(p, data, offset, headers).offset > offset
  {
    WalkGrows(p, data, offset, headers);
    var next := offset + HeaderLength(p, data, offset);
    if next < |data| {
      WalkGrows(data[offset], data, next, headers + 1);
    }
  }

  /** For every chain of extension headers and whatever follows it, the walk finds exactly the
      upper-layer protocol and the sum of the header lengths if, and only if, what follows does
      not look like one more extension header. */
  lemma ChainRoundTrip(chain: seq<Header>, upper: Byte, payload: Octets)
    requires forall i | 0 <= i < |chain| :: WellFormed(chain[i])
    ensures var w := Walk(FirstProtocol(chain, upper), Encode(chain, upper) + payload, 0, 0);
      (w.protocol == upper && w.offset == |Encode(chain, upper)|) <==> Stops(upper, payload)
  {
    var data := Encode(chain, upper) + payload;
    assert At(data, 0, Encode(chain, upper));
    WalkChain(chain, upper, data, 0, 0, |Encode(chain, upper)|, |chain|, Walk(FirstProtocol(chain, upper), data, 0, 0));
    if !Stops(upper, payload) {
      WalkPasses(upper, data, |Encode(chain, upper)|, |chain|);
    }
  }

  /** A packet cut inside the header after a chain: with too little of it to tell its length the walk stays
      at that header, else it takes the protocol the header names and ends past the data. */
  lemma CutChain(chain: seq<Header>, h: Header, next: Byte, n: nat)
    requires (forall i | 0 <= i < |chain| :: WellFormed(chain[i])) && WellFormed(h) && n <= |h.rest|
    ensures var whole := Encode(chain, h.kind);
      var w := Walk(FirstProtocol(chain, h.kind), whole + ([next] + h.rest)[..n], 0, 0);
      (w.protocol, w.offset) == if n < (if h.kind == 44 then 8 else 2) then (h.kind, |whole|)
                                else (next, |whole| + 1 + |h.rest|)
  {
    hide Walk, Encode, WellFormed;
    var whole, part := Encode(chain, h.kind), ([next] + h.rest)[..n];
    var data := whole + part;
    assert At(data, 0, whole) && data[|whole|..] == part;
    WalkChain(chain, h.kind, data, 0, 0, |whole|, |chain|, Walk(FirstProtocol(chain, h.kind), data, 0, 0));
    CutHeader(h, next, data, |whole|, |chain|, n);
  }

  lemma CutHeader(h: Header, next: Byte, data: Octets, offset: nat, headers: nat, n: nat)
    requires WellFormed(h) && n <= |h.rest| && offset <= |data| && data[offset..] == ([next] + h.rest)[..n]
    ensures var w := Walk(h.kind, data, offset, headers);
      (w.protocol, w.offset) == if n < (if h.kind == 44 then 8 else 2) then (h.kind, offset)
                                else (next, offset + 1 + |h.rest|)
  {
    assert |data| == offset + n;
    if n >= 2 {
      assert data[offset] == data[offset..][0] && data[offset + 1] == data[offset..][1];
    }
  }
}
