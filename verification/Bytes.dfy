/** Bytes, big-endian integers and UTF-8, shared by the parsers and the reassembler.
    A Rust `String` or `&str` is modelled by its bytes. */
module Bytes {

  datatype Option<+T> = None | Some(value: T)

  type Byte = b: int | 0 <= b < 256

  type Octets = seq<Byte>

  /** `u16::from_be_bytes` of two bytes. */
  function Be16(hi: Byte, lo: Byte): nat {
    256 * hi + lo
  }

  function EncodeBe16(n: nat): Octets
    requires n < 65536
  {
    [n / 256, n % 256]
  }

  lemma Be16RoundTrip(n: nat)
    requires n < 65536
    ensures |EncodeBe16(n)| == 2
    ensures Be16(EncodeBe16(n)[0], EncodeBe16(n)[1]) == n
  {
  }

  function Min(a: int, b: int): int {
    if a < b then a else b
  }

  predicate Continuation(b: Byte) {
    0x80 <= b <= 0xbf
  }

  /** Length of the well-formed UTF-8 sequence at the head of `s`, or 0 when there is none
      (The Unicode Standard, table 3-7). */
  function Utf8Head(s: Octets): (n: nat)
    ensures n <= |s|
  {
    if s == [] then 0
    else if s[0] < 0x80 then 1
    else if |s| >= 2 && 0xc2 <= s[0] <= 0xdf && Continuation(s[1]) then 2
    else if |s| >= 3 && 0xe0 <= s[0] <= 0xef
         && (if s[0] == 0xe0 then 0xa0 <= s[1] <= 0xbf
             else if s[0] == 0xed then 0x80 <= s[1] <= 0x9f
             else Continuation(s[1]))
         && Continuation(s[2]) then 3
    else if |s| >= 4 && 0xf0 <= s[0] <= 0xf4
         && (if s[0] == 0xf0 then 0x90 <= s[1] <= 0xbf
             else if s[0] == 0xf4 then 0x80 <= s[1] <= 0x8f
             else Continuation(s[1]))
         && Continuation(s[2]) && Continuation(s[3]) then 4
    else 0
  }

  /** `std::str::from_utf8(s).is_ok()`. */
  predicate ValidUtf8(s: Octets)
    decreases |s|
  {
    s == [] || (Utf8Head(s) > 0 && ValidUtf8(s[Utf8Head(s)..]))
  }

  lemma {:induction false} AsciiIsUtf8(s: Octets)
    requires forall b :: b in s ==> b < 0x80
    ensures ValidUtf8(s)
  {
    if s == [] {
    } else {
      assert s[0] in s && Utf8Head(s) == 1;
      forall b | b in s[1..] ensures b in s {}
      AsciiIsUtf8(s[1..]);
    }
  }

  /** `bytes` stands in `data` at `offset`. */
  predicate At(data: Octets, offset: nat, bytes: Octets) {
    offset + |bytes| <= |data| && data[offset..offset + |bytes|] == bytes
  }

  lemma AtSplit(data: Octets, offset: nat, a: Octets, b: Octets)
    requires At(data, offset, a + b)
    ensures At(data, offset, a) && At(data, offset + |a|, b)
  {
    var whole := data[offset..offset + |a + b|];
    assert whole[..|a|] == a && whole[|a|..] == b;
    assert data[offset..offset + |a|] == whole[..|a|];
    assert data[offset + |a|..offset + |a| + |b|] == whole[|a|..];
  }

  lemma AtIndex(data: Octets, offset: nat, bytes: Octets, i: nat)
    requires At(data, offset, bytes) && i < |bytes|
    ensures data[offset + i] == bytes[i]
  {
    assert data[offset..offset + |bytes|][i] == data[offset + i];
  }
}
