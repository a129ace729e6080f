/** What counts as text: UTF-8 by its encoder (RFC 3629, section 3) against the reader's byte patterns. */
module Utf8 {
  import opened Bytes

  type Scalar = c: nat | c < 0xd800 || 0xe000 <= c < 0x11_0000

  function EncodeScalar(c: Scalar): Octets {
    if c < 0x80 then [c]
    else if c < 0x800 then [0xc0 + c / 64, 0x80 + c % 64]
    else if c < 0x1_0000 then [0xe0 + c / 4096, 0x80 + c / 64 % 64, 0x80 + c % 64]
    else [0xf0 + c / 262144, 0x80 + c / 4096 % 64, 0x80 + c / 64 % 64, 0x80 + c % 64]
  }

  function Encode(cs: seq<Scalar>): Octets {
    if cs == [] then [] else EncodeScalar(cs[0]) + Encode(cs[1..])
  }

  lemma HeadOfScalar(c: Scalar, rest: Octets)
    ensures 0 < |EncodeScalar(c)| == Utf8Head(EncodeScalar(c) + rest)
  {
    var s := EncodeScalar(c) + rest;
    assert forall i | 0 <= i < |EncodeScalar(c)| :: s[i] == EncodeScalar(c)[i];
    if 0x800 <= c < 0x1_0000 {
      assert c / 4096 == 0 ==> c / 64 % 64 >= 32;
      assert c / 4096 == 13 ==> c / 64 % 64 < 32;
    } else if c >= 0x1_0000 {
      assert c / 262144 == 0 ==> c / 4096 % 64 >= 16;
      assert c / 262144 == 4 ==> c / 4096 % 64 < 16;
    }
  }

  lemma TwoBytes(x: nat, y: nat)
    requires 2 <= x < 32 && y < 64
    ensures EncodeScalar(64 * x + y) == [0xc0 + x, 0x80 + y]
  {
  }

  lemma ThreeBytes(x: nat, y: nat, z: nat)
    requires x < 16 && y < 64 && z < 64 && (x == 0 ==> y >= 32) && (x == 13 ==> y < 32)
    ensures var c := 4096 * x + 64 * y + z;
      (c < 0xd800 || 0xe000 <= c < 0x1_0000) && EncodeScalar(c) == [0xe0 + x, 0x80 + y, 0x80 + z]
  {
    var c := 4096 * x + 64 * y + z;
    assert c / 64 == 64 * x + y && c / 4096 == x && c % 64 == z;
  }

  lemma FourBytes(x: nat, y: nat, z: nat, w: nat)
    requires x <= 4 && y < 64 && z < 64 && w < 64 && (x == 0 ==> y >= 16) && (x == 4 ==> y < 16)
    ensures var c := 262144 * x + 4096 * y + 64 * z + w;
      0x1_0000 <= c < 0x11_0000 && EncodeScalar(c) == [0xf0 + x, 0x80 + y, 0x80 + z, 0x80 + w]
  {
    var c := 262144 * x + 4096 * y + 64 * z + w;
    assert c / 64 == 4096 * x + 64 * y + z && c / 4096 == 64 * x + y && c / 262144 == x && c % 64 == w;
  }

  lemma ScalarOfHead(s: Octets) returns (c: Scalar)
    requires Utf8Head(s) > 0
    ensures s[..Utf8Head(s)] == EncodeScalar(c)
  {
    hide EncodeScalar;
    var n := Utf8Head(s);
    if n == 1 {
      c := s[0];
      OneByte(s[0]);
      assert s[..1] == [s[0]];
    } else if n == 2 {
      var x: nat, y: nat := s[0] - 0xc0, s[1] - 0x80;
      TwoBytes(x, y);
      c := 64 * x + y;
      assert s[..2] == [s[0], s[1]];
    } else if n == 3 {
      var x: nat, y: nat, z: nat := s[0] - 0xe0, s[1] - 0x80, s[2] - 0x80;
      ThreeBytes(x, y, z);
      c := 4096 * x + 64 * y + z;
      assert s[..3] == [s[0], s[1], s[2]];
    } else {
      var x: nat, y: nat, z: nat, w: nat := s[0] - 0xf0, s[1] - 0x80, s[2] - 0x80, s[3] - 0x80;
      FourBytes(x, y, z, w);
      c := 262144 * x + 4096 * y + 64 * z + w;
      assert s[..4] == [s[0], s[1], s[2], s[3]];
    }
  }

  lemma OneByte(b: Byte)
    requires b < 0x80
    ensures EncodeScalar(b) == [b]
  {
  }

  lemma {:induction false} EncodedIsValid(cs: seq<Scalar>)
    ensures ValidUtf8(Encode(cs))
  {
    if cs == [] {
    } else {
      hide EncodeScalar, Utf8Head;
      HeadOfScalar(cs[0], Encode(cs[1..]));
      EncodedIsValid(cs[1..]);
      assert Encode(cs)[|EncodeScalar(cs[0])|..] == Encode(cs[1..]);
    }
  }

  lemma EncodeMore(c: Scalar, rest: seq<Scalar>)
    ensures Encode([c] + rest) == EncodeScalar(c) + Encode(rest)
  {
    hide EncodeScalar;
    assert ([c] + rest)[1..] == rest;
  }

  lemma Joined(s: Octets, n: nat, a: Octets, b: Octets)
    requires n <= |s| && s[..n] == a && s[n..] == b
    ensures s == a + b
  {
  }

  lemma HeadAndRest(s: Octets)
    requires ValidUtf8(s) && s != []
    ensures Utf8Head(s) > 0 && ValidUtf8(s[Utf8Head(s)..])
  {
    hide Utf8Head;
  }

  lemma {:induction false} ValidIsEncoded(s: Octets) returns (cs: seq<Scalar>)
    requires ValidUtf8(s)
    ensures s == Encode(cs)
    decreases |s|
  {
    if s == [] {
      cs := [];
    } else {
      hide EncodeScalar, Encode, Utf8Head, ValidUtf8;
      var n := Utf8Head(s);
      HeadAndRest(s);
      var c := ScalarOfHead(s);
      var rest := ValidIsEncoded(s[n..]);
      cs := [c] + rest;
      EncodeMore(c, rest);
      Joined(s, n, EncodeScalar(c), Encode(rest));
    }
  }

  /** Exactly the encodings of Unicode scalar values are text: no surrogates, nothing overlong. */
  lemma TextIsEncoded(s: Octets)
    ensures ValidUtf8(s) <==> exists cs: seq<Scalar> :: s == Encode(cs)
  {
    if ValidUtf8(s) {
      var cs := ValidIsEncoded(s);
    }
    forall cs: seq<Scalar> | s == Encode(cs) ensures ValidUtf8(s) {
      EncodedIsValid(cs);
    }
  }
}
