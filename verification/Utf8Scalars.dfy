/** Well-formed texts are the encodings of Unicode scalar values, as in table 3-6 of the Unicode Standard. */
module Utf8Scalars {
  import opened Base32
  import opened Utf8

  predicate IsScalar(c: nat) {
    c < 0xd800 || 0xe000 <= c < 0x110000
  }

  function Encoding(c: nat): Text
    requires IsScalar(c)
  {
    if c < 0x80 then [c]
    else if c < 0x800 then [0xc0 + c / 0x40, 0x80 + c % 0x40]
    else if c < 0x10000 then [0xe0 + c / 0x1000, 0x80 + c / 0x40 % 0x40, 0x80 + c % 0x40]
    else [0xf0 + c / 0x40000, 0x80 + c / 0x1000 % 0x40, 0x80 + c / 0x40 % 0x40, 0x80 + c % 0x40]
  }

  function Encodings(cs: seq<nat>): Text
    requires forall i :: 0 <= i < |cs| ==> IsScalar(cs[i])
  {
    if cs == [] then [] else Encoding(cs[0]) + Encodings(cs[1..])
  }

  lemma EncodingIsGood(c: nat)
    requires IsScalar(c)
    ensures var s := Encoding(c); HeadIsGood(s) && GoodPrefix(s) == |s|
  {
    if 0x800 <= c < 0x10000 {
      ThreeBytes(c / 0x1000, c / 0x40 % 0x40, c % 0x40, c);
    } else if 0x10000 <= c {
      FourBytes(c / 0x40000, c / 0x1000 % 0x40, c / 0x40 % 0x40, c % 0x40, c);
    }
  }

  lemma ThreeBytes(a: nat, b: nat, d: nat, c: nat)
    requires 0x800 <= c < 0x10000 && IsScalar(c) && a == c / 0x1000 && b == c / 0x40 % 0x40 && d == c % 0x40
    ensures a < 0x10 && b < 0x40 && d < 0x40 && c == 0x1000 * a + 0x40 * b + d
    ensures SecondFits(0xe0 + a, 0x80 + b)
  {}

  lemma FourBytes(a: nat, b: nat, d: nat, e: nat, c: nat)
    requires 0x10000 <= c < 0x110000
    requires a == c / 0x40000 && b == c / 0x1000 % 0x40 && d == c / 0x40 % 0x40 && e == c % 0x40
    ensures a < 5 && b < 0x40 && d < 0x40 && e < 0x40 && c == 0x40000 * a + 0x1000 * b + 0x40 * d + e
    ensures SecondFits(0xf0 + a, 0x80 + b)
  {}

  /** Every good head is the encoding of a scalar value. */
  lemma GoodHeadIsEncoding(s: Text) returns (c: nat)
    requires s != [] && HeadIsGood(s)
    ensures IsScalar(c) && Encoding(c) == s[..GoodPrefix(s)]
  {
    match GoodPrefix(s)
    case 1 => c := s[0];
    case 2 => c := TwoByteScalar(s[0], s[1]);
    case 3 => c := ThreeByteScalar(s[0], s[1], s[2]);
    case _ => c := FourByteScalar(s[0], s[1], s[2], s[3]);
  }

  lemma TwoByteScalar(x: byte, y: byte) returns (c: nat)
    requires LengthByLead(x) == 2 && SecondFits(x, y)
    ensures IsScalar(c) && Encoding(c) == [x, y]
  {
    c := 0x40 * (x - 0xc0) + (y - 0x80);
  }

  lemma ThreeByteScalar(x: byte, y: byte, z: byte) returns (c: nat)
    requires LengthByLead(x) == 3 && SecondFits(x, y) && IsContinuation(z)
    ensures IsScalar(c) && Encoding(c) == [x, y, z]
  {
    c := 0x1000 * (x - 0xe0) + 0x40 * (y - 0x80) + (z - 0x80);
  }

  lemma FourDigits(a: nat, b: nat, d: nat, e: nat, c: nat)
    requires b < 0x40 && d < 0x40 && e < 0x40 && c == 0x40000 * a + 0x1000 * b + 0x40 * d + e
    ensures c / 0x40000 == a && c / 0x1000 % 0x40 == b && c / 0x40 % 0x40 == d && c % 0x40 == e
  {
    assert c / 0x40 == 0x1000 * a + 0x40 * b + d;
    assert c / 0x1000 == 0x40 * a + b;
  }

  lemma FourByteScalar(x: byte, y: byte, z: byte, u: byte) returns (c: nat)
    requires LengthByLead(x) == 4 && SecondFits(x, y) && IsContinuation(z) && IsContinuation(u)
    ensures IsScalar(c) && Encoding(c) == [x, y, z, u]
  {
    var a: nat, b: nat, d: nat, e: nat := x - 0xf0, y - 0x80, z - 0x80, u - 0x80;
    c := 0x40000 * a + 0x1000 * b + 0x40 * d + e;
    FourDigits(a, b, d, e, c);
  }

  lemma {:induction false} EncodingsAreValid(cs: seq<nat>)
    requires forall i :: 0 <= i < |cs| ==> IsScalar(cs[i])
    ensures Valid(Encodings(cs))
  {
    if cs != [] {
      EncodingIsGood(cs[0]);
      EncodingsAreValid(cs[1..]);
      var head, rest := Encoding(cs[0]), Encodings(cs[1..]);
      GoodHeadOfConcat(head, rest);
      assert (head + rest)[|head|..] == rest;
    }
  }

  lemma {:induction false} ValidIsEncodings(s: Text) returns (cs: seq<nat>)
    requires Valid(s)
    ensures (forall i :: 0 <= i < |cs| ==> IsScalar(cs[i])) && Encodings(cs) == s
  {
    if s == [] {
      cs := [];
    } else {
      var n := GoodPrefix(s);
      var c := GoodHeadIsEncoding(s);
      var rest := ValidIsEncodings(s[n..]);
      cs := [c] + rest;
      assert cs[1..] == rest;
      assert s == s[..n] + s[n..];
    }
  }

  ghost predicate IsEncoded(s: Text) {
    exists cs: seq<nat> :: (forall i :: 0 <= i < |cs| ==> IsScalar(cs[i])) && Encodings(cs) == s
  }

  /** A byte sequence is well-formed if and only if it encodes some scalar values. */
  lemma ValidExactly(s: Text)
    ensures Valid(s) <==> IsEncoded(s)
  {
    if Valid(s) {
      var cs := ValidIsEncodings(s);
    }
    if IsEncoded(s) {
      var cs: seq<nat> :| (forall i :: 0 <= i < |cs| ==> IsScalar(cs[i])) && Encodings(cs) == s;
      EncodingsAreValid(cs);
    }
  }

  /** A byte that can start nothing becomes the replacement character, and reading goes on behind it. */
  lemma BadByteIsReplaced(b: byte, rest: Text)
    requires 0x80 <= b < 0xc2 || b >= 0xf5
    ensures Lossy([b] + rest) == Encoding(0xfffd) + Lossy(rest)
  {
    assert ([b] + rest)[1..] == rest;
  }
}
