/** Percent-encoding of paths, sections 2.1 and 2.3 of RFC 3986, and of form data. */
module Percent {
  import opened Wrappers
  import opened Base32

  const SLASH: byte := '/' as int
  const PERCENT: byte := '%' as int
  const PLUS: byte := '+' as int
  const SPACE: byte := ' ' as int

  predicate IsAlphanumeric(b: byte) {
    || '0' as int <= b <= '9' as int
    || 'A' as int <= b <= 'Z' as int
    || 'a' as int <= b <= 'z' as int
  }

  predicate IsUnreserved(b: byte) {
    IsAlphanumeric(b) || b == '-' as int || b == '.' as int || b == '_' as int || b == '~' as int
  }

  function HexDigit(n: nat): byte
    requires n < 16
  {
    if n < 10 then '0' as int + n else 'A' as int + (n - 10)
  }

  function HexValue(b: byte): Option<nat> {
    if '0' as int <= b <= '9' as int then Some(b - '0' as int)
    else if 'A' as int <= b <= 'F' as int then Some(b - 'A' as int + 10)
    else if 'a' as int <= b <= 'f' as int then Some(b - 'a' as int + 10)
    else None
  }

  function Escape(b: byte): Text {
    [PERCENT, HexDigit(b / 16), HexDigit(b % 16)]
  }

  /** The byte that an escape at the start of `s` stands for. */
  function Unescape(s: Text): Option<byte> {
    if |s| < 3 || s[0] != PERCENT then None
    else
      match (HexValue(s[1]), HexValue(s[2]))
      case (Some(a), Some(b)) => if a < 16 && b < 16 then Some(16 * a + b) else None
      case _ => None
  }

  lemma UnescapeEscape(b: byte, rest: Text)
    ensures Unescape(Escape(b) + rest) == Some(b)
  {}

  // Paths

  function EncodeByte(b: byte): Text {
    if IsUnreserved(b) then [b] else Escape(b)
  }

  function PercentEncode(s: Text): Text {
    if s == [] then [] else EncodeByte(s[0]) + PercentEncode(s[1..])
  }

  /** Percent-encoding of every path component, the slashes kept. */
  function EncodePath(s: Text): Text {
    if s == [] then [] else (if s[0] == SLASH then [SLASH] else EncodeByte(s[0])) + EncodePath(s[1..])
  }

  /** Decoding; a malformed escape has no result in this model. */
  function PercentDecode(s: Text): Option<Text> {
    if s == [] then Some([])
    else if s[0] == PERCENT then
      match Unescape(s)
      case None => None
      case Some(b) => Prepend(b, PercentDecode(s[3..]))
    else Prepend(s[0], PercentDecode(s[1..]))
  }

  function Prepend(b: byte, rest: Option<Text>): Option<Text> {
    match rest
    case Some(t) => Some([b] + t)
    case None => None
  }

  lemma {:induction false} DecodeEncodedPath(s: Text)
    ensures PercentDecode(EncodePath(s)) == Some(s)
  {
    if s != [] {
      DecodeEncodedPath(s[1..]);
      var rest := EncodePath(s[1..]);
      if s[0] == SLASH || IsUnreserved(s[0]) {
        assert ([s[0]] + rest)[1..] == rest;
      } else {
        UnescapeEscape(s[0], rest);
        assert (Escape(s[0]) + rest)[3..] == rest;
      }
      assert s == [s[0]] + s[1..];
    }
  }

  lemma {:induction false} EncodePathWithoutSlash(s: Text)
    requires SLASH !in s
    ensures EncodePath(s) == PercentEncode(s)
  {
    if s != [] {
      EncodePathWithoutSlash(s[1..]);
    }
  }

  lemma {:induction false} EncodePathConcat(a: Text, b: Text)
    ensures EncodePath(a + b) == EncodePath(a) + EncodePath(b)
  {
    if a == [] {
      assert a + b == b;
    } else {
      assert (a + b)[1..] == a[1..] + b;
      EncodePathConcat(a[1..], b);
    }
  }

  // Form data: section 5 of the WHATWG URL Standard

  predicate IsFormSafe(b: byte) {
    IsAlphanumeric(b) || b == '*' as int || b == '-' as int || b == '.' as int || b == '_' as int
  }

  function FormEncode(s: Text): Text {
    if s == [] then []
    else
      (if IsFormSafe(s[0]) then [s[0]] else if s[0] == SPACE then [PLUS] else Escape(s[0])) + FormEncode(s[1..])
  }

  /** Pluses become spaces and escapes their bytes; a malformed escape stays as it is. */
  function FormDecode(s: Text): Text {
    if s == [] then []
    else if s[0] == PLUS then [SPACE] + FormDecode(s[1..])
    else
      match Unescape(s)
      case Some(b) => [b] + FormDecode(s[3..])
      case None => [s[0]] + FormDecode(s[1..])
  }

  lemma {:induction false} FormDecodeEncode(s: Text)
    ensures FormDecode(FormEncode(s)) == s
  {
    if s != [] {
      FormDecodeEncode(s[1..]);
      var rest := FormEncode(s[1..]);
      if IsFormSafe(s[0]) {
        assert ([s[0]] + rest)[1..] == rest;
      } else if s[0] == SPACE {
        assert ([PLUS] + rest)[1..] == rest;
      } else {
        UnescapeEscape(s[0], rest);
        assert (Escape(s[0]) + rest)[3..] == rest;
      }
      assert s == [s[0]] + s[1..];
    }
  }

  predicate IsFormByte(b: byte) {
    IsFormSafe(b) || b == PLUS || b == PERCENT
  }

  lemma {:induction false} FormEncodeBytes(s: Text)
    ensures forall i :: 0 <= i < |FormEncode(s)| ==> IsFormByte(FormEncode(s)[i])
  {
    if s != [] {
      FormEncodeBytes(s[1..]);
    }
  }
}
