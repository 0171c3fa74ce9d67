/**
 * Query strings as key and value pairs: section 5 of the WHATWG URL Standard, read through a URL
 * with a special scheme as its section 4 prescribes.
 */
module QueryString {
  import opened Base32
  import opened Percent
  import Splitting
  import Utf8

  type Pair = (Text, Text)

  const AMPERSAND: byte := '&' as int
  const EQUALS: byte := '=' as int
  const HASH: byte := '#' as int

  // The query part of the URL that a query string is pasted into

  function TrimEnd(s: Text): Text {
    if s != [] && s[|s| - 1] <= 0x20 then TrimEnd(s[..|s| - 1]) else s
  }

  function DropTabsAndNewlines(s: Text): Text {
    if s == [] then []
    else (if s[0] == 9 || s[0] == 10 || s[0] == 13 then [] else [s[0]]) + DropTabsAndNewlines(s[1..])
  }

  predicate IsQueryEscaped(b: byte) {
    b <= 0x20 || b >= 0x7f || b == '\"' as int || b == HASH || b == '<' as int || b == '>' as int || b == '\'' as int
  }

  function EscapeQuery(s: Text): Text {
    if s == [] then [] else (if IsQueryEscaped(s[0]) then Escape(s[0]) else [s[0]]) + EscapeQuery(s[1..])
  }

  function UrlQuery(raw: Text): Text {
    EscapeQuery(Splitting.Split(DropTabsAndNewlines(TrimEnd(raw)), HASH)[0])
  }

  // Pairs

  function DecodeText(s: Text): (t: Text)
    ensures Utf8.Valid(t)
  {
    Utf8.LossyIsValid(FormDecode(s));
    Utf8.Lossy(FormDecode(s))
  }

  function ParsePair(s: Text): Pair {
    var parts := Splitting.Split(s, EQUALS);
    (DecodeText(parts[0]), DecodeText(Splitting.Join(parts[1..], EQUALS)))
  }

  function ParseParts(parts: seq<Text>): seq<Pair> {
    if parts == [] then []
    else (if parts[0] == [] then [] else [ParsePair(parts[0])]) + ParseParts(parts[1..])
  }

  /** The unescaped pairs of a query string. */
  function Pairs(raw: Text): seq<Pair> {
    ParseParts(Splitting.Split(UrlQuery(raw), AMPERSAND))
  }

  function SerializePair(p: Pair): Text {
    FormEncode(p.0) + [EQUALS] + FormEncode(p.1)
  }

  function SerializeAll(ps: seq<Pair>): seq<Text> {
    if ps == [] then [] else [SerializePair(ps[0])] + SerializeAll(ps[1..])
  }

  function Serialize(ps: seq<Pair>): Text {
    Splitting.Join(SerializeAll(ps), AMPERSAND)
  }

  /** The pairs hold text, which in the source is always well-formed. */
  ghost predicate ValidPairs(ps: seq<Pair>) {
    forall i :: 0 <= i < |ps| ==> Utf8.Valid(ps[i].0) && Utf8.Valid(ps[i].1)
  }

  // What is serialized is read back unchanged

  ghost predicate Plain(s: Text) {
    forall i :: 0 <= i < |s| ==> IsFormByte(s[i]) || s[i] == EQUALS || s[i] == AMPERSAND
  }

  lemma {:induction false} DropKeepsPlain(s: Text)
    requires Plain(s)
    ensures DropTabsAndNewlines(s) == s
  {
    if s != [] {
      DropKeepsPlain(s[1..]);
    }
  }

  lemma {:induction false} EscapeKeepsPlain(s: Text)
    requires Plain(s)
    ensures EscapeQuery(s) == s
  {
    if s != [] {
      EscapeKeepsPlain(s[1..]);
    }
  }

  lemma UrlQueryKeepsPlain(s: Text)
    requires Plain(s)
    ensures UrlQuery(s) == s
  {
    DropKeepsPlain(s);
    Splitting.SplitWithoutSeparator(s, HASH);
    EscapeKeepsPlain(s);
  }

  lemma SerializedPairIsPlain(p: Pair)
    ensures Plain(SerializePair(p)) && AMPERSAND !in SerializePair(p)
  {
    FormEncodeBytes(p.0);
    FormEncodeBytes(p.1);
  }

  lemma {:induction false} SerializedIsPlain(ps: seq<Pair>)
    ensures Plain(Serialize(ps)) && Splitting.Free(SerializeAll(ps), AMPERSAND)
  {
    if ps != [] {
      SerializedPairIsPlain(ps[0]);
      SerializedIsPlain(ps[1..]);
      assert SerializeAll(ps)[1..] == SerializeAll(ps[1..]);
    }
  }

  lemma DecodeEncodedText(s: Text)
    requires Utf8.Valid(s)
    ensures DecodeText(FormEncode(s)) == s
  {
    FormDecodeEncode(s);
    Utf8.LossyKeepsValid(s);
  }

  lemma ParseSerializedPair(p: Pair)
    requires Utf8.Valid(p.0) && Utf8.Valid(p.1)
    ensures ParsePair(SerializePair(p)) == p
  {
    var k, v := FormEncode(p.0), FormEncode(p.1);
    FormEncodeBytes(p.0);
    Splitting.SplitAtFirst(k, v, EQUALS);
    Splitting.JoinSplit(v, EQUALS);
    assert Splitting.Split(k + [EQUALS] + v, EQUALS)[1..] == Splitting.Split(v, EQUALS);
    DecodeEncodedText(p.0);
    DecodeEncodedText(p.1);
  }

  lemma {:induction false} ParseSerializedParts(ps: seq<Pair>)
    requires ValidPairs(ps)
    ensures ParseParts(SerializeAll(ps)) == ps
  {
    if ps != [] {
      ParseSerializedPair(ps[0]);
      ParseSerializedParts(ps[1..]);
      assert SerializeAll(ps)[1..] == SerializeAll(ps[1..]);
      assert ps == [ps[0]] + ps[1..];
    }
  }

  lemma PairsOfSerialized(ps: seq<Pair>)
    requires ValidPairs(ps)
    ensures Pairs(Serialize(ps)) == ps
  {
    SerializedIsPlain(ps);
    UrlQueryKeepsPlain(Serialize(ps));
    if ps == [] {
      var none: Text := [];
      assert Serialize(ps) == none;
      Splitting.SplitWithoutSeparator(none, AMPERSAND);
      assert ParseParts([none][1..]) == [];
    } else {
      Splitting.SplitJoin(SerializeAll(ps), AMPERSAND);
      ParseSerializedParts(ps);
    }
  }

  lemma {:induction false} ParsedPartsAreValid(parts: seq<Text>)
    ensures ValidPairs(ParseParts(parts))
  {
    if parts != [] {
      ParsedPartsAreValid(parts[1..]);
    }
  }

  lemma PairsAreValid(raw: Text)
    ensures ValidPairs(Pairs(raw))
  {
    ParsedPartsAreValid(Splitting.Split(UrlQuery(raw), AMPERSAND));
  }

  // Setting one key

  function Without(ps: seq<Pair>, key: Text): seq<Pair> {
    if ps == [] then []
    else (if ps[0].0 == key then [] else [ps[0]]) + Without(ps[1..], key)
  }

  function ValuesOf(ps: seq<Pair>, key: Text): seq<Text> {
    if ps == [] then []
    else (if ps[0].0 == key then [ps[0].1] else []) + ValuesOf(ps[1..], key)
  }

  lemma {:induction false} ValuesOfConcat(a: seq<Pair>, b: seq<Pair>, key: Text)
    ensures ValuesOf(a + b, key) == ValuesOf(a, key) + ValuesOf(b, key)
  {
    if a == [] {
      assert a + b == b;
    } else {
      assert (a + b)[1..] == a[1..] + b;
      ValuesOfConcat(a[1..], b, key);
    }
  }
}
