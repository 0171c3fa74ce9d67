/** Whole names of XOR-URLs: sub names, a dot, and the layout in a self-describing base-32 text. */
module XorUrlName {
  import opened Wrappers
  import opened Base32
  import opened Splitting
  import opened MediaTypes
  import opened XorLayout
  import opened HostNames

  // Self-describing texts: the first character tells the base

  function BaseCode(a: Alphabet): byte {
    match a
    case ZBase32 => 'h' as int
    case Rfc4648Lower => 'b' as int
  }

  datatype Base = Known(alphabet: Alphabet) | Other(code: byte)

  /** Decoding of the bases that are not part of this model, by base code. */
  type Foreign = (byte, Text) -> Option<seq<byte>>

  function BaseEncode(a: Alphabet, bytes: seq<byte>): Text {
    [BaseCode(a)] + Encode(a, bytes)
  }

  function BaseDecode(foreign: Foreign, s: Text): Option<(Base, seq<byte>)> {
    if s == [] then None
    else
      var base := if s[0] == BaseCode(ZBase32) then Known(ZBase32)
                  else if s[0] == BaseCode(Rfc4648Lower) then Known(Rfc4648Lower)
                  else Other(s[0]);
      var bytes := match base
        case Known(a) => Decode(a, s[1..])
        case Other(code) => foreign(code, s[1..]);
      if bytes.Some? then Some((base, bytes.value)) else None
  }

  lemma BaseRoundTrip(foreign: Foreign, a: Alphabet, bytes: seq<byte>)
    ensures BaseDecode(foreign, BaseEncode(a, bytes)) == Some((Known(a), bytes))
  {
    DecodeEncode(a, bytes);
    assert BaseEncode(a, bytes)[1..] == Encode(a, bytes);
  }

  lemma KnownBase(foreign: Foreign, a: Alphabet, s: Text)
    requires BaseDecode(foreign, s).Some? && BaseDecode(foreign, s).value.0 == Known(a)
    ensures s != [] && s[0] == BaseCode(a) && Decode(a, s[1..]) == Some(BaseDecode(foreign, s).value.1)
  {}

  /** No text in a modelled base is a second spelling of the same bytes. */
  lemma BaseIsCanonical(foreign: Foreign, a: Alphabet, s: Text)
    requires BaseDecode(foreign, s).Some? && BaseDecode(foreign, s).value.0 == Known(a)
    ensures BaseEncode(a, BaseDecode(foreign, s).value.1) == s
  {
    KnownBase(foreign, a, s);
    Respelled(a, s, BaseDecode(foreign, s).value.1);
  }

  lemma Respelled(a: Alphabet, s: Text, bytes: seq<byte>)
    requires s != [] && s[0] == BaseCode(a) && Decode(a, s[1..]) == Some(bytes)
    ensures BaseEncode(a, bytes) == s
  {
    EncodeDecode(a, s[1..]);
    assert s == [s[0]] + s[1..];
  }

  // Names

  datatype XorUrl = XorUrl(target: Target, subNames: seq<Text>)

  function TopName(m: Tables, t: Target, a: Alphabet): Text
    requires ContentCode(m, t.contentType).Ok?
  {
    BaseEncode(a, Layout(m, t))
  }

  function NameToBase(m: Tables, u: XorUrl, a: Alphabet): Text
    requires ContentCode(m, u.target.contentType).Ok?
  {
    var subNames := Join(u.subNames, DOT);
    subNames + (if subNames == [] then [] else [DOT]) + TopName(m, u.target, a)
  }

  predicate HasDoubleDot(s: Text) {
    exists i :: 0 <= i < |s| - 1 && s[i] == DOT && s[i + 1] == DOT
  }

  datatype NameParts = NameParts(subNames: seq<Text>, topName: Text)

  /** The checks and the splitting of a host name; label sizes are not limited for XOR-URLs. */
  function ParseName(host: Text): Result<NameParts, Error> {
    if HasDoubleDot(host) then Err(EmptySubName)
    else if |host| > MAX_NAME_LENGTH then Err(NameTooLong)
    else
      var names := Split(host, DOT);
      Ok(NameParts(names[..|names| - 1], names[|names| - 1]))
  }

  function FromHost(m: Tables, foreign: Foreign, host: Text): Result<XorUrl, Error> {
    match ParseName(host)
    case Err(e) => Err(e)
    case Ok(parts) =>
      match BaseDecode(foreign, parts.topName)
      case None => Err(NotDecodable)
      case Some((_, bytes)) =>
        match ReadLayout(m, bytes)
        case Err(e) => Err(e)
        case Ok(target) => if [] in parts.subNames then Err(EmptySubName) else Ok(XorUrl(target, parts.subNames))
  }

  /** A name as it stands in a URL: first the host is found in it. */
  function FromName(m: Tables, foreign: Foreign, name: Text): Result<XorUrl, Error> {
    match HostOf(name)
    case None => Err(InvalidHost)
    case Some(host) => FromHost(m, foreign, host)
  }

  /** Sub names that a name can carry: none is empty and none contains a dot. */
  ghost predicate Plain(subNames: seq<Text>) {
    forall i :: 0 <= i < |subNames| ==> subNames[i] != [] && '.' as int !in subNames[i]
  }

  lemma TopNameIsPlain(m: Tables, t: Target, a: Alphabet)
    requires ContentCode(m, t.contentType).Ok?
    ensures TopName(m, t, a) != [] && DOT !in TopName(m, t, a)
  {
    var bytes := Layout(m, t);
    forall i | 0 <= i < |Encode(a, bytes)|
      ensures Encode(a, bytes)[i] != DOT
    {
      SymbolsAreSymbols(a, bytes, i);
    }
  }

  lemma NameIsJoined(m: Tables, u: XorUrl, a: Alphabet)
    requires ContentCode(m, u.target.contentType).Ok? && Plain(u.subNames)
    ensures NameToBase(m, u, a) == Join(u.subNames + [TopName(m, u.target, a)], DOT)
  {
    if u.subNames == [] {
      assert u.subNames + [TopName(m, u.target, a)] == [TopName(m, u.target, a)];
    } else {
      JoinAppend(u.subNames, TopName(m, u.target, a), DOT);
      assert Join(u.subNames, DOT) != [] by { assert u.subNames[0] != []; }
    }
  }

  /** Two adjacent dots enclose an empty part. */
  lemma {:induction false} DoubleDotSplits(s: Text, i: nat)
    requires i + 1 < |s| && s[i] == DOT && s[i + 1] == DOT
    ensures [] in Split(s, DOT)[1..]
  {
    var rest := Split(s[1..], DOT);
    if i > 0 {
      DoubleDotSplits(s[1..], i - 1);
      assert [] in rest[1..];
      if s[0] == DOT {
        assert Split(s, DOT)[1..] == rest;
      } else {
        assert Split(s, DOT)[1..] == rest[1..];
      }
    } else {
      assert Split(s, DOT)[1..] == rest;
      assert rest[0] == [];
    }
  }

  lemma ParseOfName(m: Tables, u: XorUrl, a: Alphabet)
    requires ContentCode(m, u.target.contentType).Ok? && Plain(u.subNames)
    ensures var name := NameToBase(m, u, a);
      ParseName(name) == if |name| > MAX_NAME_LENGTH then Err(NameTooLong)
                         else Ok(NameParts(u.subNames, TopName(m, u.target, a)))
  {
    var top := TopName(m, u.target, a);
    var parts := u.subNames + [top];
    var name := NameToBase(m, u, a);
    TopNameIsPlain(m, u.target, a);
    NameIsJoined(m, u, a);
    SplitJoin(parts, DOT);
    if HasDoubleDot(name) {
      var i :| 0 <= i < |name| - 1 && name[i] == DOT && name[i + 1] == DOT;
      DoubleDotSplits(name, i);
    }
  }

  lemma ReadableIfRead(m: Tables, s: seq<byte>)
    requires ReadLayout(m, s).Ok?
    ensures Readable(ReadLayout(m, s).value)
  {}

  lemma NameDecodes(m: Tables, foreign: Foreign, u: XorUrl, a: Alphabet)
    requires Consistent(m) && ContentCode(m, u.target.contentType).Ok?
    requires Readable(u.target) && Plain(u.subNames) && |NameToBase(m, u, a)| <= MAX_NAME_LENGTH
    ensures FromHost(m, foreign, NameToBase(m, u, a)) == Ok(u)
  {
    ParseOfName(m, u, a);
    BaseRoundTrip(foreign, a, Layout(m, u.target));
    ReadOfLayout(m, u.target);
    assert [] !in u.subNames;
  }

  lemma DecodedIsProper(m: Tables, foreign: Foreign, host: Text)
    requires FromHost(m, foreign, host).Ok?
    ensures var u := FromHost(m, foreign, host).value;
      Readable(u.target) && Plain(u.subNames) && |host| <= MAX_NAME_LENGTH
  {
    var parts := ParseName(host).value;
    SplitIsFree(host, DOT);
    ReadableIfRead(m, BaseDecode(foreign, parts.topName).value.1);
  }

  /** Sub names of bytes that a host keeps. */
  ghost predicate UrlSafe(subNames: seq<Text>) {
    forall i :: 0 <= i < |subNames| ==> AllUrlSafe(subNames[i])
  }

  lemma SymbolIsSafe(b: byte)
    requires IsSymbol(b)
    ensures IsUrlSafe(b)
  {}

  lemma TopNameIsSafe(m: Tables, t: Target, a: Alphabet)
    requires ContentCode(m, t.contentType).Ok?
    ensures AllUrlSafe(TopName(m, t, a))
  {
    var bytes := Layout(m, t);
    forall i | 0 <= i < |Encode(a, bytes)|
      ensures IsUrlSafe(Encode(a, bytes)[i])
    {
      SymbolsAreSymbols(a, bytes, i);
      SymbolIsSafe(Encode(a, bytes)[i]);
    }
    assert IsUrlSafe(BaseCode(a));
  }

  /** A name of URL-safe sub names is its own host. */
  lemma SafeNameIsHost(m: Tables, u: XorUrl, a: Alphabet)
    requires ContentCode(m, u.target.contentType).Ok? && Plain(u.subNames) && UrlSafe(u.subNames)
    ensures HostOf(NameToBase(m, u, a)) == Some(NameToBase(m, u, a))
  {
    var parts := u.subNames + [TopName(m, u.target, a)];
    TopNameIsSafe(m, u.target, a);
    NameIsJoined(m, u, a);
    JoinIsSafe(parts, DOT);
    HostsAreSafe(NameToBase(m, u, a));
  }

  lemma DecodedIsSafe(m: Tables, foreign: Foreign, name: Text)
    requires FromName(m, foreign, name).Ok?
    ensures UrlSafe(FromName(m, foreign, name).value.subNames)
  {
    HostsAreSafe(name);
    PartsAreSafe(HostOf(name).value, DOT);
  }

  /** What makes a name come back as it was. */
  ghost predicate ReturnsUnchanged(m: Tables, u: XorUrl, a: Alphabet)
    requires ContentCode(m, u.target.contentType).Ok?
  {
    Readable(u.target) && Plain(u.subNames) && UrlSafe(u.subNames) && |NameToBase(m, u, a)| <= 255
  }

  /**
    Decoding the name of an XOR-URL returns exactly the same address, content type, tag and sub names,
    in both bases, if and only if the address is not a spent book, a register's tag is the type tag, the
    sub names are non-empty, dot-free and URL-safe, and the name has at most 255 octets.
   */
  lemma NameRoundTrip(m: Tables, foreign: Foreign, u: XorUrl, a: Alphabet)
    requires Consistent(m) && ContentCode(m, u.target.contentType).Ok?
    ensures FromName(m, foreign, NameToBase(m, u, a)) == Ok(u) <==> ReturnsUnchanged(m, u, a)
  {
    var name := NameToBase(m, u, a);
    if ReturnsUnchanged(m, u, a) {
      SafeNameIsHost(m, u, a);
      NameDecodes(m, foreign, u, a);
    }
    if FromName(m, foreign, name) == Ok(u) {
      DecodedIsSafe(m, foreign, name);
      DecodedIsProper(m, foreign, HostOf(name).value);
      SafeNameIsHost(m, u, a);
    }
  }

  /** The maps of the supported media types are consistent, so names round-trip for all of them. */
  lemma SupportedTablesAreConsistent(l: Lists, m: Tables)
    requires AreSupported(l) && m == PopulateAll(l)
    ensures Consistent(m)
  {
    CodesAndNamesAreInverse(l);
  }

  lemma NameRoundTripForSupportedTypes(l: Lists, m: Tables, foreign: Foreign, u: XorUrl, a: Alphabet)
    requires AreSupported(l) && m == PopulateAll(l) && ContentCode(m, u.target.contentType).Ok?
    ensures FromName(m, foreign, NameToBase(m, u, a)) == Ok(u) <==> ReturnsUnchanged(m, u, a)
  {
    SupportedTablesAreConsistent(l, m);
    NameRoundTrip(m, foreign, u, a);
  }

  lemma CanonicalTop(m: Tables, foreign: Foreign, top: Text, a: Alphabet, bytes: seq<byte>)
    requires Consistent(m) && BaseDecode(foreign, top) == Some((Known(a), bytes)) && ReadLayout(m, bytes).Ok?
    ensures ContentCode(m, ReadLayout(m, bytes).value.contentType).Ok?
    ensures TopName(m, ReadLayout(m, bytes).value, a) == top <==> LeadingZeroBytes(bytes[36..]) == 0
  {
    LayoutIsShortest(m, bytes);
    BaseIsCanonical(foreign, a, top);
    var again := Layout(m, ReadLayout(m, bytes).value);
    BaseRoundTrip(foreign, a, bytes);
    BaseRoundTrip(foreign, a, again);
  }

  lemma NameOfParts(m: Tables, host: Text, u: XorUrl, a: Alphabet)
    requires ContentCode(m, u.target.contentType).Ok?
    requires ParseName(host).Ok? && u.subNames == ParseName(host).value.subNames && Plain(u.subNames)
    ensures NameToBase(m, u, a) == host <==> TopName(m, u.target, a) == ParseName(host).value.topName
  {
    var top, last := TopName(m, u.target, a), ParseName(host).value.topName;
    PartsOfHost(host);
    SameTop(host, u.subNames, top, last);
    assert NameToBase(m, u, a) == Join(u.subNames + [top], DOT) by { NameIsJoined(m, u, a); }
  }

  lemma PartsOfHost(host: Text)
    requires ParseName(host).Ok?
    ensures Split(host, DOT) == ParseName(host).value.subNames + [ParseName(host).value.topName]
  {}

  lemma SameTop(host: Text, subNames: seq<Text>, top: Text, last: Text)
    requires Split(host, DOT) == subNames + [last]
    ensures Join(subNames + [top], DOT) == host <==> top == last
  {
    JoinSplit(host, DOT);
    if top != last {
      JoinsDiffer(subNames, top, last);
    }
  }

  /**
    Hosts in a modelled base have one canonical spelling: encoding what a host decodes to gives the host
    back exactly if its tag bytes do not start with a zero byte.
   */
  lemma CanonicalName(m: Tables, foreign: Foreign, host: Text, a: Alphabet, bytes: seq<byte>)
    requires Consistent(m) && FromHost(m, foreign, host).Ok?
    requires BaseDecode(foreign, ParseName(host).value.topName) == Some((Known(a), bytes))
    ensures ContentCode(m, FromHost(m, foreign, host).value.target.contentType).Ok?
    ensures NameToBase(m, FromHost(m, foreign, host).value, a) == host <==> LeadingZeroBytes(bytes[36..]) == 0
  {
    DecodedIsProper(m, foreign, host);
    CanonicalTop(m, foreign, ParseName(host).value.topName, a, bytes);
    NameOfParts(m, host, FromHost(m, foreign, host).value, a);
  }

  lemma {:induction false} JoinsDiffer(subNames: seq<Text>, a: Text, b: Text)
    requires a != b
    ensures Join(subNames + [a], DOT) != Join(subNames + [b], DOT)
  {
    if subNames == [] {
      assert subNames + [a] == [a] && subNames + [b] == [b];
    } else {
      JoinAppend(subNames, a, DOT);
      JoinAppend(subNames, b, DOT);
      var head := Join(subNames, DOT) + [DOT];
      assert (head + a)[|head|..] == a && (head + b)[|head|..] == b;
    }
  }
}
