/** The bytes behind the name of an XOR-URL: version, content type, address and the type tag in as few bytes as it takes. */
module XorLayout {
  import opened Wrappers
  import opened Base32
  import opened MediaTypes

  const XOR_URL_VERSION_1: byte := 1
  const XOR_URL_MAX_LENGTH: nat := 44
  const XOR_NAME_OFFSET: nat := 4
  const XOR_NAME_LEN: nat := 32
  const MAX_NAME_LENGTH: nat := 255
  const DOT: byte := '.' as int
  const TAG_LIMIT: nat := 0x1_0000_0000_0000_0000

  type XorName = s: seq<byte> | |s| == 32 witness seq(32, _ => 0)
  type TypeTag = t: nat | t < 0x1_0000_0000_0000_0000

  datatype DataAddress =
    | SafeKey(name: XorName)
    | Bytes(name: XorName)
    | Register(name: XorName, tag: TypeTag)
    | Spentbook(name: XorName)

  datatype ContentType = Raw | Wallet | FilesContainer | NrsMapContainer | Multimap | MediaType(name: string)

  datatype Target = Target(address: DataAddress, contentType: ContentType, typeTag: TypeTag)

  datatype Error =
    | UnsupportedMediaType
    | InvalidHost
    | EmptySubName
    | NameTooLong
    | NotDecodable
    | TooShort
    | TooLong
    | UnsupportedVersion
    | UnknownContentType
    | UnknownDataType

  // Content types

  /** The code of a content type, by the lookup maps for media types. */
  function ContentCode(m: Tables, c: ContentType): Result<nat, Error> {
    match c
    case Raw => Ok(0)
    case Wallet => Ok(1)
    case FilesContainer => Ok(2)
    case NrsMapContainer => Ok(3)
    case Multimap => Ok(4)
    case MediaType(name) =>
      if name in m.codes then Ok(m.codes[name]) else Err(UnsupportedMediaType)
  }

  function ContentOf(m: Tables, code: nat): Result<ContentType, Error> {
    match code
    case 0 => Ok(Raw)
    case 1 => Ok(Wallet)
    case 2 => Ok(FilesContainer)
    case 3 => Ok(NrsMapContainer)
    case 4 => Ok(Multimap)
    case _ =>
      if code in m.names then Ok(MediaType(m.names[code])) else Err(UnknownContentType)
  }

  /** What is known of the lookup maps: see `MediaTypes.CodesAndNamesAreInverse`. */
  ghost predicate Consistent(m: Tables) {
    Inverse(m) && CodesIn(m, 5, 0x10000)
  }

  lemma ContentRoundTrip(m: Tables, c: ContentType)
    requires Consistent(m)
    requires ContentCode(m, c).Ok?
    ensures ContentCode(m, c).value < 0x10000
    ensures ContentOf(m, ContentCode(m, c).value) == Ok(c)
  {
  }

  lemma CodeRoundTrip(m: Tables, code: nat)
    requires Consistent(m)
    requires ContentOf(m, code).Ok?
    ensures ContentCode(m, ContentOf(m, code).value) == Ok(code)
  {
  }

  // Numbers as big-endian bytes

  function BigEndian(n: nat, w: nat): (r: seq<byte>)
    ensures |r| == w
  {
    if w == 0 then [] else BigEndian(n / 256, w - 1) + [n % 256]
  }

  function FromBigEndian(s: seq<byte>): nat {
    if s == [] then 0 else 256 * FromBigEndian(s[..|s| - 1]) + s[|s| - 1]
  }

  function Power256(w: nat): nat {
    if w == 0 then 1 else 256 * Power256(w - 1)
  }

  lemma {:induction false} FromBigEndianBelow(s: seq<byte>)
    ensures FromBigEndian(s) < Power256(|s|)
  {
    if s != [] {
      FromBigEndianBelow(s[..|s| - 1]);
    }
  }

  lemma {:induction false} BigEndianRoundTrip(n: nat, w: nat)
    requires n < Power256(w)
    ensures FromBigEndian(BigEndian(n, w)) == n
  {
    if w > 0 {
      BigEndianRoundTrip(n / 256, w - 1);
      assert BigEndian(n, w)[..w - 1] == BigEndian(n / 256, w - 1);
    }
  }

  lemma {:induction false} BigEndianOfBytes(s: seq<byte>)
    ensures BigEndian(FromBigEndian(s), |s|) == s
  {
    if s != [] {
      BigEndianOfBytes(s[..|s| - 1]);
      assert s == s[..|s| - 1] + [s[|s| - 1]];
    }
  }

  lemma TagLimit()
    ensures Power256(8) == TAG_LIMIT && Power256(2) == 0x10000
  {
    assert Power256(2) == 0x10000;
    assert Power256(4) == 0x1_0000_0000;
    assert Power256(6) == 0x1_0000_0000_0000;
  }

  function ZeroBytes(n: nat): seq<byte> {
    seq(n, _ => 0)
  }

  function LeadingZeroBytes(s: seq<byte>): (n: nat)
    ensures n <= |s|
  {
    if s == [] || s[0] != 0 then 0 else 1 + LeadingZeroBytes(s[1..])
  }

  lemma {:induction false} LeadingZeroBytesOfAppend(s: seq<byte>, last: byte)
    ensures LeadingZeroBytes(s + [last])
         == if LeadingZeroBytes(s) < |s| then LeadingZeroBytes(s) else if last == 0 then |s| + 1 else |s|
  {
    if s != [] {
      assert (s + [last])[1..] == s[1..] + [last];
      LeadingZeroBytesOfAppend(s[1..], last);
    }
  }

  /** The bytes of a number without leading zero bytes; none at all for zero. */
  function Minimal(n: nat): seq<byte> {
    if n == 0 then [] else Minimal(n / 256) + [n % 256]
  }

  /** The bytes of any fixed width, less their leading zero bytes, are the minimal ones. */
  lemma {:induction false} MinimalIsTrimmed(n: nat, w: nat)
    requires n < Power256(w)
    ensures BigEndian(n, w)[LeadingZeroBytes(BigEndian(n, w))..] == Minimal(n)
  {
    BigEndianRoundTrip(n, w);
    MinimalOfBytes(BigEndian(n, w));
  }

  lemma {:induction false} MinimalOfBytes(s: seq<byte>)
    ensures Minimal(FromBigEndian(s)) == s[LeadingZeroBytes(s)..]
  {
    if s != [] {
      var k := |s| - 1;
      var front, last := s[..k], s[k];
      assert s == front + [last];
      MinimalOfBytes(front);
      LeadingZeroBytesOfAppend(front, last);
      var n, z := FromBigEndian(front), LeadingZeroBytes(front);
      assert FromBigEndian(s) == 256 * n + last;
      assert n == 0 <==> Minimal(n) == [];
      if 256 * n + last != 0 {
        assert (256 * n + last) / 256 == n && (256 * n + last) % 256 == last;
        assert s[z..] == front[z..] + [last];
      }
    }
  }

  lemma {:induction false} MinimalRoundTrip(n: nat)
    ensures FromBigEndian(Minimal(n)) == n
    ensures n > 0 ==> Minimal(n) != [] && Minimal(n)[0] != 0
  {
    if n > 0 {
      MinimalRoundTrip(n / 256);
      var s := Minimal(n);
      assert s[..|s| - 1] == Minimal(n / 256);
    }
  }

  lemma {:induction false} MinimalLength(n: nat, w: nat)
    requires n < Power256(w)
    ensures |Minimal(n)| <= w
  {
    if n > 0 {
      MinimalLength(n / 256, w - 1);
    }
  }

  lemma {:induction false} ZeroPadding(k: nat, s: seq<byte>)
    ensures FromBigEndian(ZeroBytes(k) + s) == FromBigEndian(s)
  {
    if s != [] {
      var padded := ZeroBytes(k) + s;
      assert padded[..|padded| - 1] == ZeroBytes(k) + s[..|s| - 1];
      ZeroPadding(k, s[..|s| - 1]);
    } else if k > 0 {
      assert (ZeroBytes(k) + s)[..k - 1] == ZeroBytes(k - 1) + s;
      ZeroPadding(k - 1, s);
    }
  }

  // The layout

  function DataTypeByte(a: DataAddress): byte {
    match a
    case SafeKey(_) => 0
    case Bytes(_) => 1
    case Register(_, _) => 2
    case Spentbook(_) => 3
  }

  function Layout(m: Tables, t: Target): seq<byte>
    requires ContentCode(m, t.contentType).Ok?
  {
    [XOR_URL_VERSION_1] + BigEndian(ContentCode(m, t.contentType).value, 2) + [DataTypeByte(t.address)]
    + t.address.name + Minimal(t.typeTag)
  }

  function ReadTag(s: seq<byte>): (tag: nat)
    requires |s| <= 8
    ensures tag < TAG_LIMIT
  {
    TagLimit();
    FromBigEndianBelow(ZeroBytes(8 - |s|) + s);
    FromBigEndian(ZeroBytes(8 - |s|) + s)
  }

  function ReadLayout(m: Tables, s: seq<byte>): Result<Target, Error> {
    var tagOffset := XOR_NAME_OFFSET + XOR_NAME_LEN;
    if |s| < tagOffset then Err(TooShort)
    else if |s| > XOR_URL_MAX_LENGTH then Err(TooLong)
    else if s[0] != XOR_URL_VERSION_1 then Err(UnsupportedVersion)
    else
      match ContentOf(m, FromBigEndian(s[1..3]))
      case Err(e) => Err(e)
      case Ok(contentType) =>
        var name: XorName := s[XOR_NAME_OFFSET..tagOffset];
        var tag: TypeTag := ReadTag(s[tagOffset..]);
        match s[3]
        case 0 => Ok(Target(SafeKey(name), contentType, tag))
        case 1 => Ok(Target(Bytes(name), contentType, tag))
        case 2 => Ok(Target(Register(name, tag), contentType, tag))
        case _ => Err(UnknownDataType)
  }

  /** Targets whose layout can be read back: no spent books, and a register's own tag is the type tag. */
  predicate Readable(t: Target) {
    && !t.address.Spentbook?
    && (t.address.Register? ==> t.address.tag == t.typeTag)
  }

  lemma TagRoundTrip(tag: TypeTag)
    ensures |Minimal(tag)| <= 8 && ReadTag(Minimal(tag)) == tag
  {
    TagLimit();
    MinimalLength(tag, 8);
    MinimalRoundTrip(tag);
    ZeroPadding(8 - |Minimal(tag)|, Minimal(tag));
  }

  lemma MinimalOfTag(s: seq<byte>)
    requires |s| <= 8
    ensures Minimal(ReadTag(s)) == s[LeadingZeroBytes(s)..]
  {
    assert ReadTag(s) == FromBigEndian(s) by {
      ZeroPadding(8 - |s|, s);
    }
    MinimalOfBytes(s);
  }

  lemma LayoutParts(m: Tables, t: Target)
    requires ContentCode(m, t.contentType).Ok?
    ensures var s := Layout(m, t);
      && 36 <= |s| <= 44
      && s[0] == XOR_URL_VERSION_1
      && s[1..3] == BigEndian(ContentCode(m, t.contentType).value, 2)
      && s[3] == DataTypeByte(t.address)
      && s[4..36] == t.address.name
      && s[36..] == Minimal(t.typeTag)
  {
    TagRoundTrip(t.typeTag);
  }

  /** What was laid out is read back exactly for readable targets; a register gets the type tag as its own. */
  lemma ReadOfLayout(m: Tables, t: Target)
    requires Consistent(m) && ContentCode(m, t.contentType).Ok?
    ensures 36 <= |Layout(m, t)| <= 44
    ensures ReadLayout(m, Layout(m, t)) ==
            match t.address
            case Spentbook(_) => Err(UnknownDataType)
            case Register(name, _) => Ok(t.(address := Register(name, t.typeTag)))
            case _ => Ok(t)
  {
    LayoutParts(m, t);
    ContentRoundTrip(m, t.contentType);
    TagLimit();
    BigEndianRoundTrip(ContentCode(m, t.contentType).value, 2);
    TagRoundTrip(t.typeTag);
  }

  /**
    The layout is the unique shortest form: whatever is read can be laid out again and reads the same, in
    no more bytes, and in the very same bytes exactly if the tag part has no leading zero byte.
   */
  lemma LayoutIsShortest(m: Tables, s: seq<byte>)
    requires Consistent(m) && ReadLayout(m, s).Ok?
    ensures ContentCode(m, ReadLayout(m, s).value.contentType).Ok?
    ensures var again := Layout(m, ReadLayout(m, s).value);
      && ReadLayout(m, again) == ReadLayout(m, s)
      && |again| <= |s|
      && (again == s <==> LeadingZeroBytes(s[36..]) == 0)
  {
    var t := ReadLayout(m, s).value;
    CodeRoundTrip(m, FromBigEndian(s[1..3]));
    LayoutParts(m, t);
    ReadOfLayout(m, t);
    LayoutOfRead(m, s, t);
    LayoutsAgree(Layout(m, t), s);
  }

  lemma ReadParts(m: Tables, s: seq<byte>, t: Target)
    requires Consistent(m) && ReadLayout(m, s) == Ok(t)
    ensures 36 <= |s| <= 44 && s[0] == XOR_URL_VERSION_1
    ensures ContentCode(m, t.contentType) == Ok(FromBigEndian(s[1..3]))
    ensures s[3] == DataTypeByte(t.address) && s[4..36] == t.address.name
    ensures t.typeTag == ReadTag(s[36..])
  {
    CodeRoundTrip(m, FromBigEndian(s[1..3]));
  }

  lemma SameHead(a: seq<byte>, b: seq<byte>)
    requires 36 <= |a| && 36 <= |b|
    requires a[0] == b[0] && a[1..3] == b[1..3] && a[3] == b[3] && a[4..36] == b[4..36]
    ensures a[..36] == b[..36]
  {
    assert a[..36] == [a[0]] + a[1..3] + [a[3]] + a[4..36];
    assert b[..36] == [b[0]] + b[1..3] + [b[3]] + b[4..36];
  }

  lemma LayoutOfRead(m: Tables, s: seq<byte>, t: Target)
    requires Consistent(m) && ReadLayout(m, s) == Ok(t)
    ensures ContentCode(m, t.contentType).Ok?
    ensures 36 <= |s|
    ensures var again := Layout(m, t);
      && 36 <= |again|
      && again[..36] == s[..36]
      && again[36..] == s[36..][LeadingZeroBytes(s[36..])..]
  {
    ReadParts(m, s, t);
    BigEndianOfBytes(s[1..3]);
    LayoutParts(m, t);
    MinimalOfTag(s[36..]);
    SameHead(Layout(m, t), s);
  }

  lemma LayoutsAgree(again: seq<byte>, s: seq<byte>)
    requires 36 <= |s| && 36 <= |again| && again[..36] == s[..36]
    requires again[36..] == s[36..][LeadingZeroBytes(s[36..])..]
    ensures |again| <= |s|
    ensures again == s <==> LeadingZeroBytes(s[36..]) == 0
  {
    assert again == again[..36] + again[36..] && s == s[..36] + s[36..];
    assert |again| == |s| - LeadingZeroBytes(s[36..]);
  }
}
