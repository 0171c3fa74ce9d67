/** What the text of a name is: the bytes at their places, and the letters they become. */
module NameText {
  import opened Wrappers
  import opened Base32
  import opened BitText
  import opened MediaTypes
  import opened XorLayout
  import opened XorUrlName
  import opened UrlState

  // Bytes

  /** The number of a content type. */
  function NumberOf(m: Tables, c: ContentType): nat
    requires c.MediaType? ==> c.name in m.codes
  {
    match c
    case Raw => 0
    case Wallet => 1
    case FilesContainer => 2
    case NrsMapContainer => 3
    case Multimap => 4
    case MediaType(name) => m.codes[name]
  }

  lemma TwoBytes(n: nat)
    requires n < 0x10000
    ensures BigEndian(n, 2) == [n / 256, n % 256]
  {
    assert BigEndian(n / 256, 1) == BigEndian(n / 256 / 256, 0) + [n / 256 % 256];
  }

  /** The digit of a number to the base 256, at a place counted from the last one. */
  function DigitAt(n: nat, i: nat): byte {
    if i == 0 then n % 256 else DigitAt(n / 256, i - 1)
  }

  lemma {:induction false} MinimalAt(n: nat, i: nat)
    requires i < |Minimal(n)|
    ensures Minimal(n)[|Minimal(n)| - 1 - i] == DigitAt(n, i)
    decreases n
  {
    if i > 0 {
      var front := Minimal(n / 256);
      MinimalAt(n / 256, i - 1);
      assert Minimal(n)[|Minimal(n)| - 1 - i] == front[|front| - 1 - (i - 1)];
    }
  }

  function KindByte(a: DataAddress): byte {
    match a
    case SafeKey(_) => 0
    case Bytes(_) => 1
    case Register(_, _) => 2
    case Spentbook(_) => 3
  }

  /** The bytes of a target, place by place. */
  lemma LayoutBytes(m: Tables, t: Target)
    requires Consistent(m) && ContentCode(m, t.contentType).Ok?
    ensures var s := Layout(m, t);
      && 36 <= |s| <= 44
      && s[0] == 1
      && 256 * (s[1] as int) + s[2] == NumberOf(m, t.contentType)
      && s[3] == KindByte(t.address)
      && s[4..36] == t.address.name
      && (|s| > 36 ==> s[36] != 0)
      && (forall i :: 0 <= i < |s| - 36 ==> s[|s| - 1 - i] == DigitAt(t.typeTag, i))
      && FromBigEndian(s[36..]) == t.typeTag
  {
    LayoutParts(m, t);
    ContentRoundTrip(m, t.contentType);
    TwoBytes(ContentCode(m, t.contentType).value);
    MinimalRoundTrip(t.typeTag);
    var s, tail := Layout(m, t), Minimal(t.typeTag);
    assert s[1] == s[1..3][0] && s[2] == s[1..3][1];
    TailBytes(s, tail, t.typeTag);
  }

  lemma TailBytes(s: seq<byte>, tail: seq<byte>, tag: nat)
    requires 36 <= |s| && tail == Minimal(tag) && s[36..] == tail
    ensures forall i :: 0 <= i < |s| - 36 ==> s[|s| - 1 - i] == DigitAt(tag, i)
  {
    forall i | 0 <= i < |s| - 36
      ensures s[|s| - 1 - i] == DigitAt(tag, i)
    {
      MinimalAt(tag, i);
      assert s[|s| - 1 - i] == tail[|tail| - 1 - i];
    }
  }

  /** Which bytes are read, and as what. */
  lemma ReadLayoutExactly(m: Tables, s: seq<byte>)
    ensures ReadLayout(m, s).Ok? <==>
      && 36 <= |s| <= 44 && s[0] == 1 && s[3] <= 2
      && (256 * (s[1] as int) + s[2] <= 4 || 256 * (s[1] as int) + s[2] in m.names)
    ensures ReadLayout(m, s).Ok? ==>
      var t := ReadLayout(m, s).value;
      && t.address.name == s[4..36] && s[3] == KindByte(t.address)
      && (t.address.Register? ==> t.address.tag == t.typeTag)
      && t.typeTag == FromBigEndian(s[36..])
  {
    if 36 <= |s| <= 44 {
      assert s[1..3] == [s[1], s[2]] && [s[1], s[2]][..1] == [s[1]] && [s[1]][..0] == [];
      assert FromBigEndian([s[1]]) == s[1];
      assert FromBigEndian(s[1..3]) == 256 * (s[1] as int) + s[2];
      ZeroPadding(8 - |s[36..]|, s[36..]);
    }
  }

  // Letters

  ghost predicate StartsWith(s: Text, prefix: string) {
    |prefix| <= |s| && forall i :: 0 <= i < |prefix| ==> s[i] == prefix[i] as int
  }

  /** The letter of the base, then one letter for every five bits of the layout. */
  lemma TopNameLetters(m: Tables, t: Target, a: Alphabet, i: nat)
    requires ContentCode(m, t.contentType).Ok? && i < (8 * |Layout(m, t)| + 4) / 5
    ensures |TopName(m, t, a)| == 1 + (8 * |Layout(m, t)| + 4) / 5
    ensures TopName(m, t, a)[0] == match a case ZBase32 => 'h' as int case Rfc4648Lower => 'b' as int
    ensures TopName(m, t, a)[1 + i] == Letters(a)[FiveAt(Layout(m, t), 5 * i)] as int
  {
    EncodedSymbol(a, Layout(m, t), i);
  }

  lemma FirstFives(s: seq<byte>)
    requires |s| >= 2 && s[0] == 1
    ensures FiveAt(s, 0) == 0
    ensures FiveAt(s, 5) == 4 <==> s[1] < 64
  {
    FirstByte(s);
    SecondByte(s);
    HighBits(s[1]);
  }

  lemma FirstByte(s: seq<byte>)
    requires |s| >= 1 && s[0] == 1
    ensures !BitAt(s, 0) && !BitAt(s, 1) && !BitAt(s, 2) && !BitAt(s, 3) && !BitAt(s, 4)
    ensures !BitAt(s, 5) && !BitAt(s, 6) && BitAt(s, 7)
  {
    NoBits(7);
    NoBits(6);
    NoBits(5);
    NoBits(4);
    NoBits(3);
    NoBits(2);
    NoBits(1);
  }

  lemma NoBits(j: nat)
    requires j > 0
    ensures !Bit(1, j)
  {
    NoBitOfZero(j - 1);
  }

  lemma {:induction false} NoBitOfZero(j: nat)
    ensures !Bit(0, j)
  {
    if j > 0 {
      NoBitOfZero(j - 1);
    }
  }

  lemma SecondByte(s: seq<byte>)
    requires |s| >= 2
    ensures BitAt(s, 8) == Bit(s[1], 7) && BitAt(s, 9) == Bit(s[1], 6)
  {
    assert s[1..][0] == s[1];
  }

  lemma HighBits(b: byte)
    ensures !Bit(b, 7) && !Bit(b, 6) <==> b < 64
  {
    assert Bit(b, 6) == Bit(b / 2, 5) == Bit(b / 4, 4) == Bit(b / 8, 3);
    assert Bit(b, 7) == Bit(b / 2, 6) == Bit(b / 4, 5) == Bit(b / 8, 4);
    HighOfQuintet(b / 8);
  }

  lemma HighOfQuintet(q: quintet)
    ensures !Bit(q, 4) && !Bit(q, 3) <==> q < 8
  {
    FiveBits(q, Bit(q, 4), Bit(q, 3), Bit(q, 2), Bit(q, 1), Bit(q, 0));
  }

  /** Top names start with the letter of their base and with what the version and the content type become. */
  lemma TopNameStarts(m: Tables, t: Target)
    requires Consistent(m) && ContentCode(m, t.contentType).Ok?
    ensures StartsWith(TopName(m, t, ZBase32), "hy") && StartsWith(TopName(m, t, Rfc4648Lower), "ba")
    ensures StartsWith(TopName(m, t, ZBase32), "hyr") <==> NumberOf(m, t.contentType) < 0x4000
    ensures StartsWith(TopName(m, t, Rfc4648Lower), "bae") <==> NumberOf(m, t.contentType) < 0x4000
  {
    LayoutBytes(m, t);
    FirstFives(Layout(m, t));
    ThirdLetters(m, t, ZBase32);
    ThirdLetters(m, t, Rfc4648Lower);
    LetterPlaces(FiveAt(Layout(m, t), 5));
  }

  lemma ThirdLetters(m: Tables, t: Target, a: Alphabet)
    requires Consistent(m) && ContentCode(m, t.contentType).Ok?
    ensures |TopName(m, t, a)| >= 3
    ensures TopName(m, t, a)[1] == Letters(a)[FiveAt(Layout(m, t), 0)] as int
    ensures TopName(m, t, a)[2] == Letters(a)[FiveAt(Layout(m, t), 5)] as int
  {
    LayoutParts(m, t);
    TopNameLetters(m, t, a, 0);
    TopNameLetters(m, t, a, 1);
  }

  lemma LetterPlaces(q: quintet)
    ensures Letters(ZBase32)[q] == 'r' <==> q == 4
    ensures Letters(Rfc4648Lower)[q] == 'e' <==> q == 4
  {
    SymbolIsLetter(ZBase32, q);
    SymbolIsLetter(Rfc4648Lower, q);
    ValueOfSymbol(ZBase32, q);
    ValueOfSymbol(Rfc4648Lower, q);
  }

  /** The first letter tells in which letters the rest is read. */
  lemma ReadByFirstLetter(foreign: Foreign, s: Text, bytes: seq<byte>)
    requires s != []
    ensures s[0] == 'h' as int ==>
      (BaseDecode(foreign, s) == Some((Known(ZBase32), bytes)) <==> Decode(ZBase32, s[1..]) == Some(bytes))
    ensures s[0] == 'b' as int ==>
      (BaseDecode(foreign, s) == Some((Known(Rfc4648Lower), bytes)) <==> Decode(Rfc4648Lower, s[1..]) == Some(bytes))
    ensures BaseDecode(foreign, s).Some? && s[0] == 'h' as int ==> BaseDecode(foreign, s).value.0 == Known(ZBase32)
    ensures BaseDecode(foreign, s).Some? && s[0] == 'b' as int ==> BaseDecode(foreign, s).value.0 == Known(Rfc4648Lower)
  {}

  /** The text of a version: the letter of its base and 52 letters for its 256 bits. */
  lemma VersionLetters(h: VersionHash, i: nat)
    requires i < 52
    ensures |VersionText(h)| == 53 && VersionText(h)[0] == 'h' as int
    ensures VersionText(h)[1 + i] == "ybndrfg8ejkmcpqxot1uwisza345h769"[FiveAt(h, 5 * i)] as int
  {
    EncodedSymbol(ZBase32, h, i);
  }
}
