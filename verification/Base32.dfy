/**
  Unpadded base 32 as in section 6 of RFC 4648, over its lower-case alphabet and over the z-base-32
  alphabet: bytes are read as a bit string, filled up with zero bits and cut into groups of five.
 */
module Base32 {
  import opened Wrappers

  type byte = x: int | 0 <= x < 256
  type Text = seq<byte>
  type quintet = x: int | 0 <= x < 32

  // Bits

  function Power(w: nat): nat {
    if w == 0 then 1 else 2 * Power(w - 1)
  }

  /** The `w` low bits of `n`, most significant first. */
  function ToBits(n: nat, w: nat): (bits: seq<bool>)
    ensures |bits| == w
  {
    if w == 0 then [] else ToBits(n / 2, w - 1) + [n % 2 == 1]
  }

  function FromBits(bits: seq<bool>): (n: nat)
    ensures n < Power(|bits|)
  {
    if bits == [] then 0
    else 2 * FromBits(bits[..|bits| - 1]) + if bits[|bits| - 1] then 1 else 0
  }

  lemma {:induction false} FromToBits(n: nat, w: nat)
    requires n < Power(w)
    ensures FromBits(ToBits(n, w)) == n
  {
    if w > 0 {
      FromToBits(n / 2, w - 1);
      assert ToBits(n, w)[..w - 1] == ToBits(n / 2, w - 1);
    }
  }

  lemma {:induction false} ToFromBits(bits: seq<bool>)
    ensures ToBits(FromBits(bits), |bits|) == bits
  {
    if bits != [] {
      var k := |bits| - 1;
      ToFromBits(bits[..k]);
      assert FromBits(bits) / 2 == FromBits(bits[..k]);
      assert bits == bits[..k] + [bits[k]];
    }
  }

  /** The length of `n` groups of `w` bits. */
  function Total(n: nat, w: nat): nat {
    if n == 0 then 0 else w + Total(n - 1, w)
  }

  lemma {:induction false} TotalOfBytes(n: nat)
    ensures Total(n, 8) == 8 * n && Total(n, 5) == 5 * n
  {
    if n > 0 {
      TotalOfBytes(n - 1);
    }
  }

  /** Numbers of `w` bits each, written one after the other. */
  function Unpack(ns: seq<nat>, w: nat): (bits: seq<bool>)
    ensures |bits| == Total(|ns|, w)
  {
    if ns == [] then [] else ToBits(ns[0], w) + Unpack(ns[1..], w)
  }

  /** The bits read as `n` numbers of `w` bits each. */
  function Pack(bits: seq<bool>, w: nat, n: nat): (ns: seq<nat>)
    requires |bits| == Total(n, w)
    ensures |ns| == n && forall i :: 0 <= i < |ns| ==> ns[i] < Power(w)
  {
    if n == 0 then [] else [FromBits(bits[..w])] + Pack(bits[w..], w, n - 1)
  }

  lemma {:induction false} PackUnpack(ns: seq<nat>, w: nat)
    requires forall i :: 0 <= i < |ns| ==> ns[i] < Power(w)
    ensures Pack(Unpack(ns, w), w, |ns|) == ns
  {
    if ns != [] {
      PackUnpack(ns[1..], w);
      FromToBits(ns[0], w);
      var bits := Unpack(ns, w);
      assert bits[..w] == ToBits(ns[0], w) && bits[w..] == Unpack(ns[1..], w);
    }
  }

  lemma UnpackCons(n: nat, ns: seq<nat>, w: nat)
    ensures Unpack([n] + ns, w) == ToBits(n, w) + Unpack(ns, w)
  {
    assert ([n] + ns)[1..] == ns;
  }

  lemma PackCons(bits: seq<bool>, w: nat, n: nat)
    requires n > 0 && |bits| == Total(n, w)
    ensures Pack(bits, w, n) == [FromBits(bits[..w])] + Pack(bits[w..], w, n - 1)
  {}

  lemma {:induction false} UnpackPack(bits: seq<bool>, w: nat, n: nat)
    requires |bits| == Total(n, w)
    ensures Unpack(Pack(bits, w, n), w) == bits
  {
    if n > 0 {
      UnpackPack(bits[w..], w, n - 1);
      ToFromBits(bits[..w]);
      PackCons(bits, w, n);
      UnpackCons(FromBits(bits[..w]), Pack(bits[w..], w, n - 1), w);
      assert bits == bits[..w] + bits[w..];
    }
  }

  // Groups of five bits

  lemma Powers()
    ensures Power(8) == 256 && Power(5) == 32
  {
    assert Power(5) == 2 * Power(4) == 4 * Power(3) == 8 * Power(2);
    assert Power(8) == 2 * Power(7) == 4 * Power(6) == 8 * Power(5);
  }

  function Zeros(n: nat): seq<bool> {
    seq(n, _ => false)
  }

  /** How many groups of five bits hold `n` bytes. */
  function GroupsFor(n: nat): nat {
    (8 * n + 4) / 5
  }

  function ToGroups(bytes: seq<byte>): (r: seq<quintet>)
    ensures |r| == GroupsFor(|bytes|)
  {
    Powers();
    TotalOfBytes(|bytes|);
    TotalOfBytes(GroupsFor(|bytes|));
    var bits := Unpack(bytes, 8);
    Pack(bits + Zeros(5 * GroupsFor(|bytes|) - |bits|), 5, GroupsFor(|bytes|))
  }

  /** Fewer than five bits may be left over, and all of them must be zero. */
  function FromGroups(groups: seq<quintet>): (r: Option<seq<byte>>)
    ensures r.Some? ==> |r.value| == 5 * |groups| / 8
  {
    Powers();
    var n := 5 * |groups| / 8;
    TotalOfBytes(|groups|);
    TotalOfBytes(n);
    var bits := Unpack(groups, 5);
    var rest := bits[8 * n..];
    if |rest| < 5 && rest == Zeros(|rest|) then Some(Pack(bits[..8 * n], 8, n)) else None
  }

  lemma FromToGroups(bytes: seq<byte>)
    ensures FromGroups(ToGroups(bytes)) == Some(bytes)
  {
    Powers();
    var n, g := |bytes|, GroupsFor(|bytes|);
    TotalOfBytes(n);
    TotalOfBytes(g);
    var bits := Unpack(bytes, 8);
    var padded := bits + Zeros(5 * g - 8 * n);
    UnpackPack(padded, 5, g);
    assert 5 * g / 8 == n;
    assert padded[..8 * n] == bits && padded[8 * n..] == Zeros(5 * g - 8 * n);
    PackUnpack(bytes, 8);
  }

  lemma ToFromGroups(groups: seq<quintet>)
    requires FromGroups(groups).Some?
    ensures ToGroups(FromGroups(groups).value) == groups
  {
    Powers();
    var bytes := FromGroups(groups).value;
    var n, g := |bytes|, |groups|;
    TotalOfBytes(n);
    TotalOfBytes(g);
    var bits := Unpack(groups, 5);
    UnpackPack(bits[..8 * n], 8, n);
    assert GroupsFor(n) == g;
    assert bits == bits[..8 * n] + bits[8 * n..];
    PackUnpack(groups, 5);
  }

  // Alphabets

  datatype Alphabet = Rfc4648Lower | ZBase32

  function Symbol(a: Alphabet, q: quintet): byte {
    if a == ZBase32 then
      (match q
       case 0 => 'y' case 1 => 'b' case 2 => 'n' case 3 => 'd' case 4 => 'r' case 5 => 'f' case 6 => 'g' case 7 => '8'
       case 8 => 'e' case 9 => 'j' case 10 => 'k' case 11 => 'm' case 12 => 'c' case 13 => 'p' case 14 => 'q' case 15 => 'x'
       case 16 => 'o' case 17 => 't' case 18 => '1' case 19 => 'u' case 20 => 'w' case 21 => 'i' case 22 => 's' case 23 => 'z'
       case 24 => 'a' case 25 => '3' case 26 => '4' case 27 => '5' case 28 => 'h' case 29 => '7' case 30 => '6' case _ => '9'
      ) as int
    else if q < 26 then 'a' as int + q else '2' as int + (q - 26)
  }

  function Value(a: Alphabet, c: byte): Option<quintet> {
    if a == ZBase32 then
      match c as char
      case 'y' => Some(0) case 'b' => Some(1) case 'n' => Some(2) case 'd' => Some(3) case 'r' => Some(4)
      case 'f' => Some(5) case 'g' => Some(6) case '8' => Some(7) case 'e' => Some(8) case 'j' => Some(9)
      case 'k' => Some(10) case 'm' => Some(11) case 'c' => Some(12) case 'p' => Some(13) case 'q' => Some(14)
      case 'x' => Some(15) case 'o' => Some(16) case 't' => Some(17) case '1' => Some(18) case 'u' => Some(19)
      case 'w' => Some(20) case 'i' => Some(21) case 's' => Some(22) case 'z' => Some(23) case 'a' => Some(24)
      case '3' => Some(25) case '4' => Some(26) case '5' => Some(27) case 'h' => Some(28) case '7' => Some(29)
      case '6' => Some(30) case '9' => Some(31) case _ => None
    else if 'a' as int <= c <= 'z' as int then Some(c - 'a' as int)
    else if '2' as int <= c <= '7' as int then Some(c - '2' as int + 26)
    else None
  }

  lemma ValueOfSymbol(a: Alphabet, q: quintet)
    ensures Value(a, Symbol(a, q)) == Some(q)
  {}

  lemma ZSymbolOfValue(c: byte)
    requires Value(ZBase32, c).Some?
    ensures Symbol(ZBase32, Value(ZBase32, c).value) == c
  {}

  lemma SymbolOfValue(a: Alphabet, c: byte)
    requires Value(a, c).Some?
    ensures Symbol(a, Value(a, c).value) == c
  {
    if a == ZBase32 {
      ZSymbolOfValue(c);
    }
  }

  predicate IsSymbol(c: byte) {
    'a' as int <= c <= 'z' as int || '1' as int <= c <= '9' as int
  }

  function Symbols(a: Alphabet, groups: seq<quintet>): (r: Text)
    ensures |r| == |groups| && forall i :: 0 <= i < |r| ==> r[i] == Symbol(a, groups[i])
  {
    seq(|groups|, i requires 0 <= i < |groups| => Symbol(a, groups[i]))
  }

  function Values(a: Alphabet, s: Text): (r: Option<seq<quintet>>)
    ensures r.Some? ==> |r.value| == |s| && forall i :: 0 <= i < |s| ==> Value(a, s[i]) == Some(r.value[i])
    ensures r.None? ==> exists i :: 0 <= i < |s| && Value(a, s[i]).None?
  {
    if s == [] then Some([])
    else
      match (Values(a, s[..|s| - 1]), Value(a, s[|s| - 1]))
      case (Some(vs), Some(v)) => Some(vs + [v])
      case _ => None
  }

  function Encode(a: Alphabet, bytes: seq<byte>): Text {
    Symbols(a, ToGroups(bytes))
  }

  function Decode(a: Alphabet, s: Text): Option<seq<byte>> {
    match Values(a, s)
    case Some(groups) => FromGroups(groups)
    case None => None
  }

  /** Decoding undoes encoding, for all bytes. */
  lemma DecodeEncode(a: Alphabet, bytes: seq<byte>)
    ensures Decode(a, Encode(a, bytes)) == Some(bytes)
  {
    var groups := ToGroups(bytes);
    var s := Symbols(a, groups);
    forall i | 0 <= i < |s|
      ensures Value(a, s[i]) == Some(groups[i])
    {
      ValueOfSymbol(a, groups[i]);
    }
    assert Values(a, s).value == groups;
    FromToGroups(bytes);
  }

  /** The decoder accepts no second spelling: a text that decodes is the encoding of what it decodes to. */
  lemma EncodeDecode(a: Alphabet, s: Text)
    requires Decode(a, s).Some?
    ensures Encode(a, Decode(a, s).value) == s
  {
    var groups := Values(a, s).value;
    ToFromGroups(groups);
    forall i | 0 <= i < |s|
      ensures Symbols(a, groups)[i] == s[i]
    {
      SymbolOfValue(a, s[i]);
    }
  }

  lemma SymbolsAreSymbols(a: Alphabet, bytes: seq<byte>, i: nat)
    requires i < |Encode(a, bytes)|
    ensures IsSymbol(Encode(a, bytes)[i])
  {
    var q := ToGroups(bytes)[i];
    assert IsSymbol(Symbol(a, q));
  }
}
