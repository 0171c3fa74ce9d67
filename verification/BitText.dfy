/** The text of encoded bytes, letter by letter, told from the bits. */
module BitText {
  import opened Base32

  /** The bit of a number at a place counted from the least significant one. */
  predicate Bit(n: nat, j: nat) {
    if j == 0 then n % 2 == 1 else Bit(n / 2, j - 1)
  }

  lemma {:induction false} ToBitsAt(n: nat, w: nat, j: nat)
    requires j < w
    ensures ToBits(n, w)[j] == Bit(n, w - 1 - j)
    decreases w
  {
    if j < w - 1 {
      ToBitsAt(n / 2, w - 1, j);
    }
  }

  lemma {:induction false} UnpackAt(ns: seq<nat>, w: nat, i: nat, j: nat)
    requires i < |ns| && j < w
    ensures Total(i, w) + j < Total(|ns|, w)
    ensures Unpack(ns, w)[Total(i, w) + j] == ToBits(ns[i], w)[j]
    decreases i
  {
    if i > 0 {
      UnpackAt(ns[1..], w, i - 1, j);
      assert ns[1..][i - 1] == ns[i];
      assert Unpack(ns, w)[w + (Total(i - 1, w) + j)] == Unpack(ns[1..], w)[Total(i - 1, w) + j];
    }
  }

  /** The bit of a byte string at a place counted from its start, and no bit past its end. */
  predicate BitAt(bytes: seq<byte>, k: nat) {
    if bytes == [] then false
    else if k < 8 then Bit(bytes[0], 7 - k)
    else BitAt(bytes[1..], k - 8)
  }

  lemma {:induction false} BitPastEnd(bytes: seq<byte>, k: nat)
    requires k >= 8 * |bytes|
    ensures !BitAt(bytes, k)
  {
    if bytes != [] {
      BitPastEnd(bytes[1..], k - 8);
    }
  }

  lemma {:induction false} ByteBits(bytes: seq<byte>, k: nat)
    requires k < |Unpack(bytes, 8)|
    ensures Unpack(bytes, 8)[k] == BitAt(bytes, k)
  {
    if k < 8 {
      ToBitsAt(bytes[0], 8, k);
    } else {
      ByteBits(bytes[1..], k - 8);
    }
  }

  lemma QuintetBits(groups: seq<quintet>, i: nat, j: nat)
    requires i < |groups| && j < 5
    ensures |Unpack(groups, 5)| == 5 * |groups| && Unpack(groups, 5)[5 * i + j] == Bit(groups[i], 4 - j)
  {
    TotalOfBytes(|groups|);
    TotalOfBytes(i);
    UnpackAt(groups, 5, i, j);
    ToBitsAt(groups[i], 5, j);
  }

  lemma BitsOfGroups(bytes: seq<byte>)
    ensures |Unpack(bytes, 8)| == 8 * |bytes| <= 5 * GroupsFor(|bytes|)
    ensures Unpack(ToGroups(bytes), 5) == Unpack(bytes, 8) + Zeros(5 * GroupsFor(|bytes|) - 8 * |bytes|)
  {
    var n, g := |bytes|, GroupsFor(|bytes|);
    TotalOfBytes(n);
    TotalOfBytes(g);
    UnpackPack(Unpack(bytes, 8) + Zeros(5 * g - 8 * n), 5, g);
  }

  lemma GroupBits(bytes: seq<byte>, i: nat, j: nat)
    requires i < GroupsFor(|bytes|) && j < 5
    ensures Bit(ToGroups(bytes)[i], 4 - j) == BitAt(bytes, 5 * i + j)
  {
    QuintetBits(ToGroups(bytes), i, j);
    BitsOfGroups(bytes);
    if 5 * i + j < 8 * |bytes| {
      ByteBits(bytes, 5 * i + j);
    } else {
      BitPastEnd(bytes, 5 * i + j);
    }
  }

  function Place(b: bool, weight: nat): nat {
    if b then weight else 0
  }

  /** The five bits from a place on, as a number. */
  function FiveAt(bytes: seq<byte>, k: nat): (n: nat)
    ensures n < 32
  {
    Place(BitAt(bytes, k), 16) + Place(BitAt(bytes, k + 1), 8) + Place(BitAt(bytes, k + 2), 4)
    + Place(BitAt(bytes, k + 3), 2) + Place(BitAt(bytes, k + 4), 1)
  }

  lemma TwoBits(n: nat)
    requires n < 4
    ensures n == Place(Bit(n, 1), 2) + Place(Bit(n, 0), 1)
  {
    assert Bit(n, 1) == Bit(n / 2, 0);
  }

  lemma ThreeBits(n: nat)
    requires n < 8
    ensures n == Place(Bit(n, 2), 4) + Place(Bit(n, 1), 2) + Place(Bit(n, 0), 1)
  {
    TwoBits(n / 2);
  }

  lemma FourBits(n: nat)
    requires n < 16
    ensures n == Place(Bit(n, 3), 8) + Place(Bit(n, 2), 4) + Place(Bit(n, 1), 2) + Place(Bit(n, 0), 1)
  {
    ThreeBits(n / 2);
  }

  lemma FiveBits(n: nat, b4: bool, b3: bool, b2: bool, b1: bool, b0: bool)
    requires n < 32
    requires Bit(n, 4) == b4 && Bit(n, 3) == b3 && Bit(n, 2) == b2 && Bit(n, 1) == b1 && Bit(n, 0) == b0
    ensures n == Place(b4, 16) + Place(b3, 8) + Place(b2, 4) + Place(b1, 2) + Place(b0, 1)
  {
    FourBits(n / 2);
  }

  lemma GroupIsFive(bytes: seq<byte>, i: nat, k: nat)
    requires i < GroupsFor(|bytes|) && k == 5 * i
    ensures ToGroups(bytes)[i] == FiveAt(bytes, k)
  {
    GroupBits(bytes, i, 0);
    GroupBits(bytes, i, 1);
    GroupBits(bytes, i, 2);
    GroupBits(bytes, i, 3);
    GroupBits(bytes, i, 4);
    FiveBits(ToGroups(bytes)[i], BitAt(bytes, k), BitAt(bytes, k + 1), BitAt(bytes, k + 2), BitAt(bytes, k + 3),
             BitAt(bytes, k + 4));
  }

  /** The 32 symbols in order. */
  function Letters(a: Alphabet): (s: string)
    ensures |s| == 32
  {
    match a
    case ZBase32 => "ybndrfg8ejkmcpqxot1uwisza345h769"
    case Rfc4648Lower => "abcdefghijklmnopqrstuvwxyz234567"
  }

  lemma SymbolIsLetter(a: Alphabet, q: quintet)
    ensures Symbol(a, q) == Letters(a)[q] as int
  {}

  /** Each symbol of the text stands for the next five bits of the bytes, with zero bits past their end. */
  lemma EncodedSymbol(a: Alphabet, bytes: seq<byte>, i: nat)
    requires i < (8 * |bytes| + 4) / 5
    ensures |Encode(a, bytes)| == (8 * |bytes| + 4) / 5
    ensures Encode(a, bytes)[i] == Letters(a)[FiveAt(bytes, 5 * i)] as int
  {
    GroupIsFive(bytes, i, 5 * i);
    SymbolIsLetter(a, ToGroups(bytes)[i]);
  }
}
