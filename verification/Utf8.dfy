/** Well-formed UTF-8, and the replacement of ill-formed parts. */
module Utf8 {
  import opened Base32

  predicate IsContinuation(b: byte) {
    0x80 <= b <= 0xbf
  }

  /** The second byte that may follow a lead byte of a sequence of two or more. */
  predicate SecondFits(lead: byte, second: byte) {
    match lead
    case 0xe0 => 0xa0 <= second <= 0xbf
    case 0xed => 0x80 <= second <= 0x9f
    case 0xf0 => 0x90 <= second <= 0xbf
    case 0xf4 => 0x80 <= second <= 0x8f
    case _ => IsContinuation(second)
  }

  function LengthByLead(lead: byte): nat {
    if lead < 0x80 then 1
    else if 0xc2 <= lead <= 0xdf then 2
    else if 0xe0 <= lead <= 0xef then 3
    else if 0xf0 <= lead <= 0xf4 then 4
    else 0
  }

  /** How many bytes of `s` agree with the sequence that its first byte announces. */
  function GoodPrefix(s: Text): (n: nat)
    requires s != []
    ensures 1 <= n <= |s|
  {
    var need := LengthByLead(s[0]);
    if need < 2 || |s| < 2 || !SecondFits(s[0], s[1]) then 1
    else if need < 3 || |s| < 3 || !IsContinuation(s[2]) then 2
    else if need < 4 || |s| < 4 || !IsContinuation(s[3]) then 3
    else 4
  }

  predicate HeadIsGood(s: Text)
    requires s != []
  {
    GoodPrefix(s) == LengthByLead(s[0])
  }

  predicate Valid(s: Text) {
    s == [] || (HeadIsGood(s) && Valid(s[GoodPrefix(s)..]))
  }

  /** Each maximal ill-formed part becomes one replacement character. */
  function Lossy(s: Text): Text {
    if s == [] then []
    else (if HeadIsGood(s) then s[..GoodPrefix(s)] else [0xef, 0xbf, 0xbd]) + Lossy(s[GoodPrefix(s)..])
  }

  lemma {:induction false} LossyKeepsValid(s: Text)
    requires Valid(s)
    ensures Lossy(s) == s
  {
    if s != [] {
      LossyKeepsValid(s[GoodPrefix(s)..]);
    }
  }

  lemma GoodHeadOfConcat(head: Text, rest: Text)
    requires head != [] && HeadIsGood(head) && GoodPrefix(head) == |head|
    ensures HeadIsGood(head + rest) && GoodPrefix(head + rest) == |head|
  {}

  lemma GoodHeadAlone(s: Text)
    requires s != [] && HeadIsGood(s)
    ensures var head := s[..GoodPrefix(s)]; HeadIsGood(head) && GoodPrefix(head) == |head|
  {}

  lemma {:induction false} LossyIsValid(s: Text)
    ensures Valid(Lossy(s))
  {
    if s != [] {
      var n := GoodPrefix(s);
      LossyIsValid(s[n..]);
      var head: Text := if HeadIsGood(s) then s[..n] else [0xef, 0xbf, 0xbd];
      if HeadIsGood(s) {
        GoodHeadAlone(s);
      }
      GoodHeadOfConcat(head, Lossy(s[n..]));
      assert (head + Lossy(s[n..]))[|head|..] == Lossy(s[n..]);
    }
  }

  lemma {:induction false} ValidConcat(a: Text, b: Text)
    requires Valid(a) && Valid(b)
    ensures Valid(a + b)
  {
    if a == [] {
      assert a + b == b;
    } else {
      var n := GoodPrefix(a);
      GoodHeadAlone(a);
      assert a + b == a[..n] + (a[n..] + b);
      GoodHeadOfConcat(a[..n], a[n..] + b);
      ValidConcat(a[n..], b);
      assert (a + b)[n..] == a[n..] + b;
    }
  }
}
