/** Decimal texts, and what 32 bits hold of the numbers. */
module Decimal {
  import opened Wrappers

  const LIMIT: nat := 0x1_0000_0000

  /** What 32 bits keep of a sum. */
  function Wrap(n: nat): (r: nat)
    ensures r < LIMIT && r <= n && (r == n <==> n < LIMIT)
  {
    if n < LIMIT then n else Wrap(n - LIMIT)
  }

  lemma {:induction false} WrapIsRemainder(n: nat)
    ensures Wrap(n) == n % 0x1_0000_0000
  {
    if n >= LIMIT {
      WrapIsRemainder(n - LIMIT);
    }
  }

  lemma {:induction false} WrapOfSum(a: nat, b: nat)
    ensures Wrap(Wrap(a) + b) == Wrap(a + b)
  {
    if a >= LIMIT {
      WrapOfSum(a - LIMIT, b);
    }
  }

  lemma WrapStep(n: nat, k: nat, was: nat, now: nat, sum: nat)
    requires was == Wrap(n) && now == Wrap(was + k) && sum == n + k
    ensures now == Wrap(sum)
  {
    WrapOfSum(n, k);
  }

  predicate IsDigit(c: char) {
    '0' <= c <= '9'
  }

  function Digit(n: nat): char
    requires n < 10
  {
    '0' + n as char
  }

  function Format(n: nat): string {
    if n < 10 then [Digit(n)] else Format(n / 10) + [Digit(n % 10)]
  }

  function Digits(s: string): Option<nat> {
    if s == [] then Some(0)
    else
      var last := s[|s| - 1];
      var rest := Digits(s[..|s| - 1]);
      if rest.Some? && IsDigit(last) then Some(10 * rest.value + (last - '0') as nat) else None
  }

  /** A sign may precede the digits; what does not fit is not a number. */
  function Parse(s: string): Option<nat> {
    var body := if s != [] && s[0] == '+' then s[1..] else s;
    if body == [] then None
    else
      match Digits(body)
      case Some(n) => if n < LIMIT then Some(n) else None
      case None => None
  }

  /** The number that a text stands for, of any size; no number stands for nothing. */
  function Reading(s: string): nat {
    match Digits(if s != [] && s[0] == '+' then s[1..] else s)
    case Some(n) => n
    case None => 0
  }

  /** What is read in 32 bits: a number that does not fit is lost. */
  function Number(s: string): (n: nat)
    ensures n < LIMIT
    ensures n == if Reading(s) < LIMIT then Reading(s) else 0
  {
    match Parse(s)
    case Some(n) => n
    case None => 0
  }

  lemma {:induction false} DigitsOfFormat(n: nat)
    ensures Digits(Format(n)) == Some(n) && Format(n) != [] && Format(n)[0] != '+'
  {
    if n >= 10 {
      DigitsOfFormat(n / 10);
      assert (Format(n / 10) + [Digit(n % 10)])[..|Format(n / 10)|] == Format(n / 10);
    }
  }

  lemma NumberOfFormat(n: nat)
    requires n < LIMIT
    ensures Number(Format(n)) == n
  {
    ReadingOfFormat(n);
  }

  lemma ReadingOfFormat(n: nat)
    ensures Reading(Format(n)) == n
  {
    DigitsOfFormat(n);
  }

  /** Only digits make a number, and a plus sign before them does not change it. */
  lemma {:induction false} DigitsExactly(s: string)
    ensures Digits(s).Some? <==> forall i :: 0 <= i < |s| ==> '0' <= s[i] <= '9'
  {
    if s != [] {
      DigitsExactly(s[..|s| - 1]);
      assert s == s[..|s| - 1] + [s[|s| - 1]];
    }
  }

  lemma ReadingExactly(s: string)
    requires s != [] ==> s[0] != '+'
    ensures Reading(['+'] + s) == Reading(s)
    ensures (exists i :: 0 <= i < |s| && !('0' <= s[i] <= '9')) ==> Reading(s) == 0
    ensures (forall i :: 0 <= i < |s| ==> '0' <= s[i] <= '9') ==> Digits(s) == Some(Reading(s))
  {
    DigitsExactly(s);
    assert (['+'] + s)[1..] == s;
  }

  /** A number is written in digits only, without leading zeros. */
  lemma {:induction false} FormatIsPlain(n: nat)
    ensures Format(n) != [] && (forall i :: 0 <= i < |Format(n)| ==> '0' <= Format(n)[i] <= '9')
    ensures Format(n)[0] == '0' <==> n == 0
  {
    if n >= 10 {
      FormatIsPlain(n / 10);
    }
  }
}
