/** What paths, query strings and hosts are as texts, by their letters. */
module UrlText {
  import opened Wrappers
  import opened Base32
  import opened HostNames
  import opened Percent
  import opened QueryString
  import opened UrlState
  import Splitting
  import Utf8

  // Paths

  ghost predicate IsPathLetter(b: byte) {
    || 'a' as int <= b <= 'z' as int || 'A' as int <= b <= 'Z' as int || '0' as int <= b <= '9' as int
    || b as char in "-._~/"
  }

  lemma {:induction false} EncodedPathLetters(s: Text)
    ensures forall i :: 0 <= i < |EncodePath(s)| ==> IsPathLetter(EncodePath(s)[i]) || EncodePath(s)[i] == '%' as int
    ensures EncodePath(s) == s <==> forall i :: 0 <= i < |s| ==> IsPathLetter(s[i])
    ensures |s| <= |EncodePath(s)|
  {
    if s != [] {
      EncodedPathLetters(s[1..]);
      var rest := EncodePath(s[1..]);
      if IsPathLetter(s[0]) {
        assert EncodePath(s) == [s[0]] + rest;
        assert EncodePath(s) == s <==> rest == s[1..];
      } else {
        EscapeIsHex(s[0]);
        assert EncodePath(s) == Escape(s[0]) + rest;
      }
    }
  }

  /** Every other byte becomes a percent sign and its two upper-case hexadecimal digits. */
  lemma EscapeIsHex(b: byte)
    ensures Escape(b) == ['%' as int, "0123456789ABCDEF"[b / 16] as int, "0123456789ABCDEF"[b % 16] as int]
  {
    HexLetter(b / 16);
    HexLetter(b % 16);
  }

  lemma HexLetter(n: nat)
    requires n < 16
    ensures HexDigit(n) == "0123456789ABCDEF"[n] as int
    ensures IsPathLetter(HexDigit(n))
  {}

  /** The stored path of a URL has no question mark, no hash, no space and no other byte that would end it. */
  lemma SetPathIsOnePath(foreign: Foreign, s: State, text: Str)
    ensures var path := Apply(foreign, s, SetPath(text)).state.path;
      && (forall i :: 0 <= i < |path| ==> IsPathLetter(path[i]) || path[i] == '%' as int)
      && '?' as int !in path && '#' as int !in path && ' ' as int !in path
      && (path != [] ==> path[0] == '/' as int)
  {
    EncodedPathLetters(NormalPath(text));
  }

  // Query strings

  /** Bytes that the query of a URL keeps as they are. */
  ghost predicate IsQueryLetter(b: byte) {
    0x20 < b < 0x7f && b as char !in "\"#<>'"
  }

  lemma {:induction false} QueryLettersAreKept(s: Text)
    requires forall i :: 0 <= i < |s| ==> IsQueryLetter(s[i])
    ensures DropTabsAndNewlines(s) == s && EscapeQuery(s) == s
  {
    if s != [] {
      QueryLettersAreKept(s[1..]);
    }
  }

  ghost predicate QueryLetters(s: Text) {
    forall i :: 0 <= i < |s| ==> IsQueryLetter(s[i])
  }

  lemma QueryOfLetters(s: Text)
    requires QueryLetters(s)
    ensures UrlQuery(s) == s
  {
    QueryLettersAreKept(s);
    Splitting.SplitWithoutSeparator<byte>(s, '#' as int);
  }

  lemma {:induction false} NothingIsDropped(s: Text)
    requires forall i :: 0 <= i < |s| ==> s[i] > 0x20
    ensures DropTabsAndNewlines(s) == s
  {
    if s != [] {
      NothingIsDropped(s[1..]);
    }
  }

  lemma QueryBeforeHash(s: Text, fragment: Text)
    requires QueryLetters(s) && QueryLetters(fragment)
    ensures UrlQuery(s + ['#' as int] + fragment) == s
  {
    var whole := s + ['#' as int] + fragment;
    assert TrimEnd(whole) == whole;
    NothingIsDropped(whole);
    Splitting.SplitAtFirst<byte>(s, fragment, '#' as int);
    QueryLettersAreKept(s);
  }

  /** The parts between ampersands make the pairs, up to a hash sign if there is one. */
  lemma PairsOfParts(query: Text, parts: seq<Text>, fragment: Text)
    requires parts != [] && Splitting.Free<byte>(parts, '&' as int) && query == Splitting.Join<byte>(parts, '&' as int)
    requires QueryLetters(query) && QueryLetters(fragment)
    ensures Pairs(query) == Pairs(query + ['#' as int] + fragment) == ParseParts(parts)
  {
    Splitting.SplitJoin<byte>(parts, '&' as int);
    QueryOfLetters(query);
    QueryBeforeHash(query, fragment);
  }

  /** Spaces and control characters at the end of a query string do not count. */
  lemma QueryEndIsTrimmed(s: Text, b: byte)
    requires b <= 0x20
    ensures Pairs(s + [b]) == Pairs(s)
  {
    assert (s + [b])[..|s|] == s;
    assert QueryString.TrimEnd(s + [b]) == QueryString.TrimEnd(s);
  }

  lemma {:induction false} DroppedInside(a: Text, t: byte, b: Text)
    requires t == 9 || t == 10 || t == 13
    ensures DropTabsAndNewlines(a + [t] + b) == DropTabsAndNewlines(a + b)
  {
    if a == [] {
      assert a + [t] + b == [t] + b && ([t] + b)[1..] == b && a + b == b;
    } else {
      assert (a + [t] + b)[1..] == a[1..] + [t] + b && (a + b)[1..] == a[1..] + b;
      DroppedInside(a[1..], t, b);
    }
  }

  /** Neither do tabs and line ends anywhere before the end. */
  lemma TabsAreDropped(a: Text, t: byte, b: Text)
    requires (t == 9 || t == 10 || t == 13) && b != [] && b[|b| - 1] > 0x20
    ensures Pairs(a + [t] + b) == Pairs(a + b)
  {
    DroppedInside(a, t, b);
  }

  /** The first equals sign ends the key; without one the whole part is the key, and its value is empty. */
  lemma PairAtFirstEquals(key: Text, val: Text)
    requires '=' as int !in key
    ensures ParsePair(key + ['=' as int] + val) == (DecodeText(key), DecodeText(val))
    ensures ParsePair(key) == (DecodeText(key), [])
  {
    PartsAtEquals(key, val);
    Splitting.SplitWithoutSeparator<byte>(key, '=' as int);
    assert [key][1..] == [];
  }

  lemma PartsAtEquals(key: Text, val: Text)
    requires '=' as int !in key
    ensures var parts := Splitting.Split<byte>(key + ['=' as int] + val, '=' as int);
      parts[0] == key && Splitting.Join<byte>(parts[1..], '=' as int) == val
  {
    var rest := Splitting.Split<byte>(val, '=' as int);
    Splitting.SplitAtFirst<byte>(key, val, '=' as int);
    Splitting.JoinSplit<byte>(val, '=' as int);
    assert ([key] + rest)[1..] == rest;
  }

  lemma {:induction false} PairsOfMore(a: seq<Text>, b: seq<Text>)
    ensures ParseParts(a + b) == ParseParts(a) + ParseParts(b)
  {
    if a == [] {
      assert a + b == b;
    } else {
      assert (a + b)[1..] == a[1..] + b;
      PairsOfMore(a[1..], b);
    }
  }

  /** Every part that is not empty gives its pair, in order. */
  lemma PairsInOrder(a: seq<Text>, part: Text)
    ensures ParseParts(a + [part]) == if part == [] then ParseParts(a) else ParseParts(a) + [ParsePair(part)]
  {
    PairsOfMore(a, [part]);
    assert [part][1..] == [];
  }

  lemma {:induction false} DecodedWord(word: Text, rest: Text)
    requires '+' as int !in word && '%' as int !in word
    ensures FormDecode(word + rest) == word + FormDecode(rest)
  {
    if word == [] {
      assert word + rest == rest;
    } else {
      assert (word + rest)[1..] == word[1..] + rest;
      DecodedWord(word[1..], rest);
    }
  }

  lemma DecodedPlus(rest: Text)
    ensures FormDecode(['+' as int] + rest) == [' ' as int] + FormDecode(rest)
  {
    assert (['+' as int] + rest)[1..] == rest;
  }

  lemma HexOfLetter(n: nat, letter: byte)
    requires n < 16 && (letter == "0123456789ABCDEF"[n] as int || letter == "0123456789abcdef"[n] as int)
    ensures HexValue(letter) == Some(n)
  {}

  /** An escape stands for the byte of its two hexadecimal digits, of either case. */
  lemma DecodedEscape(high: nat, low: nat, a: byte, b: byte, rest: Text)
    requires HexValue(a) == Some(high) && HexValue(b) == Some(low) && high < 16 && low < 16
    ensures FormDecode(['%' as int, a, b] + rest) == [16 * high + low] + FormDecode(rest)
    ensures PercentDecode(['%' as int, a, b] + rest) == Prepend(16 * high + low, PercentDecode(rest))
  {
    var whole := ['%' as int, a, b] + rest;
    assert whole[3..] == rest && Unescape(whole) == Some(16 * high + low);
  }

  /** A percent sign that starts no escape stands for itself. */
  lemma DecodedPercent(rest: Text)
    requires |rest| < 2 || HexValue(rest[0]).None? || HexValue(rest[1]).None?
    ensures FormDecode(['%' as int] + rest) == ['%' as int] + FormDecode(rest)
  {
    assert (['%' as int] + rest)[1..] == rest;
  }

  lemma DecodedAscii(s: Text, t: Text)
    requires FormDecode(s) == t && forall i :: 0 <= i < |t| ==> t[i] < 0x80
    ensures DecodeText(s) == t
  {
    AsciiIsValid(t);
    Utf8.LossyKeepsValid(t);
  }

  /** Letters that stand for themselves in a key or a value. */
  ghost predicate IsWord(s: Text) {
    QueryLetters(s) && '+' as int !in s && '%' as int !in s && '=' as int !in s && '&' as int !in s
  }

  lemma WordDecodes(a: Text)
    requires IsWord(a)
    ensures DecodeText(a) == a
  {
    DecodedWord(a, []);
    assert a + [] == a;
    DecodedAscii(a, a);
  }

  lemma WithPlus(a: Text, b: Text)
    requires IsWord(a) && IsWord(b)
    ensures DecodeText(a + (['+' as int] + b)) == a + ([' ' as int] + b)
  {
    DecodedWord(a, ['+' as int] + b);
    DecodedPlus(b);
    DecodedWord(b, []);
    assert b + [] == b;
    DecodedAscii(a + (['+' as int] + b), a + ([' ' as int] + b));
  }

  lemma WithEscape(a: Text, b: Text)
    requires IsWord(a) && IsWord(b)
    ensures DecodeText(a + (['%' as int, '2' as int, '0' as int] + b)) == a + ([' ' as int] + b)
  {
    DecodedWord(a, ['%' as int, '2' as int, '0' as int] + b);
    DecodedEscape(2, 0, '2' as int, '0' as int, b);
    DecodedWord(b, []);
    assert b + [] == b;
    DecodedAscii(a + (['%' as int, '2' as int, '0' as int] + b), a + ([' ' as int] + b));
  }

  lemma PartOf(key: Text, raw: Text, val: Text)
    requires IsWord(key) && DecodeText(raw) == val
    ensures ParsePair(key + ['=' as int] + raw) == (key, val)
  {
    WordDecodes(key);
    PairAtFirstEquals(key, raw);
  }

  lemma TwoParts(a: Text, b: Text)
    requires a != [] && b != []
    ensures ParseParts([a, b]) == [ParsePair(a), ParsePair(b)]
  {
    PairsInOrder([], a);
    PairsInOrder([a], b);
    assert [] + [a] == [a] && [a] + [b] == [a, b];
  }

  lemma PairsOfTwo(key: Text, a: Text, b: Text, v: Text, w: Text)
    requires IsWord(key) && QueryLetters(a) && QueryLetters(b) && '&' as int !in a && '&' as int !in b
    requires DecodeText(a) == v && DecodeText(b) == w
    ensures Pairs((key + ['=' as int] + a) + ['&' as int] + (key + ['=' as int] + b)) == [(key, v), (key, w)]
  {
    var first, second := key + ['=' as int] + a, key + ['=' as int] + b;
    var parts := [first, second];
    assert parts[1..] == [second];
    PairsOfParts(first + ['&' as int] + second, parts, []);
    TwoParts(first, second);
    PartOf(key, a, v);
    PartOf(key, b, w);
  }

  lemma LastOfPairs(ps: seq<Pair>, key: Text, v: Text, w: Text)
    requires ps == [(key, v), (key, w)]
    ensures Last(ValuesOf(ps, key)) == Some(w)
  {
    LastOfKey(ps, key, 1);
  }

  /** `key=a+c&key=b%20c` has two pairs with one key, and the value of the key is `b c`. */
  lemma LastOfTwo(key: Text, a: Text, b: Text, c: Text, first: Text, second: Text, query: Text)
    requires IsWord(key) && IsWord(a) && IsWord(b) && IsWord(c)
    requires first == a + (['+' as int] + c) && second == b + (['%' as int, '2' as int, '0' as int] + c)
    requires query == (key + ['=' as int] + first) + ['&' as int] + (key + ['=' as int] + second)
    ensures Pairs(query) == [(key, a + ([' ' as int] + c)), (key, b + ([' ' as int] + c))]
    ensures Last(ValuesOf(Pairs(query), key)) == Some(b + ([' ' as int] + c))
  {
    WithPlus(a, c);
    WithEscape(b, c);
    LettersOf(a, b, c);
    PairsOfTwo(key, first, second, a + ([' ' as int] + c), b + ([' ' as int] + c));
    LastOfPairs(Pairs(query), key, a + ([' ' as int] + c), b + ([' ' as int] + c));
  }

  lemma LettersOf(a: Text, b: Text, c: Text)
    requires IsWord(a) && IsWord(b) && IsWord(c)
    ensures QueryLetters(a + (['+' as int] + c)) && '&' as int !in a + (['+' as int] + c)
    ensures var escaped := b + (['%' as int, '2' as int, '0' as int] + c);
      QueryLetters(escaped) && '&' as int !in escaped
  {}

  // Written query strings

  ghost predicate IsFormLetter(b: byte) {
    || 'a' as int <= b <= 'z' as int || 'A' as int <= b <= 'Z' as int || '0' as int <= b <= '9' as int
    || b as char in "*-._"
  }

  /** Letters are written as they are, a space as a plus sign and every other byte as an escape. */
  lemma {:induction false} FormText(a: Text, b: byte)
    ensures FormEncode(a + [b]) == FormEncode(a) +
      if IsFormLetter(b) then [b] else if b == ' ' as int then ['+' as int] else Escape(b)
  {
    if a == [] {
      assert a + [b] == [b] && [b][1..] == [];
    } else {
      assert (a + [b])[1..] == a[1..] + [b];
      FormText(a[1..], b);
    }
  }

  lemma {:induction false} SerializedAppend(ps: seq<Pair>, p: Pair)
    ensures SerializeAll(ps + [p]) == SerializeAll(ps) + [SerializePair(p)]
    ensures |SerializeAll(ps)| == |ps|
  {
    if ps == [] {
      assert ps + [p] == [p] && [p][1..] == [];
    } else {
      assert (ps + [p])[1..] == ps[1..] + [p];
      SerializedAppend(ps[1..], p);
    }
  }

  /** Pairs are written as key, equals sign and value, with an ampersand between two pairs. */
  lemma SerializedText(ps: seq<Pair>, p: Pair)
    ensures var pair := FormEncode(p.0) + ['=' as int] + FormEncode(p.1);
      Serialize(ps + [p]) == if ps == [] then pair else Serialize(ps) + ['&' as int] + pair
    ensures ps == [] ==> Serialize(ps) == []
  {
    SerializedAppend(ps, p);
    if ps != [] {
      Splitting.JoinAppend<byte>(SerializeAll(ps), SerializePair(p), '&' as int);
    } else {
      assert SerializeAll(ps) + [SerializePair(p)] == [SerializePair(p)];
    }
  }

  /** Decoding a path changes nothing but its escapes. */
  lemma DecodedOther(b: byte, rest: Text)
    requires b != '%' as int
    ensures PercentDecode([b] + rest) == Prepend(b, PercentDecode(rest))
  {
    assert ([b] + rest)[1..] == rest;
  }

  // Hosts

  /** The bytes of a host, told from their letters. */
  lemma SafeLetters(b: byte)
    ensures IsUrlSafe(b) <==> 0x20 < b < 0x7f && b as char !in "#/:<>?@[\\]^|"
  {}

  ghost predicate Visible(s: Text) {
    forall i :: 0 <= i < |s| ==> s[i] > 0x20 && s[i] != 0x7f
  }

  lemma {:induction false} AuthorityEnds(a: Text, end: byte, rest: Text)
    requires (forall i :: 0 <= i < |a| ==> a[i] as char !in "/?#") && end as char in "/?#"
    ensures Authority(a + [end] + rest) == a && Authority(a) == a
  {
    if a != [] {
      assert (a + [end] + rest)[1..] == a[1..] + [end] + rest;
      AuthorityEnds(a[1..], end, rest);
    }
  }

  lemma HostFrom(text: Text, authority: Text, inner: Text, host: Text)
    requires Visible(text) && Authority(text) == authority && WithoutUser(authority) == inner
    requires WithoutPort(inner) == Some(host) && AllUrlSafe(host)
    ensures HostOf(text) == Some(host)
  {
    SafeIsNotEscaped(host);
  }

  lemma AuthorityStands(user: Text, host: Text, port: Text, whole: Text, end: byte, rest: Text)
    requires AllUrlSafe(user) && AllUrlSafe(host) && AllUrlSafe(port) && end as char in "/?#" && Visible(rest)
    requires whole == user + ['@' as int] + (host + [':' as int] + port)
    ensures Authority(whole + [end] + rest) == whole && Visible(whole + [end] + rest)
  {
    AuthorityEnds(whole, end, rest);
  }

  /** The host stands behind the at sign and before a colon with a port, a slash, a question mark or a hash. */
  lemma HostStands(user: Text, host: Text, port: Text, end: byte, rest: Text, inner: Text, whole: Text)
    requires AllUrlSafe(user) && AllUrlSafe(host) && AllUrlSafe(port) && PortOf(port).Some?
    requires end as char in "/?#" && Visible(rest)
    requires inner == host + [':' as int] + port && whole == user + ['@' as int] + inner
    ensures HostOf(whole + [end] + rest) == Some(host)
  {
    AuthorityStands(user, host, port, whole, end, rest);
    UserStands(user, inner);
    PortStands(host, port);
    HostFrom(whole + [end] + rest, whole, inner, host);
  }

  lemma UserStands(user: Text, authority: Text)
    requires '@' as int !in user && '@' as int !in authority
    ensures WithoutUser(user + ['@' as int] + authority) == authority && WithoutUser(authority) == authority
  {
    Splitting.SplitAtFirst<byte>(user, authority, '@' as int);
    Splitting.SplitWithoutSeparator<byte>(authority, '@' as int);
  }

  lemma PortStands(host: Text, port: Text)
    requires ':' as int !in host && ':' as int !in port && PortOf(port).Some?
    ensures WithoutPort(host + [':' as int] + port) == Some(host)
  {
    Splitting.SplitAtFirst<byte>(host, port, ':' as int);
    Splitting.SplitWithoutSeparator<byte>(port, ':' as int);
  }
}
