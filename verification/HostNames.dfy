/** The host that a URL library finds in the text behind `safe://`: sections 3.5 and 4.4 of the WHATWG URL Standard. */
module HostNames {
  import opened Wrappers
  import opened Base32
  import opened Percent
  import opened Splitting

  const AT: byte := '@' as int
  const COLON: byte := ':' as int

  predicate EndsAuthority(b: byte) {
    b == SLASH || b == '?' as int || b == '#' as int
  }

  /** The bytes that no host may contain. */
  predicate IsForbidden(b: byte) {
    EndsAuthority(b) || b <= SPACE || b == COLON || b == AT || b == '<' as int || b == '>' as int
    || b == '[' as int || b == '\\' as int || b == ']' as int || b == '^' as int || b == '|' as int
  }

  /** The bytes that a host keeps as they are. */
  predicate IsUrlSafe(b: byte) {
    !IsForbidden(b) && b < 0x7f
  }

  ghost predicate AllUrlSafe(s: Text) {
    forall i :: 0 <= i < |s| ==> IsUrlSafe(s[i])
  }

  function Authority(s: Text): Text {
    if s == [] || EndsAuthority(s[0]) then [] else [s[0]] + Authority(s[1..])
  }

  function WithoutUser(s: Text): Text {
    var parts := Split(s, AT);
    parts[|parts| - 1]
  }

  function PortOf(s: Text): Option<nat> {
    if s == [] then Some(0)
    else
      var last := s[|s| - 1];
      match PortOf(s[..|s| - 1])
      case Some(n) =>
        if '0' as int <= last <= '9' as int && 10 * n + (last - '0' as int) <= 65535
        then Some(10 * n + (last - '0' as int)) else None
      case None => None
  }

  function WithoutPort(s: Text): Option<Text> {
    var parts := Split(s, COLON);
    if |parts| == 1 then Some(s)
    else if |parts| == 2 && PortOf(parts[1]).Some? then Some(parts[0])
    else None
  }

  function EscapeHost(s: Text): Text {
    if s == [] then [] else (if s[0] < 0x7f then [s[0]] else Escape(s[0])) + EscapeHost(s[1..])
  }

  /** White space and control characters are refused in the whole text, forbidden bytes in the host. */
  function HostOf(text: Text): Option<Text> {
    if exists i :: 0 <= i < |text| && (text[i] <= SPACE || text[i] == 0x7f) then None
    else
      match WithoutPort(WithoutUser(Authority(text)))
      case None => None
      case Some(host) => if exists i :: 0 <= i < |host| && IsForbidden(host[i]) then None else Some(EscapeHost(host))
  }

  lemma {:induction false} EscapedIsSafe(s: Text)
    requires forall i :: 0 <= i < |s| ==> !IsForbidden(s[i])
    ensures AllUrlSafe(EscapeHost(s))
  {
    if s != [] {
      EscapedIsSafe(s[1..]);
    }
  }

  lemma {:induction false} SafeIsNotEscaped(s: Text)
    requires AllUrlSafe(s)
    ensures EscapeHost(s) == s && Authority(s) == s
  {
    if s != [] {
      SafeIsNotEscaped(s[1..]);
    }
  }

  /** A host is made of bytes that a host keeps, and a text of such bytes is its own host. */
  lemma HostsAreSafe(text: Text)
    ensures HostOf(text).Some? ==> AllUrlSafe(HostOf(text).value)
    ensures AllUrlSafe(text) ==> HostOf(text) == Some(text)
  {
    var host := WithoutPort(WithoutUser(Authority(text)));
    if HostOf(text).Some? {
      EscapedIsSafe(host.value);
    }
    if AllUrlSafe(text) {
      SafeIsNotEscaped(text);
      SplitWithoutSeparator(text, AT);
      SplitWithoutSeparator(text, COLON);
    }
  }

  lemma {:induction false} PartsAreSafe(s: Text, sep: byte)
    requires AllUrlSafe(s)
    ensures forall i :: 0 <= i < |Split(s, sep)| ==> AllUrlSafe(Split(s, sep)[i])
  {
    if s != [] {
      PartsAreSafe(s[1..], sep);
    }
  }

  lemma {:induction false} JoinIsSafe(parts: seq<Text>, sep: byte)
    requires IsUrlSafe(sep) && forall i :: 0 <= i < |parts| ==> AllUrlSafe(parts[i])
    ensures AllUrlSafe(Join(parts, sep))
  {
    if |parts| > 1 {
      JoinIsSafe(parts[1..], sep);
    }
  }
}
