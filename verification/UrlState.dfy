/** What the setters of a URL do to its path, its query string and its content version. */
module UrlState {
  import opened Wrappers
  import opened Base32
  import opened Percent
  import opened QueryString
  import Utf8
  import Multibase = XorUrlName

  type Foreign = Multibase.Foreign

  /** Text of the source, always well-formed. */
  type Str = s: Text | Utf8.Valid(s)

  // Content versions

  const HASH_LENGTH := 32

  type VersionHash = h: seq<byte> | |h| == HASH_LENGTH witness seq(HASH_LENGTH, _ => 0)

  datatype VersionError = NotDecodable | InvalidEncoding | InvalidHashLength

  function VersionText(h: VersionHash): Text {
    Multibase.BaseEncode(ZBase32, h)
  }

  function ParseVersion(foreign: Foreign, s: Text): Result<VersionHash, VersionError> {
    match Multibase.BaseDecode(foreign, s)
    case None => Err(NotDecodable)
    case Some((base, bytes)) =>
      if base != Multibase.Known(ZBase32) then Err(InvalidEncoding)
      else if |bytes| != HASH_LENGTH then Err(InvalidHashLength)
      else Ok(bytes)
  }

  /** The version texts are exactly the renderings of versions: one text for each version and no more. */
  lemma VersionTextsAreCanonical(foreign: Foreign, s: Text, h: VersionHash)
    ensures ParseVersion(foreign, s) == Ok(h) <==> s == VersionText(h)
  {
    Multibase.BaseRoundTrip(foreign, ZBase32, h);
    if ParseVersion(foreign, s) == Ok(h) {
      Multibase.BaseIsCanonical(foreign, ZBase32, s);
    }
  }

  lemma {:induction false} AsciiIsValid(s: Text)
    requires forall i :: 0 <= i < |s| ==> s[i] < 0x80
    ensures Utf8.Valid(s)
  {
    if s != [] {
      AsciiIsValid(s[1..]);
    }
  }

  lemma VersionTextIsValid(h: VersionHash)
    ensures Utf8.Valid(VersionText(h))
  {
    forall i | 0 <= i < |Encode(ZBase32, h)|
      ensures Encode(ZBase32, h)[i] < 0x80
    {
      SymbolsAreSymbols(ZBase32, h, i);
    }
    AsciiIsValid(VersionText(h));
  }

  // State and calls

  datatype State = State(path: Text, query: Text, version: Option<VersionHash>)

  datatype Call =
    | SetPath(text: Str)
    | SetQueryString(text: Str)
    | SetQueryKey(key: Str, val: Option<Str>)
    | SetContentVersion(version: Option<VersionHash>)

  datatype Outcome = Outcome(state: State, ok: bool)

  const VERSION_KEY: Text := ['v' as int]

  /** The path as the URL keeps it before any encoding. */
  function NormalPath(path: Text): Text {
    if path == [] || path == [SLASH] then []
    else if path[0] == SLASH then path
    else [SLASH] + path
  }

  /** The pairs after a key is set or removed; `done` says that the key was written already. */
  function SetIn(ps: seq<Pair>, key: Text, val: Option<Text>, done: bool): seq<Pair> {
    if ps == [] then
      if val.Some? && !done then [(key, val.value)] else []
    else if ps[0].0 == key then
      if val.Some? && !done then [(key, val.value)] + SetIn(ps[1..], key, val, true)
      else SetIn(ps[1..], key, val, done)
    else [ps[0]] + SetIn(ps[1..], key, val, done)
  }

  function Last(values: seq<Text>): Option<Text> {
    if values == [] then None else Some(values[|values| - 1])
  }

  function LastVersion(query: Text): Option<Text> {
    Last(ValuesOf(Pairs(query), VERSION_KEY))
  }

  function WithVersionText(foreign: Foreign, s: State, text: Option<Text>): Outcome {
    match text
    case None => Outcome(s.(version := None), true)
    case Some(t) =>
      match ParseVersion(foreign, t)
      case Ok(h) => Outcome(s.(version := Some(h)), true)
      case Err(_) => Outcome(s, false)
  }

  function WithQueryKey(foreign: Foreign, s: State, key: Text, val: Option<Text>): Outcome {
    var written := s.(query := Serialize(SetIn(Pairs(s.query), key, val, false)));
    if key == VERSION_KEY then WithVersionText(foreign, written, val) else Outcome(written, true)
  }

  function WithQueryString(foreign: Foreign, s: State, query: Text): Outcome {
    var o := WithVersionText(foreign, s, LastVersion(query));
    if o.ok then Outcome(o.state.(query := query), true) else Outcome(s, false)
  }

  function RenderVersion(version: Option<VersionHash>): Option<Text> {
    if version.Some? then Some(VersionText(version.value)) else None
  }

  function Apply(foreign: Foreign, s: State, call: Call): Outcome {
    match call
    case SetPath(text) => Outcome(s.(path := EncodePath(NormalPath(text))), true)
    case SetQueryString(text) => WithQueryString(foreign, s, text)
    case SetQueryKey(key, val) => WithQueryKey(foreign, s, key, val)
    case SetContentVersion(version) =>
      Outcome(WithQueryKey(foreign, s, VERSION_KEY, RenderVersion(version)).state, true)
  }

  function Run(foreign: Foreign, s: State, calls: seq<Call>): State
    decreases calls
  {
    if calls == [] then s else Run(foreign, Apply(foreign, s, calls[0]).state, calls[1..])
  }

  // Setting a key

  lemma {:induction false} SetWhenDone(ps: seq<Pair>, key: Text, val: Option<Text>, done: bool)
    requires val.Some? ==> done
    ensures SetIn(ps, key, val, done) == Without(ps, key)
  {
    if ps != [] {
      SetWhenDone(ps[1..], key, val, done);
    }
  }

  /** The value is set in the place of the first pair with the key, and later ones go; without one it is appended. */
  lemma {:induction false} SetInPlace(ps: seq<Pair>, key: Text, val: Text, i: nat)
    requires i <= |ps| && (forall j :: 0 <= j < i ==> ps[j].0 != key) && (i < |ps| ==> ps[i].0 == key)
    ensures SetIn(ps, key, Some(val), false)
         == ps[..i] + [(key, val)] + if i < |ps| then Without(ps[i + 1..], key) else []
    decreases i
  {
    if i > 0 {
      SetInPlace(ps[1..], key, val, i - 1);
      assert ps[..i] == [ps[0]] + ps[1..][..i - 1];
      if i < |ps| {
        assert ps[1..][i..] == ps[i + 1..];
      }
    } else if ps != [] {
      SetWhenDone(ps[1..], key, Some(val), true);
    }
  }

  /** Setting a key leaves one pair for it, removing leaves none, and the other pairs stay in order. */
  lemma {:induction false} SetInPairs(ps: seq<Pair>, key: Text, val: Option<Text>, done: bool)
    ensures Without(SetIn(ps, key, val, done), key) == Without(ps, key)
    ensures ValuesOf(SetIn(ps, key, val, done), key) == if val.Some? && !done then [val.value] else []
  {
    if ps != [] {
      var now := ps[0].0 == key && val.Some? && !done;
      var rest := SetIn(ps[1..], key, val, done || now);
      SetInPairs(ps[1..], key, val, done || now);
      if ps[0].0 != key {
        assert ([ps[0]] + rest)[1..] == rest;
      } else if now {
        assert ([(key, val.value)] + rest)[1..] == rest;
      }
    } else if val.Some? && !done {
      assert [(key, val.value)][1..] == [];
    }
  }

  lemma {:induction false} OtherValuesKept(ps: seq<Pair>, key: Text, other: Text)
    requires key != other
    ensures ValuesOf(Without(ps, key), other) == ValuesOf(ps, other)
  {
    if ps != [] {
      OtherValuesKept(ps[1..], key, other);
      if ps[0].0 == key {
        assert Without(ps, key) == Without(ps[1..], key);
        assert ValuesOf(ps, other) == ValuesOf(ps[1..], other);
      } else {
        assert ([ps[0]] + Without(ps[1..], key))[1..] == Without(ps[1..], key);
      }
    }
  }

  lemma {:induction false} SetInIsValid(ps: seq<Pair>, key: Text, val: Option<Text>, done: bool)
    requires ValidPairs(ps) && Utf8.Valid(key) && (val.Some? ==> Utf8.Valid(val.value))
    ensures ValidPairs(SetIn(ps, key, val, done))
  {
    if ps != [] {
      SetInIsValid(ps[1..], key, val, done || (ps[0].0 == key && val.Some?));
      SetInIsValid(ps[1..], key, val, done);
    }
  }

  /** The written query string reads back as the pairs that were meant. */
  lemma WrittenPairs(query: Text, key: Text, val: Option<Text>)
    requires Utf8.Valid(key) && (val.Some? ==> Utf8.Valid(val.value))
    ensures var ps := Pairs(Serialize(SetIn(Pairs(query), key, val, false)));
      && ps == SetIn(Pairs(query), key, val, false)
      && Without(ps, key) == Without(Pairs(query), key)
      && ValuesOf(ps, key) == (if val.Some? then [val.value] else [])
      && forall k :: k != key ==> ValuesOf(ps, k) == ValuesOf(Pairs(query), k)
  {
    var before := Pairs(query);
    var after := SetIn(before, key, val, false);
    PairsAreValid(query);
    SetInIsValid(before, key, val, false);
    PairsOfSerialized(after);
    SetInPairs(before, key, val, false);
    forall k | k != key
      ensures ValuesOf(after, k) == ValuesOf(before, k)
    {
      OtherValuesKept(before, key, k);
      OtherValuesKept(after, key, k);
    }
  }

  // The last pair of a key

  ghost predicate HasKey(ps: seq<Pair>, key: Text) {
    exists i :: 0 <= i < |ps| && ps[i].0 == key
  }

  /** The pair at this place has the key, and no later one has. */
  ghost predicate IsLastOf(ps: seq<Pair>, key: Text, i: int) {
    0 <= i < |ps| && ps[i].0 == key && forall j :: i < j < |ps| ==> ps[j].0 != key
  }

  /** There is a last value if and only if some pair has the key, and it is that of the last such pair. */
  lemma {:induction false} LastOfKey(ps: seq<Pair>, key: Text, i: int)
    ensures Last(ValuesOf(ps, key)).Some? <==> HasKey(ps, key)
    ensures IsLastOf(ps, key, i) ==> Last(ValuesOf(ps, key)) == Some(ps[i].1)
  {
    if ps != [] {
      var k := |ps| - 1;
      var front := ps[..k];
      ValuesOfLast(ps, key);
      LastOfKey(front, key, i);
      if ps[k].0 != key && HasKey(ps, key) {
        var j :| 0 <= j < |ps| && ps[j].0 == key;
        assert front[j] == ps[j];
      }
    }
  }

  lemma ValuesOfLast(ps: seq<Pair>, key: Text)
    requires ps != []
    ensures var k := |ps| - 1;
      ValuesOf(ps, key) == ValuesOf(ps[..k], key) + if ps[k].0 == key then [ps[k].1] else []
  {
    var k := |ps| - 1;
    assert ps == ps[..k] + [ps[k]];
    ValuesOfConcat(ps[..k], [ps[k]], key);
    var none: seq<Pair> := [];
    assert [ps[k]][1..] == none;
  }

  // Agreement of the content version with the query string

  /** The content version is the parse of the last `v` pair, and absent when there is none. */
  predicate Agrees(foreign: Foreign, s: State) {
    match LastVersion(s.query)
    case None => s.version == None
    case Some(t) => ParseVersion(foreign, t).Ok? && s.version == Some(ParseVersion(foreign, t).value)
  }

  /** No pair has the key `v` and there is no version, or the version is the one the last such pair spells. */
  ghost predicate FollowsLastPair(ps: seq<Pair>, version: Option<VersionHash>) {
    && (version.None? <==> !HasKey(ps, ['v' as int]))
    && forall i :: IsLastOf(ps, ['v' as int], i) ==> version.Some? && ps[i].1 == VersionText(version.value)
  }

  lemma {:induction false} LastExists(ps: seq<Pair>, key: Text) returns (i: int)
    requires HasKey(ps, key)
    ensures IsLastOf(ps, key, i)
  {
    i := |ps| - 1;
    if ps[i].0 != key {
      var j :| 0 <= j < |ps| && ps[j].0 == key;
      assert ps[..i][j] == ps[j];
      i := LastExists(ps[..i], key);
    }
  }

  lemma FollowsExactly(ps: seq<Pair>, i: int, version: Option<VersionHash>)
    requires IsLastOf(ps, ['v' as int], i)
    ensures FollowsLastPair(ps, version) <==> version.Some? && ps[i].1 == VersionText(version.value)
  {}

  lemma SpelledExactly(foreign: Foreign, text: Text, version: Option<VersionHash>)
    ensures version.Some? && text == VersionText(version.value)
       <==> ParseVersion(foreign, text).Ok? && version == Some(ParseVersion(foreign, text).value)
  {
    if version.Some? {
      VersionTextsAreCanonical(foreign, text, version.value);
    }
  }

  /** The agreement, told from the pairs. */
  lemma AgreesExactly(foreign: Foreign, s: State)
    ensures Agrees(foreign, s) <==> FollowsLastPair(Pairs(s.query), s.version)
  {
    var ps := Pairs(s.query);
    LastOfKey(ps, VERSION_KEY, 0);
    if HasKey(ps, VERSION_KEY) {
      var i := LastExists(ps, VERSION_KEY);
      LastOfKey(ps, VERSION_KEY, i);
      FollowsExactly(ps, i, s.version);
      SpelledExactly(foreign, ps[i].1, s.version);
    }
  }

  /** Whether a version text is missing or well-formed. */
  predicate Acceptable(foreign: Foreign, text: Option<Text>) {
    text.Some? ==> ParseVersion(foreign, text.value).Ok?
  }

  ghost predicate IsVersionText(text: Text) {
    exists h: VersionHash :: text == VersionText(h)
  }

  lemma VersionTextsParse(foreign: Foreign, text: Text)
    ensures ParseVersion(foreign, text).Ok? <==> IsVersionText(text)
  {
    if ParseVersion(foreign, text).Ok? {
      VersionTextsAreCanonical(foreign, text, ParseVersion(foreign, text).value);
    }
    if h: VersionHash :| text == VersionText(h) {
      VersionTextsAreCanonical(foreign, text, h);
    }
  }

  lemma LastSpells(ps: seq<Pair>, key: Text, i: int)
    requires IsLastOf(ps, key, i)
    ensures IsVersionText(ps[i].1) <==> forall k :: IsLastOf(ps, key, k) ==> IsVersionText(ps[k].1)
  {}

  /** A query string has an acceptable version if and only if its last `v` pair, if any, spells one. */
  lemma AcceptableExactly(foreign: Foreign, ps: seq<Pair>)
    ensures Acceptable(foreign, Last(ValuesOf(ps, VERSION_KEY)))
       <==> forall i :: IsLastOf(ps, ['v' as int], i) ==> IsVersionText(ps[i].1)
  {
    LastOfKey(ps, VERSION_KEY, 0);
    if HasKey(ps, VERSION_KEY) {
      var i := LastExists(ps, VERSION_KEY);
      LastOfKey(ps, VERSION_KEY, i);
      VersionTextsParse(foreign, ps[i].1);
      LastSpells(ps, VERSION_KEY, i);
    }
  }

  /** What a call does to the agreement, told from its arguments alone. */
  predicate AgreesAfter(foreign: Foreign, before: bool, call: Call) {
    match call
    case SetPath(_) => before
    case SetQueryString(text) => before || Acceptable(foreign, LastVersion(text))
    case SetQueryKey(key, val) => if key == VERSION_KEY then Acceptable(foreign, val) else before
    case SetContentVersion(_) => true
  }

  predicate AgreesAfterAll(foreign: Foreign, before: bool, calls: seq<Call>)
    decreases calls
  {
    if calls == [] then before
    else AgreesAfterAll(foreign, AgreesAfter(foreign, before, calls[0]), calls[1..])
  }

  lemma VersionKeyAgreement(foreign: Foreign, s: State, val: Option<Text>)
    requires val.Some? ==> Utf8.Valid(val.value)
    ensures Agrees(foreign, WithQueryKey(foreign, s, VERSION_KEY, val).state) <==> Acceptable(foreign, val)
    ensures WithQueryKey(foreign, s, VERSION_KEY, val).ok <==> Acceptable(foreign, val)
  {
    AsciiIsValid(VERSION_KEY);
    WrittenPairs(s.query, VERSION_KEY, val);
  }

  lemma OtherKeyAgreement(foreign: Foreign, s: State, key: Text, val: Option<Text>)
    requires Utf8.Valid(key) && (val.Some? ==> Utf8.Valid(val.value)) && key != VERSION_KEY
    ensures Agrees(foreign, WithQueryKey(foreign, s, key, val).state) <==> Agrees(foreign, s)
  {
    WrittenPairs(s.query, key, val);
  }

  lemma RenderedIsAcceptable(foreign: Foreign, version: Option<VersionHash>)
    ensures Acceptable(foreign, RenderVersion(version))
    ensures version.Some? ==> Utf8.Valid(VersionText(version.value))
  {
    if version.Some? {
      VersionTextsAreCanonical(foreign, VersionText(version.value), version.value);
      VersionTextIsValid(version.value);
    }
  }

  /** Exactly which calls keep, restore or break the agreement. */
  lemma AgreementStep(foreign: Foreign, s: State, call: Call)
    ensures Agrees(foreign, Apply(foreign, s, call).state) <==> AgreesAfter(foreign, Agrees(foreign, s), call)
  {
    match call
    case SetPath(_) =>
    case SetQueryString(text) =>
    case SetQueryKey(key, val) =>
      if key == VERSION_KEY {
        VersionKeyAgreement(foreign, s, val);
      } else {
        OtherKeyAgreement(foreign, s, key, val);
      }
    case SetContentVersion(version) =>
      RenderedIsAcceptable(foreign, version);
      VersionKeyAgreement(foreign, s, RenderVersion(version));
  }

  /** Over every run of calls the agreement at the end can be told from the calls. */
  lemma {:induction false} AgreementOverRuns(foreign: Foreign, s: State, calls: seq<Call>)
    ensures Agrees(foreign, Run(foreign, s, calls)) <==> AgreesAfterAll(foreign, Agrees(foreign, s), calls)
    decreases calls
  {
    if calls != [] {
      AgreementStep(foreign, s, calls[0]);
      AgreementOverRuns(foreign, Apply(foreign, s, calls[0]).state, calls[1..]);
    }
  }

  /** Whether every call of a run returns Ok. */
  predicate AllOk(foreign: Foreign, s: State, calls: seq<Call>)
    decreases calls
  {
    calls == [] ||
    (Apply(foreign, s, calls[0]).ok && AllOk(foreign, Apply(foreign, s, calls[0]).state, calls[1..]))
  }

  lemma OkKeepsAgreement(foreign: Foreign, s: State, call: Call)
    requires Agrees(foreign, s) && Apply(foreign, s, call).ok
    ensures Agrees(foreign, Apply(foreign, s, call).state)
  {
    AgreementStep(foreign, s, call);
    if call.SetQueryKey? && call.key == VERSION_KEY {
      VersionKeyAgreement(foreign, s, call.val);
    }
  }

  /** Every run of calls that return Ok keeps the agreement. */
  lemma {:induction false} OkRunsAgree(foreign: Foreign, s: State, calls: seq<Call>)
    requires Agrees(foreign, s) && AllOk(foreign, s, calls)
    ensures Agrees(foreign, Run(foreign, s, calls))
    decreases calls
  {
    if calls != [] {
      OkKeepsAgreement(foreign, s, calls[0]);
      OkRunsAgree(foreign, Apply(foreign, s, calls[0]).state, calls[1..]);
    }
  }

  /** The one failing call that still writes: a `v` that does not parse enters the query string. */
  lemma BadVersionIsWritten(foreign: Foreign, s: State, key: Str, text: Str)
    requires key == VERSION_KEY && ParseVersion(foreign, text).Err?
    ensures var o := Apply(foreign, s, SetQueryKey(key, Some(text)));
      && !o.ok && LastVersion(o.state.query) == Some(text) && o.state.version == s.version
      && !Agrees(foreign, o.state)
  {
    WrittenPairs(s.query, VERSION_KEY, Some(text));
  }

  // Paths

  /** Setting a path and decoding it gives the path with a leading slash, and nothing for the root. */
  lemma PathRoundTrip(foreign: Foreign, s: State, text: Str)
    ensures PercentDecode(Apply(foreign, s, SetPath(text)).state.path) == Some(
              if text == [] || text == ['/' as int] then []
              else if text[0] == '/' as int then text
              else ['/' as int] + text)
    ensures Utf8.Valid(NormalPath(text))
  {
    DecodeEncodedPath(NormalPath(text));
    AsciiIsValid([SLASH]);
    Utf8.ValidConcat([SLASH], text);
  }

  /** Without encoding, setting a path again changes nothing. */
  lemma NormalPathIsNormal(path: Text)
    ensures NormalPath(NormalPath(path)) == NormalPath(path)
    ensures NormalPath(path) == path <==> path == [] || (path[0] == SLASH && |path| > 1)
  {}
}
