/** The URL object: setters that change its path, query string and content version in place. */
module SafeUrl {
  import opened Wrappers
  import opened Base32
  import opened Percent
  import opened QueryString
  import opened UrlState
  import Splitting
  import Utf8

  function EncodeParts(parts: seq<Text>, encode: bool): seq<Text> {
    if parts == [] then []
    else [if encode then PercentEncode(parts[0]) else parts[0]] + EncodeParts(parts[1..], encode)
  }

  function Encoded(path: Text, encode: bool): Text {
    if encode then EncodePath(path) else path
  }

  lemma {:induction false} EncodePartsAppend(parts: seq<Text>, last: Text, encode: bool)
    ensures EncodeParts(parts + [last], encode)
         == EncodeParts(parts, encode) + [if encode then PercentEncode(last) else last]
  {
    if parts != [] {
      assert (parts + [last])[1..] == parts[1..] + [last];
      EncodePartsAppend(parts[1..], last, encode);
    }
  }

  lemma {:induction false} JoinEncoded(parts: seq<Text>, encode: bool)
    requires Splitting.Free(parts, SLASH)
    ensures Splitting.Join(EncodeParts(parts, encode), SLASH) == Encoded(Splitting.Join(parts, SLASH), encode)
  {
    if parts != [] {
      EncodePathWithoutSlash(parts[0]);
      JoinEncoded(parts[1..], encode);
      var head := if encode then PercentEncode(parts[0]) else parts[0];
      var rest := EncodeParts(parts[1..], encode);
      assert ([head] + rest)[1..] == rest;
      if |parts| > 1 {
        EncodePathConcat(parts[0] + [SLASH], Splitting.Join(parts[1..], SLASH));
        EncodePathConcat(parts[0], [SLASH]);
        assert EncodePath([SLASH]) == [SLASH];
      }
    }
  }

  lemma {:induction false} EncodeKeepsEmptiness(s: Text)
    ensures EncodePath(s) == [] <==> s == []
  {}

  /** What joining the kept parts gives, with the separator put in front. */
  lemma NormalPathOfParts(path: Text, encode: bool)
    requires path != []
    ensures var parts := Splitting.Split(path, SLASH);
            var kept := if parts[0] == [] then parts[1..] else parts;
            var joined := Splitting.Join(EncodeParts(kept, encode), SLASH);
            (if joined == [] then [] else [SLASH] + joined) == Encoded(NormalPath(path), encode)
  {
    var parts := Splitting.Split(path, SLASH);
    Splitting.SplitIsFree(path, SLASH);
    Splitting.JoinSplit(path, SLASH);
    var kept := if parts[0] == [] then parts[1..] else parts;
    JoinEncoded(kept, encode);
    var inner := if path[0] == SLASH then path[1..] else path;
    assert Splitting.Join(kept, SLASH) == inner;
    EncodeKeepsEmptiness(inner);
    if inner != [] {
      assert NormalPath(path) == [SLASH] + inner;
      EncodePathConcat([SLASH], inner);
      assert EncodePath([SLASH]) == [SLASH];
    }
  }

  /** The parts of a path without an empty first one, encoded where asked. */
  method PathParts(parts: seq<Text>, encode: bool) returns (newParts: seq<Text>)
    requires parts != []
    ensures newParts == EncodeParts(if parts[0] == [] then parts[1..] else parts, encode)
  {
    newParts := [];
    ghost var first := if parts[0] == [] then 1 else 0;
    ghost var kept: seq<Text> := [];
    for count := 0 to |parts|
      invariant newParts == EncodeParts(kept, encode)
      invariant kept == if count < first then [] else parts[first..count]
    {
      var p := parts[count];
      if p != [] || count > 0 {
        EncodePartsAppend(kept, p, encode);
        kept := kept + [p];
        newParts := newParts + [if encode then PercentEncode(p) else p];
      }
    }
    assert kept == if parts[0] == [] then parts[1..] else parts;
  }

  lemma {:induction false} ValuesOfStep(ps: seq<Pair>, i: nat, key: Text)
    requires i < |ps|
    ensures ValuesOf(ps[..i + 1], key) == ValuesOf(ps[..i], key) + if ps[i].0 == key then [ps[i].1] else []
  {
    assert ps[..i + 1] == ps[..i] + [ps[i]];
    ValuesOfConcat(ps[..i], [ps[i]], key);
    var none: seq<Pair> := [];
    assert [ps[i]][1..] == none;
  }

  method QueryKeyLast(query: Str, key: Str) returns (r: Option<Text>)
    ensures r.Some? <==> HasKey(Pairs(query), key)
    ensures forall i :: IsLastOf(Pairs(query), key, i) ==> r == Some(Pairs(query)[i].1)
    ensures r == Last(ValuesOf(Pairs(query), key))
  {
    var ps := Pairs(query);
    forall i
      ensures Last(ValuesOf(ps, key)).Some? <==> HasKey(ps, key)
      ensures IsLastOf(ps, key, i) ==> Last(ValuesOf(ps, key)) == Some(ps[i].1)
    {
      LastOfKey(ps, key, i);
    }
    var values: seq<Text> := [];
    for i := 0 to |ps|
      invariant values == ValuesOf(ps[..i], key)
    {
      ValuesOfStep(ps, i, key);
      if ps[i].0 == key {
        values := values + [ps[i].1];
      }
    }
    assert ps[..|ps|] == ps;
    r := Last(values);
  }

  lemma SetInStep(before: seq<Pair>, ps: seq<Pair>, i: nat, key: Text, val: Option<Text>, done: bool)
    requires i < |ps|
    ensures var now := ps[i].0 == key && val.Some? && !done;
            var added := if now then [(key, val.value)] else if ps[i].0 == key then [] else [ps[i]];
            before + SetIn(ps[i..], key, val, done) == (before + added) + SetIn(ps[i + 1..], key, val, done || now)
  {
    assert ps[i..][1..] == ps[i + 1..];
  }

  /** The pairs in which the key is set at its first place, or at the end, or removed. */
  method ReplaceKey(ps: seq<Pair>, key: Str, val: Option<Str>) returns (pairs: seq<Pair>)
    ensures pairs == SetIn(ps, key, val, false)
  {
    pairs := [];
    var setKey := false;
    for i := 0 to |ps|
      invariant setKey ==> val.Some?
      invariant pairs + SetIn(ps[i..], key, val, setKey) == SetIn(ps, key, val, false)
    {
      SetInStep(pairs, ps, i, key, val, setKey);
      if ps[i].0 == key {
        if val.Some? && !setKey {
          pairs := pairs + [(key, val.value)];
          setKey := true;
        }
      } else {
        pairs := pairs + [ps[i]];
      }
    }
    assert ps[|ps|..] == [];
    if !setKey && val.Some? {
      pairs := pairs + [(key, val.value)];
    }
  }

  function VersionOption(version: Option<VersionHash>): (text: Option<Str>)
    ensures text == RenderVersion(version)
  {
    if version.None? then None
    else
      VersionTextIsValid(version.value);
      Some(VersionText(version.value))
  }

  lemma RenderedIsTaken(foreign: Foreign, s: State, version: Option<VersionHash>)
    ensures WithVersionText(foreign, s, RenderVersion(version)) == Outcome(s.(version := version), true)
  {
    if version.Some? {
      VersionTextsAreCanonical(foreign, VersionText(version.value), version.value);
    }
  }

  lemma SettingTheVersion(foreign: Foreign, s: State, version: Option<VersionHash>, key: Str, text: Option<Str>)
    requires key == VERSION_KEY && text == RenderVersion(version)
    ensures Apply(foreign, s, SetContentVersion(version)) == Apply(foreign, s, SetQueryKey(key, text))
    ensures Apply(foreign, s, SetContentVersion(version)).state.version == version
  {
    RenderedIsTaken(foreign, s.(query := Serialize(SetIn(Pairs(s.query), key, text, false))), version);
  }

  datatype Error = InvalidInput(reason: VersionError)

  class SafeUrl {
    const foreign: Foreign
    var path: Text
    var queryString: Text
    var contentVersion: Option<VersionHash>

    constructor (foreign: Foreign)
      ensures this.foreign == foreign && Value() == State([], [], None)
    {
      this.foreign := foreign;
      path := [];
      queryString := [];
      contentVersion := None;
    }

    ghost function Value(): State
      reads this
    {
      State(path, queryString, contentVersion)
    }

    ghost predicate Agreed()
      reads this
    {
      Agrees(foreign, Value())
    }

    method SetPathInternal(text: Str, encode: bool)
      modifies `path
      ensures path == Encoded(NormalPath(text), encode)
    {
      if text == [] {
        if path != [] {
          path := text;
        }
        return;
      }
      var newParts := PathParts(Splitting.Split(text, SLASH), encode);
      NormalPathOfParts(text, encode);
      var joined := Splitting.Join(newParts, SLASH);
      path := (if joined == [] then [] else [SLASH]) + joined;
    }

    method SetPath(text: Str)
      modifies `path
      ensures Value() == Apply(foreign, old(Value()), UrlState.SetPath(text)).state
      ensures PercentDecode(path) == Some(NormalPath(text))
    {
      SetPathInternal(text, true);
      PathRoundTrip(foreign, Value(), text);
    }

    method PathDecoded() returns (r: Option<Text>)
      ensures r.Some? <==> PercentDecode(path).Some? && Utf8.Valid(PercentDecode(path).value)
      ensures r.Some? ==> r == PercentDecode(path)
    {
      r := PercentDecode(path);
      if r.Some? && !Utf8.Valid(r.value) {
        r := None;
      }
    }

    method SetContentVersionInternal(text: Option<Text>) returns (r: Result<(), Error>)
      modifies `contentVersion
      ensures Outcome(Value(), r.Ok?) == WithVersionText(foreign, old(Value()), text)
    {
      if text.Some? {
        var version := ParseVersion(foreign, text.value);
        match version {
          case Ok(h) => contentVersion := Some(h);
          case Err(e) => return Err(InvalidInput(e));
        }
      } else {
        contentVersion := None;
      }
      r := Ok(());
    }

    /** A call that fails leaves the URL as it was. */
    method SetQueryString(query: Str) returns (r: Result<(), Error>)
      modifies `queryString, `contentVersion
      ensures Outcome(Value(), r.Ok?) == Apply(foreign, old(Value()), UrlState.SetQueryString(query))
      ensures r.Ok? <==> Acceptable(foreign, LastVersion(query))
      ensures r.Ok? ==> Agreed() && queryString == query && FollowsLastPair(Pairs(query), contentVersion)
      ensures r.Ok? <==> forall i :: IsLastOf(Pairs(query), ['v' as int], i) ==> IsVersionText(Pairs(query)[i].1)
      ensures r.Err? ==> Value() == old(Value())
    {
      assert Utf8.Valid(VERSION_KEY) by { AsciiIsValid(VERSION_KEY); }
      AcceptableExactly(foreign, Pairs(query));
      var last := QueryKeyLast(query, VERSION_KEY);
      r := SetContentVersionInternal(last);
      if r.Ok? {
        queryString := query;
        AgreesExactly(foreign, Value());
      }
    }

    /** One pair for the key at most, every other pair kept in order, and the version in step unless `v` is bad. */
    method SetQueryKey(key: Str, val: Option<Str>) returns (r: Result<(), Error>)
      modifies `queryString, `contentVersion
      ensures Outcome(Value(), r.Ok?) == Apply(foreign, old(Value()), UrlState.SetQueryKey(key, val))
      ensures ValuesOf(Pairs(queryString), key) == if val.Some? then [val.value] else []
      ensures Without(Pairs(queryString), key) == Without(Pairs(old(queryString)), key)
      ensures Agreed() <==> if key == VERSION_KEY then r.Ok? else old(Agreed())
    {
      var pairs := ReplaceKey(Pairs(queryString), key, val);
      AgreementStep(foreign, Value(), UrlState.SetQueryKey(key, val));
      WrittenPairs(queryString, key, val);
      queryString := Serialize(pairs);
      if key == VERSION_KEY {
        r := SetContentVersionInternal(val);
      } else {
        r := Ok(());
      }
    }

    method SetContentVersion(version: Option<VersionHash>)
      modifies `queryString, `contentVersion
      ensures Value() == Apply(foreign, old(Value()), UrlState.SetContentVersion(version)).state
      ensures Agreed() && contentVersion == version
    {
      var text := VersionOption(version);
      AsciiIsValid(VERSION_KEY);
      var key: Str := VERSION_KEY;
      SettingTheVersion(foreign, Value(), version, key, text);
      var r := SetQueryKey(key, text);
    }
  }

  /** A new URL agrees with its query string; a given version overrides the one in the query string. */
  method NewSafeUrl(foreign: Foreign, path: Str, query: Str, version: Option<VersionHash>)
    returns (r: Result<SafeUrl, Error>)
    ensures r.Ok? <==> Acceptable(foreign, LastVersion(query))
    ensures r.Ok? ==> fresh(r.value) && r.value.foreign == foreign && r.value.Agreed()
    ensures r.Ok? ==> r.value.path == NormalPath(path)
    ensures r.Ok? && version.Some? ==> r.value.contentVersion == version
    ensures r.Ok? && version.None? ==> r.value.queryString == query
  {
    var url := new SafeUrl(foreign);
    url.SetPathInternal(path, false);
    var res := url.SetQueryString(query);
    if res.Err? {
      return Err(res.error);
    }
    if version.Some? {
      url.SetContentVersion(version);
    }
    r := Ok(url);
  }
}
