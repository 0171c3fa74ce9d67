/**
  The media types that an XOR-URL can name, and their codes. Both lookup maps are filled from the same
  seven lists, each list starting at its own code.
 */
module MediaTypes {

  const APPLICATION_SUBTYPES: seq<string> := [
    "application/x-abiword",
    "application/octet-stream",
    "application/vnd.amazon.ebook",
    "application/x-bzip",
    "application/x-bzip2",
    "application/x-csh",
    "application/msword",
    "application/vnd.openxmlformats-officedocument.wordprocessingml.document",
    "application/vnd.ms-fontobject",
    "application/epub+zip",
    "application/ecmascript",
    "application/java-archive",
    "application/javascript",
    "application/json",
    "application/vnd.apple.installer+xml",
    "application/vnd.oasis.opendocument.presentation",
    "application/vnd.oasis.opendocument.spreadsheet",
    "application/vnd.oasis.opendocument.text",
    "application/ogg",
    "application/pdf",
    "application/vnd.ms-powerpoint",
    "application/vnd.openxmlformats-officedocument.presentationml.presentation",
    "application/x-rar-compressed",
    "application/rtf",
    "application/x-sh",
    "application/x-shockwave-flash",
    "application/x-tar",
    "application/typescript",
    "application/vnd.visio",
    "application/xhtml+xml",
    "application/vnd.ms-excel",
    "application/vnd.openxmlformats-officedocument.spreadsheetml.sheet",
    "application/xml",
    "application/vnd.mozilla.xul+xml",
    "application/zip",
    "application/x-7z-compressed",
    "application/ld+json",
    "application/rdf+xml"
  ]

  const AUDIO_SUBTYPES: seq<string> := [
    "audio/aac",
    "audio/midi",
    "audio/x-midi",
    "audio/ogg",
    "audio/wav",
    "audio/webm",
    "audio/3gpp",
    "audio/3gpp2",
    "audio/mp4",
    "audio/mpeg"
  ]

  const FONT_SUBTYPES: seq<string> := [
    "font/otf",
    "font/ttf",
    "font/woff",
    "font/woff2"
  ]

  const IMAGE_SUBTYPES: seq<string> := [
    "image/bmp",
    "image/gif",
    "image/x-icon",
    "image/jpeg",
    "image/png",
    "image/svg+xml",
    "image/tiff",
    "image/webp"
  ]

  const MULTIPART_SUBTYPES: seq<string> := [
    "multipart/byteranges"
  ]

  const TEXT_SUBTYPES: seq<string> := [
    "text/css",
    "text/csv",
    "text/html",
    "text/calendar",
    "text/markdown",
    "text/n3",
    "text/plain",
    "text/turtle",
    "text/x-markdown",
    "text/xml"
  ]

  const VIDEO_SUBTYPES: seq<string> := [
    "video/x-msvideo",
    "video/mpeg",
    "video/ogg",
    "video/webm",
    "video/3gpp",
    "video/3gpp2",
    "video/jpeg",
    "video/mp4"
  ]

  /** Code to name and name to code. */
  datatype Tables = Tables(names: map<nat, string>, codes: map<string, nat>)

  function Populate(t: Tables, subtypes: seq<string>, range: nat): Tables
    decreases subtypes
  {
    if subtypes == [] then t
    else Populate(Tables(t.names[range := subtypes[0]], t.codes[subtypes[0] := range]), subtypes[1..], range + 1)
  }

  /** The lists of media types by their first part. */
  datatype Lists = Lists(application: seq<string>, audio: seq<string>, font: seq<string>, image: seq<string>,
                         multipart: seq<string>, text: seq<string>, video: seq<string>)

  function PopulateAll(l: Lists): Tables {
    var t := Populate(Tables(map[], map[]), l.application, 0x5000);
    var t := Populate(t, l.audio, 0x8000);
    var t := Populate(t, l.font, 0x9000);
    var t := Populate(t, l.image, 0xa000);
    var t := Populate(t, l.multipart, 0xd000);
    var t := Populate(t, l.text, 0xe000);
    Populate(t, l.video, 0xf000)
  }

  /** The lists that are supported. */
  predicate AreSupported(l: Lists) {
    && l.application == APPLICATION_SUBTYPES && l.audio == AUDIO_SUBTYPES && l.font == FONT_SUBTYPES
    && l.image == IMAGE_SUBTYPES && l.multipart == MULTIPART_SUBTYPES && l.text == TEXT_SUBTYPES
    && l.video == VIDEO_SUBTYPES
  }

  // All names differ: a number made of a few of their characters already tells the code

  function At(s: string, fromEnd: nat): nat {
    if 1 <= fromEnd <= |s| then s[|s| - fromEnd] as int else 0
  }

  function Fingerprint(s: string): nat {
    9 * |s| + 37 * At(s, 1) + 5 * At(s, 3) + 17 * At(s, 4) + 8 * At(s, 7) + 32 * At(s, 8)
  }

  /** The code of the media type with fingerprint `f`, by bisection over all of them. */
  function CodeOf(f: nat): nat {
    if f < 10271 then
      if f < 9572 then
        if f < 8508 then
          if f < 7893 then
            if f < 7509 then
              if f < 7084 then 0xe005 else 0x5004
            else
              if f < 7868 then 0xf007 else 0xa005
          else
            if f < 8038 then
              if f < 7914 then 0x8008 else 0x5025
            else
              if f < 8380 then 0x5021 else if f < 8462 then 0xf005 else 0x500b
        else
          if f < 9352 then
            if f < 8785 then
              if f < 8683 then 0x8007 else 0x5000
            else
              if f < 8839 then 0x9003 else if f < 8986 then 0xf000 else 0x5024
          else
            if f < 9406 then
              if f < 9377 then 0x9000 else 0x9001
            else
              if f < 9433 then 0xf002 else if f < 9515 then 0xa001 else 0xa004
      else
        if f < 9852 then
          if f < 9778 then
            if f < 9656 then
              if f < 9624 then 0x8000 else 0xf004
            else
              if f < 9693 then 0x8006 else if f < 9772 then 0x5005 else 0x501d
          else
            if f < 9793 then
              if f < 9790 then 0xa000 else 0x8003
            else
              if f < 9820 then 0x5009 else if f < 9830 then 0x5013 else 0x5017
        else
          if f < 10141 then
            if f < 9987 then
              if f < 9962 then 0x5012 else 0x500e
            else
              if f < 10066 then 0xe009 else if f < 10082 then 0xa002 else 0x5020
          else
            if f < 10191 then
              if f < 10148 then 0xe000 else 0x501a
            else
              if f < 10240 then 0xa003 else if f < 10252 then 0x5022 else 0xe001
    else
      if f < 10857 then
        if f < 10505 then
          if f < 10354 then
            if f < 10299 then
              if f < 10289 then 0xf006 else 0xa006
            else
              if f < 10322 then 0x8002 else if f < 10336 then 0xf001 else 0x5006
          else
            if f < 10393 then
              if f < 10385 then 0x8009 else 0x8004
            else
              if f < 10442 then 0x8001 else if f < 10478 then 0xe007 else 0x5003
        else
          if f < 10691 then
            if f < 10649 then
              if f < 10617 then 0x5018 else 0xe002
            else
              if f < 10659 then 0xe003 else if f < 10690 then 0xf003 else 0xa007
          else
            if f < 10724 then
              if f < 10706 then 0x8005 else 0xe004
            else
              if f < 10764 then 0xe008 else if f < 10839 then 0x5001 else 0x500d
      else
        if f < 11232 then
          if f < 10987 then
            if f < 10865 then
              if f < 10864 then 0x5023 else 0x5002
            else
              if f < 10866 then 0x9002 else if f < 10976 then 0x5016 else 0x501c
          else
            if f < 11102 then
              if f < 11014 then 0x5010 else 0x5019
            else
              if f < 11155 then 0x500f else if f < 11217 then 0x501e else 0x500a
        else
          if f < 11345 then
            if f < 11308 then
              if f < 11249 then 0x5011 else 0xe006
            else
              if f < 11336 then 0x5008 else if f < 11340 then 0x5015 else 0xd000
          else
            if f < 11502 then
              if f < 11377 then 0x501b else 0x5007
            else
              if f < 11505 then 0x501f else if f < 11581 then 0x500c else 0x5014
  }

  ghost predicate Fits(subtypes: seq<string>, range: nat) {
    && |subtypes| <= 0x1000
    && forall i :: 0 <= i < |subtypes| ==> CodeOf(Fingerprint(subtypes[i])) == range + i
  }

  lemma ApplicationFit0()
    ensures forall i :: 0 <= i < 4 ==> CodeOf(Fingerprint(APPLICATION_SUBTYPES[i])) == 0x5000 + i
  {
    assert Fingerprint("application/x-abiword") == 8683;
    assert Fingerprint("application/octet-stream") == 10764;
    assert Fingerprint("application/vnd.amazon.ebook") == 10864;
    assert Fingerprint("application/x-bzip") == 10478;
  }

  lemma ApplicationFit1()
    ensures forall i :: 4 <= i < 8 ==> CodeOf(Fingerprint(APPLICATION_SUBTYPES[i])) == 0x5000 + i
  {
    assert Fingerprint("application/x-bzip2") == 7084;
    assert Fingerprint("application/x-csh") == 9693;
    assert Fingerprint("application/msword") == 10336;
    assert Fingerprint("application/vnd.openxmlformats-officedocument.wordprocessingml.document") == 11377;
  }

  lemma ApplicationFit2()
    ensures forall i :: 8 <= i < 12 ==> CodeOf(Fingerprint(APPLICATION_SUBTYPES[i])) == 0x5000 + i
  {
    assert Fingerprint("application/vnd.ms-fontobject") == 11308;
    assert Fingerprint("application/epub+zip") == 9793;
    assert Fingerprint("application/ecmascript") == 11217;
    assert Fingerprint("application/java-archive") == 8462;
  }

  lemma ApplicationFit3()
    ensures forall i :: 12 <= i < 16 ==> CodeOf(Fingerprint(APPLICATION_SUBTYPES[i])) == 0x5000 + i
  {
    assert Fingerprint("application/javascript") == 11505;
    assert Fingerprint("application/json") == 10839;
    assert Fingerprint("application/vnd.apple.installer+xml") == 9962;
    assert Fingerprint("application/vnd.oasis.opendocument.presentation") == 11102;
  }

  lemma ApplicationFit4()
    ensures forall i :: 16 <= i < 20 ==> CodeOf(Fingerprint(APPLICATION_SUBTYPES[i])) == 0x5000 + i
  {
    assert Fingerprint("application/vnd.oasis.opendocument.spreadsheet") == 10987;
    assert Fingerprint("application/vnd.oasis.opendocument.text") == 11232;
    assert Fingerprint("application/ogg") == 9852;
    assert Fingerprint("application/pdf") == 9820;
  }

  lemma ApplicationFit5()
    ensures forall i :: 20 <= i < 24 ==> CodeOf(Fingerprint(APPLICATION_SUBTYPES[i])) == 0x5000 + i
  {
    assert Fingerprint("application/vnd.ms-powerpoint") == 11581;
    assert Fingerprint("application/vnd.openxmlformats-officedocument.presentationml.presentation") == 11336;
    assert Fingerprint("application/x-rar-compressed") == 10866;
    assert Fingerprint("application/rtf") == 9830;
  }

  lemma ApplicationFit6()
    ensures forall i :: 24 <= i < 28 ==> CodeOf(Fingerprint(APPLICATION_SUBTYPES[i])) == 0x5000 + i
  {
    assert Fingerprint("application/x-sh") == 10505;
    assert Fingerprint("application/x-shockwave-flash") == 11014;
    assert Fingerprint("application/x-tar") == 10148;
    assert Fingerprint("application/typescript") == 11345;
  }

  lemma ApplicationFit7()
    ensures forall i :: 28 <= i < 32 ==> CodeOf(Fingerprint(APPLICATION_SUBTYPES[i])) == 0x5000 + i
  {
    assert Fingerprint("application/vnd.visio") == 10976;
    assert Fingerprint("application/xhtml+xml") == 9772;
    assert Fingerprint("application/vnd.ms-excel") == 11155;
    assert Fingerprint("application/vnd.openxmlformats-officedocument.spreadsheetml.sheet") == 11502;
  }

  lemma ApplicationFit8()
    ensures forall i :: 32 <= i < 36 ==> CodeOf(Fingerprint(APPLICATION_SUBTYPES[i])) == 0x5000 + i
  {
    assert Fingerprint("application/xml") == 10082;
    assert Fingerprint("application/vnd.mozilla.xul+xml") == 8038;
    assert Fingerprint("application/zip") == 10240;
    assert Fingerprint("application/x-7z-compressed") == 10857;
  }

  lemma ApplicationFit9()
    ensures forall i :: 36 <= i < 38 ==> CodeOf(Fingerprint(APPLICATION_SUBTYPES[i])) == 0x5000 + i
  {
    assert Fingerprint("application/ld+json") == 8986;
    assert Fingerprint("application/rdf+xml") == 7914;
  }

  lemma ApplicationFit()
    ensures Fits(APPLICATION_SUBTYPES, 0x5000)
  {
    ApplicationFit0();
    ApplicationFit1();
    ApplicationFit2();
    ApplicationFit3();
    ApplicationFit4();
    ApplicationFit5();
    ApplicationFit6();
    ApplicationFit7();
    ApplicationFit8();
    ApplicationFit9();
  }

  lemma AudioFit0()
    ensures forall i :: 0 <= i < 4 ==> CodeOf(Fingerprint(AUDIO_SUBTYPES[i])) == 0x8000 + i
  {
    assert Fingerprint("audio/aac") == 9572;
    assert Fingerprint("audio/midi") == 10393;
    assert Fingerprint("audio/x-midi") == 10299;
    assert Fingerprint("audio/ogg") == 9790;
  }

  lemma AudioFit1()
    ensures forall i :: 4 <= i < 8 ==> CodeOf(Fingerprint(AUDIO_SUBTYPES[i])) == 0x8000 + i
  {
    assert Fingerprint("audio/wav") == 10385;
    assert Fingerprint("audio/webm") == 10691;
    assert Fingerprint("audio/3gpp") == 9656;
    assert Fingerprint("audio/3gpp2") == 8508;
  }

  lemma AudioFit2()
    ensures forall i :: 8 <= i < 10 ==> CodeOf(Fingerprint(AUDIO_SUBTYPES[i])) == 0x8000 + i
  {
    assert Fingerprint("audio/mp4") == 7893;
    assert Fingerprint("audio/mpeg") == 10354;
  }

  lemma AudioFit()
    ensures Fits(AUDIO_SUBTYPES, 0x8000)
  {
    AudioFit0();
    AudioFit1();
    AudioFit2();
  }

  lemma FontFit0()
    ensures forall i :: 0 <= i < 4 ==> CodeOf(Fingerprint(FONT_SUBTYPES[i])) == 0x9000 + i
  {
    assert Fingerprint("font/otf") == 9352;
    assert Fingerprint("font/ttf") == 9377;
    assert Fingerprint("font/woff") == 10865;
    assert Fingerprint("font/woff2") == 8785;
  }

  lemma FontFit()
    ensures Fits(FONT_SUBTYPES, 0x9000)
  {
    FontFit0();
  }

  lemma ImageFit0()
    ensures forall i :: 0 <= i < 4 ==> CodeOf(Fingerprint(IMAGE_SUBTYPES[i])) == 0xa000 + i
  {
    assert Fingerprint("image/bmp") == 9778;
    assert Fingerprint("image/gif") == 9433;
    assert Fingerprint("image/x-icon") == 10066;
    assert Fingerprint("image/jpeg") == 10191;
  }

  lemma ImageFit1()
    ensures forall i :: 4 <= i < 8 ==> CodeOf(Fingerprint(IMAGE_SUBTYPES[i])) == 0xa000 + i
  {
    assert Fingerprint("image/png") == 9515;
    assert Fingerprint("image/svg+xml") == 7868;
    assert Fingerprint("image/tiff") == 10289;
    assert Fingerprint("image/webp") == 10690;
  }

  lemma ImageFit()
    ensures Fits(IMAGE_SUBTYPES, 0xa000)
  {
    ImageFit0();
    ImageFit1();
  }

  lemma MultipartFit0()
    ensures forall i :: 0 <= i < 1 ==> CodeOf(Fingerprint(MULTIPART_SUBTYPES[i])) == 0xd000 + i
  {
    assert Fingerprint("multipart/byteranges") == 11340;
  }

  lemma MultipartFit()
    ensures Fits(MULTIPART_SUBTYPES, 0xd000)
  {
    MultipartFit0();
  }

  lemma TextFit0()
    ensures forall i :: 0 <= i < 4 ==> CodeOf(Fingerprint(TEXT_SUBTYPES[i])) == 0xe000 + i
  {
    assert Fingerprint("text/css") == 10141;
    assert Fingerprint("text/csv") == 10252;
    assert Fingerprint("text/html") == 10617;
    assert Fingerprint("text/calendar") == 10649;
  }

  lemma TextFit1()
    ensures forall i :: 4 <= i < 8 ==> CodeOf(Fingerprint(TEXT_SUBTYPES[i])) == 0xe000 + i
  {
    assert Fingerprint("text/markdown") == 10706;
    assert Fingerprint("text/n3") == 5085;
    assert Fingerprint("text/plain") == 11249;
    assert Fingerprint("text/turtle") == 10442;
  }

  lemma TextFit2()
    ensures forall i :: 8 <= i < 10 ==> CodeOf(Fingerprint(TEXT_SUBTYPES[i])) == 0xe000 + i
  {
    assert Fingerprint("text/x-markdown") == 10724;
    assert Fingerprint("text/xml") == 9987;
  }

  lemma TextFit()
    ensures Fits(TEXT_SUBTYPES, 0xe000)
  {
    TextFit0();
    TextFit1();
    TextFit2();
  }

  lemma VideoFit0()
    ensures forall i :: 0 <= i < 4 ==> CodeOf(Fingerprint(VIDEO_SUBTYPES[i])) == 0xf000 + i
  {
    assert Fingerprint("video/x-msvideo") == 8839;
    assert Fingerprint("video/mpeg") == 10322;
    assert Fingerprint("video/ogg") == 9406;
    assert Fingerprint("video/webm") == 10659;
  }

  lemma VideoFit1()
    ensures forall i :: 4 <= i < 8 ==> CodeOf(Fingerprint(VIDEO_SUBTYPES[i])) == 0xf000 + i
  {
    assert Fingerprint("video/3gpp") == 9624;
    assert Fingerprint("video/3gpp2") == 8380;
    assert Fingerprint("video/jpeg") == 10271;
    assert Fingerprint("video/mp4") == 7509;
  }

  lemma VideoFit()
    ensures Fits(VIDEO_SUBTYPES, 0xf000)
  {
    VideoFit0();
    VideoFit1();
  }

  // The two maps are inverse to each other

  ghost predicate Inverse(t: Tables) {
    && (forall c :: c in t.names ==> t.names[c] in t.codes && t.codes[t.names[c]] == c)
    && forall s :: s in t.codes ==> t.codes[s] in t.names && t.names[t.codes[s]] == s
  }

  ghost predicate CodesIn(t: Tables, low: nat, limit: nat) {
    forall c :: c in t.names ==> low <= c < limit
  }

  ghost predicate AreNew(t: Tables, subtypes: seq<string>) {
    && (forall i :: 0 <= i < |subtypes| ==> subtypes[i] !in t.codes)
    && forall i, j :: 0 <= i < j < |subtypes| ==> subtypes[i] != subtypes[j]
  }

  /** Adding a list of new names at a range of codes above all that are taken keeps the maps inverse. */
  lemma {:induction false} PopulateKeepsInverse(t: Tables, subtypes: seq<string>, low: nat, range: nat)
    requires Inverse(t) && CodesIn(t, low, range) && low <= range && AreNew(t, subtypes)
    ensures Inverse(Populate(t, subtypes, range)) && CodesIn(Populate(t, subtypes, range), low, range + |subtypes|)
    decreases subtypes
  {
    if subtypes != [] {
      var u := Tables(t.names[range := subtypes[0]], t.codes[subtypes[0] := range]);
      NewRest(t, u, subtypes, range);
      PopulateKeepsInverse(u, subtypes[1..], low, range + 1);
    }
  }

  lemma NewRest(t: Tables, u: Tables, subtypes: seq<string>, range: nat)
    requires subtypes != [] && AreNew(t, subtypes)
    requires u == Tables(t.names[range := subtypes[0]], t.codes[subtypes[0] := range])
    ensures AreNew(u, subtypes[1..])
  {
    forall i | 0 <= i < |subtypes[1..]|
      ensures subtypes[1..][i] !in u.codes
    {
      assert subtypes[1..][i] == subtypes[i + 1];
    }
  }

  /** Every name so far has the code that its fingerprint tells. */
  ghost predicate Told(t: Tables) {
    forall s :: s in t.codes ==> t.codes[s] == CodeOf(Fingerprint(s))
  }

  lemma {:induction false} PopulateKeepsTold(t: Tables, subtypes: seq<string>, range: nat)
    requires Told(t) && Fits(subtypes, range)
    ensures Told(Populate(t, subtypes, range))
    decreases subtypes
  {
    if subtypes != [] {
      assert CodeOf(Fingerprint(subtypes[0])) == range;
      PopulateKeepsTold(Tables(t.names[range := subtypes[0]], t.codes[subtypes[0] := range]), subtypes[1..], range + 1);
    }
  }

  /** One of the seven lists, whose names are told apart by their codes. */
  lemma PopulateList(t: Tables, subtypes: seq<string>, range: nat, limit: nat)
    requires Inverse(t) && Told(t) && CodesIn(t, 0x5000, range) && 0x5000 <= range
    requires Fits(subtypes, range) && range + |subtypes| <= limit
    ensures var u := Populate(t, subtypes, range); Inverse(u) && Told(u) && CodesIn(u, 0x5000, limit)
  {
    assert AreNew(t, subtypes);
    PopulateKeepsInverse(t, subtypes, 0x5000, range);
    PopulateKeepsTold(t, subtypes, range);
  }

  ghost predicate AllFit(l: Lists) {
    && Fits(l.application, 0x5000) && Fits(l.audio, 0x8000) && Fits(l.font, 0x9000) && Fits(l.image, 0xa000)
    && Fits(l.multipart, 0xd000) && Fits(l.text, 0xe000) && Fits(l.video, 0xf000)
  }

  lemma PopulateAllInverse(l: Lists)
    requires AllFit(l)
    ensures Inverse(PopulateAll(l)) && CodesIn(PopulateAll(l), 0x5000, 0x10000) && Told(PopulateAll(l))
  {
    var t := Tables(map[], map[]);
    PopulateList(t, l.application, 0x5000, 0x8000);
    t := Populate(t, l.application, 0x5000);
    PopulateList(t, l.audio, 0x8000, 0x9000);
    t := Populate(t, l.audio, 0x8000);
    PopulateList(t, l.font, 0x9000, 0xa000);
    t := Populate(t, l.font, 0x9000);
    PopulateList(t, l.image, 0xa000, 0xd000);
    t := Populate(t, l.image, 0xa000);
    PopulateList(t, l.multipart, 0xd000, 0xe000);
    t := Populate(t, l.multipart, 0xd000);
    PopulateList(t, l.text, 0xe000, 0xf000);
    t := Populate(t, l.text, 0xe000);
    PopulateList(t, l.video, 0xf000, 0x10000);
  }

  lemma SupportedFit(l: Lists)
    requires AreSupported(l)
    ensures AllFit(l)
  {
    ApplicationFit();
    AudioFit();
    FontFit();
    ImageFit();
    MultipartFit();
    TextFit();
    VideoFit();
  }

  /** Every code names one media type and every media type has one code, all of them from 0x5000 up to 0xffff. */
  lemma CodesAndNamesAreInverse(l: Lists)
    requires AreSupported(l)
    ensures Inverse(PopulateAll(l)) && CodesIn(PopulateAll(l), 0x5000, 0x10000)
  {
    SupportedFit(l);
    PopulateAllInverse(l);
  }

  // Which code each name has

  lemma {:induction false} PopulateHas(t: Tables, subtypes: seq<string>, range: nat, name: string)
    ensures name in Populate(t, subtypes, range).codes <==> name in t.codes || name in subtypes
    decreases subtypes
  {
    if subtypes != [] {
      PopulateHas(Tables(t.names[range := subtypes[0]], t.codes[subtypes[0] := range]), subtypes[1..], range + 1, name);
      assert subtypes == [subtypes[0]] + subtypes[1..];
    }
  }

  lemma PopulateAllHas(l: Lists, name: string)
    ensures name in PopulateAll(l).codes <==>
      name in l.application || name in l.audio || name in l.font || name in l.image || name in l.multipart
      || name in l.text || name in l.video
  {
    var t := Tables(map[], map[]);
    PopulateHas(t, l.application, 0x5000, name);
    t := Populate(t, l.application, 0x5000);
    PopulateHas(t, l.audio, 0x8000, name);
    t := Populate(t, l.audio, 0x8000);
    PopulateHas(t, l.font, 0x9000, name);
    t := Populate(t, l.font, 0x9000);
    PopulateHas(t, l.image, 0xa000, name);
    t := Populate(t, l.image, 0xa000);
    PopulateHas(t, l.multipart, 0xd000, name);
    t := Populate(t, l.multipart, 0xd000);
    PopulateHas(t, l.text, 0xe000, name);
    t := Populate(t, l.text, 0xe000);
    PopulateHas(t, l.video, 0xf000, name);
  }

  /** The names of the list have the codes from its start on, in order, in both maps. */
  ghost predicate Numbered(t: Tables, subtypes: seq<string>, start: nat) {
    forall i :: 0 <= i < |subtypes| ==>
      && subtypes[i] in t.codes && t.codes[subtypes[i]] == start + i
      && start + i in t.names && t.names[start + i] == subtypes[i]
  }

  lemma NumberedIfTold(t: Tables, subtypes: seq<string>, start: nat)
    requires Inverse(t) && Told(t) && Fits(subtypes, start) && forall s <- subtypes :: s in t.codes
    ensures Numbered(t, subtypes, start)
  {
    forall i | 0 <= i < |subtypes|
      ensures subtypes[i] in t.codes && t.codes[subtypes[i]] == start + i
    {
      assert subtypes[i] in subtypes;
    }
  }

  /** Every supported media type has the code of its place in its list, and there are no other media types. */
  lemma CodesArePlaces(l: Lists, t: Tables)
    requires AreSupported(l) && t == PopulateAll(l)
    ensures Numbered(t, l.application, 0x5000) && Numbered(t, l.audio, 0x8000) && Numbered(t, l.font, 0x9000)
    ensures Numbered(t, l.image, 0xa000) && Numbered(t, l.multipart, 0xd000) && Numbered(t, l.text, 0xe000)
    ensures Numbered(t, l.video, 0xf000)
    ensures forall s <- t.codes :: s in l.application || s in l.audio || s in l.font || s in l.image
                                   || s in l.multipart || s in l.text || s in l.video
  {
    SupportedFit(l);
    AllNumbered(l, t);
  }

  lemma AllNumbered(l: Lists, t: Tables)
    requires AllFit(l) && t == PopulateAll(l)
    ensures Numbered(t, l.application, 0x5000) && Numbered(t, l.audio, 0x8000) && Numbered(t, l.font, 0x9000)
    ensures Numbered(t, l.image, 0xa000) && Numbered(t, l.multipart, 0xd000) && Numbered(t, l.text, 0xe000)
    ensures Numbered(t, l.video, 0xf000)
    ensures forall s <- t.codes :: s in l.application || s in l.audio || s in l.font || s in l.image
                                   || s in l.multipart || s in l.text || s in l.video
  {
    PopulateAllInverse(l);
    forall s
      ensures s in t.codes <==> s in l.application || s in l.audio || s in l.font || s in l.image
                                || s in l.multipart || s in l.text || s in l.video
    {
      PopulateAllHas(l, s);
    }
    NumberedIfTold(t, l.application, 0x5000);
    NumberedIfTold(t, l.audio, 0x8000);
    NumberedIfTold(t, l.font, 0x9000);
    NumberedIfTold(t, l.image, 0xa000);
    NumberedIfTold(t, l.multipart, 0xd000);
    NumberedIfTold(t, l.text, 0xe000);
    NumberedIfTold(t, l.video, 0xf000);
  }

  // The lookup maps as they are filled

  method PopulateNames(m: map<nat, string>, subtypes: seq<string>, range: nat, ghost t: Tables) returns (r: map<nat, string>)
    requires m == t.names
    ensures r == Populate(t, subtypes, range).names
  {
    r := m;
    ghost var u := t;
    for i := 0 to |subtypes|
      invariant r == u.names
      invariant Populate(u, subtypes[i..], range + i) == Populate(t, subtypes, range)
    {
      r := r[range + i := subtypes[i]];
      u := Tables(u.names[range + i := subtypes[i]], u.codes[subtypes[i] := range + i]);
    }
  }

  method PopulateCodes(m: map<string, nat>, subtypes: seq<string>, range: nat, ghost t: Tables) returns (r: map<string, nat>)
    requires m == t.codes
    ensures r == Populate(t, subtypes, range).codes
  {
    r := m;
    ghost var u := t;
    for i := 0 to |subtypes|
      invariant r == u.codes
      invariant Populate(u, subtypes[i..], range + i) == Populate(t, subtypes, range)
    {
      r := r[subtypes[i] := range + i];
      u := Tables(u.names[range + i := subtypes[i]], u.codes[subtypes[i] := range + i]);
    }
  }
}
