/** The listing of a folder: files as they are, everything deeper rolled up into one row a folder. */
module FileListing {
  import opened Decimal
  import opened FileTree
  import opened Lexicographic
  import Splitting

  const SIZE := "size"
  const MODIFIED := "modified"
  const CREATED := "created"
  const LINK := "link"

  type Rows = map<string, Details>

  // Components and rows

  function NormalOnly(parts: seq<string>): seq<string> {
    if parts == [] then []
    else (if parts[0] in {"", ".", ".."} then [] else [parts[0]]) + NormalOnly(parts[1..])
  }

  function Components(key: string): seq<string> {
    NormalOnly(Splitting.Split(key, '/'))
  }

  /** Directories have no row and no part in the totals, nor has a path without normal components. */
  predicate IsCounted(e: Entry) {
    !(TYPE in e.details && e.details[TYPE] == "inode/directory") && Components(e.key) != []
  }

  predicate InFolder(e: Entry) {
    |Components(e.key)| > 1
  }

  function Base(e: Entry): string
    requires IsCounted(e)
  {
    Components(e.key)[0] + if InFolder(e) then "/" else ""
  }

  predicate InRow(e: Entry, b: string) {
    IsCounted(e) && Base(e) == b
  }

  function Get(d: Details, field: string): string {
    if field in d then d[field] else ""
  }

  // What a listing should say

  function CountCounted(es: seq<Entry>): nat {
    if es == [] then 0
    else CountCounted(es[..|es| - 1]) + if IsCounted(es[|es| - 1]) then 1 else 0
  }

  /** How many bytes the file has. */
  function SizeOf(e: Entry): nat {
    Reading(Get(e.details, SIZE))
  }

  /** How many of them the sums of the listing take in. */
  function KeptSize(e: Entry): nat {
    Number(Get(e.details, SIZE))
  }

  function RowCount(es: seq<Entry>, b: string): nat {
    if es == [] then 0
    else RowCount(es[..|es| - 1], b) + if InRow(es[|es| - 1], b) then 1 else 0
  }

  /** The sizes of the files that belong to a row, added up without any limit. */
  function RowSize(es: seq<Entry>, b: string): nat {
    if es == [] then 0
    else RowSize(es[..|es| - 1], b) + if InRow(es[|es| - 1], b) then SizeOf(es[|es| - 1]) else 0
  }

  function RowKept(es: seq<Entry>, b: string): nat {
    if es == [] then 0
    else RowKept(es[..|es| - 1], b) + if InRow(es[|es| - 1], b) then KeptSize(es[|es| - 1]) else 0
  }

  function TotalSize(es: seq<Entry>): nat {
    if es == [] then 0
    else TotalSize(es[..|es| - 1]) + if IsCounted(es[|es| - 1]) then SizeOf(es[|es| - 1]) else 0
  }

  ghost predicate HasRow(es: seq<Entry>, b: string) {
    exists i :: 0 <= i < |es| && InRow(es[i], b)
  }

  /** Some file of the row has this text in the field, and none has a greater one. */
  ghost predicate IsGreatest(es: seq<Entry>, b: string, field: string, text: string) {
    && (exists i :: 0 <= i < |es| && InRow(es[i], b) && Get(es[i].details, field) == text)
    && forall i :: 0 <= i < |es| && InRow(es[i], b) ==> !Less(text, Get(es[i].details, field))
  }

  /** The first file of the row; its other fields are the row's. */
  ghost predicate IsFirst(es: seq<Entry>, b: string, i: nat) {
    i < |es| && InRow(es[i], b) && forall j :: 0 <= j < i ==> !InRow(es[j], b)
  }

  function FirstDetails(e: Entry, link: string -> string): Details {
    if InFolder(e) then e.details[LINK := link(Components(e.key)[0])][TYPE := ""] else e.details
  }

  /** Read in 32 bits, the size is the sum over the row's files read so, as far as 32 bits hold it. */
  ghost predicate KeepsSize(es: seq<Entry>, b: string, row: Details) {
    Number(Get(row, SIZE)) == Wrap(RowKept(es, b))
  }

  /** What a reader of the row sees: the size of a single file, or that sum. */
  ghost predicate ShowsSize(es: seq<Entry>, b: string, row: Details) {
    Reading(Get(row, SIZE)) == if RowCount(es, b) == 1 then RowSize(es, b) else Wrap(RowKept(es, b))
  }

  ghost predicate HasFirst(es: seq<Entry>, link: string -> string, b: string, row: Details) {
    exists i :: 0 <= i < |es| && IsFirst(es, b, i) && SameOtherFields(row, FirstDetails(es[i], link))
  }

  ghost predicate IsRow(es: seq<Entry>, link: string -> string, b: string, row: Details) {
    && KeepsSize(es, b, row)
    && ShowsSize(es, b, row)
    && IsGreatest(es, b, MODIFIED, Get(row, MODIFIED))
    && IsGreatest(es, b, CREATED, Get(row, CREATED))
    && HasFirst(es, link, b, row)
  }

  ghost predicate SameOtherFields(a: Details, b: Details) {
    && a.Keys == b.Keys
    && forall f <- a.Keys :: f !in {SIZE, MODIFIED, CREATED} ==> a[f] == b[f]
  }

  ghost predicate HasExactlyTheRows(es: seq<Entry>, rows: Rows) {
    forall b :: b in rows <==> HasRow(es, b)
  }

  ghost predicate EveryRowIsRight(es: seq<Entry>, link: string -> string, rows: Rows) {
    forall b <- rows :: IsRow(es, link, b, rows[b])
  }

  ghost predicate IsListing(es: seq<Entry>, link: string -> string, rows: Rows) {
    HasExactlyTheRows(es, rows) && EveryRowIsRight(es, link, rows)
  }

  /** What the source looks up without asking: the type always, the rest when two files share a row. */
  ghost predicate HasFields(es: seq<Entry>) {
    && (forall i :: 0 <= i < |es| ==> TYPE in es[i].details)
    && forall i, j, b :: 0 <= i < j < |es| && InRow(es[i], b) && InRow(es[j], b) ==>
         CanMerge(es[i].details) && CanMerge(es[j].details)
  }

  predicate CanMerge(d: Details) {
    SIZE in d && MODIFIED in d && CREATED in d
  }

  // One more entry

  function Merged(row: Details, d: Details): Details {
    var size := row[SIZE := Format(Wrap(Number(Get(row, SIZE)) + Number(Get(d, SIZE))))];
    var modified := if Less(Get(row, MODIFIED), Get(d, MODIFIED)) then size[MODIFIED := Get(d, MODIFIED)] else size;
    if Less(Get(row, CREATED), Get(d, CREATED)) then modified[CREATED := Get(d, CREATED)] else modified
  }

  lemma GreatestOfMore(es: seq<Entry>, e: Entry, b: string, field: string, text: string)
    requires IsGreatest(es, b, field, text) && InRow(e, b)
    ensures IsGreatest(es + [e], b, field, Greater(text, Get(e.details, field)))
  {
    var more := Get(e.details, field);
    var all := es + [e];
    if Less(text, more) {
      assert all[|es|] == e;
      forall i | 0 <= i < |all| && InRow(all[i], b)
        ensures !Less(more, Get(all[i].details, field))
      {
        if i == |es| {
          LessIsIrreflexive(more);
        } else if Less(more, Get(all[i].details, field)) {
          LessIsTransitive(text, more, Get(all[i].details, field));
        }
      }
    } else {
      var i :| 0 <= i < |es| && InRow(es[i], b) && Get(es[i].details, field) == text;
      assert all[i] == es[i];
    }
  }

  lemma OtherRow(es: seq<Entry>, e: Entry, link: string -> string, b: string, row: Details)
    requires IsRow(es, link, b, row) && !InRow(e, b)
    ensures IsRow(es + [e], link, b, row)
  {
    SumsOfMore(es, e, b);
    OtherGreatest(es, e, b, MODIFIED, Get(row, MODIFIED));
    OtherGreatest(es, e, b, CREATED, Get(row, CREATED));
    StillFirst(es, e, link, b, row);
  }

  lemma OtherGreatest(es: seq<Entry>, e: Entry, b: string, field: string, text: string)
    requires IsGreatest(es, b, field, text) && !InRow(e, b)
    ensures IsGreatest(es + [e], b, field, text)
  {
    var i :| 0 <= i < |es| && InRow(es[i], b) && Get(es[i].details, field) == text;
    assert (es + [e])[i] == es[i];
  }

  lemma StillFirst(es: seq<Entry>, e: Entry, link: string -> string, b: string, row: Details)
    requires HasFirst(es, link, b, row)
    ensures HasFirst(es + [e], link, b, row)
  {
    var i :| 0 <= i < |es| && IsFirst(es, b, i) && SameOtherFields(row, FirstDetails(es[i], link));
    var all := es + [e];
    assert forall j :: 0 <= j <= i ==> all[j] == es[j];
    assert IsFirst(all, b, i);
  }

  lemma {:induction false} NoRowNoSize(es: seq<Entry>, b: string)
    requires !HasRow(es, b)
    ensures RowCount(es, b) == RowSize(es, b) == RowKept(es, b) == 0
  {
    if es != [] {
      var init := es[..|es| - 1];
      forall i | 0 <= i < |init|
        ensures !InRow(init[i], b)
      {
        assert init[i] == es[i];
      }
      NoRowNoSize(init, b);
    }
  }

  lemma RowsOfMore(es: seq<Entry>, e: Entry, b: string)
    ensures HasRow(es + [e], b) <==> HasRow(es, b) || InRow(e, b)
  {
    var all := es + [e];
    if HasRow(es, b) {
      var i :| 0 <= i < |es| && InRow(es[i], b);
      assert all[i] == es[i];
    }
    if InRow(e, b) {
      assert all[|es|] == e;
    }
  }

  lemma SumsOfMore(es: seq<Entry>, e: Entry, b: string)
    ensures RowCount(es + [e], b) == RowCount(es, b) + if InRow(e, b) then 1 else 0
    ensures RowSize(es + [e], b) == RowSize(es, b) + if InRow(e, b) then SizeOf(e) else 0
    ensures RowKept(es + [e], b) == RowKept(es, b) + if InRow(e, b) then KeptSize(e) else 0
  {
    assert (es + [e])[..|es|] == es;
  }

  lemma {:induction false} RowIsCounted(es: seq<Entry>, b: string)
    requires HasRow(es, b)
    ensures RowCount(es, b) > 0
  {
    var init, last := es[..|es| - 1], es[|es| - 1];
    if !InRow(last, b) {
      var i :| 0 <= i < |es| && InRow(es[i], b);
      assert init[i] == es[i];
      RowIsCounted(init, b);
    }
  }

  lemma SizeOfFirst(es: seq<Entry>, e: Entry, b: string, row: Details)
    requires InRow(e, b) && !HasRow(es, b) && Get(row, SIZE) == Get(e.details, SIZE)
    ensures KeepsSize(es + [e], b, row) && ShowsSize(es + [e], b, row)
  {
    NoRowNoSize(es, b);
    SumsOfMore(es, e, b);
  }

  lemma GreatestOfFirst(es: seq<Entry>, e: Entry, b: string, field: string)
    requires InRow(e, b) && !HasRow(es, b)
    ensures IsGreatest(es + [e], b, field, Get(e.details, field))
  {
    assert (es + [e])[|es|] == e;
    LessIsIrreflexive(Get(e.details, field));
  }

  lemma FirstIsFirst(es: seq<Entry>, e: Entry, link: string -> string, b: string)
    requires InRow(e, b) && !HasRow(es, b)
    ensures HasFirst(es + [e], link, b, FirstDetails(e, link))
  {
    assert (es + [e])[|es|] == e;
    assert IsFirst(es + [e], b, |es|);
  }

  lemma FirstFields(e: Entry, link: string -> string)
    ensures var row := FirstDetails(e, link);
      && Get(row, SIZE) == Get(e.details, SIZE)
      && Get(row, MODIFIED) == Get(e.details, MODIFIED)
      && Get(row, CREATED) == Get(e.details, CREATED)
  {}

  lemma FirstOfRow(es: seq<Entry>, e: Entry, link: string -> string, b: string)
    requires InRow(e, b) && !HasRow(es, b)
    ensures IsRow(es + [e], link, b, FirstDetails(e, link))
  {
    FirstFields(e, link);
    SizeOfFirst(es, e, b, FirstDetails(e, link));
    GreatestOfFirst(es, e, b, MODIFIED);
    GreatestOfFirst(es, e, b, CREATED);
    FirstIsFirst(es, e, link, b);
  }

  function Greater(a: string, b: string): string {
    if Less(a, b) then b else a
  }

  lemma MergedTimes(row: Details, d: Details)
    requires CanMerge(row)
    ensures var m := Merged(row, d);
      && Get(m, MODIFIED) == Greater(Get(row, MODIFIED), Get(d, MODIFIED))
      && Get(m, CREATED) == Greater(Get(row, CREATED), Get(d, CREATED))
      && SameOtherFields(m, row)
      && Get(m, SIZE) == Format(Wrap(Number(Get(row, SIZE)) + Number(Get(d, SIZE))))
  {}

  /** The merged row has the sum of the sizes, the greater of the times and else the fields of the row. */
  ghost predicate IsMerge(row: Details, d: Details, m: Details) {
    && Number(Get(m, SIZE)) == Reading(Get(m, SIZE)) == Wrap(Number(Get(row, SIZE)) + Number(Get(d, SIZE)))
    && Get(m, MODIFIED) == Greater(Get(row, MODIFIED), Get(d, MODIFIED))
    && Get(m, CREATED) == Greater(Get(row, CREATED), Get(d, CREATED))
    && SameOtherFields(m, row)
  }

  lemma MergedFields(row: Details, d: Details)
    requires CanMerge(row)
    ensures IsMerge(row, d, Merged(row, d))
  {
    MergedTimes(row, d);
    ReadingOfFormat(Wrap(Number(Get(row, SIZE)) + Number(Get(d, SIZE))));
  }

  lemma KeptSumOfMore(es: seq<Entry>, e: Entry, b: string, kept: nat)
    requires InRow(e, b) && kept == KeptSize(e)
    ensures RowKept(es + [e], b) == RowKept(es, b) + kept
  {
    SumsOfMore(es, e, b);
  }

  lemma ShownOfMore(es: seq<Entry>, e: Entry, b: string, m: Details)
    requires HasRow(es, b) && InRow(e, b) && KeepsSize(es + [e], b, m)
    requires Reading(Get(m, SIZE)) == Number(Get(m, SIZE))
    ensures ShowsSize(es + [e], b, m)
  {
    RowIsCounted(es, b);
    SumsOfMore(es, e, b);
  }

  lemma SizeOfMore(es: seq<Entry>, e: Entry, b: string, row: Details, m: Details)
    requires KeepsSize(es, b, row) && HasRow(es, b) && InRow(e, b) && IsMerge(row, e.details, m)
    ensures KeepsSize(es + [e], b, m) && ShowsSize(es + [e], b, m)
  {
    KeptSumOfMore(es, e, b, KeptSize(e));
    WrapStep(RowKept(es, b), KeptSize(e), Number(Get(row, SIZE)), Number(Get(m, SIZE)), RowKept(es + [e], b));
    ShownOfMore(es, e, b, m);
  }

  lemma ModifiedOfMore(es: seq<Entry>, e: Entry, b: string, row: Details, m: Details)
    requires IsGreatest(es, b, MODIFIED, Get(row, MODIFIED)) && InRow(e, b) && IsMerge(row, e.details, m)
    ensures IsGreatest(es + [e], b, MODIFIED, Get(m, MODIFIED))
  {
    GreatestOfMore(es, e, b, MODIFIED, Get(row, MODIFIED));
  }

  lemma CreatedOfMore(es: seq<Entry>, e: Entry, b: string, row: Details, m: Details)
    requires IsGreatest(es, b, CREATED, Get(row, CREATED)) && InRow(e, b) && IsMerge(row, e.details, m)
    ensures IsGreatest(es + [e], b, CREATED, Get(m, CREATED))
  {
    GreatestOfMore(es, e, b, CREATED, Get(row, CREATED));
  }

  lemma FirstOfMore(es: seq<Entry>, e: Entry, link: string -> string, b: string, row: Details, m: Details)
    requires HasFirst(es, link, b, row) && IsMerge(row, e.details, m)
    ensures HasFirst(es + [e], link, b, m)
  {
    StillFirst(es, e, link, b, row);
    MergedKeepsFirst(es + [e], link, b, row, m);
  }

  lemma RowOfGreatest(es: seq<Entry>, b: string, field: string, text: string)
    requires IsGreatest(es, b, field, text)
    ensures HasRow(es, b)
  {
    var i :| 0 <= i < |es| && InRow(es[i], b) && Get(es[i].details, field) == text;
  }

  lemma MoreOfRow(es: seq<Entry>, e: Entry, link: string -> string, b: string, row: Details, m: Details)
    requires IsRow(es, link, b, row) && InRow(e, b) && IsMerge(row, e.details, m)
    ensures IsRow(es + [e], link, b, m)
  {
    assert HasRow(es, b) by { RowOfGreatest(es, b, MODIFIED, Get(row, MODIFIED)); }
    SizeOfMore(es, e, b, row, m);
    ModifiedOfMore(es, e, b, row, m);
    CreatedOfMore(es, e, b, row, m);
    FirstOfMore(es, e, link, b, row, m);
  }

  lemma MergedKeepsFirst(es: seq<Entry>, link: string -> string, b: string, row: Details, m: Details)
    requires HasFirst(es, link, b, row) && SameOtherFields(m, row)
    ensures HasFirst(es, link, b, m)
  {
    var i :| 0 <= i < |es| && IsFirst(es, b, i) && SameOtherFields(row, FirstDetails(es[i], link));
    assert SameOtherFields(m, FirstDetails(es[i], link));
  }

  lemma SkipKeepsListing(es: seq<Entry>, e: Entry, link: string -> string, rows: Rows)
    requires IsListing(es, link, rows) && !IsCounted(e)
    ensures IsListing(es + [e], link, rows)
  {
    forall b
      ensures b in rows <==> HasRow(es + [e], b)
    {
      RowsOfMore(es, e, b);
    }
    forall b | b in rows
      ensures IsRow(es + [e], link, b, rows[b])
    {
      OtherRow(es, e, link, b, rows[b]);
    }
  }

  ghost predicate OthersAreRight(es: seq<Entry>, link: string -> string, rows: Rows, b: string) {
    forall c <- rows :: c != b ==> IsRow(es, link, c, rows[c])
  }

  lemma OtherRows(es: seq<Entry>, e: Entry, link: string -> string, rows: Rows, b: string)
    requires EveryRowIsRight(es, link, rows) && InRow(e, b)
    ensures OthersAreRight(es + [e], link, rows, b)
  {
    forall c | c in rows && c != b
      ensures IsRow(es + [e], link, c, rows[c])
    {
      OtherRow(es, e, link, c, rows[c]);
    }
  }

  lemma RowsAfterWrite(es: seq<Entry>, link: string -> string, rows: Rows, after: Rows, b: string)
    requires OthersAreRight(es, link, rows, b) && after.Keys == rows.Keys + {b}
    requires forall c <- rows :: c != b ==> after[c] == rows[c]
    requires IsRow(es, link, b, after[b])
    ensures EveryRowIsRight(es, link, after)
  {}

  lemma KeysAfterWrite(es: seq<Entry>, e: Entry, rows: Rows, after: Rows, b: string)
    requires HasExactlyTheRows(es, rows) && InRow(e, b) && after.Keys == rows.Keys + {b}
    ensures HasExactlyTheRows(es + [e], after)
  {
    forall c
      ensures c in after <==> HasRow(es + [e], c)
    {
      RowsOfMore(es, e, c);
    }
  }

  lemma UpdatedRows(rows: Rows, b: string, row: Details, after: Rows)
    requires after == rows[b := row]
    ensures after.Keys == rows.Keys + {b} && after[b] == row
    ensures forall c <- rows :: c != b ==> after[c] == rows[c]
  {}

  /** Writing the row of one more file keeps the listing right when the row itself is right. */
  lemma WriteKeepsListing(es: seq<Entry>, e: Entry, link: string -> string, rows: Rows, b: string, row: Details,
                          after: Rows)
    requires IsListing(es, link, rows) && InRow(e, b) && IsRow(es + [e], link, b, row) && after == rows[b := row]
    ensures IsListing(es + [e], link, after)
  {
    UpdatedRows(rows, b, row, after);
    OtherRows(es, e, link, rows, b);
    RowsAfterWrite(es + [e], link, rows, after, b);
    KeysAfterWrite(es, e, rows, after, b);
  }

  // Which row a path belongs to

  ghost predicate IsPlain(part: string) {
    part != "" && part != "." && part != ".."
  }

  ghost predicate IsDirectory(e: Entry) {
    "type" in e.details && e.details["type"] == "inode/directory"
  }

  ghost predicate NonePlain(parts: seq<string>) {
    forall i :: 0 <= i < |parts| ==> !IsPlain(parts[i])
  }

  lemma {:induction false} SkippedParts(parts: seq<string>)
    ensures NormalOnly(parts) == [] <==> NonePlain(parts)
  {
    if parts != [] {
      SkippedParts(parts[1..]);
      assert parts == [parts[0]] + parts[1..];
    }
  }

  lemma {:induction false} FirstPlain(parts: seq<string>, i: nat)
    requires i < |parts| && NonePlain(parts[..i]) && IsPlain(parts[i])
    ensures NormalOnly(parts) == [parts[i]] + NormalOnly(parts[i + 1..])
  {
    if i > 0 {
      assert parts[..i][0] == parts[0] && parts[1..][..i - 1] == parts[..i][1..];
      FirstPlain(parts[1..], i - 1);
      assert parts[1..][i..] == parts[i + 1..];
    }
  }

  lemma ComponentsOfJoin(key: string, parts: seq<string>)
    requires parts != [] && Splitting.Free(parts, '/') && key == Splitting.Join(parts, '/')
    ensures Components(key) == NormalOnly(parts)
  {
    Splitting.SplitJoin(parts, '/');
  }

  lemma RowOfComponents(e: Entry, first: string, rest: seq<string>)
    requires Components(e.key) == [first] + rest && !IsDirectory(e)
    ensures InRow(e, if rest == [] then first else first + "/")
    ensures InFolder(e) <==> rest != []
  {
    assert first + "" == first;
  }

  /** A path without a name among its components is in no row, and neither is a directory. */
  lemma NoRowOfKey(e: Entry, parts: seq<string>)
    requires parts != [] && Splitting.Free(parts, '/') && e.key == Splitting.Join(parts, '/')
    requires NonePlain(parts) || IsDirectory(e)
    ensures !IsCounted(e)
  {
    ComponentsOfJoin(e.key, parts);
    SkippedParts(parts);
  }

  /**
   * Any other file belongs to the row of the first name among its components, which is a folder's row if and
   * only if another name follows.
   */
  lemma RowOfKey(e: Entry, parts: seq<string>, i: nat)
    requires Splitting.Free(parts, '/') && e.key == Splitting.Join(parts, '/') && !IsDirectory(e)
    requires i < |parts| && NonePlain(parts[..i]) && IsPlain(parts[i])
    ensures InRow(e, if NonePlain(parts[i + 1..]) then parts[i] else parts[i] + "/")
    ensures InFolder(e) <==> !NonePlain(parts[i + 1..])
  {
    ComponentsOfJoin(e.key, parts);
    FirstPlain(parts, i);
    SkippedParts(parts[i + 1..]);
    RowOfComponents(e, parts[i], NormalOnly(parts[i + 1..]));
  }

  lemma OneRow(e: Entry, a: string, b: string)
    requires InRow(e, a)
    ensures InRow(e, b) <==> a == b
  {}

  /** A path of names only, with or without a slash before it. */
  lemma RowOfPath(e: Entry, parts: seq<string>, b: string)
    requires parts != [] && Splitting.Free(parts, '/') && forall i :: 0 <= i < |parts| ==> IsPlain(parts[i])
    requires e.key == Splitting.Join(parts, '/') || e.key == "/" + Splitting.Join(parts, '/')
    requires !IsDirectory(e)
    ensures InRow(e, b) <==> b == if |parts| == 1 then parts[0] else parts[0] + "/"
  {
    var row := if |parts| == 1 then parts[0] else parts[0] + "/";
    assert NonePlain(parts[1..]) <==> |parts| == 1 by {
      assert |parts| > 1 ==> IsPlain(parts[1..][0]);
    }
    if e.key == Splitting.Join(parts, '/') {
      RowOfKey(e, parts, 0);
    } else {
      RowOfRooted(e, parts);
    }
    OneRow(e, row, b);
  }

  lemma RowOfRooted(e: Entry, parts: seq<string>)
    requires parts != [] && Splitting.Free(parts, '/') && IsPlain(parts[0]) && !IsDirectory(e)
    requires e.key == "/" + Splitting.Join(parts, '/')
    ensures InRow(e, if NonePlain(parts[1..]) then parts[0] else parts[0] + "/")
  {
    var rooted := [""] + parts;
    assert rooted[1..] == parts && rooted[2..] == parts[1..];
    assert e.key == Splitting.Join(rooted, '/');
    RowOfKey(e, rooted, 1);
  }

  /** The row of a first file: its fields, and for a folder the folder's link and no type. */
  lemma FieldsOfFirst(e: Entry, link: string -> string)
    ensures var row := FirstDetails(e, link);
      && (!InFolder(e) ==> row == e.details)
      && (InFolder(e) ==>
            && row.Keys == e.details.Keys + {"link", "type"}
            && row["link"] == link(Components(e.key)[0]) && row["type"] == ""
            && forall f <- e.details :: f != "link" && f != "type" ==> row[f] == e.details[f])
  {}

  ghost function CountedPlaces(es: seq<Entry>): set<int> {
    set i | 0 <= i < |es| && IsCounted(es[i])
  }

  lemma PlacesOfMore(es: seq<Entry>, e: Entry)
    ensures CountedPlaces(es + [e]) == if IsCounted(e) then CountedPlaces(es) + {|es|} else CountedPlaces(es)
    ensures |es| !in CountedPlaces(es)
  {}

  /** The number of counted files is the number of places that hold one. */
  lemma {:induction false} CountIsNumber(es: seq<Entry>)
    ensures CountCounted(es) == |CountedPlaces(es)|
  {
    if es != [] {
      var init, e := es[..|es| - 1], es[|es| - 1];
      CountIsNumber(init);
      PlacesOfMore(init, e);
      assert init + [e] == es;
    }
  }

  ghost predicate TakesFieldsFrom(row: Details, first: Details) {
    && row.Keys == first.Keys
    && forall f <- row :: f != "size" && f != "modified" && f != "created" ==> row[f] == first[f]
  }

  lemma FirstFieldsByName(es: seq<Entry>, link: string -> string, b: string, row: Details)
    requires HasFirst(es, link, b, row)
    ensures exists i :: 0 <= i < |es| && IsFirst(es, b, i) && TakesFieldsFrom(row, FirstDetails(es[i], link))
  {
    var i :| 0 <= i < |es| && IsFirst(es, b, i) && SameOtherFields(row, FirstDetails(es[i], link));
    assert TakesFieldsFrom(row, FirstDetails(es[i], link));
  }

  /** The fields of a row, by their names. */
  lemma RowFields(es: seq<Entry>, link: string -> string, rows: Rows, b: string)
    requires IsListing(es, link, rows) && b in rows
    ensures IsGreatest(es, b, "modified", Get(rows[b], "modified"))
    ensures IsGreatest(es, b, "created", Get(rows[b], "created"))
    ensures exists i :: 0 <= i < |es| && IsFirst(es, b, i) && TakesFieldsFrom(rows[b], FirstDetails(es[i], link))
  {
    assert IsRow(es, link, b, rows[b]);
    FirstFieldsByName(es, link, b, rows[b]);
  }
}
