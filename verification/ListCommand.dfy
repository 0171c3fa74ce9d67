/** The listing command: a loop over the path map that merges into one row a folder. */
module ListCommand {
  import opened Wrappers
  import opened Decimal
  import opened FileTree
  import opened FileListing
  import opened Lexicographic
  import Splitting

  // Conservation of sizes

  ghost predicate Distinct(bases: seq<string>) {
    forall i, j :: 0 <= i < j < |bases| ==> bases[i] != bases[j]
  }

  function SumOfRowSizes(es: seq<Entry>, bases: seq<string>): nat {
    if bases == [] then 0 else RowSize(es, bases[0]) + SumOfRowSizes(es, bases[1..])
  }

  /** The sizes that the listing shows, added up over the rows in any order. */
  function ShownTotal(rows: Rows, bases: seq<string>): nat
    requires forall b <- bases :: b in rows
  {
    if bases == [] then 0 else Reading(Get(rows[bases[0]], SIZE)) + ShownTotal(rows, bases[1..])
  }

  lemma {:induction false} SumOfMore(es: seq<Entry>, e: Entry, bases: seq<string>)
    requires Distinct(bases)
    ensures SumOfRowSizes(es + [e], bases)
         == SumOfRowSizes(es, bases) + if IsCounted(e) && Base(e) in bases then SizeOf(e) else 0
    decreases bases
  {
    if bases != [] {
      SumsOfMore(es, e, bases[0]);
      SumOfMore(es, e, bases[1..]);
      assert bases == [bases[0]] + bases[1..];
    }
  }

  lemma {:induction false} SumOfNothing(bases: seq<string>)
    ensures SumOfRowSizes([], bases) == 0
  {
    if bases != [] {
      SumOfNothing(bases[1..]);
    }
  }

  lemma {:induction false} SizesAreConserved(es: seq<Entry>, bases: seq<string>)
    requires Distinct(bases) && forall i :: 0 <= i < |es| && IsCounted(es[i]) ==> Base(es[i]) in bases
    ensures SumOfRowSizes(es, bases) == TotalSize(es)
    decreases es
  {
    if es == [] {
      SumOfNothing(bases);
    } else {
      var init, e := es[..|es| - 1], es[|es| - 1];
      SizesAreConserved(init, bases);
      SumOfMore(init, e, bases);
      assert es == init + [e];
    }
  }

  lemma {:induction false} KeptWithinSize(es: seq<Entry>, b: string)
    ensures RowKept(es, b) <= RowSize(es, b)
    ensures RowSize(es, b) < LIMIT ==> RowKept(es, b) == RowSize(es, b)
  {
    if es != [] {
      KeptWithinSize(es[..|es| - 1], b);
    }
  }

  /** A row shows the size of its files if and only if it is a single file or they have fewer than 2^32 bytes. */
  lemma RowShowsItsSizeExactly(es: seq<Entry>, b: string, row: Details)
    requires ShowsSize(es, b, row)
    ensures Reading(Get(row, SIZE)) <= RowSize(es, b)
    ensures Reading(Get(row, SIZE)) == RowSize(es, b) <==> RowCount(es, b) == 1 || RowSize(es, b) < LIMIT
  {
    KeptWithinSize(es, b);
  }

  lemma {:induction false} ShownAgainstSum(es: seq<Entry>, rows: Rows, bases: seq<string>)
    requires forall b <- bases :: b in rows && ShowsSize(es, b, rows[b])
    ensures ShownTotal(rows, bases) <= SumOfRowSizes(es, bases)
    ensures ShownTotal(rows, bases) == SumOfRowSizes(es, bases)
       <==> forall b <- bases :: RowCount(es, b) == 1 || RowSize(es, b) < LIMIT
    decreases bases
  {
    if bases != [] {
      assert bases == [bases[0]] + bases[1..];
      assert bases[0] in bases && forall b <- bases[1..] :: b in bases;
      RowShowsItsSizeExactly(es, bases[0], rows[bases[0]]);
      ShownAgainstSum(es, rows, bases[1..]);
    }
  }

  /**
   * The sizes shown add up to the sizes of all counted files if and only if every row of two or more files
   * has fewer than 2^32 bytes in all; otherwise they add up to less.
   */
  lemma ShownSizesAreConserved(es: seq<Entry>, link: string -> string, rows: Rows, bases: seq<string>)
    requires IsListing(es, link, rows)
    requires Distinct(bases) && forall b :: b in bases <==> b in rows
    ensures ShownTotal(rows, bases) <= TotalSize(es)
    ensures ShownTotal(rows, bases) == TotalSize(es)
       <==> forall b <- rows :: RowCount(es, b) == 1 || RowSize(es, b) < LIMIT
  {
    forall i | 0 <= i < |es| && IsCounted(es[i])
      ensures Base(es[i]) in bases
    {
      assert InRow(es[i], Base(es[i]));
      assert HasRow(es, Base(es[i]));
    }
    SizesAreConserved(es, bases);
    ShownAgainstSum(es, rows, bases);
  }

  // Creation times

  /** Some file of the row has this text in the field, and none has a lesser one. */
  ghost predicate IsLeast(es: seq<Entry>, b: string, field: string, text: string) {
    && (exists i :: 0 <= i < |es| && InRow(es[i], b) && Get(es[i].details, field) == text)
    && forall i :: 0 <= i < |es| && InRow(es[i], b) ==> !Less(Get(es[i].details, field), text)
  }

  ghost predicate AllHave(es: seq<Entry>, b: string, field: string, text: string) {
    forall i :: 0 <= i < |es| && InRow(es[i], b) ==> Get(es[i].details, field) == text
  }

  lemma GreatestIsLeastExactly(es: seq<Entry>, b: string, field: string, text: string)
    requires IsGreatest(es, b, field, text)
    ensures IsLeast(es, b, field, text) <==> AllHave(es, b, field, text)
  {
    if IsLeast(es, b, field, text) {
      forall i | 0 <= i < |es| && InRow(es[i], b)
        ensures Get(es[i].details, field) == text
      {
        LessIsTotal(text, Get(es[i].details, field));
      }
    }
    LessIsIrreflexive(text);
  }

  /** A row carries the oldest creation time of its files if and only if they all have the same. */
  lemma OldestCreationExactly(es: seq<Entry>, link: string -> string, rows: Rows, b: string)
    requires IsListing(es, link, rows) && b in rows
    ensures IsLeast(es, b, CREATED, Get(rows[b], CREATED)) <==> AllHave(es, b, CREATED, Get(rows[b], CREATED))
  {
    assert IsRow(es, link, b, rows[b]);
    GreatestIsLeastExactly(es, b, CREATED, Get(rows[b], CREATED));
  }

  // A folder of two files that shows both failures

  function LargeFile(): Details {
    map["type" := "video/mp4", "size" := "4294967296", "modified" := "2022-05-01", "created" := "2022-05-01"]
  }

  function SmallFile(): Details {
    map["type" := "text/plain", "size" := "1", "modified" := "2023-05-01", "created" := "2023-05-01"]
  }

  function TwoFiles(): seq<Entry> {
    [Entry("d/x", LargeFile()), Entry("d/y", SmallFile())]
  }

  lemma InFolderD(name: string, d: Details, e: Entry)
    requires |name| == 1 && name[0] != '/' && name[0] != '.' && e == Entry("d/" + name, d)
    requires TYPE in d && d[TYPE] != "inode/directory"
    ensures InRow(e, "d/")
  {
    var parts := ["d", name];
    assert parts[1..] == [name] && e.key == Splitting.Join(parts, '/');
    RowOfPath(e, parts, "d/");
  }

  lemma TwoFileSums()
    ensures RowCount(TwoFiles(), "d/") == 2
    ensures RowSize(TwoFiles(), "d/") == Reading("4294967296") + Reading("1")
    ensures RowKept(TwoFiles(), "d/") == Number("4294967296") + Number("1")
    ensures InRow(TwoFiles()[0], "d/") && InRow(TwoFiles()[1], "d/")
  {
    var x, y := Entry("d/x", LargeFile()), Entry("d/y", SmallFile());
    InFolderD("x", LargeFile(), x);
    InFolderD("y", SmallFile(), y);
    var none: seq<Entry> := [];
    SumsOfMore(none, x, "d/");
    SumsOfMore(none + [x], y, "d/");
    assert none + [x] + [y] == TwoFiles();
  }

  lemma LargeReading()
    ensures Reading("4294967296") == 4294967296 && Reading("1") == 1
  {
    assert "4294967296"[..9] == "429496729" && "429496729"[..8] == "42949672" && "42949672"[..7] == "4294967";
    assert "4294967"[..6] == "429496" && "429496"[..5] == "42949" && "42949"[..4] == "4294";
    assert "4294"[..3] == "429" && "429"[..2] == "42" && "42"[..1] == "4" && "4"[..0] == "" && "1"[..0] == "";
    assert Digits("4294") == Some(4294);
    assert Digits("4294967") == Some(4294967);
    assert Digits("4294967296") == Some(4294967296);
  }

  /** A folder with a file of 2^32 bytes and one of a single byte shows one byte. */
  lemma LargeFileIsLost(link: string -> string, rows: Rows)
    requires IsListing(TwoFiles(), link, rows)
    ensures "d/" in rows && Reading(Get(rows["d/"], "size")) == 1 && RowSize(TwoFiles(), "d/") == 4294967297
  {
    TwoFileSums();
    LargeReading();
    assert HasRow(TwoFiles(), "d/");
  }

  lemma LaterIsGreater()
    ensures Less("2022-05-01", "2023-05-01")
  {
    assert "2022-05-01"[1..] == "022-05-01" && "2023-05-01"[1..] == "023-05-01";
    assert "022-05-01"[1..] == "22-05-01" && "023-05-01"[1..] == "23-05-01";
    assert "22-05-01"[1..] == "2-05-01" && "23-05-01"[1..] == "3-05-01";
    assert Less("22-05-01", "23-05-01");
    assert Less("022-05-01", "023-05-01");
  }

  lemma GreatestOfTwo(es: seq<Entry>, b: string, field: string, text: string, x: string, y: string)
    requires |es| == 2 && InRow(es[0], b) && InRow(es[1], b) && IsGreatest(es, b, field, text)
    requires Get(es[0].details, field) == x && Get(es[1].details, field) == y && Less(x, y)
    ensures text == y && !AllHave(es, b, field, text)
  {
    LessIsIrreflexive(x);
  }

  /** The folder of a file from 2022 and one from 2023 carries the newer date. */
  lemma NewerDateIsShown(link: string -> string, rows: Rows)
    requires IsListing(TwoFiles(), link, rows)
    ensures "d/" in rows && Get(rows["d/"], "created") == "2023-05-01"
    ensures !IsLeast(TwoFiles(), "d/", "created", Get(rows["d/"], "created"))
  {
    TwoFileSums();
    assert HasRow(TwoFiles(), "d/");
    NewerOfTwo(TwoFiles(), link, rows["d/"]);
  }

  lemma NewerOfTwo(es: seq<Entry>, link: string -> string, row: Details)
    requires es == TwoFiles() && InRow(es[0], "d/") && InRow(es[1], "d/") && IsRow(es, link, "d/", row)
    ensures Get(row, CREATED) == "2023-05-01" && !IsLeast(es, "d/", CREATED, Get(row, CREATED))
  {
    LaterIsGreater();
    GreatestOfTwo(es, "d/", CREATED, Get(row, CREATED), "2022-05-01", "2023-05-01");
    GreatestIsLeastExactly(es, "d/", CREATED, Get(row, CREATED));
  }

  // The command

  method NormalComponents(key: string) returns (subdirs: seq<string>)
    ensures subdirs == Components(key)
  {
    var parts := Splitting.Split(key, '/');
    subdirs := [];
    for i := 0 to |parts|
      invariant subdirs + NormalOnly(parts[i..]) == NormalOnly(parts)
    {
      assert parts[i..][1..] == parts[i + 1..];
      if parts[i] !in {"", ".", ".."} {
        subdirs := subdirs + [parts[i]];
      }
    }
  }

  lemma RowCanMerge(es: seq<Entry>, k: nat, link: string -> string, b: string, row: Details)
    requires HasFields(es) && k < |es| && InRow(es[k], b) && IsRow(es[..k], link, b, row)
    ensures CanMerge(row) && CanMerge(es[k].details)
  {
    var i :| 0 <= i < k && IsFirst(es[..k], b, i) && SameOtherFields(row, FirstDetails(es[..k][i], link));
    assert es[..k][i] == es[i];
    assert InRow(es[i], b) && InRow(es[k], b);
  }

  lemma CountOfMore(es: seq<Entry>, k: nat)
    requires k < |es|
    ensures CountCounted(es[..k + 1]) == CountCounted(es[..k]) + if IsCounted(es[k]) then 1 else 0
  {
    assert es[..k + 1][..k] == es[..k];
  }

  /** The row after one more of its files; times that compare greater replace the row's. */
  method MergeInto(row: Details, d: Details) returns (merged: Details)
    requires CanMerge(row) && CanMerge(d)
    ensures IsMerge(row, d, merged)
  {
    MergedFields(row, d);
    merged := row[SIZE := Format(Wrap(Number(row[SIZE]) + Number(d[SIZE])))];
    if Less(row[MODIFIED], d[MODIFIED]) {
      merged := merged[MODIFIED := d[MODIFIED]];
    }
    if Less(row[CREATED], d[CREATED]) {
      merged := merged[CREATED := d[CREATED]];
    }
  }

  /** Whether an entry is counted, and then its row, and the folder that the row stands for if it is one. */
  method Classify(e: Entry) returns (counted: bool, base: string, folder: Option<string>)
    requires TYPE in e.details
    ensures counted == IsCounted(e)
    ensures counted ==> InRow(e, base)
    ensures counted ==> folder == if InFolder(e) then Some(Components(e.key)[0]) else None
  {
    counted, base, folder := false, "", None;
    if e.details[TYPE] == "inode/directory" {
      return;
    }
    var subdirs := NormalComponents(e.key);
    if subdirs != [] {
      counted := true;
      if |subdirs| > 1 {
        base, folder := subdirs[0] + "/", Some(subdirs[0]);
      } else {
        base := subdirs[0];
        assert subdirs[0] + "" == subdirs[0];
      }
    }
  }

  /** The row of the first file: its own details, with the link of the folder if it is one. */
  method FirstRow(e: Entry, link: string -> string, folder: Option<string>) returns (row: Details)
    requires folder == if InFolder(e) then Some(Components(e.key)[0]) else None
    ensures row == FirstDetails(e, link)
  {
    row := e.details;
    if folder.Some? {
      row := row[LINK := link(folder.value)];
      row := row[TYPE := ""];
    }
  }

  lemma NewRowKeepsListing(before: seq<Entry>, e: Entry, link: string -> string, rows: Rows, base: string,
                           row: Details, after: Rows)
    requires IsListing(before, link, rows) && InRow(e, base) && !HasRow(before, base)
    requires row == FirstDetails(e, link) && after == rows[base := row]
    ensures IsListing(before + [e], link, after)
  {
    FirstOfRow(before, e, link, base);
    WriteKeepsListing(before, e, link, rows, base, row, after);
  }

  lemma MergeKeepsListing(before: seq<Entry>, e: Entry, link: string -> string, rows: Rows, base: string,
                          was: Details, row: Details, after: Rows)
    requires IsListing(before, link, rows) && InRow(e, base) && IsRow(before, link, base, was)
    requires IsMerge(was, e.details, row) && after == rows[base := row]
    ensures IsListing(before + [e], link, after)
  {
    MoreOfRow(before, e, link, base, was, row);
    WriteKeepsListing(before, e, link, rows, base, row, after);
  }

  /** One entry: skipped, or counted and written to its row. */
  method FilterEntry(ghost before: seq<Entry>, e: Entry, link: string -> string, rows: Rows)
    returns (counted: bool, after: Rows)
    requires TYPE in e.details && IsListing(before, link, rows)
    requires forall b <- rows :: InRow(e, b) ==> CanMerge(rows[b]) && CanMerge(e.details)
    ensures counted == IsCounted(e) && IsListing(before + [e], link, after)
  {
    var base, folder, row;
    counted, base, folder := Classify(e);
    after := rows;
    if !counted {
      SkipKeepsListing(before, e, link, rows);
    } else if base !in rows {
      row := FirstRow(e, link, folder);
      after := rows[base := row];
      NewRowKeepsListing(before, e, link, rows, base, row, after);
    } else {
      row := MergeInto(rows[base], e.details);
      after := rows[base := row];
      MergeKeepsListing(before, e, link, rows, base, rows[base], row, after);
    }
  }

  lemma RowsCanMerge(es: seq<Entry>, k: nat, link: string -> string, rows: Rows)
    requires HasFields(es) && k < |es| && IsListing(es[..k], link, rows)
    ensures forall b <- rows :: InRow(es[k], b) ==> CanMerge(rows[b]) && CanMerge(es[k].details)
  {
    forall b | b in rows && InRow(es[k], b)
      ensures CanMerge(rows[b]) && CanMerge(es[k].details)
    {
      RowCanMerge(es, k, link, b, rows[b]);
    }
  }

  /**
   * Rows for all files and folders directly below the root, and the number of files counted. `link` gives
   * the URL text of a folder.
   */
  method FilterFilesMap(es: seq<Entry>, link: string -> string) returns (total: nat, rows: Rows)
    requires HasFields(es)
    ensures IsListing(es, link, rows) && total == CountCounted(es)
  {
    total, rows := 0, map[];
    for k := 0 to |es|
      invariant IsListing(es[..k], link, rows) && total == CountCounted(es[..k])
    {
      CountOfMore(es, k);
      assert es[..k + 1] == es[..k] + [es[k]];
      var counted;
      RowsCanMerge(es, k, link, rows);
      counted, rows := FilterEntry(es[..k], es[k], link, rows);
      if counted {
        total := total + 1;
      }
    }
    assert es[..|es|] == es;
  }
}
