/** When every node of the tree holds what belongs to its own entry, and what the counts then say. */
module OwnEntries {
  import opened Wrappers
  import opened FileTree
  import opened Lexicographic
  import Splitting

  ghost predicate Ascending(es: seq<Entry>) {
    forall i, j :: 0 <= i < j < |es| ==> Less(es[i].key, es[j].key)
  }

  function KeyOf(p: Path): string {
    ['/'] + Splitting.Join(p, '/')
  }

  /** A slash, then components that are not empty with a slash between any two. */
  predicate IsNormal(key: string) {
    key == KeyOf(PathOf(key)) && [] !in PathOf(key)
  }

  ghost predicate Normal(es: seq<Entry>) {
    forall i :: 0 <= i < |es| ==> IsNormal(es[i].key)
  }

  ghost predicate HasEntry(es: seq<Entry>, q: Path) {
    exists i :: 0 <= i < |es| && PathOf(es[i].key) == q
  }

  /** There is an entry for every ancestor of every entry. */
  ghost predicate AncestorsPresent(es: seq<Entry>) {
    forall i, k :: 0 <= i < |es| && 0 < k <= |PathOf(es[i].key)| ==> HasEntry(es, PathOf(es[i].key)[..k])
  }

  /** The node at `q` holds the type and the details of the entry for `q`. */
  ghost predicate HoldsOwn(es: seq<Entry>, sub: seq<Node>, q: Path)
    requires Typed(es)
  {
    exists i :: 0 <= i < |es| && PathOf(es[i].key) == q && Lookup(sub, q) == Some((KindOf(es[i].details), es[i].details))
  }

  ghost predicate EveryNodeHoldsOwn(es: seq<Entry>, sub: seq<Node>)
    requires Typed(es)
  {
    forall q :: q != [] && IsPath(sub, q) ==> HoldsOwn(es, sub, q)
  }

  lemma {:induction false} CutOfFull(p: Path)
    requires [] !in p
    ensures Cut(p) == p
  {
    if p != [] {
      assert p == [p[0]] + p[1..];
      CutOfFull(p[1..]);
    }
  }

  lemma {:induction false} JoinOfPrefix(p: Path, k: nat)
    requires 0 < k <= |p|
    ensures Splitting.Join(p[..k], '/') <= Splitting.Join(p, '/')
  {
    if k == |p| {
      assert p[..k] == p;
    } else if k > 1 {
      JoinOfPrefix(p[1..], k - 1);
      assert p[..k][1..] == p[1..][..k - 1];
      ConcatKeepsPrefix(p[0] + ['/'], Splitting.Join(p[..k][1..], '/'), Splitting.Join(p[1..], '/'));
    } else {
      assert p[..1] == [p[0]];
    }
  }

  lemma ConcatKeepsPrefix(a: string, b: string, c: string)
    requires b <= c
    ensures a + b <= a + c
  {}

  /** Entries come after their ancestors: a path through `q` cannot come before the entry for `q`. */
  lemma ThroughComesAfter(es: seq<Entry>, i: nat, j: nat)
    requires Normal(es) && Ascending(es) && i < |es| && j < |es|
    requires PathOf(es[i].key) <= PathOf(es[j].key)
    ensures i <= j
  {
    var q, p := PathOf(es[i].key), PathOf(es[j].key);
    assert q == p[..|q|];
    JoinOfPrefix(p, |q|);
    ConcatKeepsPrefix(['/'], Splitting.Join(q, '/'), Splitting.Join(p, '/'));
    PrefixIsNotGreater(es[i].key, es[j].key);
  }

  lemma {:induction false} FirstThroughAt(es: seq<Entry>, q: Path) returns (k: nat)
    requires FirstThrough(es, q).Some?
    ensures k < |es| && FirstThrough(es, q) == Some(es[k]) && q <= Cut(PathOf(es[k].key))
    ensures forall j :: 0 <= j < k ==> !(q <= Cut(PathOf(es[j].key)))
    decreases es
  {
    if q <= Cut(PathOf(es[0].key)) {
      k := 0;
    } else {
      var m := FirstThroughAt(es[1..], q);
      k := m + 1;
      assert forall j :: 0 < j < k ==> es[j] == es[1..][j - 1];
    }
  }

  lemma FirstThroughIsOwn(es: seq<Entry>, i: nat)
    requires Normal(es) && Ascending(es) && i < |es|
    ensures FirstThrough(es, PathOf(es[i].key)) == Some(es[i])
  {
    var q := PathOf(es[i].key);
    CutOfFull(q);
    FirstThroughExists(es, q);
    var k := FirstThroughAt(es, q);
    CutOfFull(PathOf(es[k].key));
    ThroughComesAfter(es, i, k);
    assert !(k > i);
  }

  lemma NodeHoldsOwn(es: seq<Entry>, q: Path)
    requires Typed(es) && Normal(es) && Ascending(es) && q != []
    ensures HasEntry(es, q) <==> HoldsOwn(es, InsertAll([], es), q)
  {
    TreeOfPaths(es, q);
    if HasEntry(es, q) {
      var i :| 0 <= i < |es| && PathOf(es[i].key) == q;
      FirstThroughIsOwn(es, i);
    }
  }

  lemma PathsOfNormal(es: seq<Entry>, q: Path)
    requires Typed(es) && Normal(es) && q != []
    ensures IsPath(InsertAll([], es), q) <==> exists i :: 0 <= i < |es| && q <= PathOf(es[i].key)
  {
    TreeOfPaths(es, q);
    forall i | 0 <= i < |es|
      ensures Cut(PathOf(es[i].key)) == PathOf(es[i].key)
    {
      CutOfFull(PathOf(es[i].key));
    }
  }

  /**
   * A normalised path map visited in ascending order gives every node the type and the details of its
   * own entry if and only if it holds an entry for every ancestor.
   */
  lemma OwnEntriesExactly(es: seq<Entry>)
    requires Typed(es) && Normal(es) && Ascending(es)
    ensures EveryNodeHoldsOwn(es, InsertAll([], es)) <==> AncestorsPresent(es)
  {
    var tree := InsertAll([], es);
    if AncestorsPresent(es) {
      forall q | q != [] && IsPath(tree, q)
        ensures HoldsOwn(es, tree, q)
      {
        PathsOfNormal(es, q);
        var i :| 0 <= i < |es| && q <= PathOf(es[i].key);
        assert q == PathOf(es[i].key)[..|q|];
        NodeHoldsOwn(es, q);
      }
    }
    if EveryNodeHoldsOwn(es, tree) {
      forall i, k | 0 <= i < |es| && 0 < k <= |PathOf(es[i].key)|
        ensures HasEntry(es, PathOf(es[i].key)[..k])
      {
        var q := PathOf(es[i].key)[..k];
        PathsOfNormal(es, q);
        NodeHoldsOwn(es, q);
      }
    }
  }

  // Counts

  /** How many of the entries count as directories, or as files. */
  function CountKinds(es: seq<Entry>, dir: bool): nat
    requires Typed(es)
  {
    if es == [] then 0 else CountKinds(es[1..], dir) + if CountsAsDir(es[0].details) == dir then 1 else 0
  }

  /** What the insertions count as directories, or as files, when they start from `sub`. */
  function Counted(sub: seq<Node>, es: seq<Entry>, dir: bool): nat
    requires Typed(es)
    decreases es
  {
    if es == [] then 0
    else
      var parts := PathOf(es[0].key);
      Counted(Insert(sub, parts, es[0].details), es[1..], dir)
      + if CountsAsDir(es[0].details) == dir then Created(sub, parts) else 0
  }

  /** Directories and files together are the nodes below the root. */
  lemma {:induction false} CountsAreNodes(sub: seq<Node>, es: seq<Entry>)
    requires Typed(es)
    ensures Size(sub) + Counted(sub, es, true) + Counted(sub, es, false) == Size(InsertAll(sub, es))
    decreases es
  {
    if es != [] {
      SizeAfterInsert(sub, PathOf(es[0].key), es[0].details);
      CountsAreNodes(Insert(sub, PathOf(es[0].key), es[0].details), es[1..]);
    }
  }

  lemma {:induction false} InsertAllAppend(sub: seq<Node>, es: seq<Entry>, k: nat)
    requires Typed(es) && k < |es|
    ensures InsertAll(sub, es[..k + 1]) == Insert(InsertAll(sub, es[..k]), PathOf(es[k].key), es[k].details)
    decreases k
  {
    if k > 0 {
      assert es[..k + 1][1..] == es[1..][..k] && es[..k][1..] == es[1..][..k - 1];
      InsertAllAppend(Insert(sub, PathOf(es[0].key), es[0].details), es[1..], k - 1);
    } else {
      assert es[..1][1..] == [];
    }
  }

  lemma NotThereBefore(es: seq<Entry>, k: nat)
    requires Typed(es) && Normal(es) && Ascending(es) && k < |es|
    ensures Lookup(InsertAll([], es[..k]), PathOf(es[k].key)).None?
  {
    var p := PathOf(es[k].key);
    TreeOfPaths(es[..k], p);
    if FirstThrough(es[..k], p).Some? {
      var j := FirstThroughAt(es[..k], p);
      CutOfFull(PathOf(es[j].key));
      ThroughComesAfter(es, k, j);
      assert false;
    }
  }

  lemma ParentIsThereBefore(es: seq<Entry>, k: nat, parent: Path)
    requires Typed(es) && Normal(es) && Ascending(es) && k < |es| && HasEntry(es, parent)
    requires parent < PathOf(es[k].key) && parent != []
    ensures Lookup(InsertAll([], es[..k]), parent).Some?
  {
    var i :| 0 <= i < |es| && PathOf(es[i].key) == parent;
    ThroughComesAfter(es, i, k);
    CutOfFull(parent);
    assert es[..k][i] == es[i];
    FirstThroughExists(es[..k], parent);
    TreeOfPaths(es[..k], parent);
  }

  /** Each entry makes exactly one node. */
  lemma EachCreatesOne(es: seq<Entry>, k: nat)
    requires Typed(es) && Normal(es) && Ascending(es) && AncestorsPresent(es) && k < |es|
    ensures Created(InsertAll([], es[..k]), PathOf(es[k].key)) == 1
  {
    var p := PathOf(es[k].key);
    CutOfFull(p);
    NotThereBefore(es, k);
    if |p| > 1 {
      ParentIsThereBefore(es, k, p[..|p| - 1]);
    }
    OneIsCreated(InsertAll([], es[..k]), p);
  }

  lemma {:induction false} CountsFrom(es: seq<Entry>, k: nat, dir: bool)
    requires Typed(es) && Normal(es) && Ascending(es) && AncestorsPresent(es) && k <= |es|
    ensures Counted(InsertAll([], es[..k]), es[k..], dir) == CountKinds(es[k..], dir)
    decreases |es| - k
  {
    if k < |es| {
      CountsFrom(es, k + 1, dir);
      InsertAllAppend([], es, k);
      EachCreatesOne(es, k);
      assert es[k..][1..] == es[k + 1..] && es[k..][0] == es[k];
    }
  }

  /** With every ancestor present the counts are those of the entries themselves. */
  lemma CountsAreEntries(es: seq<Entry>, dir: bool)
    requires Typed(es) && Normal(es) && Ascending(es) && AncestorsPresent(es)
    ensures Counted([], es, dir) == CountKinds(es, dir)
  {
    CountsFrom(es, 0, dir);
    assert es[..0] == [] && es[0..] == es;
  }

  /** What the insertions count from the `k`-th on. */
  function CountedFrom(es: seq<Entry>, k: nat): nat
    requires Typed(es) && k <= |es|
  {
    Counted(InsertAll([], es[..k]), es[k..], true) + Counted(InsertAll([], es[..k]), es[k..], false)
  }

  lemma CountedStep(es: seq<Entry>, k: nat)
    requires Typed(es) && k < |es|
    ensures CountedFrom(es, k) == CountedFrom(es, k + 1) + Created(InsertAll([], es[..k]), PathOf(es[k].key))
  {
    InsertAllAppend([], es, k);
    assert es[k..][1..] == es[k + 1..] && es[k..][0] == es[k];
  }

  lemma OneAtLeast(es: seq<Entry>, k: nat)
    requires Typed(es) && Normal(es) && Ascending(es) && k < |es|
    ensures Created(InsertAll([], es[..k]), PathOf(es[k].key)) >= 1
  {
    CutOfFull(PathOf(es[k].key));
    NotThereBefore(es, k);
    AtLeastOneIsCreated(InsertAll([], es[..k]), PathOf(es[k].key));
  }

  /** No insertion goes by without a new node, and one that makes two shows in the sum. */
  lemma {:induction false} CountsAtLeast(es: seq<Entry>, k: nat, j: nat)
    requires Typed(es) && Normal(es) && Ascending(es) && k <= |es|
    ensures CountedFrom(es, k) >= |es| - k
    ensures k <= j < |es| && Created(InsertAll([], es[..j]), PathOf(es[j].key)) >= 2 ==> CountedFrom(es, k) > |es| - k
    decreases |es| - k
  {
    if k < |es| {
      CountsAtLeast(es, k + 1, j);
      CountedStep(es, k);
      OneAtLeast(es, k);
    }
  }

  lemma NotThroughBefore(es: seq<Entry>, k: nat, q: Path)
    requires Typed(es) && q != [] && k <= |es|
    requires forall j :: 0 <= j < k ==> !(q <= Cut(PathOf(es[j].key)))
    ensures Lookup(InsertAll([], es[..k]), q).None?
  {
    TreeOfPaths(es[..k], q);
    FirstThroughExists(es[..k], q);
    assert forall j :: 0 <= j < k ==> es[..k][j] == es[j];
  }

  /** Where an ancestor has no entry, the first path through it makes two nodes. */
  lemma MissingMakesTwo(es: seq<Entry>, i: nat, q: Path) returns (k: nat)
    requires Typed(es) && Normal(es) && Ascending(es) && i < |es|
    requires q != [] && q <= PathOf(es[i].key) && !HasEntry(es, q)
    ensures k < |es| && Created(InsertAll([], es[..k]), PathOf(es[k].key)) >= 2
  {
    CutOfFull(PathOf(es[i].key));
    FirstThroughExists(es, q);
    k := FirstThroughAt(es, q);
    CutOfFull(PathOf(es[k].key));
    NotThroughBefore(es, k, q);
    NotThereBefore(es, k);
    TwoAreCreated(InsertAll([], es[..k]), PathOf(es[k].key), q);
  }

  lemma {:induction false} KindsAreAll(es: seq<Entry>)
    requires Typed(es)
    ensures CountKinds(es, true) + CountKinds(es, false) == |es|
  {
    if es != [] {
      KindsAreAll(es[1..]);
    }
  }

  /** A directory or a link to one, by what the details say. */
  ghost predicate SaysDirectory(d: Details)
    requires HasType(d)
  {
    d["type"] == "inode/directory"
    || (d["type"] == "inode/symlink" && "symlink_target_type" in d && d["symlink_target_type"] == "dir")
  }

  /** The places of the entries that are directories, or of those that are not. */
  ghost function PlacesOf(es: seq<Entry>, dir: bool): set<int>
    requires Typed(es)
  {
    set i | 0 <= i < |es| && SaysDirectory(es[i].details) == dir
  }

  lemma PlacesAppend(es: seq<Entry>, e: Entry, dir: bool)
    requires Typed(es) && HasType(e.details)
    ensures Typed(es + [e]) && |es| !in PlacesOf(es, dir)
    ensures PlacesOf(es + [e], dir) ==
      if SaysDirectory(e.details) == dir then PlacesOf(es, dir) + {|es|} else PlacesOf(es, dir)
  {}

  lemma {:induction false} KindsAppend(es: seq<Entry>, e: Entry, dir: bool)
    requires Typed(es) && HasType(e.details)
    ensures Typed(es + [e])
    ensures CountKinds(es + [e], dir) == CountKinds(es, dir) + if SaysDirectory(e.details) == dir then 1 else 0
  {
    if es == [] {
      assert (es + [e])[1..] == [];
    } else {
      assert (es + [e])[1..] == es[1..] + [e];
      KindsAppend(es[1..], e, dir);
    }
  }

  /** The entries are counted by what their details say. */
  lemma {:induction false} KindsAreNumbers(es: seq<Entry>, dir: bool)
    requires Typed(es)
    ensures CountKinds(es, dir) == |PlacesOf(es, dir)|
  {
    if es != [] {
      var init, e := es[..|es| - 1], es[|es| - 1];
      KindsAreNumbers(init, dir);
      KindsAppend(init, e, dir);
      PlacesAppend(init, e, dir);
      assert init + [e] == es;
    }
  }

  lemma CountedInAll(es: seq<Entry>)
    requires Typed(es)
    ensures CountedFrom(es, 0) == Counted([], es, true) + Counted([], es, false)
  {
    assert es[..0] == [] && es[0..] == es;
  }

  lemma MissingShows(es: seq<Entry>)
    requires Typed(es) && Normal(es) && Ascending(es) && !AncestorsPresent(es)
    ensures CountedFrom(es, 0) > |es|
  {
    var i, k :| 0 <= i < |es| && 0 < k <= |PathOf(es[i].key)| && !HasEntry(es, PathOf(es[i].key)[..k]);
    var j := MissingMakesTwo(es, i, PathOf(es[i].key)[..k]);
    CountsAtLeast(es, 0, j);
  }

  /** The counts are those of the entries if and only if every ancestor has an entry; else they are more. */
  lemma CountsAreEntriesExactly(es: seq<Entry>)
    requires Typed(es) && Normal(es) && Ascending(es)
    ensures Counted([], es, true) + Counted([], es, false) == |es| <==> AncestorsPresent(es)
    ensures Counted([], es, true) == CountKinds(es, true) && Counted([], es, false) == CountKinds(es, false)
       <==> AncestorsPresent(es)
  {
    KindsAreAll(es);
    CountedInAll(es);
    if AncestorsPresent(es) {
      CountsAreEntries(es, true);
      CountsAreEntries(es, false);
    } else {
      MissingShows(es);
    }
  }

  /** Without its ancestor's entry a file's details stand for the folder, which then counts as a second file. */
  lemma MissingAncestor(es: seq<Entry>, d: Details)
    requires HasType(d) && KindOf(d) == File && es == [Entry("/a/b", d)]
    ensures Typed(es) && Normal(es) && Ascending(es) && !EveryNodeHoldsOwn(es, InsertAll([], es))
    ensures Lookup(InsertAll([], es), ["a"]) == Some((File, d))
    ensures Counted([], es, true) == 0 && Counted([], es, false) == 2
  {
    SplitOfTwo();
    TwoNodes();
    assert es[1..] == [];
    assert PathOf(es[0].key) == ["a", "b"];
    assert ["a", "b"][1..] == ["b"];
    assert Splitting.Join(["a", "b"], '/') == "a" + ['/'] + "b";
    OwnEntriesExactly(es);
    assert PathOf(es[0].key)[..1] == ["a"];
    assert !HasEntry(es, ["a"]);
    TreeOfPaths(es, ["a"]);
    CutOfFull(["a", "b"]);
  }

  lemma TwoNodes()
    ensures Created([], ["a", "b"]) == 2
  {
    assert ["a", "b"][1..] == ["b"];
    assert Created([], ["b"]) == 1 by { assert ["b"][1..] == []; }
  }

  lemma SplitOfTwo()
    ensures PathOf("/a/b") == ["a", "b"]
  {
    assert TrimStart("/a/b") == "a/b";
    assert TrimEnd("a/b") == "a/b";
    Splitting.SplitAtFirst("a", "b", '/');
    Splitting.SplitWithoutSeparator("b", '/');
    assert "a" + ['/'] + "b" == "a/b";
  }
}
