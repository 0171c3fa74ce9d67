/** The tree that is built from a flat map of paths, one insertion after another. */
module FileTree {
  import opened Wrappers
  import Splitting

  type Details = map<string, string>
  type Path = seq<string>

  datatype Kind = File | Directory | Symlink

  datatype Node = Node(name: string, kind: Kind, details: Details, sub: seq<Node>)

  const TYPE := "type"
  const TARGET_TYPE := "symlink_target_type"

  /** What the source looks up without asking whether it is there. */
  predicate HasType(d: Details) {
    TYPE in d && (d[TYPE] == "inode/symlink" ==> TARGET_TYPE in d)
  }

  function KindOf(d: Details): Kind
    requires HasType(d)
  {
    if d[TYPE] == "inode/directory" then Directory
    else if d[TYPE] == "inode/symlink" then Symlink
    else File
  }

  /** The kind of an entry, by what its details say. */
  lemma KindByType(d: Details)
    requires HasType(d)
    ensures KindOf(d) == Directory <==> d["type"] == "inode/directory"
    ensures KindOf(d) == Symlink <==> d["type"] == "inode/symlink"
  {}

  /** Directories and links to directories are counted as directories, all else as files. */
  predicate CountsAsDir(d: Details)
    requires HasType(d)
  {
    d[TYPE] == "inode/directory" || (d[TYPE] == "inode/symlink" && d[TARGET_TYPE] == "dir")
  }

  function NewNode(name: string, d: Details): Node
    requires HasType(d)
  {
    Node(name, KindOf(d), d, [])
  }

  /** The place of the first child with a name, or the number of children if there is none. */
  function Index(sub: seq<Node>, name: string): (i: nat)
    ensures i <= |sub| && (i < |sub| ==> sub[i].name == name)
    ensures forall j :: 0 <= j < i ==> sub[j].name != name
  {
    if sub == [] || sub[0].name == name then 0 else 1 + Index(sub[1..], name)
  }

  /** The children after a path is inserted below them. */
  function Insert(sub: seq<Node>, parts: Path, d: Details): seq<Node>
    requires HasType(d)
    decreases parts
  {
    if parts == [] || parts[0] == [] then sub
    else
      var i := Index(sub, parts[0]);
      if i < |sub| then sub[i := sub[i].(sub := Insert(sub[i].sub, parts[1..], d))]
      else sub + [NewNode(parts[0], d).(sub := Insert([], parts[1..], d))]
  }

  /** How many nodes that insertion makes. */
  function Created(sub: seq<Node>, parts: Path): nat
    decreases parts
  {
    if parts == [] || parts[0] == [] then 0
    else
      var i := Index(sub, parts[0]);
      if i < |sub| then Created(sub[i].sub, parts[1..]) else 1 + Created([], parts[1..])
  }

  // Notions that do not mention insertion

  /** The path up to its first empty component. */
  function Cut(parts: Path): Path {
    if parts == [] || parts[0] == [] then [] else [parts[0]] + Cut(parts[1..])
  }

  /** There is a chain of nodes with these names below the root. */
  ghost predicate IsPath(sub: seq<Node>, p: Path)
    decreases p
  {
    p == [] || exists i :: 0 <= i < |sub| && sub[i].name == p[0] && IsPath(sub[i].sub, p[1..])
  }

  /** What is stored with the node that a non-empty path leads to. */
  function Lookup(sub: seq<Node>, p: Path): Option<(Kind, Details)>
    decreases p
  {
    if p == [] || Index(sub, p[0]) == |sub| then None
    else
      var n := sub[Index(sub, p[0])];
      if |p| == 1 then Some((n.kind, n.details)) else Lookup(n.sub, p[1..])
  }

  /** No two siblings have the same name, anywhere. */
  ghost predicate Unique(sub: seq<Node>) {
    && (forall i, j :: 0 <= i < j < |sub| ==> sub[i].name != sub[j].name)
    && forall i :: 0 <= i < |sub| ==> Unique(sub[i].sub)
  }

  function Size(sub: seq<Node>): nat {
    if sub == [] then 0 else 1 + Size(sub[0].sub) + Size(sub[1..])
  }

  // One insertion

  /** Nodes that are there keep what they hold; the missing ones on the way take the inserted entry's. */
  lemma {:induction false} LookupAfterInsert(sub: seq<Node>, parts: Path, d: Details, q: Path)
    requires HasType(d)
    ensures Lookup(Insert(sub, parts, d), q) ==
      if Lookup(sub, q).Some? then Lookup(sub, q)
      else if q != [] && q <= Cut(parts) then Some((KindOf(d), d))
      else None
    decreases parts
  {
    if parts != [] && parts[0] != [] && q != [] {
      var i := Index(sub, parts[0]);
      var after := Insert(sub, parts, d);
      IndexAfterInsert(sub, parts, d, q[0]);
      PrefixStep(q, parts);
      if q[0] == parts[0] {
        LookupAfterInsert(if i < |sub| then sub[i].sub else [], parts[1..], d, q[1..]);
      }
    }
  }

  lemma PrefixStep(q: Path, parts: Path)
    requires q != [] && parts != [] && parts[0] != []
    ensures q <= Cut(parts) <==> q[0] == parts[0] && q[1..] <= Cut(parts[1..])
  {
    var c := Cut(parts);
    assert c[1..] == Cut(parts[1..]);
    if q[0] == parts[0] && q[1..] <= c[1..] {
      assert forall k :: 0 < k < |q| ==> q[k] == q[1..][k - 1] && c[k] == c[1..][k - 1];
    }
  }

  lemma IndexIs(sub: seq<Node>, name: string, i: nat)
    requires i <= |sub| && (i < |sub| ==> sub[i].name == name)
    requires forall j :: 0 <= j < i ==> sub[j].name != name
    ensures Index(sub, name) == i
  {}

  /** Insertion keeps what the children hold and adds at most one, at the end. */
  lemma ChildrenAfterInsert(sub: seq<Node>, parts: Path, d: Details, j: nat)
    requires HasType(d) && parts != [] && parts[0] != [] && j < |sub|
    ensures var after := Insert(sub, parts, d);
      && |after| == (if Index(sub, parts[0]) < |sub| then |sub| else |sub| + 1)
      && after[j].name == sub[j].name && after[j].kind == sub[j].kind && after[j].details == sub[j].details
      && (j != Index(sub, parts[0]) ==> after[j] == sub[j])
  {}

  lemma IndexAfterInsert(sub: seq<Node>, parts: Path, d: Details, name: string)
    requires HasType(d) && parts != [] && parts[0] != []
    ensures var after := Insert(sub, parts, d);
            var i := Index(sub, name);
      && (i < |sub| ==> Index(after, name) == i && i < |after| && after[i].kind == sub[i].kind
                        && after[i].details == sub[i].details)
      && (i < |sub| && name != parts[0] ==> after[i] == sub[i])
      && (i == |sub| && name == parts[0] ==> Index(after, name) == |sub| < |after|)
      && (i == |sub| && name != parts[0] ==> Index(after, name) == |after|)
  {
    var after := Insert(sub, parts, d);
    var i := Index(sub, name);
    forall j | 0 <= j < |sub|
      ensures j < |after| && after[j].name == sub[j].name
    {
      ChildrenAfterInsert(sub, parts, d, j);
    }
    if i < |sub| {
      ChildrenAfterInsert(sub, parts, d, i);
      IndexIs(after, name, i);
    } else if name == parts[0] {
      IndexIs(after, name, |sub|);
    } else {
      IndexIs(after, name, |after|);
    }
  }

  lemma {:induction false} UniqueAfterInsert(sub: seq<Node>, parts: Path, d: Details)
    requires HasType(d) && Unique(sub)
    ensures Unique(Insert(sub, parts, d))
    decreases parts
  {
    if parts != [] && parts[0] != [] {
      var i := Index(sub, parts[0]);
      UniqueAfterInsert(if i < |sub| then sub[i].sub else [], parts[1..], d);
      var after := Insert(sub, parts, d);
      assert forall j :: 0 <= j < |sub| ==> after[j].name == sub[j].name;
      assert forall j :: 0 <= j < |sub| && j != i ==> after[j] == sub[j];
    }
  }

  lemma {:induction false} SizeOfUpdate(sub: seq<Node>, i: nat, n: Node)
    requires i < |sub|
    ensures Size(sub[i := n]) + Size(sub[i].sub) == Size(sub) + Size(n.sub)
  {
    if i > 0 {
      SizeOfUpdate(sub[1..], i - 1, n);
      assert sub[i := n][1..] == sub[1..][i - 1 := n];
    } else {
      assert sub[0 := n][1..] == sub[1..];
    }
  }

  lemma {:induction false} SizeOfAppend(sub: seq<Node>, n: Node)
    ensures Size(sub + [n]) == Size(sub) + 1 + Size(n.sub)
  {
    if sub != [] {
      SizeOfAppend(sub[1..], n);
      assert (sub + [n])[1..] == sub[1..] + [n];
    } else {
      assert (sub + [n])[1..] == [];
    }
  }

  lemma {:induction false} SizeAfterInsert(sub: seq<Node>, parts: Path, d: Details)
    requires HasType(d)
    ensures Size(Insert(sub, parts, d)) == Size(sub) + Created(sub, parts)
    decreases parts
  {
    if parts != [] && parts[0] != [] {
      var i := Index(sub, parts[0]);
      if i < |sub| {
        SizeAfterInsert(sub[i].sub, parts[1..], d);
        SizeOfUpdate(sub, i, sub[i].(sub := Insert(sub[i].sub, parts[1..], d)));
      } else {
        SizeAfterInsert([], parts[1..], d);
        SizeOfAppend(sub, NewNode(parts[0], d).(sub := Insert([], parts[1..], d)));
      }
    }
  }

  /** With unique siblings the chains of names are exactly what can be looked up. */
  lemma {:induction false} PathsAreLookups(sub: seq<Node>, p: Path)
    requires Unique(sub) && p != []
    ensures IsPath(sub, p) <==> Lookup(sub, p).Some?
    decreases p
  {
    var i := Index(sub, p[0]);
    if i < |sub| {
      if |p| > 1 {
        PathsAreLookups(sub[i].sub, p[1..]);
      }
      assert forall j :: 0 <= j < |sub| && sub[j].name == p[0] ==> j == i;
    }
  }

  /** A path whose parent is there and which is not there itself takes one new node. */
  lemma {:induction false} OneIsCreated(sub: seq<Node>, parts: Path)
    requires parts != [] && Cut(parts) == parts
    requires |parts| > 1 ==> Lookup(sub, parts[..|parts| - 1]).Some?
    requires Lookup(sub, parts).None?
    ensures Created(sub, parts) == 1
    decreases parts
  {
    var i := Index(sub, parts[0]);
    assert parts[1..] == Cut(parts)[1..] == Cut(parts[1..]);
    if |parts| > 1 {
      assert parts[..|parts| - 1][0] == parts[0];
      assert parts[..|parts| - 1][1..] == parts[1..][..|parts[1..]| - 1];
      OneIsCreated(sub[i].sub, parts[1..]);
    }
  }

  lemma {:induction false} AtLeastOneIsCreated(sub: seq<Node>, parts: Path)
    requires parts != [] && Cut(parts) == parts && Lookup(sub, parts).None?
    ensures Created(sub, parts) >= 1
    decreases parts
  {
    var i := Index(sub, parts[0]);
    assert parts[1..] == Cut(parts)[1..] == Cut(parts[1..]);
    if i < |sub| {
      AtLeastOneIsCreated(sub[i].sub, parts[1..]);
    }
  }

  /** A path takes two new nodes or more if one of its ancestors is missing too. */
  lemma {:induction false} TwoAreCreated(sub: seq<Node>, parts: Path, q: Path)
    requires q != [] && q < parts && Cut(parts) == parts
    requires Lookup(sub, q).None? && Lookup(sub, parts).None?
    ensures Created(sub, parts) >= 2
    decreases parts
  {
    var i := Index(sub, parts[0]);
    assert q[0] == parts[0];
    assert parts[1..] == Cut(parts)[1..] == Cut(parts[1..]);
    if i < |sub| {
      assert q[1..] < parts[1..];
      TwoAreCreated(sub[i].sub, parts[1..], q[1..]);
    } else {
      AtLeastOneIsCreated([], parts[1..]);
    }
  }

  // Whole maps

  datatype Entry = Entry(key: string, details: Details)

  function TrimStart(s: string): string {
    if s != [] && s[0] == '/' then TrimStart(s[1..]) else s
  }

  function TrimEnd(s: string): string {
    if s != [] && s[|s| - 1] == '/' then TrimEnd(s[..|s| - 1]) else s
  }

  function PathOf(key: string): Path {
    Splitting.Split(TrimEnd(TrimStart(key)), '/')
  }

  ghost predicate Slashes(s: string) {
    forall i :: 0 <= i < |s| ==> s[i] == '/'
  }

  lemma {:induction false} TrimmedStart(lead: string, s: string)
    requires Slashes(lead) && (s != [] ==> s[0] != '/')
    ensures TrimStart(lead + s) == s
  {
    if lead == [] {
      assert lead + s == s;
    } else {
      assert (lead + s)[1..] == lead[1..] + s;
      TrimmedStart(lead[1..], s);
    }
  }

  lemma {:induction false} TrimmedEnd(s: string, tail: string)
    requires Slashes(tail) && (s != [] ==> s[|s| - 1] != '/')
    ensures TrimEnd(s + tail) == s
  {
    if tail == [] {
      assert s + tail == s;
    } else {
      assert (s + tail)[..|s + tail| - 1] == s + tail[..|tail| - 1];
      TrimmedEnd(s, tail[..|tail| - 1]);
    }
  }

  lemma {:induction false} EndsOfJoin(parts: Path)
    requires parts != [] && Splitting.Free(parts, '/') && parts[0] != [] && parts[|parts| - 1] != []
    ensures var s := Splitting.Join(parts, '/');
      s != [] && s[0] != '/' && s[|s| - 1] != '/'
  {
    var rest := parts[1..];
    if |parts| == 2 {
      assert Splitting.Join(rest, '/') == parts[1];
    } else if |parts| > 2 {
      LastOfJoin(rest);
    }
  }

  lemma {:induction false} LastOfJoin(parts: Path)
    requires parts != [] && Splitting.Free(parts, '/') && parts[|parts| - 1] != []
    ensures var s := Splitting.Join(parts, '/');
      s != [] && s[|s| - 1] != '/'
  {
    if |parts| > 1 {
      LastOfJoin(parts[1..]);
    }
  }

  lemma Trimmed(lead: string, s: string, tail: string)
    requires Slashes(lead) && Slashes(tail) && s != [] && s[0] != '/' && s[|s| - 1] != '/'
    ensures PathOf(lead + s + tail) == Splitting.Split(s, '/')
  {
    assert lead + s + tail == lead + (s + tail);
    TrimmedStart(lead, s + tail);
    TrimmedEnd(s, tail);
  }

  /** The path of a key is what its slashes separate, without those before it and after it. */
  lemma PathOfKey(lead: string, parts: Path, tail: string)
    requires Slashes(lead) && Slashes(tail)
    requires parts != [] && Splitting.Free(parts, '/') && parts[0] != [] && parts[|parts| - 1] != []
    ensures PathOf(lead + Splitting.Join(parts, '/') + tail) == parts
  {
    EndsOfJoin(parts);
    Trimmed(lead, Splitting.Join(parts, '/'), tail);
    Splitting.SplitJoin(parts, '/');
  }

  ghost predicate Typed(es: seq<Entry>) {
    forall i :: 0 <= i < |es| ==> HasType(es[i].details)
  }

  function InsertAll(sub: seq<Node>, es: seq<Entry>): seq<Node>
    requires Typed(es)
    decreases es
  {
    if es == [] then sub else InsertAll(Insert(sub, PathOf(es[0].key), es[0].details), es[1..])
  }

  /** The first entry whose path goes through `q`. */
  function FirstThrough(es: seq<Entry>, q: Path): Option<Entry> {
    if es == [] then None
    else if q <= Cut(PathOf(es[0].key)) then Some(es[0])
    else FirstThrough(es[1..], q)
  }

  function Stored(e: Option<Entry>): Option<(Kind, Details)>
    requires e.Some? ==> HasType(e.value.details)
  {
    match e
    case Some(x) => Some((KindOf(x.details), x.details))
    case None => None
  }

  lemma {:induction false} FirstThroughIsTyped(es: seq<Entry>, q: Path)
    requires Typed(es)
    ensures FirstThrough(es, q).Some? ==> HasType(FirstThrough(es, q).value.details)
  {
    if es != [] {
      FirstThroughIsTyped(es[1..], q);
    }
  }

  lemma {:induction false} LookupAfterAll(sub: seq<Node>, es: seq<Entry>, q: Path)
    requires Typed(es) && q != []
    ensures FirstThrough(es, q).Some? ==> HasType(FirstThrough(es, q).value.details)
    ensures Lookup(InsertAll(sub, es), q) == if Lookup(sub, q).Some? then Lookup(sub, q) else Stored(FirstThrough(es, q))
    decreases es
  {
    FirstThroughIsTyped(es, q);
    if es != [] {
      LookupAfterInsert(sub, PathOf(es[0].key), es[0].details, q);
      LookupAfterAll(Insert(sub, PathOf(es[0].key), es[0].details), es[1..], q);
    }
  }

  lemma {:induction false} UniqueAfterAll(sub: seq<Node>, es: seq<Entry>)
    requires Typed(es) && Unique(sub)
    ensures Unique(InsertAll(sub, es))
    decreases es
  {
    if es != [] {
      UniqueAfterInsert(sub, PathOf(es[0].key), es[0].details);
      UniqueAfterAll(Insert(sub, PathOf(es[0].key), es[0].details), es[1..]);
    }
  }

  lemma {:induction false} FirstThroughExists(es: seq<Entry>, q: Path)
    ensures FirstThrough(es, q).Some? <==> exists i :: 0 <= i < |es| && q <= Cut(PathOf(es[i].key))
  {
    if es != [] {
      FirstThroughExists(es[1..], q);
      if i :| 0 <= i < |es| && q <= Cut(PathOf(es[i].key)) {
        assert i > 0 ==> es[1..][i - 1] == es[i];
      }
      if i :| 0 <= i < |es[1..]| && q <= Cut(PathOf(es[1..][i].key)) {
        assert es[i + 1] == es[1..][i];
      }
    }
  }

  /**
   * The chains of names below the root are exactly the non-empty prefixes of the inserted paths, each
   * cut at its first empty component; siblings have different names; and each node holds what belongs
   * to the first inserted path that goes through it.
   */
  lemma TreeOfPaths(es: seq<Entry>, q: Path)
    requires Typed(es) && q != []
    ensures var tree := InsertAll([], es);
      && Unique(tree)
      && (IsPath(tree, q) <==> exists i :: 0 <= i < |es| && q <= Cut(PathOf(es[i].key)))
      && (FirstThrough(es, q).Some? ==> HasType(FirstThrough(es, q).value.details))
      && Lookup(tree, q) == Stored(FirstThrough(es, q))
  {
    UniqueAfterAll([], es);
    LookupAfterAll([], es, q);
    PathsAreLookups(InsertAll([], es), q);
    FirstThroughExists(es, q);
  }
}
