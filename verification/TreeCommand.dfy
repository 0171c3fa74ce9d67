/** The tree command: a loop over the path map that inserts each path with running counts. */
module TreeCommand {
  import opened FileTree
  import opened OwnEntries

  method FindChild(sub: seq<Node>, name: string) returns (i: nat)
    ensures i == Index(sub, name)
  {
    i := 0;
    while i < |sub| && sub[i].name != name
      invariant i <= |sub| && Index(sub, name) == i + Index(sub[i..], name)
    {
      assert sub[i..][1..] == sub[i + 1..];
      i := i + 1;
    }
  }

  /** Expands the tree below a node by one path; the nodes it makes are counted. */
  method BuildTree(node: Node, parts: Path, details: Details, depth: nat)
    returns (built: Node, dirs: nat, files: nat)
    requires HasType(details) && depth <= |parts|
    ensures built == node.(sub := Insert(node.sub, parts[depth..], details))
    ensures var made := Created(node.sub, parts[depth..]);
            if CountsAsDir(details) then dirs == made && files == 0 else dirs == 0 && files == made
    decreases |parts| - depth
  {
    built, dirs, files := node, 0, 0;
    if depth < |parts| {
      var item := parts[depth];
      if item == [] {
        return;
      }
      assert parts[depth..][0] == item && parts[depth..][1..] == parts[depth + 1..];
      var i := FindChild(node.sub, item);
      var sub := node.sub;
      if i == |sub| {
        match details[TYPE] {
          case "inode/directory" => dirs := 1;
          case "inode/symlink" =>
            if details[TARGET_TYPE] == "dir" {
              dirs := 1;
            } else {
              files := 1;
            }
          case _ => files := 1;
        }
        sub := sub + [NewNode(item, details)];
      }
      var child, di, fi := BuildTree(sub[i], parts, details, depth + 1);
      built := node.(sub := sub[i := child]);
      assert i == |node.sub| ==> built.sub == node.sub + [child];
      dirs := dirs + di;
      files := files + fi;
    }
  }

  lemma {:induction false} CountedAppend(sub: seq<Node>, es: seq<Entry>, k: nat, dir: bool)
    requires Typed(es) && k < |es|
    ensures Counted(sub, es[..k + 1], dir) == Counted(sub, es[..k], dir)
      + if CountsAsDir(es[k].details) == dir then Created(InsertAll(sub, es[..k]), PathOf(es[k].key)) else 0
    decreases k
  {
    if k > 0 {
      assert es[..k + 1][1..] == es[1..][..k] && es[..k][1..] == es[1..][..k - 1];
      CountedAppend(Insert(sub, PathOf(es[0].key), es[0].details), es[1..], k - 1, dir);
    } else {
      assert es[..1][1..] == [];
    }
  }

  /** The whole tree with its counts, for the entries in the order in which the map is visited. */
  method ProcessTree(url: string, es: seq<Entry>) returns (top: Node, dirs: nat, files: nat)
    requires Typed(es)
    ensures top.sub == InsertAll([], es)
    ensures Unique(top.sub) && dirs + files == Size(top.sub)
    ensures Normal(es) && Ascending(es) && AncestorsPresent(es) ==>
      EveryNodeHoldsOwn(es, top.sub) && dirs == |PlacesOf(es, true)| && files == |PlacesOf(es, false)|
  {
    top, dirs, files := Node(url, Directory, map[], []), 0, 0;
    for k := 0 to |es|
      invariant top.sub == InsertAll([], es[..k])
      invariant dirs == Counted([], es[..k], true) && files == Counted([], es[..k], false)
    {
      var parts := PathOf(es[k].key);
      var built, d, f := BuildTree(top, parts, es[k].details, 0);
      assert parts[0..] == parts;
      InsertAllAppend([], es, k);
      CountedAppend([], es, k, true);
      CountedAppend([], es, k, false);
      top, dirs, files := built, dirs + d, files + f;
    }
    assert es[..|es|] == es;
    UniqueAfterAll([], es);
    CountsAreNodes([], es);
    if Normal(es) && Ascending(es) && AncestorsPresent(es) {
      OwnEntriesExactly(es);
      CountsAreEntries(es, true);
      CountsAreEntries(es, false);
      KindsAreNumbers(es, true);
      KindsAreNumbers(es, false);
    }
  }
}
