/** What the files of the directory and the entries of the settings hold after each operation. */
module ContactFiles {
  import opened Wrappers
  import opened Reconciling
  import opened Reconciled
  import opened SyncForecast

  /** The contacts that the path or the URL of a network gives. */
  ghost predicate Gives(w: World, dir: Directory, info: NetworkInfo, tree: Tree) {
    match info
    case Remote(url, _) => w.isUrl(url) && w.remote(url) == Some(tree)
    case Local(Elsewhere(path), _) => w.elsewhere(path) == Some(tree)
    case Local(InDir(file), _) => file in dir && dir[file] == Contacts(tree)
  }

  // Adding, removing and switching

  /** Adding writes all contacts to the file of their key, stores the network with the key, and touches nothing else. */
  lemma AddExactly(w: World, s: State, name: Name, info: NetworkInfo)
    ensures forall tree :: Gives(w, s.dir, info, tree) ==>
      Add(w, s, name, info) == Outcome(State(s.networks[name := info.(key := Some(tree.genesis))],
                                             s.dir[w.format(tree.genesis) := Contacts(tree)]), true)
    ensures (forall tree :: !Gives(w, s.dir, info, tree)) ==> Add(w, s, name, info) == Outcome(s, false)
  {
    if !BadUrl(w, info) && Retrieve(w, s.dir, info).Some? {
      assert Gives(w, s.dir, info, Retrieve(w, s.dir, info).value);
    }
  }

  /** The file that goes with a network: that of its key, if it has one. */
  ghost predicate GoesWith(w: World, s: State, name: Name, file: Name) {
    name in s.networks && s.networks[name].key.Some? && file == w.format(s.networks[name].key.value)
  }

  /** Removing takes the network, the file of its key and the default file, and leaves all else as it was. */
  lemma RemoveExactly(w: World, s: State, name: Name)
    ensures var t := Remove(w, s, name).state;
      && (forall n :: n in t.networks <==> n in s.networks && n != name)
      && (forall n <- t.networks :: t.networks[n] == s.networks[n])
      && (forall f :: f in t.dir <==> f in s.dir && f != "default" && !GoesWith(w, s, name, f))
      && (forall f <- t.dir :: t.dir[f] == s.dir[f])
  {}

  /** The default contacts belong under this name. */
  ghost predicate IsSavedAs(w: World, dir: Directory, tree: Tree, file: Name) {
    "default" in dir && dir["default"] == Contacts(tree) && file == w.format(tree.genesis)
  }

  /**
   * The default contacts are kept under their own name and all other files as they were, and the default file
   * holds what the file of the network holds; without that file there is no default file.
   */
  ghost predicate Switched(w: World, before: Directory, file: Name, after: Directory, ok: bool) {
    && (ok <==> file in before || exists tree :: IsSavedAs(w, before, tree, file))
    && (ok <==> "default" in after)
    && (ok ==> file in after && after["default"] == after[file])
    && (forall tree, f :: IsSavedAs(w, before, tree, f) ==> f in after && after[f] == Contacts(tree))
    && (forall f :: f != "default" && (forall tree :: !IsSavedAs(w, before, tree, f)) ==>
          (f in after <==> f in before) && (f in after ==> after[f] == before[f]))
  }

  lemma SwitchExactly(w: World, s: State, name: Name, file: Name)
    requires w.Valid() && GoesWith(w, s, name, file)
    ensures var o := SwitchTo(w, s, name);
      o.state.networks == s.networks && Switched(w, s.dir, file, o.state.dir, o.ok)
  {
    var d := s.dir;
    if "default" in d && d["default"].Contacts? {
      var tree := d["default"].tree;
      assert IsSavedAs(w, d, tree, w.format(tree.genesis));
      assert SaveDefault(w, d) == d[w.format(tree.genesis) := Contacts(tree)];
    } else {
      assert SaveDefault(w, d) == d;
    }
  }

  // Sync: files

  /** The contacts that a sync brings into the directory for a network, from a URL, another file or the default one. */
  function Brought(w: World, s: State, n: Name): Option<Tree>
    requires n in s.networks
  {
    var info := s.networks[n];
    if HasFile(w, s.dir, info) then None
    else
      match info
      case Remote(url, _) => w.remote(url)
      case Local(Elsewhere(path), _) => w.elsewhere(path)
      case Local(InDir(file), _) =>
        if file == "default" && file in s.dir && s.dir[file].Contacts? then Some(s.dir[file].tree) else None
  }

  predicate WritesTo(w: World, s: State, n: Name, file: Name)
    requires n in s.networks
  {
    Brought(w, s, n).Some? && w.format(Brought(w, s, n).value.genesis) == file
  }

  /** What a file holds after the first `k` networks: the last contacts written to it, or what it held before. */
  function FileAfter(w: World, s: State, names: seq<Name>, k: nat, file: Name): Option<File>
    requires k <= |names| && forall n <- names :: n in s.networks
  {
    if k == 0 then
      if file in s.dir then Some(s.dir[file]) else None
    else if WritesTo(w, s, names[k - 1], file) then Some(Contacts(Brought(w, s, names[k - 1]).value))
    else FileAfter(w, s, names, k - 1, file)
  }

  ghost predicate HoldsFiles(w: World, s: State, names: seq<Name>, k: nat, dir: Directory)
    requires k <= |names| && forall n <- names :: n in s.networks
  {
    forall f :: (if f in dir then Some(dir[f]) else None) == FileAfter(w, s, names, k, f)
  }

  /** What one visit writes is what it brings; reading a file of the directory and writing it back changes nothing. */
  lemma VisitWrites(w: World, s: State, names: seq<Name>, k: nat, p: Pass)
    requires w.Valid() && DirNamed(w, s.dir) && k < |names| && forall n <- names :: n in s.networks
    requires names[k] in p.networks && p.networks[names[k]] == s.networks[names[k]]
    requires DirInv(w, s, names, k, p.dir) && Visit(w, FileNames(s.dir), p, names[k]).ok
    ensures var b := Brought(w, s, names[k]);
      Visit(w, FileNames(s.dir), p, names[k]).dir ==
        if b.Some? then p.dir[w.format(b.value.genesis) := Contacts(b.value)] else p.dir
  {
    var info := s.networks[names[k]];
    if !Claims(w, FileNames(s.dir), info) && info.Local? && info.path.InDir? {
      var f := info.path.file;
      if f == DEFAULT {
        NeverDefault(w, s, names, k);
      } else if f in p.dir {
        assert f in FileNames(p.dir);
        assert p.dir[f := p.dir[f]] == p.dir;
      }
    }
  }

  lemma FilesStep(w: World, s: State, names: seq<Name>, k: nat, p: Pass)
    requires w.Valid() && DirNamed(w, s.dir) && k < |names| && forall n <- names :: n in s.networks
    requires names[k] in p.networks && p.networks[names[k]] == s.networks[names[k]]
    requires DirInv(w, s, names, k, p.dir) && Visit(w, FileNames(s.dir), p, names[k]).ok
    requires HoldsFiles(w, s, names, k, p.dir)
    ensures HoldsFiles(w, s, names, k + 1, Visit(w, FileNames(s.dir), p, names[k]).dir)
  {
    VisitWrites(w, s, names, k, p);
  }

  /** Two passes, one visit apart. */
  ghost predicate NextTo(w: World, s: State, names: seq<Name>, k: nat, p: Pass, q: Pass) {
    && Enumerates(names, s.networks.Keys) && k < |names| && FirstPassOf(w, s, names).ok
    && p == PassAfter(w, s, names, k) && q == PassAfter(w, s, names, k + 1)
  }

  lemma PassAt(w: World, s: State, names: seq<Name>, k: nat, p: Pass, q: Pass)
    requires w.Valid() && DirNamed(w, s.dir) && NextTo(w, s, names, k, p, q)
    ensures names[k] in p.networks && p.networks[names[k]] == s.networks[names[k]]
    ensures DirInv(w, s, names, k, p.dir) && q == Visit(w, FileNames(s.dir), p, names[k]) && q.ok
  {
    PassAfterStep(w, s, names, k, p, q);
    PassInv(w, s, names, k, p);
  }

  lemma FilesNext(w: World, s: State, names: seq<Name>, k: nat, p: Pass, q: Pass)
    requires w.Valid() && DirNamed(w, s.dir) && NextTo(w, s, names, k, p, q)
    requires HoldsFiles(w, s, names, k, p.dir)
    ensures HoldsFiles(w, s, names, k + 1, q.dir)
  {
    PassAt(w, s, names, k, p, q);
    FilesStep(w, s, names, k, p);
  }

  lemma FilesAtStart(w: World, s: State, names: seq<Name>)
    requires Enumerates(names, s.networks.Keys)
    ensures HoldsFiles(w, s, names, 0, PassAfter(w, s, names, 0).dir)
  {
    assert names[..0] == [];
  }

  lemma {:induction false} FilesInPass(w: World, s: State, names: seq<Name>, k: nat, p: Pass)
    requires w.Valid() && DirNamed(w, s.dir) && Enumerates(names, s.networks.Keys) && k <= |names|
    requires FirstPassOf(w, s, names).ok && p == PassAfter(w, s, names, k)
    ensures HoldsFiles(w, s, names, k, p.dir)
    decreases k
  {
    if k == 0 {
      FilesAtStart(w, s, names);
    } else {
      var before := PassAfter(w, s, names, k - 1);
      FilesInPass(w, s, names, k - 1, before);
      FilesNext(w, s, names, k - 1, before, p);
    }
  }

  lemma {:induction false} LastWriterWins(w: World, s: State, names: seq<Name>, k: nat, file: Name, j: nat)
    requires k <= |names| && forall n <- names :: n in s.networks
    ensures j < k && WritesTo(w, s, names[j], file) && (forall i :: j < i < k ==> !WritesTo(w, s, names[i], file)) ==>
      FileAfter(w, s, names, k, file) == Some(Contacts(Brought(w, s, names[j]).value))
    ensures (forall i :: 0 <= i < k ==> !WritesTo(w, s, names[i], file)) ==>
      FileAfter(w, s, names, k, file) == if file in s.dir then Some(s.dir[file]) else None
    decreases k
  {
    if k > 0 {
      LastWriterWins(w, s, names, k - 1, file, j);
    }
  }

  ghost predicate IsLastWriter(w: World, s: State, names: seq<Name>, j: int, file: Name)
    requires forall n <- names :: n in s.networks
  {
    && 0 <= j < |names| && WritesTo(w, s, names[j], file)
    && forall i :: j < i < |names| ==> !WritesTo(w, s, names[i], file)
  }

  /**
   * A file that contacts were brought for holds the last of them, whole, and every other file is there if and
   * only if it was, and as it was.
   */
  ghost predicate FilesHoldLast(w: World, s: State, names: seq<Name>, dir: Directory)
    requires forall n <- names :: n in s.networks
  {
    && (forall j, f :: IsLastWriter(w, s, names, j, f) ==>
          f in dir && dir[f] == Contacts(Brought(w, s, names[j]).value))
    && (forall f :: (forall n <- names :: !WritesTo(w, s, n, f)) ==>
          (f in dir <==> f in s.dir) && (f in dir ==> dir[f] == s.dir[f]))
  }

  lemma SyncFilesExactly(w: World, s: State, names: seq<Name>, files: seq<Name>)
    requires w.Valid() && DirNamed(w, s.dir) && Enumerates(names, s.networks.Keys) && Sync(w, s, names, files).ok
    ensures FilesHoldLast(w, s, names, Sync(w, s, names, files).state.dir)
  {
    assert names[..|names|] == names;
    FilesInPass(w, s, names, |names|, PassAfter(w, s, names, |names|));
    var dir := Sync(w, s, names, files).state.dir;
    forall j, f | IsLastWriter(w, s, names, j, f)
      ensures f in dir && dir[f] == Contacts(Brought(w, s, names[j]).value)
    {
      LastWriterWins(w, s, names, |names|, f, j);
    }
    forall f | forall n <- names :: !WritesTo(w, s, n, f)
      ensures (f in dir <==> f in s.dir) && (f in dir ==> dir[f] == s.dir[f])
    {
      LastWriterWins(w, s, names, |names|, f, 0);
    }
  }

  // Sync: settings

  ghost predicate SameSource(a: NetworkInfo, b: NetworkInfo) {
    a == b.(key := a.key)
  }

  /** What a visit leaves of its own network. */
  lemma VisitKeepsSource(w: World, s: State, p: Pass, name: Name)
    requires name in s.networks && name in p.networks && p.networks[name] == s.networks[name]
    requires DEFAULT in s.dir ==> DEFAULT in p.dir && p.dir[DEFAULT] == s.dir[DEFAULT]
    requires Visit(w, FileNames(s.dir), p, name).ok
    ensures var q := Visit(w, FileNames(s.dir), p, name);
      && SameSource(q.networks[name], s.networks[name])
      && (Claims(w, FileNames(s.dir), s.networks[name]) ==> q.networks[name] == s.networks[name])
      && (Brought(w, s, name).Some? ==> q.networks[name].key == Some(Brought(w, s, name).value.genesis))
  {}

  ghost predicate SourcesKept(w: World, s: State, names: seq<Name>, k: nat, p: Pass)
    requires k <= |names| && forall n <- names :: n in s.networks
  {
    && p.networks.Keys == s.networks.Keys
    && (forall i :: 0 <= i < |names| ==> SameSource(p.networks[names[i]], s.networks[names[i]]))
    && (forall i :: 0 <= i < |names| && (i >= k || Claims(w, FileNames(s.dir), s.networks[names[i]])) ==>
          p.networks[names[i]] == s.networks[names[i]])
    && (forall i :: 0 <= i < k && Brought(w, s, names[i]).Some? ==>
          p.networks[names[i]].key == Some(Brought(w, s, names[i]).value.genesis))
  }

  lemma SourcesStep(w: World, s: State, names: seq<Name>, k: nat, p: Pass)
    requires k < |names| && Distinct(names) && forall n <- names :: n in s.networks
    requires SourcesKept(w, s, names, k, p) && Visit(w, FileNames(s.dir), p, names[k]).ok
    requires DEFAULT in s.dir ==> DEFAULT in p.dir && p.dir[DEFAULT] == s.dir[DEFAULT]
    ensures SourcesKept(w, s, names, k + 1, Visit(w, FileNames(s.dir), p, names[k]))
  {
    var q := Visit(w, FileNames(s.dir), p, names[k]);
    VisitKeepsSource(w, s, p, names[k]);
    forall i | 0 <= i < |names| && i != k
      ensures q.networks[names[i]] == p.networks[names[i]]
    {
      assert names[i] != names[k];
      VisitOthers(w, FileNames(s.dir), p, names[k], names[i]);
    }
  }

  lemma SourcesNext(w: World, s: State, names: seq<Name>, k: nat, p: Pass, q: Pass)
    requires w.Valid() && DirNamed(w, s.dir) && NextTo(w, s, names, k, p, q)
    requires SourcesKept(w, s, names, k, p)
    ensures SourcesKept(w, s, names, k + 1, q)
  {
    PassAt(w, s, names, k, p, q);
    SourcesStep(w, s, names, k, p);
  }

  lemma SourcesAtStart(w: World, s: State, names: seq<Name>)
    requires Enumerates(names, s.networks.Keys)
    ensures SourcesKept(w, s, names, 0, PassAfter(w, s, names, 0))
  {
    assert names[..0] == [];
  }

  lemma {:induction false} SourcesInPass(w: World, s: State, names: seq<Name>, k: nat, p: Pass)
    requires w.Valid() && DirNamed(w, s.dir) && Enumerates(names, s.networks.Keys) && k <= |names|
    requires FirstPassOf(w, s, names).ok && p == PassAfter(w, s, names, k)
    ensures SourcesKept(w, s, names, k, p)
    decreases k
  {
    if k == 0 {
      SourcesAtStart(w, s, names);
    } else {
      var before := PassAfter(w, s, names, k - 1);
      SourcesInPass(w, s, names, k - 1, before);
      SourcesNext(w, s, names, k - 1, before, p);
    }
  }

  /**
   * An unclaimed file is a network of its own. Any other network is one from before with its path or URL, with
   * its key where that named a file, and with the key of the contacts brought for it.
   */
  ghost predicate NetworksFollow(w: World, s: State, t: State) {
    && (forall n <- Unclaimed(w, s) ::
          && n in t.networks && n in t.dir && t.dir[n].Contacts?
          && t.networks[n] == Local(InDir(n), Some(t.dir[n].tree.genesis)))
    && (forall n <- t.networks :: n !in Unclaimed(w, s) ==> n in s.networks && Follows(w, s, n, t.networks[n]))
  }

  ghost predicate Follows(w: World, s: State, n: Name, info: NetworkInfo)
    requires n in s.networks
  {
    && SameSource(info, s.networks[n])
    && (HasFile(w, s.dir, s.networks[n]) ==> info == s.networks[n])
    && (Brought(w, s, n).Some? ==> info.key == Some(Brought(w, s, n).value.genesis))
  }

  lemma KeptFollows(w: World, s: State, names: seq<Name>, p: Pass, n: Name)
    requires Enumerates(names, s.networks.Keys) && SourcesKept(w, s, names, |names|, p) && n in s.networks
    ensures Follows(w, s, n, p.networks[n])
  {
    var i :| 0 <= i < |names| && names[i] == n;
  }

  lemma MergeFollows(w: World, s: State, names: seq<Name>, p: Pass, t: State)
    requires Enumerates(names, s.networks.Keys) && SourcesKept(w, s, names, |names|, p)
    requires DirNamed(w, t.dir) && Unclaimed(w, s) <= FileNames(t.dir)
    requires t.networks == p.networks - p.removed + Adopted(t.dir, Unclaimed(w, s))
    ensures NetworksFollow(w, s, t)
  {
    forall n | n in t.networks && n !in Unclaimed(w, s)
      ensures n in s.networks && Follows(w, s, n, t.networks[n])
    {
      assert n in p.networks;
      KeptFollows(w, s, names, p, n);
    }
  }

  lemma SyncNetworksExactly(w: World, s: State, names: seq<Name>, files: seq<Name>)
    requires w.Valid() && DirNamed(w, s.dir)
    requires Enumerates(names, s.networks.Keys) && Enumerates(files, FileNames(s.dir))
    requires Sync(w, s, names, files).ok
    ensures NetworksFollow(w, s, Sync(w, s, names, files).state)
  {
    SyncResult(w, s, names, files);
    FirstPassForecast(w, s, names);
    assert names[..|names|] == names;
    SourcesInPass(w, s, names, |names|, FirstPassOf(w, s, names));
    MergeFollows(w, s, names, FirstPassOf(w, s, names), Sync(w, s, names, files).state);
  }

  /** Which networks stay: those replaced by an unclaimed file, and those that have a file or get one. */
  lemma SyncKeepsExactly(w: World, s: State, names: seq<Name>, files: seq<Name>, i: nat)
    requires w.Valid() && DirNamed(w, s.dir)
    requires Enumerates(names, s.networks.Keys) && Enumerates(files, FileNames(s.dir))
    requires Sync(w, s, names, files).ok && i < |names|
    ensures names[i] in Sync(w, s, names, files).state.networks
       <==> names[i] in Unclaimed(w, s) || FileOf(w, s, names, i).Some?
  {
    SyncResult(w, s, names, files);
    FirstPassForecast(w, s, names);
    assert names[i] in names;
  }
}
