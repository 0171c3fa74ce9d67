/** What a sync will do, told from the settings, the directory and the world before it. */
module SyncForecast {
  import opened Wrappers
  import opened Reconciling
  import opened Reconciled

  /** The file that a network has, or that its contacts would be written to, as things are before the sync. */
  function Fetched(w: World, s: State, n: Name): Option<Name>
    requires n in s.networks
  {
    var info := s.networks[n];
    if Claims(w, FileNames(s.dir), info) then Some(w.format(info.key.value))
    else
      match Retrieve(w, s.dir, info)
      case Some(tree) => Some(w.format(tree.genesis))
      case None => None
  }

  /** The network is to be read from a file of the directory that is not there yet. */
  predicate Awaits(w: World, s: State, n: Name, file: Name)
    requires n in s.networks
  {
    !Claims(w, FileNames(s.dir), s.networks[n]) && file !in s.dir
    && s.networks[n].Local? && s.networks[n].path == InDir(file)
  }

  /** One of the first `k` networks has its contacts written to the file. */
  ghost predicate WrittenBefore(w: World, s: State, names: seq<Name>, k: nat, file: Name)
    requires k <= |names| && forall n <- names :: n in s.networks
  {
    exists j :: 0 <= j < k && Fetched(w, s, names[j]) == Some(file)
  }

  /** The file that the `i`-th network has after the sync's first pass, if it stays. */
  ghost function FileOf(w: World, s: State, names: seq<Name>, i: nat): Option<Name>
    requires i < |names| && forall n <- names :: n in s.networks
  {
    var info := s.networks[names[i]];
    if Fetched(w, s, names[i]).Some? then Fetched(w, s, names[i])
    else if info.Local? && info.path.InDir? && Awaits(w, s, names[i], info.path.file)
            && WrittenBefore(w, s, names, i, info.path.file) then Some(info.path.file)
    else None
  }

  // The directory during the first pass

  /** The files are those of the start and those written since; the default file is as it was. */
  ghost predicate DirInv(w: World, s: State, names: seq<Name>, k: nat, dir: Directory)
    requires k <= |names| && forall n <- names :: n in s.networks
  {
    && DirNamed(w, dir)
    && (forall f :: f in dir <==> f in s.dir || WrittenBefore(w, s, names, k, f))
    && (DEFAULT in s.dir ==> DEFAULT in dir && dir[DEFAULT] == s.dir[DEFAULT])
  }

  /** What retrieving a network gives during the pass. */
  lemma RetrievedFile(w: World, s: State, names: seq<Name>, i: nat, dir: Directory)
    requires w.Valid() && DirNamed(w, s.dir) && i < |names| && forall n <- names :: n in s.networks
    requires DirInv(w, s, names, i, dir) && !Claims(w, FileNames(s.dir), s.networks[names[i]])
    ensures var t := Retrieve(w, dir, s.networks[names[i]]);
            FileOf(w, s, names, i) == if t.Some? then Some(w.format(t.value.genesis)) else None
  {
    var info := s.networks[names[i]];
    if info.Local? && info.path.InDir? {
      var f := info.path.file;
      if f == DEFAULT {
        NeverDefault(w, s, names, i);
      } else if f in s.dir {
        assert f in FileNames(s.dir) && f in FileNames(dir);
      } else if f in dir {
        assert f in FileNames(dir);
      }
    }
  }

  lemma NeverDefault(w: World, s: State, names: seq<Name>, k: nat)
    requires w.Valid() && k <= |names| && forall n <- names :: n in s.networks
    ensures !WrittenBefore(w, s, names, k, DEFAULT)
  {}

  lemma WrittenStep(w: World, s: State, names: seq<Name>, k: nat, f: Name)
    requires k < |names| && forall n <- names :: n in s.networks
    ensures WrittenBefore(w, s, names, k + 1, f)
       <==> WrittenBefore(w, s, names, k, f) || Fetched(w, s, names[k]) == Some(f)
  {
    if WrittenBefore(w, s, names, k, f) {
      var j :| 0 <= j < k && Fetched(w, s, names[j]) == Some(f);
    }
  }

  lemma DirStep(w: World, s: State, names: seq<Name>, k: nat, p: Pass)
    requires w.Valid() && DirNamed(w, s.dir) && k < |names| && forall n <- names :: n in s.networks
    requires names[k] in p.networks && p.networks[names[k]] == s.networks[names[k]]
    requires DirInv(w, s, names, k, p.dir) && Visit(w, FileNames(s.dir), p, names[k]).ok
    ensures DirInv(w, s, names, k + 1, Visit(w, FileNames(s.dir), p, names[k]).dir)
  {
    var info := s.networks[names[k]];
    var q := Visit(w, FileNames(s.dir), p, names[k]);
    forall f
      ensures f in q.dir <==> f in s.dir || WrittenBefore(w, s, names, k + 1, f)
    {
      WrittenStep(w, s, names, k, f);
      if !Claims(w, FileNames(s.dir), info) {
        RetrievedFile(w, s, names, k, p.dir);
      }
    }
    if !Claims(w, FileNames(s.dir), info) {
      var t := Retrieve(w, p.dir, info);
      if t.Some? {
        WriteKeepsNames(w, p.dir, t.value);
      }
    }
  }

  // The networks during the first pass

  /** The first `k` networks have gone or have the file that was told, and the others are as they were. */
  ghost predicate NetsInv(w: World, s: State, names: seq<Name>, k: nat, p: Pass)
    requires k <= |names| && forall n <- names :: n in s.networks
  {
    && p.networks.Keys == s.networks.Keys
    && (forall i :: 0 <= i < |names| ==> (names[i] in p.removed <==> i < k && FileOf(w, s, names, i).None?))
    && (forall i :: 0 <= i < k && FileOf(w, s, names, i).Some? ==>
          p.networks[names[i]].key.Some?
          && w.format(p.networks[names[i]].key.value) == FileOf(w, s, names, i).value)
    && (forall i :: k <= i < |names| ==> p.networks[names[i]] == s.networks[names[i]])
    && p.claimed <= KeyFiles(w, s.networks)
  }

  ghost predicate Distinct(names: seq<Name>) {
    forall i, j :: 0 <= i < j < |names| ==> names[i] != names[j]
  }

  /** What one visit does to its own network. */
  lemma VisitOwn(w: World, s: State, names: seq<Name>, k: nat, p: Pass)
    requires w.Valid() && DirNamed(w, s.dir) && k < |names| && forall n <- names :: n in s.networks
    requires names[k] in p.networks && p.networks[names[k]] == s.networks[names[k]] && names[k] !in p.removed
    requires DirInv(w, s, names, k, p.dir) && Visit(w, FileNames(s.dir), p, names[k]).ok
    ensures var q := Visit(w, FileNames(s.dir), p, names[k]);
            var f := FileOf(w, s, names, k);
      && (names[k] in q.removed <==> f.None?)
      && (f.Some? ==> q.networks[names[k]].key.Some? && w.format(q.networks[names[k]].key.value) == f.value)
  {
    if !Claims(w, FileNames(s.dir), s.networks[names[k]]) {
      RetrievedFile(w, s, names, k, p.dir);
    }
  }

  /** What one visit leaves alone. */
  lemma VisitOthers(w: World, files: set<Name>, p: Pass, name: Name, n: Name)
    requires name in p.networks && n in p.networks && n != name
    ensures var q := Visit(w, files, p, name);
      q.networks[n] == p.networks[n] && (n in q.removed <==> n in p.removed)
  {}

  lemma ClaimedStep(w: World, s: State, p: Pass, name: Name)
    requires name in p.networks && name in s.networks && p.networks[name] == s.networks[name]
    requires p.claimed <= KeyFiles(w, s.networks)
    ensures Visit(w, FileNames(s.dir), p, name).claimed <= KeyFiles(w, s.networks)
  {
    var info := s.networks[name];
    if Claims(w, FileNames(s.dir), info) {
      assert w.format(info.key.value) in KeyFiles(w, s.networks);
    }
  }

  lemma NetsStep(w: World, s: State, names: seq<Name>, k: nat, p: Pass)
    requires w.Valid() && DirNamed(w, s.dir) && k < |names| && Distinct(names) && forall n <- names :: n in s.networks
    requires NetsInv(w, s, names, k, p) && DirInv(w, s, names, k, p.dir)
    requires Visit(w, FileNames(s.dir), p, names[k]).ok
    ensures NetsInv(w, s, names, k + 1, Visit(w, FileNames(s.dir), p, names[k]))
  {
    var q := Visit(w, FileNames(s.dir), p, names[k]);
    VisitOwn(w, s, names, k, p);
    ClaimedStep(w, s, p, names[k]);
    forall i | 0 <= i < |names| && i != k
      ensures q.networks[names[i]] == p.networks[names[i]] && (names[i] in q.removed <==> names[i] in p.removed)
    {
      assert names[i] != names[k];
      VisitOthers(w, FileNames(s.dir), p, names[k], names[i]);
    }
  }

  ghost predicate PassIs(w: World, s: State, names: seq<Name>, k: nat, p: Pass)
    requires k <= |names| && forall n <- names :: n in s.networks
  {
    p.ok && NetsInv(w, s, names, k, p) && DirInv(w, s, names, k, p.dir)
  }

  lemma PassStart(w: World, s: State, names: seq<Name>)
    requires DirNamed(w, s.dir) && forall n <- names :: n in s.networks
    ensures PassIs(w, s, names, 0, FirstPass(s))
  {}

  lemma PassStep(w: World, s: State, names: seq<Name>, k: nat, p: Pass, q: Pass)
    requires w.Valid() && DirNamed(w, s.dir) && k < |names| && Distinct(names) && forall n <- names :: n in s.networks
    requires PassIs(w, s, names, k, p) && names[k] in p.networks
    requires q == Visit(w, FileNames(s.dir), p, names[k]) && q.ok
    ensures PassIs(w, s, names, k + 1, q)
  {
    NetsStep(w, s, names, k, p);
    DirStep(w, s, names, k, p);
  }

  lemma OkUpTo(w: World, s: State, names: seq<Name>, k: nat)
    requires Enumerates(names, s.networks.Keys) && k <= |names| && FirstPassOf(w, s, names).ok
    ensures forall n <- names[..k] :: n in s.networks
    ensures VisitAll(w, FileNames(s.dir), FirstPass(s), names[..k]).ok
  {
    if k < |names| {
      VisitAllSplit(w, FileNames(s.dir), FirstPass(s), names, k);
    } else {
      assert names[..k] == names;
    }
  }

  /** The pass after the first `k` networks. */
  ghost function PassAfter(w: World, s: State, names: seq<Name>, k: nat): Pass
    requires Enumerates(names, s.networks.Keys) && k <= |names|
  {
    VisitAll(w, FileNames(s.dir), FirstPass(s), names[..k])
  }

  lemma PassAfterStep(w: World, s: State, names: seq<Name>, k: nat, p: Pass, q: Pass)
    requires Enumerates(names, s.networks.Keys) && k < |names| && FirstPassOf(w, s, names).ok
    requires p == PassAfter(w, s, names, k) && q == PassAfter(w, s, names, k + 1)
    ensures names[k] in p.networks && q == Visit(w, FileNames(s.dir), p, names[k]) && q.ok
  {
    VisitAllSplit(w, FileNames(s.dir), FirstPass(s), names, k);
    OkUpTo(w, s, names, k);
    OkUpTo(w, s, names, k + 1);
    assert names[k] in names;
  }

  lemma PassInvStart(w: World, s: State, names: seq<Name>)
    requires DirNamed(w, s.dir) && Enumerates(names, s.networks.Keys)
    ensures PassIs(w, s, names, 0, PassAfter(w, s, names, 0))
  {
    assert names[..0] == [];
    PassStart(w, s, names);
  }

  lemma PassInvStep(w: World, s: State, names: seq<Name>, k: nat, p: Pass, q: Pass)
    requires w.Valid() && DirNamed(w, s.dir) && Enumerates(names, s.networks.Keys) && k < |names|
    requires FirstPassOf(w, s, names).ok
    requires p == PassAfter(w, s, names, k) && q == PassAfter(w, s, names, k + 1) && PassIs(w, s, names, k, p)
    ensures PassIs(w, s, names, k + 1, q)
  {
    PassAfterStep(w, s, names, k, p, q);
    PassStep(w, s, names, k, p, q);
  }

  lemma {:induction false} PassInv(w: World, s: State, names: seq<Name>, k: nat, p: Pass)
    requires w.Valid() && DirNamed(w, s.dir) && Enumerates(names, s.networks.Keys) && k <= |names|
    requires FirstPassOf(w, s, names).ok && p == PassAfter(w, s, names, k)
    ensures PassIs(w, s, names, k, p)
    decreases k
  {
    if k == 0 {
      PassInvStart(w, s, names);
    } else {
      var before := PassAfter(w, s, names, k - 1);
      PassInv(w, s, names, k - 1, before);
      PassInvStep(w, s, names, k - 1, before, p);
    }
  }

  // The forecast

  /** The files that no network of the settings has a key for. */
  function Unclaimed(w: World, s: State): set<Name> {
    FileNames(s.dir) - KeyFiles(w, s.networks)
  }

  /** The first pass claims exactly the files that the keys name, and each network ends with the file foretold. */
  lemma FirstPassForecast(w: World, s: State, names: seq<Name>)
    requires w.Valid() && DirNamed(w, s.dir) && Enumerates(names, s.networks.Keys) && FirstPassOf(w, s, names).ok
    ensures var p := FirstPassOf(w, s, names);
      && FileNames(s.dir) - p.claimed == Unclaimed(w, s)
      && NetsInv(w, s, names, |names|, p)
  {
    assert names[..|names|] == names;
    PassInv(w, s, names, |names|, PassAfter(w, s, names, |names|));
    FirstPassInv(w, s, names);
    var p := FirstPassOf(w, s, names);
    forall f | f in FileNames(s.dir) && f in KeyFiles(w, s.networks)
      ensures f in p.claimed
    {
      var n :| n in s.networks && s.networks[n].key.Some? && w.format(s.networks[n].key.value) == f;
      assert Claims(w, FileNames(s.dir), s.networks[n]);
    }
  }

  /**
   * A network that bears the name of an unclaimed file is replaced by it; its own file is then accounted for
   * if it is an unclaimed one too, or the file of a network that is not replaced.
   */
  ghost predicate NothingIsLeftOver(w: World, s: State, names: seq<Name>)
    requires forall n <- names :: n in s.networks
  {
    var unclaimed := Unclaimed(w, s);
    forall i :: 0 <= i < |names| && names[i] in unclaimed && FileOf(w, s, names, i).Some? ==>
      FileOf(w, s, names, i).value in unclaimed || HeldByAnother(w, s, names, FileOf(w, s, names, i))
  }

  ghost predicate HeldByAnother(w: World, s: State, names: seq<Name>, file: Option<Name>)
    requires forall n <- names :: n in s.networks
  {
    exists j :: 0 <= j < |names| && names[j] !in Unclaimed(w, s) && FileOf(w, s, names, j) == file
  }

  lemma HeldIsKeyFile(w: World, s: State, names: seq<Name>, p: Pass, f: Name)
    requires Enumerates(names, s.networks.Keys) && NetsInv(w, s, names, |names|, p)
    ensures HeldByAnother(w, s, names, Some(f)) <==> f in KeyFiles(w, p.networks - p.removed - Unclaimed(w, s))
  {
    var rest := p.networks - p.removed - Unclaimed(w, s);
    if HeldByAnother(w, s, names, Some(f)) {
      var j :| 0 <= j < |names| && names[j] !in Unclaimed(w, s) && FileOf(w, s, names, j) == Some(f);
      assert names[j] in rest && rest[names[j]] == p.networks[names[j]];
    }
    if f in KeyFiles(w, rest) {
      var n :| n in rest && rest[n].key.Some? && w.format(rest[n].key.value) == f;
      assert n in names;
      var j :| 0 <= j < |names| && names[j] == n;
    }
  }

  lemma ConditionsAgree(w: World, s: State, names: seq<Name>, p: Pass)
    requires Enumerates(names, s.networks.Keys) && NetsInv(w, s, names, |names|, p)
    ensures EveryDisplacedFileIsHeld(w, p.networks - p.removed, Unclaimed(w, s)) <==> NothingIsLeftOver(w, s, names)
  {
    var kept, unclaimed := p.networks - p.removed, Unclaimed(w, s);
    forall i | 0 <= i < |names| && FileOf(w, s, names, i).Some?
      ensures names[i] in kept && kept[names[i]].key.Some?
              && w.format(kept[names[i]].key.value) == FileOf(w, s, names, i).value
      ensures HeldByAnother(w, s, names, FileOf(w, s, names, i))
         <==> FileOf(w, s, names, i).value in KeyFiles(w, kept - unclaimed)
    {
      HeldIsKeyFile(w, s, names, p, FileOf(w, s, names, i).value);
    }
    if NothingIsLeftOver(w, s, names) {
      forall n | n in kept && n in unclaimed && kept[n].key.Some?
        ensures w.format(kept[n].key.value) in unclaimed + KeyFiles(w, kept - unclaimed)
      {
        assert n in names;
        var i :| 0 <= i < |names| && names[i] == n;
      }
    }
  }

  /**
   * A successful sync makes the keys and the files agree if and only if nothing is left over, which is told
   * from the settings, the directory, the world and the order of the networks before the call.
   */
  lemma SyncReconcilesExactly(w: World, s: State, names: seq<Name>, files: seq<Name>)
    requires w.Valid() && DirNamed(w, s.dir)
    requires Enumerates(names, s.networks.Keys) && Enumerates(files, FileNames(s.dir))
    requires Sync(w, s, names, files).ok
    ensures IsReconciled(w, Sync(w, s, names, files).state) <==> NothingIsLeftOver(w, s, names)
  {
    SyncReconcilesByPass(w, s, names, files);
    FirstPassForecast(w, s, names);
    ConditionsAgree(w, s, names, FirstPassOf(w, s, names));
  }

  /** The same without an order, when no network is to be read from a file that is not there yet. */
  ghost predicate NothingIsLeftOverInAnyOrder(w: World, s: State) {
    forall n <- s.networks :: n in Unclaimed(w, s) && Fetched(w, s, n).Some? ==>
      Fetched(w, s, n).value in Unclaimed(w, s)
      || exists m :: m in s.networks && m !in Unclaimed(w, s) && Fetched(w, s, m) == Fetched(w, s, n)
  }

  lemma OrderDoesNotMatter(w: World, s: State, names: seq<Name>)
    requires Enumerates(names, s.networks.Keys) && forall n <- s.networks, f :: !Awaits(w, s, n, f)
    ensures NothingIsLeftOver(w, s, names) <==> NothingIsLeftOverInAnyOrder(w, s)
  {
    assert forall i :: 0 <= i < |names| ==> FileOf(w, s, names, i) == Fetched(w, s, names[i]);
    if NothingIsLeftOver(w, s, names) {
      forall n | n in s.networks && n in Unclaimed(w, s) && Fetched(w, s, n).Some?
        ensures Fetched(w, s, n).value in Unclaimed(w, s)
          || exists m :: m in s.networks && m !in Unclaimed(w, s) && Fetched(w, s, m) == Fetched(w, s, n)
      {
        var i :| 0 <= i < |names| && names[i] == n;
        if Fetched(w, s, n).value !in Unclaimed(w, s) {
          var j :| 0 <= j < |names| && names[j] !in Unclaimed(w, s) && FileOf(w, s, names, j) == FileOf(w, s, names, i);
          assert names[j] in s.networks;
        }
      }
    }
    if NothingIsLeftOverInAnyOrder(w, s) {
      forall i | 0 <= i < |names| && names[i] in Unclaimed(w, s) && FileOf(w, s, names, i).Some?
        ensures FileOf(w, s, names, i).value in Unclaimed(w, s)
          || HeldByAnother(w, s, names, FileOf(w, s, names, i))
      {
        var n := names[i];
        assert n in names;
        if Fetched(w, s, n).value !in Unclaimed(w, s) {
          var m :| m in s.networks && m !in Unclaimed(w, s) && Fetched(w, s, m) == Fetched(w, s, n);
          var j :| 0 <= j < |names| && names[j] == m;
        }
      }
    }
  }
}
