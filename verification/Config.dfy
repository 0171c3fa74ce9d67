/** The configuration object: its settings, and the directory of network contacts that it manages. */
module Config {
  import opened Wrappers
  import opened Reconciling
  import opened Reconciled
  import opened ContactFiles

  lemma VisitAllStops(w: World, files: set<Name>, p: Pass, names: seq<Name>, k: nat)
    requires k <= |names| && (forall n <- names :: n in p.networks) && (forall n <- names[..k] :: n in p.networks)
    requires !VisitAll(w, files, p, names[..k]).ok
    ensures VisitAll(w, files, p, names) == VisitAll(w, files, p, names[..k])
  {
    if k == |names| {
      assert names[..k] == names;
    } else {
      VisitAllSplit(w, files, p, names, k);
    }
  }

  lemma {:induction false} AdoptAllStep(w: World, dir: Directory, networks: Networks, claimed: set<Name>,
                                        files: seq<Name>, i: nat)
    requires i < |files|
    ensures var q := AdoptAll(w, dir, networks, claimed, files[..i]);
      AdoptAll(w, dir, networks, claimed, files[..i + 1]) == if files[i] in claimed then q else Adopt(w, dir, q, files[i])
    decreases i
  {
    if i == 0 {
      assert files[..1] == [files[0]] && files[..1][1..] == [];
    } else {
      assert files[..i][1..] == files[1..][..i - 1] && files[..i + 1][1..] == files[1..][..i];
      var next := if files[0] in claimed then networks else Adopt(w, dir, networks, files[0]);
      AdoptAllStep(w, dir, next, claimed, files[1..], i - 1);
    }
  }

  function Marked(checklist: map<Name, bool>): set<Name> {
    set f | f in checklist && checklist[f]
  }

  function Listed(names: seq<Name>): set<Name> {
    set n | n in names
  }

  datatype Error = InvalidUrl | NotRetrieved | NoSuchNetwork | NoFile

  class Config {
    var networks: Networks
    var dir: Directory

    constructor (networks: Networks, dir: Directory)
      ensures Value() == State(networks, dir)
    {
      this.networks := networks;
      this.dir := dir;
    }

    ghost function Value(): State
      reads this
    {
      State(networks, dir)
    }

    method AddNetwork(w: World, name: Name, info: NetworkInfo) returns (r: Result<NetworkInfo, Error>)
      modifies this
      ensures Outcome(Value(), r.Ok?) == Add(w, old(Value()), name, info)
      ensures r.Ok? <==> exists tree :: Gives(w, old(dir), info, tree)
      ensures r.Err? ==> Value() == old(Value())
      ensures forall tree :: Gives(w, old(dir), info, tree) ==>
        && r == Ok(info.(key := Some(tree.genesis)))
        && networks == old(networks)[name := r.value]
        && dir == old(dir)[w.format(tree.genesis) := Contacts(tree)]
      ensures w.Valid() && old(DirNamed(w, dir)) ==> DirNamed(w, dir)
    {
      StepKeepsNamesIfAny(w, Value(), Op.AddNetwork(name, info));
      AddExactly(w, Value(), name, info);
      if BadUrl(w, info) {
        return Err(InvalidUrl);
      }
      var tree := Retrieve(w, dir, info);
      if tree.None? {
        return Err(NotRetrieved);
      }
      dir := Write(w, dir, tree.value);
      var added := info.(key := Some(tree.value.genesis));
      networks := networks[name := added];
      r := Ok(added);
    }

    method RemoveNetwork(w: World, name: Name)
      modifies this
      ensures Value() == Remove(w, old(Value()), name).state
      ensures forall n :: n in networks <==> n in old(networks) && n != name
      ensures forall n <- networks :: networks[n] == old(networks)[n]
      ensures forall f :: f in dir <==> f in old(dir) && f != "default" && !GoesWith(w, old(Value()), name, f)
      ensures forall f <- dir :: dir[f] == old(dir)[f]
      ensures w.Valid() && old(DirNamed(w, dir)) ==> DirNamed(w, dir)
    {
      StepKeepsNamesIfAny(w, Value(), Op.RemoveNetwork(name));
      RemoveExactly(w, Value(), name);
      if name in networks {
        var key := networks[name].key;
        networks := networks - {name};
        if key.Some? {
          dir := dir - {w.format(key.value)};
        }
      }
      dir := dir - {DEFAULT};
      assert networks == old(networks) - {name};
    }

    method Clear()
      modifies this
      ensures Value() == Reconciling.Clear().state
    {
      networks := map[];
      dir := map[];
    }

    /** The default file becomes a link to the network's file; the contacts it held before are kept under their name. */
    method SwitchToNetwork(w: World, name: Name) returns (r: Result<(), Error>)
      modifies `dir
      ensures Outcome(Value(), r.Ok?) == SwitchTo(w, old(Value()), name)
      ensures forall file :: w.Valid() && GoesWith(w, old(Value()), name, file) ==>
        Switched(w, old(dir), file, dir, r.Ok?)
      ensures (forall file :: !GoesWith(w, old(Value()), name, file)) ==> r.Err? && dir == old(dir)
      ensures w.Valid() && old(DirNamed(w, dir)) ==> DirNamed(w, dir)
    {
      StepKeepsNamesIfAny(w, Value(), Op.SwitchToNetwork(name));
      SwitchFacts(w, Value(), name);
      if name !in networks || networks[name].key.None? {
        return Err(NoSuchNetwork);
      }
      var default := ReadLocal(w, dir, InDir(DEFAULT));
      if default.Some? {
        dir := Write(w, dir, default.value);
      }
      dir := dir - {DEFAULT};
      var file := w.format(networks[name].key.value);
      if file !in dir {
        return Err(NoFile);
      }
      dir := dir[DEFAULT := dir[file]];
      r := Ok(());
    }

    /** One network claims its file, or is fetched, or is listed for removal. */
    method VisitNetwork(w: World, name: Name, checklist: map<Name, bool>, listed: seq<Name>, ghost p: Pass)
      returns (marked: map<Name, bool>, removeList: seq<Name>, ok: bool)
      requires name in networks && p.ok && Shows(p, checklist, listed)
      modifies this
      ensures var q := Visit(w, checklist.Keys, p, name);
              ok == q.ok && marked.Keys == checklist.Keys && Shows(q, marked, removeList)
    {
      marked, removeList, ok := checklist, listed, true;
      var info := networks[name];
      if info.key.Some? && w.format(info.key.value) in checklist {
        marked := checklist[w.format(info.key.value) := true];
      } else if BadUrl(w, info) {
        ok := false;
      } else {
        var tree := Retrieve(w, dir, info);
        if tree.Some? {
          dir := Write(w, dir, tree.value);
          networks := networks[name := info.(key := Some(tree.value.genesis))];
        } else {
          removeList := listed + [name];
        }
      }
    }

    /** The object, the checklist and the list of networks to remove are as the pass says. */
    ghost predicate Shows(p: Pass, checklist: map<Name, bool>, removeList: seq<Name>)
      reads this
    {
      networks == p.networks && dir == p.dir && Marked(checklist) == p.claimed && Listed(removeList) == p.removed
    }

    /** All networks of the settings, up to the first URL that does not parse. */
    method VisitNetworks(w: World, names: seq<Name>, checklist: map<Name, bool>)
      returns (marked: map<Name, bool>, removeList: seq<Name>, ok: bool)
      requires Enumerates(names, networks.Keys) && checklist.Keys == FileNames(dir)
      requires forall f <- checklist :: !checklist[f]
      modifies this
      ensures var p := VisitAll(w, checklist.Keys, FirstPass(old(Value())), names);
              ok == p.ok && marked.Keys == checklist.Keys && Shows(p, marked, removeList)
    {
      marked, removeList, ok := checklist, [], true;
      ghost var start := FirstPass(Value());
      ghost var p := start;
      for i := 0 to |names|
        invariant forall n <- names[..i] :: n in start.networks
        invariant p == VisitAll(w, checklist.Keys, start, names[..i]) && p.ok && ok
        invariant marked.Keys == checklist.Keys && Shows(p, marked, removeList)
      {
        assert names[i] in names;
        VisitAllSplit(w, checklist.Keys, start, names, i);
        ghost var q := Visit(w, checklist.Keys, p, names[i]);
        marked, removeList, ok := VisitNetwork(w, names[i], marked, removeList, p);
        p := q;
        if !ok {
          VisitAllStops(w, checklist.Keys, start, names, i + 1);
          return;
        }
      }
      assert names[..|names|] == names;
    }

    /** The files that no network claims become networks named by their genesis key. */
    method AdoptFiles(w: World, files: seq<Name>, marked: map<Name, bool>)
      requires forall f <- files :: f in marked
      modifies `networks
      ensures networks == AdoptAll(w, dir, old(networks), Marked(marked), files)
    {
      ghost var claimed := Marked(marked);
      for i := 0 to |files|
        invariant networks == AdoptAll(w, dir, old(networks), claimed, files[..i])
      {
        AdoptAllStep(w, dir, old(networks), claimed, files, i);
        assert files[i] in files;
        if !marked[files[i]] {
          var tree := ReadLocal(w, dir, InDir(files[i]));
          if tree.Some? {
            networks := networks[w.format(tree.value.genesis) := Local(InDir(files[i]), Some(tree.value.genesis))];
          }
        }
      }
      assert files[..|files|] == files;
    }

    method RemoveListed(removeList: seq<Name>)
      modifies `networks
      ensures networks == old(networks) - Listed(removeList)
    {
      for i := 0 to |removeList|
        invariant networks == old(networks) - Listed(removeList[..i])
      {
        assert removeList[..i + 1] == removeList[..i] + [removeList[i]];
        networks := networks - {removeList[i]};
      }
      assert removeList[..|removeList|] == removeList;
    }

    /**
     * Reconciles the settings with the directory. The orders are those in which the directory, the networks
     * and the files are gone through; on an error what was fetched so far stays.
     */
    method Sync(w: World, entries: seq<Name>, names: seq<Name>, files: seq<Name>) returns (r: Result<(), Error>)
      requires Enumerates(entries, dir.Keys) && Enumerates(names, networks.Keys) && Enumerates(files, FileNames(dir))
      modifies this
      ensures Outcome(Value(), r.Ok?) == Reconciling.Sync(w, old(Value()), names, files)
      ensures r.Ok? <==> old(forall n <- networks :: HasFile(w, dir, networks[n])
                               || (networks[n].Remote? ==> w.isUrl(networks[n].url)))
      ensures r.Ok? && w.Valid() && old(DirNamed(w, dir)) ==> Settled(w, Value())
      ensures r.Ok? && w.Valid() && old(DirNamed(w, dir) && NamesRespected(w, Value())) ==> IsReconciled(w, Value())
      ensures r.Ok? && w.Valid() && old(DirNamed(w, dir)) ==>
        FilesHoldLast(w, old(Value()), names, dir) && NetworksFollow(w, old(Value()), Value())
    {
      SyncFacts(w, Value(), names, files);
      var checklist := Checklist(entries);
      assert checklist.Keys == FileNames(dir);
      var marked, removeList, ok := VisitNetworks(w, names, checklist);
      if !ok {
        return Err(InvalidUrl);
      }
      RemoveListed(removeList);
      AdoptFiles(w, files, marked);
      r := Ok(());
    }
  }

  /** Every file of the directory but the default one, none of them claimed yet. */
  method Checklist(entries: seq<Name>) returns (checklist: map<Name, bool>)
    ensures checklist.Keys == Listed(entries) - {DEFAULT}
    ensures forall f <- checklist :: !checklist[f]
  {
    checklist := map[];
    for i := 0 to |entries|
      invariant checklist.Keys == Listed(entries[..i]) - {DEFAULT}
      invariant forall f <- checklist :: !checklist[f]
    {
      assert entries[..i + 1] == entries[..i] + [entries[i]];
      if entries[i] != DEFAULT {
        checklist := checklist[entries[i] := false];
      }
    }
    assert entries[..|entries|] == entries;
  }

  lemma SyncFacts(w: World, s: State, names: seq<Name>, files: seq<Name>)
    requires Enumerates(names, s.networks.Keys) && Enumerates(files, FileNames(s.dir))
    ensures var o := Reconciling.Sync(w, s, names, files);
      && (o.ok <==> forall n <- s.networks :: HasFile(w, s.dir, s.networks[n])
                      || (s.networks[n].Remote? ==> w.isUrl(s.networks[n].url)))
      && (o.ok && w.Valid() && DirNamed(w, s.dir) ==> Settled(w, o.state))
      && (o.ok && w.Valid() && DirNamed(w, s.dir) && NamesRespected(w, s) ==> IsReconciled(w, o.state))
      && (o.ok && w.Valid() && DirNamed(w, s.dir) ==>
            FilesHoldLast(w, s, names, o.state.dir) && NetworksFollow(w, s, o.state))
  {
    SyncSucceedsExactly(w, s, names, files);
    if Reconciling.Sync(w, s, names, files).ok && w.Valid() && DirNamed(w, s.dir) {
      SyncReconcilesByPass(w, s, names, files);
      SyncFilesExactly(w, s, names, files);
      SyncNetworksExactly(w, s, names, files);
      if NamesRespected(w, s) {
        SyncReconciles(w, s, names, files);
      }
    }
  }

  lemma SwitchFacts(w: World, s: State, name: Name)
    ensures var o := SwitchTo(w, s, name);
      && (forall file :: w.Valid() && GoesWith(w, s, name, file) ==> Switched(w, s.dir, file, o.state.dir, o.ok))
      && ((forall file :: !GoesWith(w, s, name, file)) ==> o == Outcome(s, false))
  {
    forall file | w.Valid() && GoesWith(w, s, name, file)
      ensures Switched(w, s.dir, file, SwitchTo(w, s, name).state.dir, SwitchTo(w, s, name).ok)
    {
      SwitchExactly(w, s, name, file);
    }
    if name in s.networks && s.networks[name].key.Some? {
      assert GoesWith(w, s, name, w.format(s.networks[name].key.value));
    }
  }

  lemma StepKeepsNamesIfAny(w: World, s: State, op: Op)
    ensures w.Valid() && DirNamed(w, s.dir) ==> DirNamed(w, Apply(w, s, op).state.dir)
  {
    if w.Valid() && DirNamed(w, s.dir) {
      StepKeepsNames(w, s, op);
    }
  }
}
