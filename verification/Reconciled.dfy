/** Sync makes the settings and the directory agree, and then has nothing left to do. */
module Reconciled {
  import opened Wrappers
  import opened Reconciling

  /** Every file but the default one holds contacts and is named by their genesis key. */
  ghost predicate DirNamed(w: World, dir: Directory) {
    forall f <- FileNames(dir) :: dir[f].Contacts? && w.format(dir[f].tree.genesis) == f
  }

  /** The key of the network names a file, and that is there. */
  predicate HasFile(w: World, dir: Directory, info: NetworkInfo) {
    info.key.Some? && w.format(info.key.value) in dir && w.format(info.key.value) != "default"
  }

  /** The file names that the keys of some networks are formatted to. */
  function KeyFiles(w: World, networks: Networks): set<Name> {
    set n | n in networks && networks[n].key.Some? :: w.format(networks[n].key.value)
  }

  ghost predicate AllKeyed(networks: Networks) {
    forall n <- networks :: networks[n].key.Some?
  }

  /** Every network has a key, and the files that the keys name are exactly the files there are. */
  ghost predicate IsReconciled(w: World, s: State) {
    AllKeyed(s.networks) && KeyFiles(w, s.networks) == FileNames(s.dir)
  }

  // Runs of the other operations keep the directory well named

  datatype Op = AddNetwork(name: Name, info: NetworkInfo) | RemoveNetwork(name: Name) | SwitchToNetwork(name: Name) | ClearAll

  function Apply(w: World, s: State, op: Op): Outcome {
    match op
    case AddNetwork(name, info) => Add(w, s, name, info)
    case RemoveNetwork(name) => Remove(w, s, name)
    case SwitchToNetwork(name) => SwitchTo(w, s, name)
    case ClearAll => Clear()
  }

  /** A run; each operation sees a world of its own, with the same formatting of keys. */
  function Run(worlds: seq<World>, s: State, ops: seq<Op>): State
    requires |worlds| == |ops|
    decreases ops
  {
    if ops == [] then s else Run(worlds[1..], Apply(worlds[0], s, ops[0]).state, ops[1..])
  }

  lemma WriteKeepsNames(w: World, dir: Directory, tree: Tree)
    requires w.Valid() && DirNamed(w, dir)
    ensures DirNamed(w, Write(w, dir, tree))
    ensures FileNames(Write(w, dir, tree)) == FileNames(dir) + {w.format(tree.genesis)}
  {}

  lemma SwitchKeepsNames(w: World, s: State, name: Name)
    requires w.Valid() && DirNamed(w, s.dir)
    ensures DirNamed(w, SwitchTo(w, s, name).state.dir)
  {
    var dir := SaveDefault(w, s.dir);
    assert DirNamed(w, dir) by {
      var t := ReadLocal(w, s.dir, InDir(DEFAULT));
      if t.Some? {
        WriteKeepsNames(w, s.dir, t.value);
      }
    }
  }

  lemma StepKeepsNames(w: World, s: State, op: Op)
    requires w.Valid() && DirNamed(w, s.dir)
    ensures DirNamed(w, Apply(w, s, op).state.dir)
  {
    match op
    case AddNetwork(_, info) =>
      var t := Retrieve(w, s.dir, info);
      if t.Some? {
        WriteKeepsNames(w, s.dir, t.value);
      }
    case RemoveNetwork(_) =>
    case SwitchToNetwork(name) => SwitchKeepsNames(w, s, name);
    case ClearAll =>
  }

  lemma {:induction false} RunsKeepNames(w: World, worlds: seq<World>, s: State, ops: seq<Op>)
    requires |worlds| == |ops| && w.Valid() && DirNamed(w, s.dir)
    requires forall v <- worlds :: v.format == w.format
    ensures DirNamed(w, Run(worlds, s, ops).dir)
    decreases ops
  {
    if ops != [] {
      var v := worlds[0];
      assert v.Valid() && DirNamed(v, s.dir);
      StepKeepsNames(v, s, ops[0]);
      RunsKeepNames(w, worlds[1..], Apply(v, s, ops[0]).state, ops[1..]);
    }
  }

  // The first pass

  /** The networks visited so far that stay in the settings. */
  function Kept(p: Pass, done: set<Name>): Networks {
    map n | n in p.networks && n in done && n !in p.removed :: p.networks[n]
  }

  /** What a pass has done to the networks when those in `done` have been visited. */
  ghost predicate NetworksInv(w: World, s: State, p: Pass, done: set<Name>) {
    var files := FileNames(s.dir);
    && p.networks.Keys == s.networks.Keys
    && p.removed <= done
    && (forall n <- s.networks :: n !in done ==> p.networks[n] == s.networks[n])
    && (forall n <- s.networks :: n in done && Claims(w, files, s.networks[n]) ==>
          w.format(s.networks[n].key.value) in p.claimed)
    && AllKeyed(Kept(p, done))
  }

  /** What a pass has done to the directory: no file is lost, and each new or claimed one is a network's. */
  ghost predicate FilesInv(w: World, s: State, p: Pass, done: set<Name>) {
    var files := FileNames(s.dir);
    && DirNamed(w, p.dir)
    && files <= FileNames(p.dir)
    && p.claimed <= files
    && KeyFiles(w, Kept(p, done)) <= FileNames(p.dir)
    && p.claimed <= KeyFiles(w, Kept(p, done))
    && FileNames(p.dir) <= files + KeyFiles(w, Kept(p, done))
  }

  lemma KeyFilesInsert(w: World, networks: Networks, name: Name, info: NetworkInfo)
    requires name !in networks && info.key.Some?
    ensures KeyFiles(w, networks[name := info]) == KeyFiles(w, networks) + {w.format(info.key.value)}
  {
    var after := networks[name := info];
    forall f | f in KeyFiles(w, networks) + {w.format(info.key.value)}
      ensures f in KeyFiles(w, after)
    {
      if f in KeyFiles(w, networks) {
        var n :| n in networks && networks[n].key.Some? && w.format(networks[n].key.value) == f;
        assert after[n] == networks[n];
      } else {
        assert after[name] == info;
      }
    }
  }

  lemma KeptAfterVisit(w: World, files: set<Name>, p: Pass, done: set<Name>, name: Name)
    requires name in p.networks && name !in done && p.removed <= done
    requires Visit(w, files, p, name).ok
    ensures var q := Visit(w, files, p, name);
      Kept(q, done + {name}) == if name in q.removed then Kept(p, done) else Kept(p, done)[name := q.networks[name]]
    ensures name !in Kept(p, done)
  {}

  lemma VisitKeepsNetworks(w: World, s: State, p: Pass, done: set<Name>, name: Name)
    requires NetworksInv(w, s, p, done) && name in p.networks && name !in done
    requires Visit(w, FileNames(s.dir), p, name).ok
    ensures NetworksInv(w, s, Visit(w, FileNames(s.dir), p, name), done + {name})
  {
    KeptAfterVisit(w, FileNames(s.dir), p, done, name);
  }

  lemma VisitKeepsFiles(w: World, s: State, p: Pass, done: set<Name>, name: Name)
    requires w.Valid() && p.removed <= done && FilesInv(w, s, p, done) && name in p.networks && name !in done
    requires Visit(w, FileNames(s.dir), p, name).ok
    ensures FilesInv(w, s, Visit(w, FileNames(s.dir), p, name), done + {name})
  {
    var files := FileNames(s.dir);
    var q := Visit(w, files, p, name);
    KeptAfterVisit(w, files, p, done, name);
    if name !in q.removed {
      KeyFilesInsert(w, Kept(p, done), name, q.networks[name]);
    }
    if !Claims(w, files, p.networks[name]) {
      var t := Retrieve(w, p.dir, p.networks[name]);
      if t.Some? {
        WriteKeepsNames(w, p.dir, t.value);
      }
    }
  }

  lemma AllVisited(w: World, s: State, p: Pass, done: set<Name>)
    requires NetworksInv(w, s, p, done) && Enumerates([], p.networks.Keys - done)
    ensures s.networks.Keys + done == done
  {
    EmptyEnumeration(p.networks.Keys - done);
    assert forall n <- p.networks.Keys :: n in done || n in p.networks.Keys - done;
  }

  lemma RestToVisit(names: seq<Name>, keys: set<Name>, done: set<Name>)
    requires names != [] && Enumerates(names, keys - done)
    ensures names[0] in keys && names[0] !in done
    ensures Enumerates(names[1..], keys - (done + {names[0]}))
    ensures keys + (done + {names[0]}) == keys + done
  {
    assert names[0] in names;
    EnumeratesTail(names, keys - done);
    assert keys - (done + {names[0]}) == keys - done - {names[0]};
  }

  lemma {:induction false} VisitAllInv(w: World, s: State, p: Pass, done: set<Name>, names: seq<Name>)
    requires w.Valid() && NetworksInv(w, s, p, done) && FilesInv(w, s, p, done)
    requires Enumerates(names, p.networks.Keys - done) && p.ok
    requires VisitAll(w, FileNames(s.dir), p, names).ok
    ensures var q := VisitAll(w, FileNames(s.dir), p, names);
            var all := s.networks.Keys + done;
            NetworksInv(w, s, q, all) && FilesInv(w, s, q, all)
    decreases names
  {
    if names == [] {
      AllVisited(w, s, p, done);
    } else {
      RestToVisit(names, p.networks.Keys, done);
      var q := Visit(w, FileNames(s.dir), p, names[0]);
      VisitKeepsNetworks(w, s, p, done, names[0]);
      VisitKeepsFiles(w, s, p, done, names[0]);
      VisitAllInv(w, s, q, done + {names[0]}, names[1..]);
    }
  }

  lemma {:induction false} VisitAllSplit(w: World, files: set<Name>, p: Pass, names: seq<Name>, i: nat)
    requires i < |names| && forall n <- names :: n in p.networks
    ensures forall n <- names[..i] :: n in p.networks
    ensures forall n <- names[..i + 1] :: n in p.networks
    ensures var q := VisitAll(w, files, p, names[..i]);
      && VisitAll(w, files, p, names[..i + 1]) == (if q.ok then Visit(w, files, q, names[i]) else q)
      && (!q.ok ==> VisitAll(w, files, p, names) == q)
    decreases i
  {
    assert names[i] in names;
    assert forall n <- names[..i] :: n in names;
    assert forall n <- names[..i + 1] :: n in names;
    if i == 0 {
      assert names[..1] == [names[0]] && names[..1][1..] == [];
    } else if p.ok {
      assert names[0] in names;
      assert forall n <- names[1..] :: n in names;
      assert names[..i][1..] == names[1..][..i - 1] && names[..i + 1][1..] == names[1..][..i];
      VisitAllSplit(w, files, Visit(w, files, p, names[0]), names[1..], i - 1);
    }
  }

  lemma EmptyEnumeration(names: set<Name>)
    requires Enumerates([], names)
    ensures names == {}
  {
    var none: seq<Name> := [];
    assert forall n <- names :: n in none;
  }

  lemma EnumeratesTail(order: seq<Name>, names: set<Name>)
    requires order != [] && Enumerates(order, names)
    ensures Enumerates(order[1..], names - {order[0]})
  {
    forall n | n in names - {order[0]}
      ensures n in order[1..]
    {
      assert order == [order[0]] + order[1..];
    }
    forall n | n in order[1..]
      ensures n in names - {order[0]}
    {
      var i :| 0 <= i < |order[1..]| && order[1..][i] == n;
      assert order[i + 1] == n && order[0] != order[i + 1];
    }
  }

  // The second pass

  /** The unclaimed files, each as a network of its own. */
  function Adopted(dir: Directory, unclaimed: set<Name>): Networks
    requires forall f <- unclaimed :: f in dir && dir[f].Contacts?
  {
    map f | f in unclaimed :: Local(InDir(f), Some(dir[f].tree.genesis))
  }

  lemma AdoptFirst(w: World, dir: Directory, networks: Networks, unclaimed: set<Name>, f: Name)
    requires DirNamed(w, dir) && unclaimed <= FileNames(dir) && f in unclaimed
    ensures Adopt(w, dir, networks, f) + Adopted(dir, unclaimed - {f}) == networks + Adopted(dir, unclaimed)
  {
    assert Adopt(w, dir, networks, f) == networks[f := Local(InDir(f), Some(dir[f].tree.genesis))];
  }

  lemma {:induction false} AdoptAllIsMerge(w: World, dir: Directory, networks: Networks, claimed: set<Name>,
                                           files: seq<Name>, names: set<Name>)
    requires DirNamed(w, dir) && names <= FileNames(dir) && Enumerates(files, names)
    ensures AdoptAll(w, dir, networks, claimed, files) == networks + Adopted(dir, names - claimed)
    decreases files
  {
    if files == [] {
      EmptyEnumeration(names);
      assert networks + Adopted(dir, names - claimed) == networks;
    } else {
      var f := files[0];
      assert f in files;
      EnumeratesTail(files, names);
      var next := if f in claimed then networks else Adopt(w, dir, networks, f);
      AdoptAllIsMerge(w, dir, next, claimed, files[1..], names - {f});
      if f in claimed {
        assert names - {f} - claimed == names - claimed;
      } else {
        assert names - {f} - claimed == names - claimed - {f};
        AdoptFirst(w, dir, networks, names - claimed, f);
      }
    }
  }

  /** Which names the second pass adds, in any directory: those of the contacts in the unclaimed files. */
  lemma {:induction false} AdoptedNames(w: World, dir: Directory, networks: Networks, claimed: set<Name>,
                                        files: seq<Name>, n: Name)
    ensures n in AdoptAll(w, dir, networks, claimed, files) <==>
      n in networks || exists f :: f in files && IsAdoptedAs(w, dir, claimed, f, n)
    decreases files
  {
    if files != [] {
      var next := if files[0] in claimed then networks else Adopt(w, dir, networks, files[0]);
      AdoptedNames(w, dir, next, claimed, files[1..], n);
      assert files == [files[0]] + files[1..];
      assert n in next <==> n in networks || IsAdoptedAs(w, dir, claimed, files[0], n);
    }
  }

  ghost predicate IsAdoptedAs(w: World, dir: Directory, claimed: set<Name>, file: Name, n: Name) {
    file !in claimed && file in dir && dir[file].Contacts? && w.format(dir[file].tree.genesis) == n
  }

  lemma KeyFilesOfMerge(w: World, dir: Directory, networks: Networks, unclaimed: set<Name>)
    requires DirNamed(w, dir) && unclaimed <= FileNames(dir)
    ensures KeyFiles(w, networks + Adopted(dir, unclaimed)) == KeyFiles(w, networks - unclaimed) + unclaimed
  {
    var all := networks + Adopted(dir, unclaimed);
    forall f | f in KeyFiles(w, networks - unclaimed) + unclaimed
      ensures f in KeyFiles(w, all)
    {
      if f in unclaimed {
        assert all[f] == Local(InDir(f), Some(dir[f].tree.genesis));
      } else {
        var n :| n in networks - unclaimed && networks[n].key.Some? && w.format(networks[n].key.value) == f;
        assert all[n] == networks[n];
      }
    }
    forall f | f in KeyFiles(w, all)
      ensures f in KeyFiles(w, networks - unclaimed) + unclaimed
    {
      var n :| n in all && all[n].key.Some? && w.format(all[n].key.value) == f;
      if n in unclaimed {
        assert all[n] == Local(InDir(n), Some(dir[n].tree.genesis));
      } else {
        assert (networks - unclaimed)[n] == all[n];
      }
    }
  }

  // What one sync does

  /** What the first pass leaves: the networks that stay, and the files that no network claims. */
  function FirstPassOf(w: World, s: State, names: seq<Name>): Pass
    requires Enumerates(names, s.networks.Keys)
  {
    VisitAll(w, FileNames(s.dir), FirstPass(s), names)
  }

  lemma FirstPassInv(w: World, s: State, names: seq<Name>)
    requires w.Valid() && DirNamed(w, s.dir) && Enumerates(names, s.networks.Keys) && FirstPassOf(w, s, names).ok
    ensures var p := FirstPassOf(w, s, names);
      && NetworksInv(w, s, p, s.networks.Keys) && FilesInv(w, s, p, s.networks.Keys)
      && Kept(p, s.networks.Keys) == p.networks - p.removed
  {
    var p := FirstPass(s);
    var none: set<Name> := {};
    assert s.networks.Keys - none == s.networks.Keys;
    assert s.networks.Keys + none == s.networks.Keys;
    assert Kept(p, none) == map[];
    VisitAllInv(w, s, p, none, names);
    var q := FirstPassOf(w, s, names);
    assert Kept(q, s.networks.Keys) == q.networks - q.removed;
  }

  /** The networks after a sync, and the files they and the unclaimed files make up. */
  lemma SyncResult(w: World, s: State, names: seq<Name>, files: seq<Name>)
    requires w.Valid() && DirNamed(w, s.dir)
    requires Enumerates(names, s.networks.Keys) && Enumerates(files, FileNames(s.dir))
    requires Sync(w, s, names, files).ok
    ensures var p := FirstPassOf(w, s, names);
            var t := Sync(w, s, names, files).state;
            var kept := p.networks - p.removed;
            var unclaimed := FileNames(s.dir) - p.claimed;
      && DirNamed(w, t.dir) && unclaimed <= FileNames(t.dir)
      && t.networks == kept + Adopted(t.dir, unclaimed)
      && AllKeyed(kept)
      && FileNames(t.dir) == KeyFiles(w, kept) + unclaimed
      && KeyFiles(w, t.networks) == KeyFiles(w, kept - unclaimed) + unclaimed
  {
    FirstPassInv(w, s, names);
    var p := FirstPassOf(w, s, names);
    AdoptAllIsMerge(w, p.dir, p.networks - p.removed, p.claimed, files, FileNames(s.dir));
    KeyFilesOfMerge(w, p.dir, p.networks - p.removed, FileNames(s.dir) - p.claimed);
  }

  /** A network that stays is displaced when it bears the name of an unclaimed file. */
  ghost predicate EveryDisplacedFileIsHeld(w: World, kept: Networks, unclaimed: set<Name>) {
    forall n <- kept :: n in unclaimed && kept[n].key.Some? ==>
      w.format(kept[n].key.value) in unclaimed + KeyFiles(w, kept - unclaimed)
  }

  lemma KeyFilesSplit(w: World, networks: Networks, names: set<Name>)
    ensures KeyFiles(w, networks) <= names + KeyFiles(w, networks - names)
       <==> EveryDisplacedFileIsHeld(w, networks, names)
    ensures KeyFiles(w, networks - names) <= KeyFiles(w, networks)
  {
    var rest := networks - names;
    forall f | f in KeyFiles(w, rest)
      ensures f in KeyFiles(w, networks)
    {
      var n :| n in rest && rest[n].key.Some? && w.format(rest[n].key.value) == f;
      assert networks[n] == rest[n];
    }
    if EveryDisplacedFileIsHeld(w, networks, names) {
      forall f | f in KeyFiles(w, networks)
        ensures f in names + KeyFiles(w, rest)
      {
        var n :| n in networks && networks[n].key.Some? && w.format(networks[n].key.value) == f;
        if n !in names {
          assert rest[n] == networks[n];
        }
      }
    }
    if KeyFiles(w, networks) <= names + KeyFiles(w, rest) {
      forall n | n in networks && n in names && networks[n].key.Some?
        ensures w.format(networks[n].key.value) in names + KeyFiles(w, rest)
      {
        assert w.format(networks[n].key.value) in KeyFiles(w, networks);
      }
    }
  }

  /**
   * After every successful sync each network has a key that names a file. All files are accounted for if
   * and only if each network replaced by an unclaimed file leaves none behind, as the first pass left it.
   */
  lemma SyncReconcilesByPass(w: World, s: State, names: seq<Name>, files: seq<Name>)
    requires w.Valid() && DirNamed(w, s.dir)
    requires Enumerates(names, s.networks.Keys) && Enumerates(files, FileNames(s.dir))
    requires Sync(w, s, names, files).ok
    ensures var p := FirstPassOf(w, s, names);
            var t := Sync(w, s, names, files).state;
      && DirNamed(w, t.dir) && AllKeyed(t.networks) && KeyFiles(w, t.networks) <= FileNames(t.dir)
      && (IsReconciled(w, t) <==>
            EveryDisplacedFileIsHeld(w, p.networks - p.removed, FileNames(s.dir) - p.claimed))
  {
    SyncResult(w, s, names, files);
    var p := FirstPassOf(w, s, names);
    KeyFilesSplit(w, p.networks - p.removed, FileNames(s.dir) - p.claimed);
  }

  /** No network bears the name of a file unless its stored key is formatted to that name. */
  ghost predicate NamesRespected(w: World, s: State) {
    forall n <- s.networks :: n in FileNames(s.dir) ==>
      s.networks[n].key.Some? && w.format(s.networks[n].key.value) == n
  }

  /** One successful sync makes the formatted keys equal the file names. */
  lemma SyncReconciles(w: World, s: State, names: seq<Name>, files: seq<Name>)
    requires w.Valid() && DirNamed(w, s.dir) && NamesRespected(w, s)
    requires Enumerates(names, s.networks.Keys) && Enumerates(files, FileNames(s.dir))
    requires Sync(w, s, names, files).ok
    ensures IsReconciled(w, Sync(w, s, names, files).state)
  {
    SyncReconcilesByPass(w, s, names, files);
    FirstPassInv(w, s, names);
    var p := FirstPassOf(w, s, names);
    forall n | n in p.networks - p.removed && n in FileNames(s.dir) - p.claimed
      ensures false
    {
      assert Claims(w, FileNames(s.dir), s.networks[n]);
    }
  }

  // When sync succeeds

  lemma {:induction false} VisitAllSucceeds(w: World, files: set<Name>, networks: Networks, p: Pass, names: seq<Name>)
    requires p.ok && (forall n <- names :: n in p.networks && n in networks && p.networks[n] == networks[n])
    requires forall i, j :: 0 <= i < j < |names| ==> names[i] != names[j]
    ensures VisitAll(w, files, p, names).ok
       <==> forall n <- names :: Claims(w, files, networks[n]) || !BadUrl(w, networks[n])
    decreases names
  {
    if names != [] {
      var q := Visit(w, files, p, names[0]);
      assert names == [names[0]] + names[1..];
      if q.ok {
        VisitAllSucceeds(w, files, networks, q, names[1..]);
      }
    }
  }

  /** Sync fails if and only if some remote network without a file has a URL that does not parse. */
  lemma SyncSucceedsExactly(w: World, s: State, names: seq<Name>, files: seq<Name>)
    requires Enumerates(names, s.networks.Keys)
    ensures Sync(w, s, names, files).ok
       <==> forall n <- s.networks :: HasFile(w, s.dir, s.networks[n])
              || (s.networks[n].Remote? ==> w.isUrl(s.networks[n].url))
  {
    VisitAllSucceeds(w, FileNames(s.dir), s.networks, FirstPass(s), names);
  }

  // When sync has nothing to do

  lemma {:induction false} ClaimingPass(w: World, files: set<Name>, p: Pass, names: seq<Name>)
    requires p.ok && forall n <- names :: n in p.networks && Claims(w, files, p.networks[n])
    ensures var q := VisitAll(w, files, p, names);
      && q == p.(claimed := q.claimed) && p.claimed <= q.claimed
      && forall n <- names :: p.networks[n].key.Some? && w.format(p.networks[n].key.value) in q.claimed
    decreases names
  {
    if names != [] {
      assert names[0] in names;
      var next := Visit(w, files, p, names[0]);
      forall n | n in names[1..]
        ensures n in next.networks && Claims(w, files, next.networks[n])
      {
        assert n in names;
      }
      ClaimingPass(w, files, next, names[1..]);
      assert names == [names[0]] + names[1..];
    }
  }

  /** Each network has a key that names a file, as after every successful sync. */
  ghost predicate Settled(w: World, s: State) {
    DirNamed(w, s.dir) && AllKeyed(s.networks) && KeyFiles(w, s.networks) <= FileNames(s.dir)
  }

  lemma SettledPass(w: World, s: State, names: seq<Name>)
    requires w.Valid() && Settled(w, s) && Enumerates(names, s.networks.Keys)
    ensures var p := FirstPassOf(w, s, names);
      && p.ok && p.networks == s.networks && p.removed == {} && p.dir == s.dir
      && p.claimed == KeyFiles(w, s.networks)
  {
    var files := FileNames(s.dir);
    forall n | n in names
      ensures Claims(w, files, s.networks[n])
    {
      assert w.format(s.networks[n].key.value) in KeyFiles(w, s.networks);
    }
    ClaimingPass(w, files, FirstPass(s), names);
    var p := FirstPassOf(w, s, names);
    FirstPassInv(w, s, names);
    assert Kept(p, s.networks.Keys) == s.networks;
    forall f | f in KeyFiles(w, s.networks)
      ensures f in p.claimed
    {
      var n :| n in s.networks && s.networks[n].key.Some? && w.format(s.networks[n].key.value) == f;
      assert n in names;
    }
  }

  lemma ReconciledIsFixed(w: World, s: State, names: seq<Name>, files: seq<Name>)
    requires w.Valid() && DirNamed(w, s.dir) && IsReconciled(w, s)
    requires Enumerates(names, s.networks.Keys) && Enumerates(files, FileNames(s.dir))
    ensures Sync(w, s, names, files) == Outcome(s, true)
  {
    SettledPass(w, s, names);
    var p := FirstPassOf(w, s, names);
    AdoptAllIsMerge(w, s.dir, s.networks, p.claimed, files, FileNames(s.dir));
    var none: Networks := map[];
    assert Adopted(s.dir, FileNames(s.dir) - p.claimed) == none;
    assert s.networks - p.removed == s.networks;
    assert s.networks + none == s.networks;
  }

  lemma FixedIsReconciled(w: World, s: State, names: seq<Name>, files: seq<Name>)
    requires w.Valid() && DirNamed(w, s.dir)
    requires Enumerates(names, s.networks.Keys) && Enumerates(files, FileNames(s.dir))
    requires Sync(w, s, names, files) == Outcome(s, true)
    ensures IsReconciled(w, s)
  {
    SyncResult(w, s, names, files);
    FirstPassInv(w, s, names);
    var p := FirstPassOf(w, s, names);
    var unclaimed := FileNames(s.dir) - p.claimed;
    forall f | f in unclaimed
      ensures false
    {
      assert s.networks[f] == Adopted(s.dir, unclaimed)[f];
      assert Claims(w, FileNames(s.dir), s.networks[f]);
    }
    SyncReconcilesByPass(w, s, names, files);
  }

  /** Sync succeeds and changes nothing if and only if the settings and the directory agree already. */
  lemma SyncChangesNothingExactly(w: World, s: State, names: seq<Name>, files: seq<Name>)
    requires w.Valid() && DirNamed(w, s.dir)
    requires Enumerates(names, s.networks.Keys) && Enumerates(files, FileNames(s.dir))
    ensures Sync(w, s, names, files) == Outcome(s, true) <==> IsReconciled(w, s)
  {
    if IsReconciled(w, s) {
      ReconciledIsFixed(w, s, names, files);
    }
    if Sync(w, s, names, files) == Outcome(s, true) {
      FixedIsReconciled(w, s, names, files);
    }
  }

  /** After a sync that reconciled, a second one changes nothing, whatever the world has come to by then. */
  lemma SecondSyncChangesNothing(w: World, w2: World, s: State, names: seq<Name>, files: seq<Name>,
                                 names2: seq<Name>, files2: seq<Name>)
    requires w.Valid() && w2.format == w.format && DirNamed(w, s.dir) && NamesRespected(w, s)
    requires Enumerates(names, s.networks.Keys) && Enumerates(files, FileNames(s.dir))
    requires Sync(w, s, names, files).ok
    requires var t := Sync(w, s, names, files).state;
             Enumerates(names2, t.networks.Keys) && Enumerates(files2, FileNames(t.dir))
    ensures var t := Sync(w, s, names, files).state; Sync(w2, t, names2, files2) == Outcome(t, true)
  {
    SyncReconciles(w, s, names, files);
    SyncReconcilesByPass(w, s, names, files);
    var t := Sync(w, s, names, files).state;
    assert w2.Valid() && DirNamed(w2, t.dir) && IsReconciled(w2, t);
    SyncChangesNothingExactly(w2, t, names2, files2);
  }

  // Repeated syncs

  /** The networks that bear the name of a file which is not the one their key names. */
  function Misnamed(w: World, s: State): set<Name> {
    set n | n in s.networks && n in FileNames(s.dir)
            && !(s.networks[n].key.Some? && w.format(s.networks[n].key.value) == n)
  }

  ghost predicate SyncStep(w: World, s: State, t: State) {
    exists names, files ::
      && Enumerates(names, s.networks.Keys) && Enumerates(files, FileNames(s.dir))
      && Sync(w, s, names, files) == Outcome(t, true)
  }

  /** A network that was not in the settings before a sync bears the name of its own file. */
  lemma MisnamedWereThere(w: World, s: State, t: State)
    requires w.Valid() && DirNamed(w, s.dir) && SyncStep(w, s, t)
    ensures Settled(w, t) && Misnamed(w, t) <= s.networks.Keys
  {
    var names, files :| Enumerates(names, s.networks.Keys) && Enumerates(files, FileNames(s.dir))
                        && Sync(w, s, names, files) == Outcome(t, true);
    SyncReconcilesByPass(w, s, names, files);
    SyncResult(w, s, names, files);
    FirstPassInv(w, s, names);
  }

  lemma SettledSync(w: World, s: State, names: seq<Name>, files: seq<Name>)
    requires w.Valid() && Settled(w, s)
    requires Enumerates(names, s.networks.Keys) && Enumerates(files, FileNames(s.dir))
    ensures var unclaimed := FileNames(s.dir) - KeyFiles(w, s.networks);
            var t := State(s.networks + Adopted(s.dir, unclaimed), s.dir);
      && Sync(w, s, names, files) == Outcome(t, true) && Settled(w, t)
      && (IsReconciled(w, t) <==> EveryDisplacedFileIsHeld(w, s.networks, unclaimed))
  {
    SettledPass(w, s, names);
    assert s.networks - {} == s.networks;
    AdoptAllIsMerge(w, s.dir, s.networks, KeyFiles(w, s.networks), files, FileNames(s.dir));
    SyncReconcilesByPass(w, s, names, files);
  }

  lemma MisnamedAfterMerge(w: World, s: State, unclaimed: set<Name>)
    requires Settled(w, s) && unclaimed == FileNames(s.dir) - KeyFiles(w, s.networks)
    ensures var t := State(s.networks + Adopted(s.dir, unclaimed), s.dir);
            Misnamed(w, t) == Misnamed(w, s) - unclaimed
  {}

  lemma DisplacedIsMisnamed(w: World, s: State, unclaimed: set<Name>) returns (n: Name)
    requires Settled(w, s) && unclaimed == FileNames(s.dir) - KeyFiles(w, s.networks)
    requires !EveryDisplacedFileIsHeld(w, s.networks, unclaimed)
    ensures n in Misnamed(w, s) && n in unclaimed
  {
    n :| n in s.networks && n in unclaimed && s.networks[n].key.Some?
         && w.format(s.networks[n].key.value) !in unclaimed + KeyFiles(w, s.networks - unclaimed);
  }

  /** From a settled state a sync reconciles or leaves fewer misnamed networks. */
  lemma MisnamedShrink(w: World, s: State, t: State)
    requires w.Valid() && Settled(w, s) && SyncStep(w, s, t)
    ensures Settled(w, t)
    ensures IsReconciled(w, t) || Misnamed(w, t) < Misnamed(w, s)
  {
    var names, files :| Enumerates(names, s.networks.Keys) && Enumerates(files, FileNames(s.dir))
                        && Sync(w, s, names, files) == Outcome(t, true);
    SettledSync(w, s, names, files);
    var unclaimed := FileNames(s.dir) - KeyFiles(w, s.networks);
    MisnamedAfterMerge(w, s, unclaimed);
    if !EveryDisplacedFileIsHeld(w, s.networks, unclaimed) {
      var n := DisplacedIsMisnamed(w, s, unclaimed);
    }
  }

  ghost predicate IsSyncRun(worlds: seq<World>, states: seq<State>) {
    && |states| == |worlds| + 1
    && forall i :: 0 <= i < |worlds| ==> SyncStep(worlds[i], states[i], states[i + 1])
  }

  lemma ReconciledStays(w: World, s: State, t: State)
    requires w.Valid() && DirNamed(w, s.dir) && IsReconciled(w, s) && SyncStep(w, s, t)
    ensures t == s
  {
    var names, files :| Enumerates(names, s.networks.Keys) && Enumerates(files, FileNames(s.dir))
                        && Sync(w, s, names, files) == Outcome(t, true);
    ReconciledIsFixed(w, s, names, files);
  }

  /** The formatting of keys is all that these notions take from the world. */
  lemma SameFormat(w: World, v: World, s: State)
    requires w.Valid() && v.format == w.format
    ensures v.Valid() && (DirNamed(v, s.dir) <==> DirNamed(w, s.dir))
    ensures KeyFiles(v, s.networks) == KeyFiles(w, s.networks) && Misnamed(v, s) == Misnamed(w, s)
  {}

  lemma {:induction false} SettledRunReconciles(w: World, worlds: seq<World>, states: seq<State>)
    requires w.Valid() && IsSyncRun(worlds, states) && (forall v <- worlds :: v.format == w.format)
    requires Settled(w, states[0])
    requires IsReconciled(w, states[0]) || |worlds| > |Misnamed(w, states[0])|
    ensures IsReconciled(w, states[|states| - 1])
    decreases worlds
  {
    if worlds != [] {
      var v := worlds[0];
      var s, t := states[0], states[1];
      SameFormat(w, v, s);
      SameFormat(w, v, t);
      assert SyncStep(worlds[0], states[0], states[1]);
      if IsReconciled(w, s) {
        ReconciledStays(v, s, t);
      } else {
        MisnamedShrink(v, s, t);
        if !IsReconciled(w, t) {
          SmallerSet(Misnamed(w, t), Misnamed(w, s));
        }
      }
      RestOfRun(worlds, states);
      SettledRunReconciles(w, worlds[1..], states[1..]);
    }
  }

  lemma SmallerSet(a: set<Name>, b: set<Name>)
    requires a < b
    ensures |a| < |b|
  {
    var x :| x in b && x !in a;
    SubsetSize(a, b - {x});
  }

  lemma {:induction false} SubsetSize(a: set<Name>, b: set<Name>)
    requires a <= b
    ensures |a| <= |b|
  {
    if a != {} {
      var x :| x in a;
      SubsetSize(a - {x}, b - {x});
    }
  }

  lemma RestOfRun(worlds: seq<World>, states: seq<State>)
    requires IsSyncRun(worlds, states) && worlds != []
    ensures IsSyncRun(worlds[1..], states[1..])
  {
    forall i | 0 <= i < |worlds[1..]|
      ensures SyncStep(worlds[1..][i], states[1..][i], states[1..][i + 1])
    {
      assert SyncStep(worlds[i + 1], states[i + 1], states[i + 2]);
    }
  }

  /**
   * However the networks are named, repeating sync reconciles: with n networks at the start, n + 2
   * successful syncs are enough, whatever URLs and other files give in between.
   */
  lemma RepeatedSyncReconciles(w: World, worlds: seq<World>, states: seq<State>)
    requires w.Valid() && IsSyncRun(worlds, states) && (forall v <- worlds :: v.format == w.format)
    requires DirNamed(w, states[0].dir) && |worlds| >= |states[0].networks| + 2
    ensures IsReconciled(w, states[|states| - 1])
  {
    var v := worlds[0];
    var s, t := states[0], states[1];
    SameFormat(w, v, s);
    SameFormat(w, v, t);
    assert SyncStep(worlds[0], states[0], states[1]);
    MisnamedWereThere(v, s, t);
    SubsetSize(Misnamed(w, t), s.networks.Keys);
    RestOfRun(worlds, states);
    SettledRunReconciles(w, worlds[1..], states[1..]);
  }

  /** Without respected names one sync may leave a file that no network accounts for. */
  lemma DisplacedNetworkLeavesAFile(w: World, s: State)
    requires w.Valid() && w.format(1) == "a" && w.format(2) == "b" && w.elsewhere("x") == Some(Tree(2, 0))
    requires s == State(map["a" := Local(Elsewhere("x"), None)], map["a" := Contacts(Tree(1, 0))])
    ensures DirNamed(w, s.dir) && Enumerates(["a"], s.networks.Keys) && Enumerates(["a"], FileNames(s.dir))
    ensures Sync(w, s, ["a"], ["a"]).ok && !IsReconciled(w, Sync(w, s, ["a"], ["a"]).state)
  {
    var p := FirstPass(s);
    var files := FileNames(s.dir);
    assert files == {"a"};
    var info := Local(Elsewhere("x"), Some(2));
    var q := Visit(w, files, p, "a");
    assert q == Pass(map["a" := info], s.dir["b" := Contacts(Tree(2, 0))], {}, {}, true);
    assert VisitAll(w, files, p, ["a"]) == q;
    assert q.networks - q.removed == q.networks;
    var t := Sync(w, s, ["a"], ["a"]).state;
    assert t.networks == map["a" := Local(InDir("a"), Some(1))];
    assert "b" in FileNames(t.dir);
    assert "b" !in KeyFiles(w, t.networks);
  }
}
