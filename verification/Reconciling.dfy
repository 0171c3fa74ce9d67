/** What the operations on the settings and on the directory of network contacts do, as functions. */
module Reconciling {
  import opened Wrappers

  type Name = string
  type Key = nat

  /** The contacts of a network; `contents` stands for what lies below the genesis key. */
  datatype Tree = Tree(genesis: Key, contents: nat)

  /** A file of the directory: contacts, or something that does not parse as contacts. */
  datatype File = Contacts(tree: Tree) | Junk

  /** A path is a file of the contacts directory, or lies elsewhere. */
  datatype Path = InDir(file: Name) | Elsewhere(path: string)

  datatype NetworkInfo =
    | Local(path: Path, key: Option<Key>)
    | Remote(url: string, key: Option<Key>)

  const DEFAULT: Name := "default"

  /** The world outside: how keys are formatted, what other files and what URLs give. */
  datatype World = World(
    format: Key -> Name,
    elsewhere: string -> Option<Tree>,
    isUrl: string -> bool,
    remote: string -> Option<Tree>)
  {
    ghost predicate Valid() {
      forall k :: format(k) != DEFAULT
    }
  }

  type Networks = map<Name, NetworkInfo>
  type Directory = map<Name, File>

  datatype State = State(networks: Networks, dir: Directory)

  datatype Outcome = Outcome(state: State, ok: bool)

  function FileNames(dir: Directory): set<Name> {
    dir.Keys - {DEFAULT}
  }

  function ReadLocal(w: World, dir: Directory, path: Path): Option<Tree> {
    match path
    case InDir(f) => if f in dir && dir[f].Contacts? then Some(dir[f].tree) else None
    case Elsewhere(p) => w.elsewhere(p)
  }

  predicate BadUrl(w: World, info: NetworkInfo) {
    info.Remote? && !w.isUrl(info.url)
  }

  function Retrieve(w: World, dir: Directory, info: NetworkInfo): Option<Tree> {
    match info
    case Local(path, _) => ReadLocal(w, dir, path)
    case Remote(url, _) => w.remote(url)
  }

  function Write(w: World, dir: Directory, tree: Tree): Directory {
    dir[w.format(tree.genesis) := Contacts(tree)]
  }

  // Adding, removing, switching and clearing

  function Add(w: World, s: State, name: Name, info: NetworkInfo): Outcome {
    if BadUrl(w, info) then Outcome(s, false)
    else
      match Retrieve(w, s.dir, info)
      case None => Outcome(s, false)
      case Some(tree) =>
        Outcome(State(s.networks[name := info.(key := Some(tree.genesis))], Write(w, s.dir, tree)), true)
  }

  function Remove(w: World, s: State, name: Name): Outcome {
    var dir :=
      if name in s.networks && s.networks[name].key.Some?
      then s.dir - {w.format(s.networks[name].key.value)}
      else s.dir;
    Outcome(State(s.networks - {name}, dir - {DEFAULT}), true)
  }

  function Clear(): Outcome {
    Outcome(State(map[], map[]), true)
  }

  /** The contacts in the default file are first saved under their own name. */
  function SaveDefault(w: World, dir: Directory): Directory {
    match ReadLocal(w, dir, InDir(DEFAULT))
    case Some(tree) => Write(w, dir, tree)
    case None => dir
  }

  function SwitchTo(w: World, s: State, name: Name): Outcome {
    if name !in s.networks || s.networks[name].key.None? then Outcome(s, false)
    else
      var file := w.format(s.networks[name].key.value);
      var dir := SaveDefault(w, s.dir) - {DEFAULT};
      if file in dir then Outcome(State(s.networks, dir[DEFAULT := dir[file]]), true)
      else Outcome(State(s.networks, dir), false)
  }

  // Sync, first pass: look at every network of the settings

  datatype Pass = Pass(networks: Networks, dir: Directory, claimed: set<Name>, removed: set<Name>, ok: bool)

  /** Whether the key stored with a network names one of the files found at the start. */
  predicate Claims(w: World, files: set<Name>, info: NetworkInfo) {
    info.key.Some? && w.format(info.key.value) in files
  }

  function Visit(w: World, files: set<Name>, p: Pass, name: Name): Pass
    requires name in p.networks
  {
    var info := p.networks[name];
    if Claims(w, files, info) then p.(claimed := p.claimed + {w.format(info.key.value)})
    else if BadUrl(w, info) then p.(ok := false)
    else
      match Retrieve(w, p.dir, info)
      case None => p.(removed := p.removed + {name})
      case Some(tree) =>
        p.(networks := p.networks[name := info.(key := Some(tree.genesis))], dir := Write(w, p.dir, tree))
  }

  /** All the names visited, up to the first URL that does not parse. */
  function VisitAll(w: World, files: set<Name>, p: Pass, names: seq<Name>): (r: Pass)
    requires forall n <- names :: n in p.networks
    ensures r.networks.Keys == p.networks.Keys
    decreases names
  {
    if names == [] || !p.ok then p
    else VisitAll(w, files, Visit(w, files, p, names[0]), names[1..])
  }

  function FirstPass(s: State): Pass {
    Pass(s.networks, s.dir, {}, {}, true)
  }

  // Sync, second pass: adopt the files that no network claims

  function Adopt(w: World, dir: Directory, networks: Networks, file: Name): Networks {
    match ReadLocal(w, dir, InDir(file))
    case None => networks
    case Some(tree) => networks[w.format(tree.genesis) := Local(InDir(file), Some(tree.genesis))]
  }

  function AdoptAll(w: World, dir: Directory, networks: Networks, claimed: set<Name>, files: seq<Name>): Networks
    decreases files
  {
    if files == [] then networks
    else
      AdoptAll(w, dir, if files[0] in claimed then networks else Adopt(w, dir, networks, files[0]), claimed, files[1..])
  }

  ghost predicate Enumerates(order: seq<Name>, names: set<Name>) {
    && (forall n <- order :: n in names)
    && (forall n <- names :: n in order)
    && forall i, j :: 0 <= i < j < |order| ==> order[i] != order[j]
  }

  /** One run of sync, in any order of the networks and of the files. */
  function Sync(w: World, s: State, names: seq<Name>, files: seq<Name>): Outcome
    requires Enumerates(names, s.networks.Keys)
  {
    var p := VisitAll(w, FileNames(s.dir), FirstPass(s), names);
    if !p.ok then Outcome(State(p.networks, p.dir), false)
    else Outcome(State(AdoptAll(w, p.dir, p.networks - p.removed, p.claimed, files), p.dir), true)
  }
}
