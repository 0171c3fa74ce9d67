/** The table of links that the communication loop keeps, over runs of received commands. */
module CommLinks {
  import opened Wrappers
  import opened Ordered

  type NodeId = nat

  /** A link owns one connection cache; its number tells it from every link ever made. */
  type LinkId = nat

  datatype Table = Table(links: map<NodeId, LinkId>, made: nat)

  datatype Command =
    | Send(node: NodeId)
    | SetTargets(targets: set<NodeId>)
    | SendAndReturnResponse(node: NodeId)
    | SendAndRespondOnStream(nodes: set<NodeId>)

  function Retain(links: map<NodeId, LinkId>, targets: set<NodeId>): map<NodeId, LinkId> {
    map n | n in links && n in targets :: links[n]
  }

  function AddLink(t: Table, n: NodeId): Table {
    if n in t.links then t else Table(t.links[n := t.made], t.made + 1)
  }

  function AddLinks(t: Table, nodes: seq<NodeId>): Table
    decreases nodes
  {
    if nodes == [] then t else AddLinks(AddLink(t, nodes[0]), nodes[1..])
  }

  function Step(t: Table, cmd: Command): Table {
    match cmd
    case SetTargets(targets) => AddLinks(Table(Retain(t.links, targets), t.made), Sorted(targets))
    case _ => t
  }

  function Run(t: Table, cmds: seq<Command>): Table
    decreases cmds
  {
    if cmds == [] then t else Run(Step(t, cmds[0]), cmds[1..])
  }

  /** The nodes that a command is sent to. */
  function Addressed(cmd: Command): set<NodeId> {
    match cmd
    case Send(n) => {n}
    case SendAndReturnResponse(n) => {n}
    case SendAndRespondOnStream(nodes) => nodes
    case SetTargets(_) => {}
  }

  /** The nodes for which a command is answered by an unknown-node error. */
  function Unknown(t: Table, cmd: Command): set<NodeId> {
    Addressed(cmd) - t.links.Keys
  }

  // What the commands alone say

  function LastTargets(initial: set<NodeId>, cmds: seq<Command>): set<NodeId> {
    if cmds == [] then initial
    else
      var last := cmds[|cmds| - 1];
      if last.SetTargets? then last.targets else LastTargets(initial, cmds[..|cmds| - 1])
  }

  /** The last command that sets targets. */
  ghost predicate IsLastSetting(cmds: seq<Command>, j: int) {
    0 <= j < |cmds| && cmds[j].SetTargets? && forall i :: j < i < |cmds| ==> !cmds[i].SetTargets?
  }

  lemma {:induction false} LastTargetsExactly(initial: set<NodeId>, cmds: seq<Command>, j: int)
    ensures IsLastSetting(cmds, j) ==> LastTargets(initial, cmds) == cmds[j].targets
    ensures (forall i :: 0 <= i < |cmds| ==> !cmds[i].SetTargets?) ==> LastTargets(initial, cmds) == initial
    decreases |cmds|
  {
    if cmds != [] {
      LastTargetsExactly(initial, cmds[..|cmds| - 1], j);
    }
  }

  ghost predicate StaysTarget(n: NodeId, cmds: seq<Command>) {
    forall i :: 0 <= i < |cmds| && cmds[i].SetTargets? ==> n in cmds[i].targets
  }

  /** Every link in the table was made before. */
  ghost predicate Valid(t: Table) {
    forall n <- t.links :: t.links[n] < t.made
  }

  // Proofs

  /** `u` has the nodes of `t` with their links, and for the other nodes of `nodes` links that are new. */
  ghost predicate Extends(t: Table, u: Table, nodes: set<NodeId>) {
    && Valid(u) && t.made <= u.made && u.links.Keys == t.links.Keys + nodes
    && forall n <- u.links :: if n in t.links then u.links[n] == t.links[n] else t.made <= u.links[n]
  }

  function Members(nodes: seq<NodeId>): set<NodeId> {
    set n | n in nodes
  }

  lemma MembersAppend(nodes: seq<NodeId>, n: NodeId)
    ensures Members(nodes + [n]) == Members(nodes) + {n}
  {}

  lemma ExtendsTwice(t: Table, u: Table, v: Table, a: set<NodeId>, b: set<NodeId>)
    requires Valid(t) && Extends(t, u, a) && Extends(u, v, b)
    ensures Extends(t, v, a + b)
  {}

  lemma {:induction false} AddLinksExtends(t: Table, nodes: seq<NodeId>)
    requires Valid(t)
    ensures Extends(t, AddLinks(t, nodes), Members(nodes))
    decreases nodes
  {
    if nodes == [] {
      assert t.links.Keys + Members(nodes) == t.links.Keys;
    } else {
      var u := AddLink(t, nodes[0]);
      assert Extends(t, u, {nodes[0]});
      AddLinksExtends(u, nodes[1..]);
      ExtendsTwice(t, u, AddLinks(u, nodes[1..]), {nodes[0]}, Members(nodes[1..]));
      assert nodes == [nodes[0]] + nodes[1..];
      assert Members(nodes) == {nodes[0]} + Members(nodes[1..]);
    }
  }

  /** `u` has exactly the targets, with old links for those that had one and new links for the rest. */
  ghost predicate Retargets(t: Table, u: Table, targets: set<NodeId>) {
    && Valid(u) && t.made <= u.made && u.links.Keys == targets
    && forall n <- u.links :: if n in t.links then u.links[n] == t.links[n] else t.made <= u.links[n]
  }

  lemma RetainThenExtend(t: Table, r: Table, u: Table, targets: set<NodeId>)
    requires Valid(t) && r == Table(Retain(t.links, targets), t.made) && Extends(r, u, targets)
    ensures Retargets(t, u, targets)
  {
    assert r.links.Keys <= targets;
    assert forall n <- targets :: n in r.links <==> n in t.links;
    assert u.links.Keys == targets;
  }

  lemma SetTargetsResult(t: Table, targets: set<NodeId>)
    requires Valid(t)
    ensures Retargets(t, Step(t, SetTargets(targets)), targets)
  {
    var r := Table(Retain(t.links, targets), t.made);
    var order := Sorted(targets);
    assert Members(order) == targets;
    AddLinksExtends(r, order);
    RetainThenExtend(t, r, AddLinks(r, order), targets);
  }

  lemma StepResult(t: Table, cmd: Command)
    requires Valid(t)
    ensures Valid(Step(t, cmd)) && t.made <= Step(t, cmd).made
    ensures cmd.SetTargets? ==> Step(t, cmd).links.Keys == cmd.targets
    ensures !cmd.SetTargets? ==> Step(t, cmd) == t
    ensures forall n <- Step(t, cmd).links ::
      if n in t.links then Step(t, cmd).links[n] == t.links[n] else t.made <= Step(t, cmd).links[n]
  {
    if cmd.SetTargets? {
      SetTargetsResult(t, cmd.targets);
    }
  }

  lemma {:induction false} RunAppend(t: Table, cmds: seq<Command>, last: Command)
    ensures Run(t, cmds + [last]) == Step(Run(t, cmds), last)
    decreases cmds
  {
    if cmds == [] {
      assert (cmds + [last])[1..] == [];
    } else {
      assert (cmds + [last])[1..] == cmds[1..] + [last];
      RunAppend(Step(t, cmds[0]), cmds[1..], last);
    }
  }

  lemma {:induction false} RunIsValid(t: Table, cmds: seq<Command>)
    requires Valid(t)
    ensures Valid(Run(t, cmds)) && t.made <= Run(t, cmds).made
    decreases cmds
  {
    if cmds != [] {
      StepResult(t, cmds[0]);
      RunIsValid(Step(t, cmds[0]), cmds[1..]);
    }
  }

  lemma {:induction false} KeysFollowTargets(t: Table, cmds: seq<Command>)
    requires Valid(t)
    ensures Run(t, cmds).links.Keys == LastTargets(t.links.Keys, cmds)
    decreases |cmds|
  {
    if cmds != [] {
      var init, last := cmds[..|cmds| - 1], cmds[|cmds| - 1];
      assert cmds == init + [last];
      RunAppend(t, init, last);
      RunIsValid(t, init);
      StepResult(Run(t, init), last);
      KeysFollowTargets(t, init);
    }
  }

  /** After every command sequence the nodes with a link are the last targets, or the first ones if none were set. */
  lemma KeysAreLastTargets(t: Table, cmds: seq<Command>, j: int)
    requires Valid(t)
    ensures IsLastSetting(cmds, j) ==> Run(t, cmds).links.Keys == cmds[j].targets
    ensures (forall i :: 0 <= i < |cmds| ==> !cmds[i].SetTargets?) ==> Run(t, cmds).links.Keys == t.links.Keys
  {
    KeysFollowTargets(t, cmds);
    LastTargetsExactly(t.links.Keys, cmds, j);
  }

  ghost predicate IsAddressed(cmd: Command, n: NodeId) {
    match cmd
    case Send(m) => n == m
    case SendAndReturnResponse(m) => n == m
    case SendAndRespondOnStream(nodes) => n in nodes
    case SetTargets(_) => false
  }

  /** A command is answered by an unknown-node error exactly for the addressed nodes that are no targets. */
  lemma UnknownAreNoTargets(t: Table, cmds: seq<Command>, cmd: Command, n: NodeId)
    requires Valid(t)
    ensures n in Unknown(Run(t, cmds), cmd) <==> IsAddressed(cmd, n) && n !in LastTargets(t.links.Keys, cmds)
  {
    KeysFollowTargets(t, cmds);
  }

  /** A link that is not the one from before is newer than all links from before, for the rest of the run. */
  lemma {:induction false} NewLinksAreNew(t: Table, cmds: seq<Command>, n: NodeId, made: nat)
    requires Valid(t) && made <= t.made && (n in t.links ==> made <= t.links[n])
    ensures n in Run(t, cmds).links ==> made <= Run(t, cmds).links[n]
    decreases cmds
  {
    if cmds != [] {
      StepResult(t, cmds[0]);
      NewLinksAreNew(Step(t, cmds[0]), cmds[1..], n, made);
    }
  }

  /** A node has the link and the cache it had before if and only if it was in every target set since. */
  lemma {:induction false} LinkIsKeptExactly(t: Table, cmds: seq<Command>, n: NodeId)
    requires Valid(t) && n in t.links
    ensures (n in Run(t, cmds).links && Run(t, cmds).links[n] == t.links[n]) <==> StaysTarget(n, cmds)
    decreases cmds
  {
    if cmds != [] {
      var next := Step(t, cmds[0]);
      StepResult(t, cmds[0]);
      assert cmds == [cmds[0]] + cmds[1..];
      if n in next.links {
        LinkIsKeptExactly(next, cmds[1..], n);
        StaysStep(n, cmds);
      } else {
        NewLinksAreNew(next, cmds[1..], n, t.made);
        assert cmds[0].SetTargets? && n !in cmds[0].targets;
      }
    }
  }

  lemma StaysStep(n: NodeId, cmds: seq<Command>)
    requires cmds != []
    ensures StaysTarget(n, cmds) <==> (cmds[0].SetTargets? ==> n in cmds[0].targets) && StaysTarget(n, cmds[1..])
  {
    if (cmds[0].SetTargets? ==> n in cmds[0].targets) && StaysTarget(n, cmds[1..]) {
      forall i | 0 <= i < |cmds| && cmds[i].SetTargets?
        ensures n in cmds[i].targets
      {
        assert i > 0 ==> cmds[1..][i - 1] == cmds[i];
      }
    }
  }

  // The loop

  lemma {:induction false} AddLinksAppend(t: Table, nodes: seq<NodeId>, i: nat)
    requires i < |nodes|
    ensures AddLinks(t, nodes[..i + 1]) == AddLink(AddLinks(t, nodes[..i]), nodes[i])
    decreases i
  {
    if i == 0 {
      assert nodes[..1][1..] == [];
    } else {
      assert nodes[..i][1..] == nodes[1..][..i - 1] && nodes[..i + 1][1..] == nodes[1..][..i];
      AddLinksAppend(AddLink(t, nodes[0]), nodes[1..], i - 1);
    }
  }

  class CommLoop {
    var links: map<NodeId, LinkId>
    var made: nat

    constructor ()
      ensures Value() == Table(map[], 0) && Valid(Value())
    {
      links, made := map[], 0;
    }

    ghost function Value(): Table
      reads this
    {
      Table(links, made)
    }

    method AddNewLinks(order: seq<NodeId>)
      modifies this
      ensures Value() == AddLinks(old(Value()), order)
    {
      ghost var start := Value();
      for i := 0 to |order|
        invariant Value() == AddLinks(start, order[..i])
      {
        AddLinksAppend(start, order, i);
        if order[i] !in links {
          links := links[order[i] := made];
          made := made + 1;
        }
      }
      assert order[..|order|] == order;
    }

    method SetLinks(targets: set<NodeId>)
      requires Valid(Value())
      modifies this
      ensures Value() == Step(old(Value()), SetTargets(targets))
      ensures Retargets(old(Value()), Value(), targets)
    {
      SetTargetsResult(Value(), targets);
      links := Retain(links, targets);
      AddNewLinks(Sorted(targets));
    }

    method GetLink(n: NodeId) returns (link: Option<LinkId>)
      ensures link == if n in links then Some(links[n]) else None
    {
      if n in links {
        return Some(links[n]);
      }
      link := None;
    }

    /** The nodes of a command without a link, each of which is reported. */
    method LookUp(order: seq<NodeId>) returns (unknown: seq<NodeId>)
      ensures Members(unknown) == Members(order) - links.Keys
    {
      unknown := [];
      for i := 0 to |order|
        invariant Members(unknown) == Members(order[..i]) - links.Keys
      {
        var link := GetLink(order[i]);
        assert order[..i + 1] == order[..i] + [order[i]];
        MembersAppend(order[..i], order[i]);
        MembersAppend(unknown, order[i]);
        if link.None? {
          unknown := unknown + [order[i]];
        }
      }
      assert order[..|order|] == order;
    }

    /** One command of the loop, with the nodes that are reported as unknown. */
    method Process(cmd: Command) returns (unknown: seq<NodeId>)
      requires Valid(Value())
      modifies this
      ensures Value() == Step(old(Value()), cmd) && Valid(Value())
      ensures Members(unknown) == Unknown(old(Value()), cmd)
      ensures forall n :: n in unknown <==> IsAddressed(cmd, n) && n !in old(links)
    {
      StepResult(Value(), cmd);
      assert forall n :: n in Unknown(Value(), cmd) <==> IsAddressed(cmd, n) && n !in links;
      match cmd {
        case SetTargets(targets) =>
          SetLinks(targets);
          unknown := [];
        case Send(n) => unknown := LookUp([n]);
        case SendAndReturnResponse(n) => unknown := LookUp([n]);
        case SendAndRespondOnStream(nodes) =>
          assert Members(Sorted(nodes)) == nodes;
          unknown := LookUp(Sorted(nodes));
      }
    }
  }
}
