/**
  Bi-stream sends over the connection cache of a link to one node.

  Any number of sends share the cache. Each send loops: take some cached connection, or open a new one if
  the cache is empty; try it in three stages; on failure remove it, and give up only if it was a new one.
  Everything between two awaits of the source is one step here, the environment picks every outcome, and
  newly opened connections bear ids never used before.
 */
module NodeLink {
  import opened Wrappers

  type ConnId = nat

  datatype LinkError = ConnectionError | SendError | RecvError

  /** How far the attempt on a connection has come. */
  datatype Stage = Opening | Sending | Receiving

  datatype Phase =
    | Looking
    | Connecting
    | Trying(conn: ConnId, isLastAttempt: bool, stage: Stage)
    | Finished(outcome: Result<ConnId, LinkError>)

  /** A send, with the connections it has tried so far and the ones it has created. */
  datatype Send = Send(phase: Phase, tried: seq<ConnId>, created: seq<ConnId>)

  datatype Link = Link(cache: set<ConnId>, next: ConnId, sends: seq<Send>)

  /** What happens in one step of one send. */
  datatype Event =
    | TakeCached(conn: ConnId)
    | StartConnect
    | ConnectFails
    | ConnectSucceeds
    | StageSucceeds
    | StageFails

  datatype Action = Action(send: nat, event: Event)

  function ErrorAt(stage: Stage): LinkError {
    match stage
    case Opening => ConnectionError
    case Sending => SendError
    case Receiving => RecvError
  }

  predicate Enabled(s: Link, a: Action) {
    && a.send < |s.sends|
    && var phase := s.sends[a.send].phase;
       match a.event
       case TakeCached(conn) => phase.Looking? && conn in s.cache
       case StartConnect => phase.Looking? && s.cache == {}
       case ConnectFails => phase.Connecting?
       case ConnectSucceeds => phase.Connecting?
       case StageSucceeds => phase.Trying?
       case StageFails => phase.Trying?
  }

  function Take(s: Link, a: Action): Link
    requires Enabled(s, a)
  {
    var i, me := a.send, s.sends[a.send];
    match a.event
    case TakeCached(conn) =>
      s.(sends := s.sends[i := me.(phase := Trying(conn, false, Opening), tried := me.tried + [conn])])
    case StartConnect =>
      s.(sends := s.sends[i := me.(phase := Connecting)])
    case ConnectFails =>
      s.(sends := s.sends[i := me.(phase := Finished(Err(ConnectionError)))])
    case ConnectSucceeds =>
      Link(s.cache + {s.next}, s.next + 1,
           s.sends[i := Send(Trying(s.next, true, Opening), me.tried + [s.next], me.created + [s.next])])
    case StageSucceeds =>
      var phase := match me.phase.stage
        case Opening => me.phase.(stage := Sending)
        case Sending => me.phase.(stage := Receiving)
        case Receiving => Finished(Ok(me.phase.conn));
      s.(sends := s.sends[i := me.(phase := phase)])
    case StageFails =>
      var phase := if me.phase.isLastAttempt then Finished(Err(ErrorAt(me.phase.stage))) else Looking;
      s.(cache := s.cache - {me.phase.conn}, sends := s.sends[i := me.(phase := phase)])
  }

  /** `k` sends about to start over a cache of connections whose ids are all in use already. */
  ghost predicate Start(s: Link, k: nat) {
    && |s.sends| == k
    && (forall c :: c in s.cache ==> c < s.next)
    && forall i :: 0 <= i < k ==> s.sends[i] == Send(Looking, [], [])
  }

  ghost predicate IsRun(s: Link, actions: seq<Action>)
    decreases actions
  {
    actions != [] ==> Enabled(s, actions[0]) && IsRun(Take(s, actions[0]), actions[1..])
  }

  function RunFrom(s: Link, actions: seq<Action>): Link
    requires IsRun(s, actions)
    decreases actions
  {
    if actions == [] then s else RunFrom(Take(s, actions[0]), actions[1..])
  }

  // What every step keeps

  ghost predicate Distinct(s: seq<ConnId>) {
    forall i, j :: 0 <= i < j < |s| ==> s[i] != s[j]
  }

  /** The connection in hand, if any, is the last one tried; every other one tried has left the cache for good. */
  ghost predicate SendInv(s: Link, me: Send) {
    && Distinct(me.tried)
    && (forall i :: 0 <= i < |me.tried| ==> me.tried[i] < s.next)
    && (me.phase.Looking? || me.phase.Connecting? ==> forall i :: 0 <= i < |me.tried| ==> me.tried[i] !in s.cache)
    && (me.phase.Trying? ==>
          && me.tried != [] && me.tried[|me.tried| - 1] == me.phase.conn
          && forall i :: 0 <= i < |me.tried| - 1 ==> me.tried[i] !in s.cache)
    && |me.created| <= 1
    && (me.created != [] ==> me.phase.Finished? || (me.phase.Trying? && me.phase.isLastAttempt))
  }

  ghost predicate Inv(s: Link) {
    && (forall c :: c in s.cache ==> c < s.next)
    && forall i :: 0 <= i < |s.sends| ==> SendInv(s, s.sends[i])
  }

  lemma AppendDistinct(s: seq<ConnId>, c: ConnId)
    requires Distinct(s) && c !in s
    ensures Distinct(s + [c])
  {}

  lemma StepOfOther(s: Link, a: Action, i: nat)
    requires Inv(s) && Enabled(s, a) && i < |s.sends| && i != a.send
    ensures SendInv(Take(s, a), s.sends[i])
  {
    assert SendInv(s, s.sends[i]);
  }

  lemma StepOfSelf(s: Link, a: Action)
    requires Inv(s) && Enabled(s, a)
    ensures SendInv(Take(s, a), Take(s, a).sends[a.send])
  {
    var me := s.sends[a.send];
    assert SendInv(s, me);
    match a.event
    case TakeCached(conn) => AppendDistinct(me.tried, conn);
    case ConnectSucceeds => AppendDistinct(me.tried, s.next);
    case _ =>
  }

  lemma StepKeepsInv(s: Link, a: Action)
    requires Inv(s) && Enabled(s, a)
    ensures Inv(Take(s, a))
  {
    var t := Take(s, a);
    forall i | 0 <= i < |t.sends|
      ensures SendInv(t, t.sends[i])
    {
      if i == a.send {
        StepOfSelf(s, a);
      } else {
        StepOfOther(s, a, i);
      }
    }
  }

  // Where connection ids come from

  /** How many connections the sends have created together. */
  function TotalCreated(sends: seq<Send>): nat {
    if sends == [] then 0 else TotalCreated(sends[..|sends| - 1]) + |sends[|sends| - 1].created|
  }

  lemma {:induction false} TotalCreatedUpdate(sends: seq<Send>, i: nat, me: Send)
    requires i < |sends|
    ensures TotalCreated(sends[i := me]) == TotalCreated(sends) - |sends[i].created| + |me.created|
  {
    var k := |sends| - 1;
    if i < k {
      TotalCreatedUpdate(sends[..k], i, me);
      assert sends[i := me][..k] == sends[..k][i := me];
    } else {
      assert sends[i := me][..k] == sends[..k];
    }
  }

  lemma {:induction false} TotalCreatedAtMostOneEach(sends: seq<Send>)
    requires forall i :: 0 <= i < |sends| ==> |sends[i].created| <= 1
    ensures TotalCreated(sends) <= |sends|
  {
    if sends != [] {
      TotalCreatedAtMostOneEach(sends[..|sends| - 1]);
    }
  }

  /** An id that was cached at the start or handed out since. */
  predicate Known(init: Link, s: Link, c: ConnId) {
    c in init.cache || init.next <= c < s.next
  }

  ghost predicate Origins(init: Link, s: Link) {
    && s.next == init.next + TotalCreated(s.sends)
    && (forall c :: c in s.cache ==> Known(init, s, c))
    && forall i, j :: 0 <= i < |s.sends| && 0 <= j < |s.sends[i].tried| ==> Known(init, s, s.sends[i].tried[j])
  }

  lemma StepKeepsOrigins(init: Link, s: Link, a: Action)
    requires Origins(init, s) && Enabled(s, a)
    ensures Origins(init, Take(s, a))
  {
    var t := Take(s, a);
    TotalCreatedUpdate(s.sends, a.send, t.sends[a.send]);
    assert t.sends == s.sends[a.send := t.sends[a.send]];
    forall i, j | 0 <= i < |t.sends| && 0 <= j < |t.sends[i].tried|
      ensures Known(init, t, t.sends[i].tried[j])
    {
      if i != a.send || j < |s.sends[i].tried| {
        assert t.sends[i].tried[j] == s.sends[i].tried[j];
        assert Known(init, s, s.sends[i].tried[j]);
      }
    }
  }

  // What is left in the cache

  /** The send tried the connection, and neither has it in hand nor got its response over it. */
  predicate FailedFor(me: Send, c: ConnId) {
    c in me.tried && !(me.phase.Trying? && me.phase.conn == c) && me.phase != Finished(Ok(c))
  }

  ghost predicate Failed(s: Link, c: ConnId) {
    exists i :: 0 <= i < |s.sends| && FailedFor(s.sends[i], c)
  }

  ghost predicate Opened(s: Link, c: ConnId) {
    exists i :: 0 <= i < |s.sends| && c in s.sends[i].created
  }

  /** Cached are the connections of the start and those opened since, except those on which some send failed. */
  ghost predicate CacheIs(init: Link, s: Link) {
    forall c :: c in s.cache <==> (c in init.cache || Opened(s, c)) && !Failed(s, c)
  }

  lemma OpenedStep(s: Link, a: Action, c: ConnId)
    requires Enabled(s, a)
    ensures Opened(Take(s, a), c) <==> Opened(s, c) || (a.event.ConnectSucceeds? && c == s.next)
  {
    var t := Take(s, a);
    assert forall i :: 0 <= i < |s.sends| && i != a.send ==> t.sends[i] == s.sends[i];
    if Opened(s, c) {
      var i :| 0 <= i < |s.sends| && c in s.sends[i].created;
      assert c in t.sends[i].created;
    }
    if a.event.ConnectSucceeds? && c == s.next {
      assert c in t.sends[a.send].created;
    }
  }

  lemma FailedForStep(s: Link, a: Action, c: ConnId)
    requires Inv(s) && Enabled(s, a) && (a.event.TakeCached? ==> !FailedFor(s.sends[a.send], a.event.conn))
    ensures FailedFor(Take(s, a).sends[a.send], c)
       <==> FailedFor(s.sends[a.send], c) || (a.event.StageFails? && c == s.sends[a.send].phase.conn)
  {
    assert SendInv(s, s.sends[a.send]);
  }

  lemma FailedStep(s: Link, a: Action, c: ConnId)
    requires Inv(s) && Enabled(s, a) && (a.event.TakeCached? ==> !Failed(s, a.event.conn))
    ensures Failed(Take(s, a), c) <==> Failed(s, c) || (a.event.StageFails? && c == s.sends[a.send].phase.conn)
  {
    var t := Take(s, a);
    FailedForStep(s, a, c);
    assert forall i :: 0 <= i < |s.sends| && i != a.send ==> t.sends[i] == s.sends[i];
    if Failed(s, c) {
      var i :| 0 <= i < |s.sends| && FailedFor(s.sends[i], c);
      assert FailedFor(t.sends[i], c);
    }
    if a.event.StageFails? && c == s.sends[a.send].phase.conn {
      assert FailedFor(t.sends[a.send], c);
    }
  }

  lemma NewIsNotFailed(s: Link)
    requires Inv(s)
    ensures !Failed(s, s.next)
  {
    forall i | 0 <= i < |s.sends|
      ensures !FailedFor(s.sends[i], s.next)
    {
      assert SendInv(s, s.sends[i]);
    }
  }

  lemma StepKeepsCache(init: Link, s: Link, a: Action)
    requires Inv(s) && CacheIs(init, s) && Enabled(s, a)
    ensures CacheIs(init, Take(s, a))
  {
    NewIsNotFailed(s);
    forall c
      ensures c in Take(s, a).cache
         <==> (c in init.cache || Opened(Take(s, a), c)) && !Failed(Take(s, a), c)
    {
      OpenedStep(s, a, c);
      FailedStep(s, a, c);
    }
  }

  // Bounds

  lemma {:induction false} DistinctFits(s: seq<ConnId>, universe: set<ConnId>)
    requires Distinct(s) && forall i :: 0 <= i < |s| ==> s[i] in universe
    ensures |s| <= |universe|
  {
    if s != [] {
      var k := |s| - 1;
      DistinctFits(s[..k], universe - {s[k]});
    }
  }

  /** The ids from `lo` up to but not including `hi`. */
  function Interval(lo: nat, hi: nat): (r: set<ConnId>)
    requires lo <= hi
    ensures forall c :: c in r <==> lo <= c < hi
    ensures |r| == hi - lo
  {
    if lo == hi then {} else Interval(lo, hi - 1) + {hi - 1}
  }

  /** No send tries more connections than were cached at the start plus one for every send. */
  lemma AttemptsBounded(init: Link, s: Link, i: nat)
    requires Inv(s) && Origins(init, s) && i < |s.sends|
    ensures |s.sends[i].tried| <= |init.cache| + |s.sends|
  {
    TotalCreatedAtMostOneEach(s.sends);
    assert SendInv(s, s.sends[i]);
    DistinctFits(s.sends[i].tried, init.cache + Interval(init.next, s.next));
  }

  // Termination

  function Rank(me: Send, most: nat): nat {
    if |me.tried| > most then 0
    else
      var left := most - |me.tried|;
      match me.phase
      case Looking => 5 * left + 2
      case Connecting => 5 * left + 1
      case Trying(_, _, Opening) => 5 * left + 5
      case Trying(_, _, Sending) => 5 * left + 4
      case Trying(_, _, Receiving) => 5 * left + 3
      case Finished(_) => 0
  }

  function TotalRank(sends: seq<Send>, most: nat): nat {
    if sends == [] then 0 else TotalRank(sends[..|sends| - 1], most) + Rank(sends[|sends| - 1], most)
  }

  lemma {:induction false} TotalRankUpdate(sends: seq<Send>, i: nat, me: Send, most: nat)
    requires i < |sends|
    ensures TotalRank(sends[i := me], most) == TotalRank(sends, most) - Rank(sends[i], most) + Rank(me, most)
  {
    var k := |sends| - 1;
    if i < k {
      TotalRankUpdate(sends[..k], i, me, most);
      assert sends[i := me][..k] == sends[..k][i := me];
    } else {
      assert sends[i := me][..k] == sends[..k];
    }
  }

  lemma {:induction false} TotalRankOfStart(sends: seq<Send>, most: nat)
    requires forall i :: 0 <= i < |sends| ==> sends[i] == Send(Looking, [], [])
    ensures TotalRank(sends, most) == |sends| * (5 * most + 2)
  {
    if sends != [] {
      TotalRankOfStart(sends[..|sends| - 1], most);
    }
  }

  lemma OwnRankDrops(s: Link, a: Action, most: nat)
    requires Enabled(s, a) && |Take(s, a).sends[a.send].tried| <= most
    ensures Rank(Take(s, a).sends[a.send], most) < Rank(s.sends[a.send], most)
  {}

  lemma StepLowersRank(init: Link, s: Link, a: Action, most: nat)
    requires Inv(s) && Origins(init, s) && Enabled(s, a) && most == |init.cache| + |s.sends|
    ensures TotalRank(Take(s, a).sends, most) < TotalRank(s.sends, most)
  {
    var t := Take(s, a);
    assert |t.sends[a.send].tried| <= most by {
      StepKeepsInv(s, a);
      StepKeepsOrigins(init, s, a);
      AttemptsBounded(init, t, a.send);
    }
    OwnRankDrops(s, a, most);
    TotalRankUpdate(s.sends, a.send, t.sends[a.send], most);
    assert t.sends == s.sends[a.send := t.sends[a.send]];
  }

  lemma {:induction false} RunFacts(init: Link, s: Link, actions: seq<Action>, most: nat)
    requires Inv(s) && Origins(init, s) && CacheIs(init, s) && IsRun(s, actions) && most == |init.cache| + |s.sends|
    ensures var t := RunFrom(s, actions);
      && Inv(t) && Origins(init, t) && CacheIs(init, t) && |t.sends| == |s.sends|
      && |actions| + TotalRank(t.sends, most) <= TotalRank(s.sends, most)
    decreases actions
  {
    if actions != [] {
      var a := actions[0];
      StepLowersRank(init, s, a, most);
      StepKeepsInv(s, a);
      StepKeepsOrigins(init, s, a);
      StepKeepsCache(init, s, a);
      assert |Take(s, a).sends| == |s.sends|;
      RunFacts(init, Take(s, a), actions[1..], most);
    }
  }

  lemma StartFacts(s: Link, k: nat)
    requires Start(s, k)
    ensures Inv(s) && Origins(s, s) && CacheIs(s, s)
  {
    assert TotalCreated(s.sends) == 0 by {
      NothingCreated(s.sends);
    }
  }

  lemma {:induction false} NothingCreated(sends: seq<Send>)
    requires forall i :: 0 <= i < |sends| ==> sends[i] == Send(Looking, [], [])
    ensures TotalCreated(sends) == 0
  {
    if sends != [] {
      NothingCreated(sends[..|sends| - 1]);
    }
  }

  /**
    However `k` sends over `m` cached connections interleave and whatever fails: no send tries a
    connection twice, each opens at most one and makes at most `m + k` attempts, the run ends within
    `k * (5 * (m + k) + 2)` steps, and the cache holds the connections of the start and those opened since,
    except exactly those on which some send failed.
   */
  lemma EveryRunTerminates(s: Link, k: nat, actions: seq<Action>)
    requires Start(s, k) && IsRun(s, actions)
    ensures |actions| <= k * (5 * (|s.cache| + k) + 2)
    ensures var t := RunFrom(s, actions);
      && |t.sends| == k && CacheIs(s, t)
      && forall i :: 0 <= i < k ==>
           && Distinct(t.sends[i].tried)
           && |t.sends[i].created| <= 1
           && |t.sends[i].tried| <= |s.cache| + k
  {
    var t := RunFrom(s, actions);
    EndOfRun(s, k, actions, t);
    TotalRankOfStart(s.sends, |s.cache| + k);
    SendFacts(s, t);
  }

  lemma EndOfRun(s: Link, k: nat, actions: seq<Action>, t: Link)
    requires Start(s, k) && IsRun(s, actions) && t == RunFrom(s, actions)
    ensures Inv(t) && Origins(s, t) && CacheIs(s, t) && |t.sends| == k
    ensures |actions| <= TotalRank(s.sends, |s.cache| + k)
  {
    StartFacts(s, k);
    RunFacts(s, s, actions, |s.cache| + k);
  }

  lemma SendFacts(init: Link, t: Link)
    requires Inv(t) && Origins(init, t)
    ensures forall i :: 0 <= i < |t.sends| ==>
      && Distinct(t.sends[i].tried)
      && |t.sends[i].created| <= 1
      && |t.sends[i].tried| <= |init.cache| + |t.sends|
  {
    forall i | 0 <= i < |t.sends|
      ensures Distinct(t.sends[i].tried) && |t.sends[i].created| <= 1 && |t.sends[i].tried| <= |init.cache| + |t.sends|
    {
      assert SendInv(t, t.sends[i]);
      AttemptsBounded(init, t, i);
    }
  }

  /** A run can only get stuck when every send has finished. */
  lemma NoDeadlock(s: Link)
    ensures (forall a :: !Enabled(s, a)) <==> forall i :: 0 <= i < |s.sends| ==> s.sends[i].phase.Finished?
  {
    if i :| 0 <= i < |s.sends| && !s.sends[i].phase.Finished? {
      match s.sends[i].phase
      case Looking =>
        if s.cache == {} {
          assert Enabled(s, Action(i, StartConnect));
        } else {
          var c :| c in s.cache;
          assert Enabled(s, Action(i, TakeCached(c)));
        }
      case Connecting =>
        assert Enabled(s, Action(i, ConnectFails));
      case Trying(_, _, _) =>
        assert Enabled(s, Action(i, StageFails));
    }
  }
}
