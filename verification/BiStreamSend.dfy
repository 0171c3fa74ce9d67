/** One bi-stream send with the link to itself: the retry loop as written, and its run in the shared machine. */
module BiStreamSend {
  import opened Wrappers
  import opened NodeLink

  lemma {:induction false} RunConcat(s: Link, first: seq<Action>, second: seq<Action>)
    requires IsRun(s, first) && IsRun(RunFrom(s, first), second)
    ensures IsRun(s, first + second) && RunFrom(s, first + second) == RunFrom(RunFrom(s, first), second)
    decreases first
  {
    if first == [] {
      assert first + second == second;
    } else {
      assert (first + second)[1..] == first[1..] + second;
      RunConcat(Take(s, first[0]), first[1..], second);
    }
  }

  lemma RunOne(s: Link, a: Action)
    requires Enabled(s, a)
    ensures IsRun(s, [a]) && RunFrom(s, [a]) == Take(s, a)
  {
    assert [a][1..] == [];
  }

  /** The phase after trying a connection that fails at the given stage, or nowhere. */
  function AfterTry(c: ConnId, isLastAttempt: bool, failsAt: Option<Stage>): Phase {
    match failsAt
    case None => Finished(Ok(c))
    case Some(stage) => if isLastAttempt then Finished(Err(ErrorAt(stage))) else Looking
  }

  function Alone(cache: set<ConnId>, next: ConnId, me: Send): Link {
    Link(cache, next, [me])
  }

  lemma {:induction false} TryStages(s: Link, failsAt: Option<Stage>) returns (actions: seq<Action>)
    requires |s.sends| == 1 && s.sends[0].phase.Trying?
    requires failsAt.Some? ==> match s.sends[0].phase.stage
                               case Opening => true
                               case Sending => !failsAt.value.Opening?
                               case Receiving => failsAt.value.Receiving?
    ensures IsRun(s, actions)
    ensures var p := s.sends[0].phase;
      RunFrom(s, actions) == Alone(if failsAt.None? then s.cache else s.cache - {p.conn}, s.next,
                                   s.sends[0].(phase := AfterTry(p.conn, p.isLastAttempt, failsAt)))
    decreases match s.sends[0].phase.stage case Opening => 2 case Sending => 1 case Receiving => 0
  {
    var p := s.sends[0].phase;
    var a := Action(0, if failsAt == Some(p.stage) then StageFails else StageSucceeds);
    RunOne(s, a);
    var t := Take(s, a);
    assert t.sends == [t.sends[0]];
    if a.event.StageFails? || p.stage.Receiving? {
      actions := [a];
    } else {
      var rest := TryStages(t, failsAt);
      RunConcat(s, [a], rest);
      actions := [a] + rest;
    }
  }

  ghost predicate Reaches(start: Link, actions: seq<Action>, state: Link) {
    IsRun(start, actions) && RunFrom(start, actions) == state
  }

  /** A lone send takes a cached connection, or opens one if none is cached, and tries it. */
  lemma AttemptRun(s: Link, tried: seq<ConnId>, conn: ConnId, failsAt: Option<Stage>)
      returns (actions: seq<Action>, t: Link)
    requires s == Alone(s.cache, s.next, Send(Looking, tried, []))
    requires if s.cache == {} then conn == s.next else conn in s.cache
    ensures Reaches(s, actions, t)
    ensures var isLastAttempt := s.cache == {};
      var cached := if isLastAttempt then {conn} else s.cache;
      t == Alone(if failsAt.Some? then cached - {conn} else cached,
                 if isLastAttempt then s.next + 1 else s.next,
                 Send(AfterTry(conn, isLastAttempt, failsAt), tried + [conn], if isLastAttempt then [conn] else []))
  {
    var mid: Link;
    if s.cache == {} {
      var first, second := Action(0, StartConnect), Action(0, ConnectSucceeds);
      RunOne(s, first);
      RunOne(Take(s, first), second);
      RunConcat(s, [first], [second]);
      actions, mid := [first] + [second], Take(Take(s, first), second);
    } else {
      RunOne(s, Action(0, TakeCached(conn)));
      actions, mid := [Action(0, TakeCached(conn))], Take(s, Action(0, TakeCached(conn)));
    }
    var rest := TryStages(mid, failsAt);
    RunConcat(s, actions, rest);
    actions := actions + rest;
    t := RunFrom(mid, rest);
    assert mid.cache == if s.cache == {} then {conn} else s.cache;
    assert mid.sends[0].created == if s.cache == {} then [conn] else [];
  }

  lemma ConnectFailure(s: Link, tried: seq<ConnId>) returns (actions: seq<Action>)
    requires s == Alone({}, s.next, Send(Looking, tried, []))
    ensures Reaches(s, actions, Alone({}, s.next, Send(Finished(Err(ConnectionError)), tried, [])))
  {
    var first, second := Action(0, StartConnect), Action(0, ConnectFails);
    RunOne(s, first);
    RunOne(Take(s, first), second);
    RunConcat(s, [first], [second]);
    actions := [first] + [second];
  }

  function Elements(s: seq<ConnId>): set<ConnId> {
    set c | c in s
  }

  class Connections {
    /** The ids of the cached connections. */
    var connections: set<ConnId>

    /**
      The environment decides at which stage each connection fails, if at all, and whether opening a new
      one, under the unused id `next`, succeeds. An error leaves the cache empty after every cached
      connection was tried; a success leaves the used connection cached and has removed exactly those that
      failed. The loop is a complete run of the shared machine with a single send.
     */
    method SendWithBiReturnResponse(failsAt: ConnId -> Option<Stage>, connects: bool, next: ConnId)
        returns (r: Result<ConnId, LinkError>, ghost tried: seq<ConnId>, ghost end: Link, ghost actions: seq<Action>)
      requires forall c :: c in connections ==> c < next
      modifies this
      ensures Distinct(tried) && Elements(tried) <= old(connections) + {next}
      ensures r.Err? ==>
                && connections == {} && old(connections) <= Elements(tried)
                && forall c :: c in tried ==> failsAt(c).Some?
      ensures r.Err? && !connects ==> next !in tried && r.error == ConnectionError
      ensures r.Err? && connects ==> next in tried
      ensures r.Err? && connects ==>
                match failsAt(next).value
                case Opening => r.error == ConnectionError
                case Sending => r.error == SendError
                case Receiving => r.error == RecvError
      ensures r.Ok? ==>
                && r.value in connections && failsAt(r.value).None?
                && tried != [] && tried[|tried| - 1] == r.value
                && (forall c :: c in tried && c != r.value ==> failsAt(c).Some?)
                && connections == old(connections) + {r.value} - (Elements(tried) - {r.value})
      ensures Reaches(Alone(old(connections), next, Send(Looking, [], [])), actions, end)
      ensures end.cache == connections && |end.sends| == 1
      ensures end.sends[0].phase == Finished(r) && end.sends[0].tried == tried
    {
      tried, actions := [], [];
      ghost var cached := connections;
      ghost var start := Alone(cached, next, Send(Looking, [], []));
      end := start;
      while true
        invariant Distinct(tried) && connections == cached - Elements(tried) && Elements(tried) <= cached
        invariant forall c :: c in tried ==> failsAt(c).Some?
        invariant Reaches(start, actions, end)
        invariant end == Alone(connections, next, Send(Looking, tried, []))
        decreases connections
      {
        var conn := next;
        var isLastAttempt := connections == {};
        if isLastAttempt && !connects {
          ghost var rest := ConnectFailure(end, tried);
          RunConcat(start, actions, rest);
          actions, end := actions + rest, RunFrom(end, rest);
          return Err(ConnectionError), tried, end, actions;
        }
        if isLastAttempt {
          connections := connections + {conn};
        } else {
          conn :| conn in connections;
        }
        ghost var rest, after := AttemptRun(end, tried, conn, failsAt(conn));
        RunConcat(start, actions, rest);
        actions, end := actions + rest, after;
        AppendDistinct(tried, conn);
        assert Elements(tried + [conn]) == Elements(tried) + {conn};
        tried := tried + [conn];
        if failsAt(conn).None? {
          return Ok(conn), tried, end, actions;
        }
        connections := connections - {conn};
        if isLastAttempt {
          return Err(ErrorAt(failsAt(conn).value)), tried, end, actions;
        }
      }
    }
  }
}
