/** The fault detector as the object that the node keeps, each operation tied to its effect on the value. */
module FaultDetection {
  import opened Ordered
  import opened Wrappers
  import opened Statistics
  import D = Detector
  import R = Ranking
  import S = Scores

  datatype ScoreResults = ScoreResults(
    communication: map<D.Name, real>,
    dkg: map<D.Name, real>,
    elderVoting: map<D.Name, real>,
    knowledge: map<D.Name, real>,
    ops: map<D.Name, real>,
    probe: map<D.Name, real>)

  class FaultDetection {
    var communicationIssues: D.TimedTracker
    var dkgIssues: D.TimedTracker
    var elderVotingIssues: D.TimedTracker
    var probeIssues: D.TimedTracker
    var networkKnowledgeIssues: D.TimedTracker
    var unfulfilledOps: D.TimedTracker
    var nonElderNodes: set<D.Name>
    var elders: set<D.Name>

    function Value(): D.Detector
      reads this
    {
      D.Detector(communicationIssues, dkgIssues, elderVotingIssues, probeIssues, networkKnowledgeIssues,
                 unfulfilledOps, nonElderNodes, elders)
    }

    constructor (nonElders: set<D.Name>, elders: set<D.Name>)
      ensures Value() == D.New(nonElders, elders)
    {
      communicationIssues, dkgIssues, elderVotingIssues := map[], map[], map[];
      probeIssues, networkKnowledgeIssues, unfulfilledOps := map[], map[], map[];
      nonElderNodes := nonElders;
      this.elders := elders;
    }

    method TrackIssue(node: D.Name, issue: D.IssueType, now: nat)
      modifies this
      ensures Value() == D.Track(old(Value()), node, issue, now)
    {
      match issue
      case Dkg => dkgIssues := D.Pushed(dkgIssues, node, now);
      case ElderVoting => elderVotingIssues := D.Pushed(elderVotingIssues, node, now);
      case AeProbeMsg => probeIssues := D.Pushed(probeIssues, node, now);
      case Communication => communicationIssues := D.Pushed(communicationIssues, node, now);
      case NetworkKnowledge => networkKnowledgeIssues := D.Pushed(networkKnowledgeIssues, node, now);
      case RequestOperation => unfulfilledOps := D.Pushed(unfulfilledOps, node, now);
    }

    method DkgAckFulfilled(node: D.Name)
      modifies this
      ensures Value() == D.Acknowledge(old(Value()), node, D.Dkg)
    {
      if node in dkgIssues && dkgIssues[node] != [] {
        dkgIssues := dkgIssues[node := dkgIssues[node][1..]];
      }
    }

    method ElderVoteReceived(node: D.Name)
      modifies this
      ensures Value() == D.Acknowledge(old(Value()), node, D.ElderVoting)
    {
      if node in elderVotingIssues && elderVotingIssues[node] != [] {
        elderVotingIssues := elderVotingIssues[node := elderVotingIssues[node][1..]];
      }
    }

    method AeUpdateMsgReceived(node: D.Name)
      modifies this
      ensures Value() == D.Acknowledge(old(Value()), node, D.AeProbeMsg)
    {
      if node in probeIssues && probeIssues[node] != [] {
        probeIssues := probeIssues[node := probeIssues[node][1..]];
      }
    }

    method AddNewNode(node: D.Name)
      modifies this
      ensures Value() == D.AddNode(old(Value()), node)
    {
      nonElderNodes := nonElderNodes + {node};
    }

    method UpdateAndOnlyRetainMembers(nonElders: set<D.Name>, elders: set<D.Name>)
      modifies this
      ensures Value() == D.Retain(old(Value()), nonElders, elders)
    {
      var currentMembers := nonElderNodes + this.elders;
      nonElderNodes := nonElders;
      this.elders := elders;
      ghost var start := Value();
      var removals := currentMembers - nonElders - elders;
      ghost var removed: set<D.Name> := {};
      assert Value() == D.Forget(start, {});
      while removals != {}
        invariant removed + removals == currentMembers - nonElders - elders
        invariant Value() == D.Forget(start, removed)
        decreases removals
      {
        var node :| node in removals;
        Forget(node);
        D.ForgetMore(start, removed, node);
        removals, removed := removals - {node}, removed + {node};
      }
    }

    method Forget(node: D.Name)
      modifies this
      ensures Value() == D.Forget(old(Value()), {node})
    {
      communicationIssues := communicationIssues - {node};
      networkKnowledgeIssues := networkKnowledgeIssues - {node};
      dkgIssues := dkgIssues - {node};
      elderVotingIssues := elderVotingIssues - {node};
      probeIssues := probeIssues - {node};
      unfulfilledOps := unfulfilledOps - {node};
    }

    /** The score maps of all six issue types over the nodes in question. */
    method CalculateScores(nodes: set<D.Name>) returns (r: ScoreResults)
      ensures r == AllScores(Value(), nodes)
    {
      var dkg := ScoresOfType(nodes, D.Dkg);
      var elderVoting := ScoresOfType(nodes, D.ElderVoting);
      var probe := ScoresOfType(nodes, D.AeProbeMsg);
      var communication := ScoresOfType(nodes, D.Communication);
      var knowledge := ScoresOfType(nodes, D.NetworkKnowledge);
      var ops := ScoresOfType(nodes, D.RequestOperation);
      r := ScoreResults(communication, dkg, elderVoting, knowledge, ops, probe);
    }

    method ScoresOfType(nodes: set<D.Name>, issue: D.IssueType) returns (scores: map<D.Name, real>)
      ensures scores == D.ScoresFor(Value(), nodes, issue)
    {
      scores := map[];
      ghost var value := Value();
      var todo := nodes;
      while todo != {}
        invariant todo <= nodes
        invariant scores == D.ScoresFor(value, nodes - todo, issue)
        decreases todo
      {
        var node := Least(todo);
        var score := ScoreForType(node, issue);
        scores := scores[node := score as real];
        D.ScoresForMore(value, nodes - todo, node, issue);
        assert nodes - (todo - {node}) == (nodes - todo) + {node};
        todo := todo - {node};
      }
      assert nodes - todo == nodes;
    }

    /** A node's issue count less the truncated average of the other non-elders, never below zero. */
    method ScoreForType(node: D.Name, issue: D.IssueType) returns (score: nat)
      ensures score == D.Score(Value(), node, issue)
      ensures var others := nonElderNodes - {node};
              var average := if others == {} then 1 else S.IssuesOf(Value().Tracker(issue), others) / |others|;
              var count := |Value().Queue(node, issue)|;
              score == if count <= average then 0 else count - average
    {
      S.ScoreExactly(Value(), node, issue);
      var tracker := Value().Tracker(issue);
      var count := D.CountIn(tracker, node);
      if count == 0 {
        return 0;
      }
      var average := AverageOfOthers(tracker, node);
      score := if count <= average then 0 else count - average;
    }

    method AverageOfOthers(tracker: D.TimedTracker, node: D.Name) returns (average: nat)
      ensures average == D.AverageOfOthers(tracker, nonElderNodes, node)
    {
      var others: seq<real> := [];
      var names := Sorted(nonElderNodes);
      for i := 0 to |names|
        invariant others == D.Counts(tracker, names[..i], node)
      {
        assert names[..i + 1][..i] == names[..i];
        if names[i] != node {
          others := others + [D.CountIn(tracker, names[i]) as real];
        }
      }
      assert names[..|names|] == names;
      SumNonNegative(others);
      average := match MeanOf(others) case Some(mean) => mean.Floor case None => 1;
    }

    /** The nodes whose truncated weighted score reaches the threshold of the group, with that score. */
    method GetWeightedScores(nodes: set<D.Name>) returns (flagged: map<D.Name, nat>)
      ensures flagged == D.Flagged(Value(), nodes)
    {
      var scores := CalculateScores(nodes);
      WeighedAreFinal(Value(), nodes, nodes);
      D.ScoresNonNegative(Value(), nodes);
      flagged := FlagOutliers(scores, nodes);
    }

    method GetFaultyNodes(now: nat) returns (faulty: seq<D.Name>)
      modifies this
      ensures Value() == D.Expire(old(Value()), now)
      ensures faulty == R.Rank(D.Flagged(Value(), elders)) + R.Rank(D.Flagged(Value(), nonElderNodes))
      ensures var k := |D.Flagged(Value(), elders)|;
        && k <= |faulty|
        && S.ListsFaulty(Value(), elders, faulty[..k]) && S.ListsFaulty(Value(), nonElderNodes, faulty[k..])
    {
      CleanupTimeSensitiveChecks(now);
      var nonElderScores := GetWeightedScores(nonElderNodes);
      var elderScores := GetWeightedScores(elders);
      var first, second := R.Rank(elderScores), R.Rank(nonElderScores);
      faulty := first + second;
      S.FaultyInOrder(Value(), elders, first);
      S.FaultyInOrder(Value(), nonElderNodes, second);
      assert faulty[..|first|] == first && faulty[|first|..] == second;
    }

    method CleanupTimeSensitiveChecks(now: nat)
      modifies this
      ensures Value() == D.Expire(old(Value()), now)
    {
      communicationIssues := RetainRecent(communicationIssues, now);
      probeIssues := RetainRecent(probeIssues, now);
      networkKnowledgeIssues := RetainRecent(networkKnowledgeIssues, now);
      dkgIssues := RetainRecent(dkgIssues, now);
      unfulfilledOps := RetainRecent(unfulfilledOps, now);
    }
  }

  function Lookup(scores: map<D.Name, real>, name: D.Name): real {
    if name in scores then scores[name] else 1.0
  }

  function Weighed(scores: ScoreResults, name: D.Name): real {
    Lookup(scores.ops, name) * D.OP_WEIGHTING
    + Lookup(scores.communication, name) * D.CONN_WEIGHTING
    + Lookup(scores.knowledge, name) * D.KNOWLEDGE_WEIGHTING
    + Lookup(scores.elderVoting, name) * D.ELDER_VOTE_WEIGHTING
    + Lookup(scores.dkg, name) * D.DKG_WEIGHTING
    + Lookup(scores.probe, name) * D.AE_PROBE_WEIGHTING
  }

  function WeighedAll(scores: ScoreResults, nodes: set<D.Name>): (r: map<D.Name, real>)
    ensures r.Keys == nodes
  {
    map n | n in nodes :: Weighed(scores, n)
  }

  function AllScores(d: D.Detector, nodes: set<D.Name>): ScoreResults {
    ScoreResults(D.ScoresFor(d, nodes, D.Communication), D.ScoresFor(d, nodes, D.Dkg),
                 D.ScoresFor(d, nodes, D.ElderVoting), D.ScoresFor(d, nodes, D.NetworkKnowledge),
                 D.ScoresFor(d, nodes, D.RequestOperation), D.ScoresFor(d, nodes, D.AeProbeMsg))
  }

  lemma LookupIsScore(d: D.Detector, nodes: set<D.Name>, name: D.Name, t: D.IssueType)
    requires name in nodes
    ensures Lookup(D.ScoresFor(d, nodes, t), name) == D.Score(d, name, t) as real
  {}

  lemma WeighedIsFinal(d: D.Detector, nodes: set<D.Name>, name: D.Name)
    requires name in nodes
    ensures Weighed(AllScores(d, nodes), name) == D.FinalScore(d, name)
  {
    LookupIsScore(d, nodes, name, D.RequestOperation);
    LookupIsScore(d, nodes, name, D.Communication);
    LookupIsScore(d, nodes, name, D.NetworkKnowledge);
    LookupIsScore(d, nodes, name, D.ElderVoting);
    LookupIsScore(d, nodes, name, D.Dkg);
    LookupIsScore(d, nodes, name, D.AeProbeMsg);
  }

  lemma WeighedMore(scores: ScoreResults, nodes: set<D.Name>, name: D.Name)
    requires name in nodes
    ensures WeighedAll(scores, nodes) == WeighedAll(scores, nodes - {name})[name := Weighed(scores, name)]
  {}

  lemma FinalMore(d: D.Detector, nodes: set<D.Name>, name: D.Name)
    requires name in nodes
    ensures D.FinalScores(d, nodes) == D.FinalScores(d, nodes - {name})[name := D.FinalScore(d, name)]
  {}

  lemma {:induction false} WeighedAreFinal(d: D.Detector, all: set<D.Name>, nodes: set<D.Name>)
    requires nodes <= all
    ensures WeighedAll(AllScores(d, all), nodes) == D.FinalScores(d, nodes)
  {
    if nodes != {} {
      var name :| name in nodes;
      WeighedAreFinal(d, all, nodes - {name});
      WeighedIsFinal(d, all, name);
      WeighedMore(AllScores(d, all), nodes, name);
      FinalMore(d, nodes, name);
    }
  }

  method FlagOutliers(scores: ScoreResults, nodes: set<D.Name>) returns (flagged: map<D.Name, nat>)
    requires D.AllNonNegative(WeighedAll(scores, nodes))
    ensures flagged == D.Outliers(WeighedAll(scores, nodes))
  {
    var names := Sorted(nodes);
    var preStandardised, scoresOnly := CollectScores(scores, nodes, names);
    flagged := SelectOutliers(WeighedAll(scores, nodes), names, preStandardised, Threshold(scoresOnly));
  }

  method CollectScores(scores: ScoreResults, ghost nodes: set<D.Name>, names: seq<D.Name>)
      returns (preStandardised: map<D.Name, int>, scoresOnly: seq<real>)
    requires forall n :: n in names ==> n in nodes
    ensures var expected := WeighedAll(scores, nodes);
      && scoresOnly == D.Values(expected, names)
      && forall j :: 0 <= j < |names| ==>
           names[j] in preStandardised && preStandardised[names[j]] == expected[names[j]].Floor
  {
    preStandardised, scoresOnly := map[], [];
    ghost var expected := WeighedAll(scores, nodes);
    for i := 0 to |names|
      invariant |scoresOnly| == i
      invariant forall j :: 0 <= j < i ==> scoresOnly[j] == expected[names[j]]
      invariant forall j :: 0 <= j < i ==>
                  names[j] in preStandardised && preStandardised[names[j]] == expected[names[j]].Floor
    {
      var final := Weighed(scores, names[i]);
      assert final == expected[names[i]];
      scoresOnly := scoresOnly + [final];
      preStandardised := preStandardised[names[i] := final.Floor];
    }
  }

  method RetainRecent(tracker: D.TimedTracker, now: nat) returns (r: D.TimedTracker)
    ensures r == D.RecentOnly(tracker, now)
  {
    r := tracker;
    var todo := tracker.Keys;
    while todo != {}
      invariant todo <= tracker.Keys == r.Keys
      invariant forall n :: n in todo ==> r[n] == tracker[n]
      invariant forall n :: n in tracker && n !in todo ==> r[n] == D.KeepRecent(tracker[n], now)
      decreases todo
    {
      var n := Least(todo);
      var queue := RetainQueue(r[n], now);
      r := r[n := queue];
      todo := todo - {n};
    }
  }

  method RetainQueue(queue: seq<nat>, now: nat) returns (kept: seq<nat>)
    ensures kept == D.KeepRecent(queue, now)
  {
    kept := [];
    var i := |queue|;
    while i > 0
      invariant 0 <= i <= |queue|
      invariant kept == D.KeepRecent(queue[i..], now)
    {
      i := i - 1;
      assert queue[i..][1..] == queue[i + 1..];
      if D.Recent(queue[i], now) {
        kept := [queue[i]] + kept;
      }
    }
    assert queue[0..] == queue;
  }

  method SelectOutliers(ghost expected: map<D.Name, real>, names: seq<D.Name>, scores: map<D.Name, int>, threshold: nat)
      returns (flagged: map<D.Name, nat>)
    requires forall n :: n in names <==> n in expected
    requires forall j :: 0 <= j < |names| ==> names[j] in scores && scores[names[j]] == expected[names[j]].Floor
    ensures flagged == D.Above(expected, threshold)
  {
    flagged := map[];
    for i := 0 to |names|
      invariant forall n :: n in flagged ==> n in expected && flagged[n] == expected[n].Floor
      invariant forall n :: n in flagged ==> Exceeds(expected[n], threshold)
      invariant forall j :: 0 <= j < i && Exceeds(expected[names[j]], threshold) ==> names[j] in flagged
    {
      var score := scores[names[i]];
      if threshold <= score && 1 < threshold {
        flagged := flagged[names[i] := score];
      }
    }
    forall n | n in expected && Exceeds(expected[n], threshold)
      ensures n in flagged
    {
      assert n in names;
    }
  }
}
