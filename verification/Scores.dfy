/** Scores and flags said from the queues themselves. */
module Scores {
  import opened Ordered
  import opened Statistics
  import opened Detector
  import opened Ranking

  /** How many issues the trackers hold of all these nodes together. */
  function IssuesOf(tracker: TimedTracker, nodes: set<Name>): nat {
    if nodes == {} then 0
    else
      var n := Least(nodes);
      (if n in tracker then |tracker[n]| else 0) + IssuesOf(tracker, nodes - {n})
  }

  lemma {:induction false} IssuesWithout(tracker: TimedTracker, nodes: set<Name>, n: Name)
    requires n in nodes
    ensures IssuesOf(tracker, nodes) == (if n in tracker then |tracker[n]| else 0) + IssuesOf(tracker, nodes - {n})
    decreases nodes
  {
    var m := Least(nodes);
    if m != n {
      IssuesWithout(tracker, nodes - {m}, n);
      assert m == Least(nodes - {n}) by {
        LeastOfFewer(nodes, n, m);
      }
      assert nodes - {m} - {n} == nodes - {n} - {m};
    }
  }

  lemma LeastOfFewer(nodes: set<Name>, n: Name, m: Name)
    requires n in nodes && m == Least(nodes) && m != n
    ensures m in nodes - {n} && Least(nodes - {n}) == m
  {
    assert IsLeast(m, nodes - {n});
  }

  function NamesIn(names: seq<Name>): set<Name> {
    set i | 0 <= i < |names| :: names[i]
  }

  lemma NamesOfFront(names: seq<Name>, k: nat)
    requires Increasing(names) && names != [] && k == |names| - 1
    ensures Increasing(names[..k]) && names[k] !in NamesIn(names[..k])
    ensures NamesIn(names) == NamesIn(names[..k]) + {names[k]}
  {
    assert forall i :: 0 <= i < k ==> names[..k][i] == names[i];
    assert forall n :: n in NamesIn(names) ==> n == names[k] || n in NamesIn(names[..k]) by {
      forall n | n in NamesIn(names) && n != names[k]
        ensures n in NamesIn(names[..k])
      {
        var i :| 0 <= i < |names| && names[i] == n;
        assert names[..k][i] == n;
      }
    }
  }

  /** How many issues of a node are counted for an average that leaves out `n`. */
  function Share(tracker: TimedTracker, m: Name, n: Name): nat {
    if m == n || m !in tracker then 0 else |tracker[m]|
  }

  lemma CountsStep(tracker: TimedTracker, names: seq<Name>, k: nat, n: Name)
    requires names != [] && k == |names| - 1
    ensures var before, after := Counts(tracker, names[..k], n), Counts(tracker, names, n);
      && |after| == |before| + (if names[k] == n then 0 else 1)
      && Sum(after) == Sum(before) + Share(tracker, names[k], n) as real
  {
    var before, after := Counts(tracker, names[..k], n), Counts(tracker, names, n);
    if names[k] != n {
      assert after[..|after| - 1] == before;
    } else {
      assert after == before;
    }
  }

  lemma OthersStep(tracker: TimedTracker, front: set<Name>, all: set<Name>, last: Name, n: Name)
    requires last !in front && all == front + {last}
    ensures |all - {n}| == |front - {n}| + (if last == n then 0 else 1)
    ensures IssuesOf(tracker, all - {n}) == IssuesOf(tracker, front - {n}) + Share(tracker, last, n)
  {
    if last == n {
      assert all - {n} == front - {n};
    } else {
      assert all - {n} == (front - {n}) + {last};
      assert all - {n} - {last} == front - {n};
      IssuesWithout(tracker, all - {n}, last);
    }
  }

  lemma SumOfReals(a: nat, b: nat, c: nat)
    requires c == a + b
    ensures c as real == a as real + b as real
  {}

  ghost predicate CountsMatch(tracker: TimedTracker, counts: seq<real>, nodes: set<Name>) {
    |counts| == |nodes| && Sum(counts) == IssuesOf(tracker, nodes) as real
  }

  lemma MatchStep(tracker: TimedTracker, before: seq<real>, after: seq<real>, front: set<Name>, all: set<Name>,
                  more: nat, share: nat)
    requires CountsMatch(tracker, before, front)
    requires |after| == |before| + more && |all| == |front| + more
    requires Sum(after) == Sum(before) + share as real && IssuesOf(tracker, all) == IssuesOf(tracker, front) + share
    ensures CountsMatch(tracker, after, all)
  {
    SumOfReals(IssuesOf(tracker, front), share, IssuesOf(tracker, all));
  }

  /** The counts are those of the named nodes but `n`, one for each. */
  lemma {:induction false} CountsOfOthers(tracker: TimedTracker, names: seq<Name>, n: Name)
    requires Increasing(names)
    ensures CountsMatch(tracker, Counts(tracker, names, n), NamesIn(names) - {n})
  {
    if names == [] {
      assert NamesIn(names) - {n} == {};
    } else {
      var k := |names| - 1;
      NamesOfFront(names, k);
      CountsOfOthers(tracker, names[..k], n);
      CountsStep(tracker, names, k, n);
      OthersStep(tracker, NamesIn(names[..k]), NamesIn(names), names[k], n);
      MatchStep(tracker, Counts(tracker, names[..k], n), Counts(tracker, names, n), NamesIn(names[..k]) - {n},
                NamesIn(names) - {n}, if names[k] == n then 0 else 1, Share(tracker, names[k], n));
    }
  }

  lemma FloorIsQuotient(a: nat, b: nat)
    requires b > 0
    ensures (a as real / b as real).Floor == a / b
  {
    var q, r := a / b, a % b;
    assert a == q * b + r;
    QuotientBounds(a as real, b as real, q as real, r as real);
  }

  lemma QuotientBounds(a: real, b: real, q: real, r: real)
    requires 0.0 <= r < b && a == q * b + r
    ensures q <= a / b < q + 1.0
  {
    assert a / b == q + r / b;
    assert 0.0 <= r / b < 1.0;
  }

  lemma MeanOfCounts(counts: seq<real>, issues: nat, nodes: nat)
    requires Sum(counts) == issues as real && |counts| == nodes && nodes > 0
    ensures MeanOf(counts).Some? && MeanOf(counts).value.Floor == issues / nodes
  {
    FloorIsQuotient(issues, nodes);
  }

  /** The issues of all non-elders but the node itself, by their number, rounded down; one if there are no others. */
  lemma AverageExactly(tracker: TimedTracker, nonElders: set<Name>, n: Name)
    ensures var others := nonElders - {n};
      AverageOfOthers(tracker, nonElders, n) == if others == {} then 1 else IssuesOf(tracker, others) / |others|
  {
    var names, others := Sorted(nonElders), nonElders - {n};
    assert NamesIn(names) == nonElders by {
      forall m | m in nonElders
        ensures m in NamesIn(names)
      {
        assert m in names;
        var i :| 0 <= i < |names| && names[i] == m;
      }
    }
    CountsOfOthers(tracker, names, n);
    if others != {} {
      MeanOfCounts(Counts(tracker, names, n), IssuesOf(tracker, others), |others|);
    }
  }

  /** A score is how many issues the node has more than the others on average, and never below zero. */
  lemma ScoreExactly(d: Detector, n: Name, t: IssueType)
    ensures var others := d.nonElders - {n};
            var average := if others == {} then 1 else IssuesOf(d.Tracker(t), others) / |others|;
            Score(d, n, t) == if |d.Queue(n, t)| <= average then 0 else |d.Queue(n, t)| - average
  {
    AverageExactly(d.Tracker(t), d.nonElders, n);
  }

  /** The weights of the six issue types, doubled. */
  lemma FinalScoreExactly(d: Detector, n: Name)
    ensures 2.0 * FinalScore(d, n) == (2 * Score(d, n, RequestOperation) + 3 * Score(d, n, Communication)
      + 4 * Score(d, n, NetworkKnowledge) + 4 * Score(d, n, Dkg)
      + 5 * Score(d, n, ElderVoting) + 5 * Score(d, n, AeProbeMsg)) as real
  {
    var h := TwiceWeighed(ScoreTable(d, n));
  }

  /** Listed are exactly the flagged nodes, each once, by falling truncated final score and by name among equals. */
  ghost predicate ListsFaulty(d: Detector, group: set<Name>, list: seq<Name>) {
    && (forall n :: n in list <==> n in Flagged(d, group))
    && forall i, j :: 0 <= i < j < |list| ==> ComesFirst(d, list[i], list[j])
  }

  lemma FaultyInOrder(d: Detector, group: set<Name>, list: seq<Name>)
    requires list == Rank(Flagged(d, group))
    ensures ListsFaulty(d, group, list) && |list| == |Flagged(d, group)|
  {
    forall i, j | 0 <= i < j < |list|
      ensures ComesFirst(d, list[i], list[j])
    {
      RankedByScore(d, group, Flagged(d, group), list, i, j);
    }
  }

  ghost predicate ComesFirst(d: Detector, m: Name, n: Name) {
    var x, y := FinalScore(d, m).Floor, FinalScore(d, n).Floor;
    x > y || (x == y && m < n)
  }

  lemma RankedByScore(d: Detector, group: set<Name>, flagged: map<Name, nat>, list: seq<Name>, i: nat, j: nat)
    requires flagged == Flagged(d, group) && Ranked(flagged, list) && i < j < |list|
    ensures ComesFirst(d, list[i], list[j])
  {
    assert Before(flagged, list[i], list[j]);
    FlaggedScores(d, group);
  }

  lemma FlaggedScores(d: Detector, group: set<Name>)
    ensures forall n <- Flagged(d, group) :: n in group && Flagged(d, group)[n] == FinalScore(d, n).Floor
  {}
}
