/** How many nodes can be flagged at once, and when a single offender is. */
module Flagging {
  import opened Ordered
  import opened Wrappers
  import opened Statistics
  import opened Detector
  import opened LoneOffender
  import opened SmallGroups

  function Reaching(scores: map<Name, real>, names: seq<Name>, threshold: nat): set<Name> {
    set n | n in names && n in scores && Exceeds(scores[n], threshold)
  }

  lemma ReachingMore(scores: map<Name, real>, front: seq<Name>, last: Name, threshold: nat)
    requires last in scores
    ensures Reaching(scores, front + [last], threshold)
         == Reaching(scores, front, threshold) + if Exceeds(scores[last], threshold) then {last} else {}
  {}

  lemma ValuesOfFront(scores: map<Name, real>, names: seq<Name>, k: nat)
    requires names != [] && k == |names| - 1 && forall n :: n in names ==> n in scores
    ensures forall n :: n in names[..k] ==> n in scores
    ensures |Values(scores, names)| == |names| && names[k] in scores
    ensures Values(scores, names)[..k] == Values(scores, names[..k])
    ensures Values(scores, names)[k] == scores[names[k]]
  {
    assert names[k] in names;
  }

  lemma CountOfFront(data: seq<real>, k: nat, threshold: nat, hit: bool)
    requires data != [] && k == |data| - 1 && hit == Exceeds(data[k], threshold)
    ensures CountExceeding(data, threshold) == CountExceeding(data[..k], threshold) + if hit then 1 else 0
  {}

  lemma LastIsNew(names: seq<Name>, k: nat)
    requires Increasing(names) && names != [] && k == |names| - 1
    ensures names[k] !in names[..k] && Increasing(names[..k])
  {}

  lemma {:induction false} ReachingCount(scores: map<Name, real>, names: seq<Name>, threshold: nat)
    requires Increasing(names) && forall n :: n in names ==> n in scores
    ensures |Reaching(scores, names, threshold)| == CountExceeding(Values(scores, names), threshold)
  {
    if names != [] {
      var k := |names| - 1;
      LastIsNew(names, k);
      ValuesOfFront(scores, names, k);
      ReachingCount(scores, names[..k], threshold);
      CountOfFront(Values(scores, names), k, threshold, Exceeds(scores[names[k]], threshold));
      ReachingMore(scores, names[..k], names[k], threshold);
      assert names == names[..k] + [names[k]];
      assert names[k] !in Reaching(scores, names[..k], threshold);
    }
  }

  lemma AboveCount(scores: map<Name, real>, names: seq<Name>, threshold: nat)
    requires names == Sorted(scores.Keys)
    ensures |Above(scores, threshold)| == CountExceeding(Values(scores, names), threshold)
  {
    ReachingCount(scores, names, threshold);
    assert Above(scores, threshold).Keys == Reaching(scores, names, threshold);
  }

  lemma FewAbove(scores: map<Name, real>, threshold: nat)
    requires 5 * CountExceeding(Values(scores, Sorted(scores.Keys)), threshold) < |Sorted(scores.Keys)|
    ensures 5 * |Above(scores, threshold)| < |scores|
  {
    AboveCount(scores, Sorted(scores.Keys), threshold);
  }

  lemma FewExceedGroup(scores: map<Name, real>, data: seq<real>)
    requires AllNonNegative(scores) && scores != map[] && data == Values(scores, Sorted(scores.Keys))
    ensures 5 * CountExceeding(data, GroupThreshold(scores)) < |Sorted(scores.Keys)|
  {
    assert |Sorted(scores.Keys)| == |scores.Keys| > 0;
    FewerThanAFifthExceed(data);
  }

  lemma FewOutliers(scores: map<Name, real>)
    requires AllNonNegative(scores) && scores != map[]
    ensures 5 * |Outliers(scores)| < |scores|
  {
    FewExceedGroup(scores, Values(scores, Sorted(scores.Keys)));
    FewAbove(scores, GroupThreshold(scores));
  }

  /**
    In every state, strictly fewer than a fifth of a non-empty group is flagged. So nobody is flagged in
    a group of five or fewer, at most one of seven elders is, and flagged elders never exceed the third
    that the network assumes may be faulty.
   */
  lemma FewerThanAFifthFlagged(d: Detector, group: set<Name>)
    ensures group != {} ==> 5 * |Flagged(d, group)| < |group|
    ensures |group| <= 5 ==> Flagged(d, group) == map[]
    ensures |group| == 7 ==> |Flagged(d, group)| <= 1
    ensures |Flagged(d, group)| <= |group| / 3
  {
    var scores := FinalScores(d, group);
    ScoresNonNegative(d, group);
    if scores == map[] {
      assert Outliers(scores) == map[];
      assert group == {};
    } else {
      assert |group| == |scores.Keys|;
      FewOutliers(scores);
    }
  }

  lemma ExceedsAt(scores: map<Name, real>, names: seq<Name>, i: nat, n: Name)
    requires AllNonNegative(scores) && names == Sorted(scores.Keys) && i < |names| && n in scores
    requires forall m :: m in scores && m != names[i] ==> scores[m] == 0.0
    ensures |scores.Keys| > 0
    ensures Exceeds(scores[n], GroupThreshold(scores))
       <==> n == names[i] && LoneFlagged(|scores.Keys|, scores[names[i]])
  {
    var data := Values(scores, names);
    assert IsLone(data, i);
    assert n in names;
    var j :| 0 <= j < |names| && names[j] == n;
    LoneThreshold(data, i, j);
  }

  lemma AboveOnly(scores: map<Name, real>, threshold: nat, o: Name, flagged: bool)
    requires o in scores && forall n <- scores :: Exceeds(scores[n], threshold) <==> n == o && flagged
    ensures Above(scores, threshold).Keys == if flagged then {o} else {}
  {}

  lemma ExceedsOnly(scores: map<Name, real>, threshold: nat, o: Name)
    requires AllNonNegative(scores) && o in scores && threshold == GroupThreshold(scores)
    requires forall n :: n in scores && n != o ==> scores[n] == 0.0
    ensures |scores.Keys| > 0
    ensures forall n <- scores :: Exceeds(scores[n], threshold) <==> n == o && LoneFlagged(|scores.Keys|, scores[o])
  {
    var names := Sorted(scores.Keys);
    assert o in names;
    var i :| 0 <= i < |names| && names[i] == o;
    ExceedsAt(scores, names, i, o);
    forall n | n in scores
      ensures Exceeds(scores[n], threshold) <==> n == o && LoneFlagged(|scores.Keys|, scores[o])
    {
      ExceedsAt(scores, names, i, n);
    }
  }

  /** If all but `o` score zero, only `o` can be an outlier, and it is one when the lone-score rule says so. */
  lemma OnlyTheOffender(scores: map<Name, real>, o: Name)
    requires AllNonNegative(scores) && o in scores
    requires forall n :: n in scores && n != o ==> scores[n] == 0.0
    ensures |scores.Keys| > 0
    ensures Outliers(scores).Keys == if LoneFlagged(|scores.Keys|, scores[o]) then {o} else {}
  {
    ExceedsOnly(scores, GroupThreshold(scores), o);
    AboveOnly(scores, GroupThreshold(scores), o, LoneFlagged(|scores.Keys|, scores[o]));
  }

  /** All nodes of the group but `o` have a final score of zero. */
  ghost predicate LoneIn(d: Detector, group: set<Name>, o: Name) {
    o in group && forall n :: n in group && n != o ==> FinalScore(d, n) == 0.0
  }

  lemma LoneInGroup(d: Detector, group: set<Name>, o: Name, n: nat, s: real)
    requires LoneIn(d, group, o) && n == |group| && s == FinalScore(d, o)
    ensures n > 0 && s >= 0.0
    ensures Flagged(d, group).Keys == if LoneFlagged(n, s) then {o} else {}
  {
    ScoresNonNegative(d, group);
    OnlyTheOffender(FinalScores(d, group), o);
  }

  /** By the size of the group and the score in halves, whether a lone offender is flagged. */
  ghost predicate FlagsLone(n: nat, h: nat, flagged: bool) {
    && (92 <= h ==> (flagged <==> 11 <= n || (n == 10 && FlaggedRemainder(h))))
    && (n == 10 ==> (flagged <==> 0 < h && FlaggedRemainder(h)))
    && (n <= 7 ==> !flagged)
  }

  lemma LoneCases(n: nat, h: nat, s: real)
    requires n > 0 && s == 0.5 * h as real
    ensures FlagsLone(n, h, LoneFlagged(n, s))
  {
    if 92 <= h {
      LoneFlaggedExactly(n, h);
    }
    if n == 10 {
      TenNodesFlagByRemainder(h);
    }
    if n <= 7 {
      LoneNeverFlaggedAmongSeven(n, s);
    }
  }

  lemma LoneGroupCases(d: Detector, group: set<Name>, o: Name, h: nat, n: nat, s: real) returns (flagged: bool)
    requires LoneIn(d, group, o) && n == |group| && s == FinalScore(d, o) == 0.5 * h as real
    ensures FlagsLone(n, h, flagged) && Flagged(d, group).Keys == if flagged then {o} else {}
  {
    LoneInGroup(d, group, o, n, s);
    LoneCases(n, h, s);
    flagged := LoneFlagged(n, s);
  }

  /**
    By the size of the group and the final score in halves: with 46 or more it takes eleven nodes, or ten and
    one of six remainders; ten nodes flag by the remainder at every score; and seven nodes or fewer never flag
    a lone offender.
   */
  lemma LoneOffenderFlaggedExactly(d: Detector, group: set<Name>, o: Name, h: nat)
    requires LoneIn(d, group, o) && FinalScore(d, o) == 0.5 * h as real
    ensures 92 <= h ==>
      Flagged(d, group).Keys == if 11 <= |group| || (|group| == 10 && FlaggedRemainder(h)) then {o} else {}
    ensures |group| == 10 ==> Flagged(d, group).Keys == if 0 < h && FlaggedRemainder(h) then {o} else {}
    ensures |group| <= 7 ==> Flagged(d, group).Keys == {}
  {
    var flagged := LoneGroupCases(d, group, o, h, |group|, FinalScore(d, o));
  }

  /** From eleven nodes on, a lone offender with a final score of 46 or more is flagged, and nobody else. */
  lemma LoneOffenderFlagged(d: Detector, group: set<Name>, o: Name)
    requires LoneIn(d, group, o) && 11 <= |group|
    requires FinalScore(d, o) >= 46.0
    ensures Flagged(d, group).Keys == {o}
  {
    LoneOffenderFlaggedExactly(d, group, o, TwiceWeighed(ScoreTable(d, o)));
  }

  /** The mean of the final scores of a group. */
  function MeanScore(d: Detector, group: set<Name>): real
    requires group != {}
  {
    var scores := FinalScores(d, group);
    MeanOf(Values(scores, Sorted(scores.Keys))).value
  }

  lemma OutlierIsNearTheMean(scores: map<Name, real>, names: seq<Name>, o: Name)
    requires AllNonNegative(scores) && names == Sorted(scores.Keys) && o in Outliers(scores) && |scores.Keys| <= 7
    ensures |names| > 0 && scores[o] - MeanOf(Values(scores, names)).value < 2.5
  {
    assert o in names;
    var i :| 0 <= i < |names| && names[i] == o;
    FlaggedAreNearTheMean(Values(scores, names), i);
  }

  /** Among seven nodes or fewer, as the elders of a section are, only a node less than 2.5 above the mean can be flagged. */
  lemma FlaggedEldersAreNearTheMean(d: Detector, group: set<Name>, o: Name)
    requires |group| <= 7 && o in Flagged(d, group)
    ensures o in group && FinalScore(d, o) - MeanScore(d, group) < 2.5
  {
    ScoresNonNegative(d, group);
    var scores := FinalScores(d, group);
    assert scores.Keys == group;
    OutlierIsNearTheMean(scores, Sorted(scores.Keys), o);
  }

  // From issue counts to scores

  lemma {:induction false} CountsOfQuietNodes(tracker: TimedTracker, names: seq<Name>, o: Name)
    requires forall n :: n in names && n != o ==> CountIn(tracker, n) == 0
    ensures Sum(Counts(tracker, names, o)) == 0.0
  {
    if names != [] {
      var k := |names| - 1;
      CountsOfQuietNodes(tracker, names[..k], o);
      assert names[k] in names;
      if names[k] != o {
        var counts := Counts(tracker, names, o);
        assert counts[..|counts| - 1] == Counts(tracker, names[..k], o);
      } else {
        assert Counts(tracker, names, o) == Counts(tracker, names[..k], o);
      }
    }
  }

  lemma {:induction false} CountsNonEmpty(tracker: TimedTracker, names: seq<Name>, o: Name, n: Name)
    requires n in names && n != o
    ensures Counts(tracker, names, o) != []
  {
    var k := |names| - 1;
    if names[k] != n {
      CountsNonEmpty(tracker, names[..k], o, n);
    }
  }

  /** With a quiet non-elder `q` beside it, a node's score is its issue count if all other non-elders are quiet. */
  lemma ScoreAmongQuiet(tracker: TimedTracker, nonElders: set<Name>, o: Name, q: Name)
    requires forall n :: n in nonElders && n != o ==> CountIn(tracker, n) == 0
    requires q in nonElders && q != o
    ensures ScoreIn(tracker, nonElders, o) == CountIn(tracker, o)
  {
    var names := Sorted(nonElders);
    CountsOfQuietNodes(tracker, names, o);
    CountsNonEmpty(tracker, names, o, q);
    assert 0.0 / |Counts(tracker, names, o)| as real == 0.0;
  }

  /** Nobody but `o` holds an issue among the non-elders, who are more than one. */
  ghost predicate OnlyIssuesOf(d: Detector, o: Name) {
    && o in d.nonElders && 2 <= |d.nonElders|
    && forall n, t :: n in d.nonElders && n != o ==> Count(d, n, t) == 0
  }

  lemma Companion(group: set<Name>, o: Name) returns (q: Name)
    requires o in group && 2 <= |group|
    ensures q in group && q != o
  {
    var rest := group - {o};
    assert |rest| == |group| - 1;
    q :| q in rest;
  }

  lemma ScoresAreCounts(d: Detector, o: Name, n: Name, t: IssueType)
    requires OnlyIssuesOf(d, o) && n in d.nonElders
    ensures Score(d, n, t) == Count(d, n, t)
  {
    if n == o {
      var q := Companion(d.nonElders, o);
      forall m | m in d.nonElders && m != o
        ensures CountIn(d.Tracker(t), m) == 0
      {
        assert Count(d, m, t) == 0;
      }
      ScoreAmongQuiet(d.Tracker(t), d.nonElders, o, q);
    } else {
      assert Count(d, n, t) == 0;
    }
  }

  lemma FinalScoreIsWeightedIssues(d: Detector, o: Name, n: Name)
    requires OnlyIssuesOf(d, o) && n in d.nonElders
    ensures ScoreTable(d, n) == CountTable(d, n)
    ensures n != o ==> FinalScore(d, n) == 0.0
  {
    forall t | t in ISSUE_TYPES
      ensures ScoreTable(d, n)[t] == CountTable(d, n)[t]
    {
      ScoresAreCounts(d, o, n, t);
    }
    assert ScoreTable(d, n) == CountTable(d, n);
    if n != o {
      assert forall t :: t in ISSUE_TYPES ==> CountTable(d, n)[t] == 0;
    }
  }

  lemma OnlyIssuesAreLone(d: Detector, o: Name)
    requires OnlyIssuesOf(d, o)
    ensures LoneIn(d, d.nonElders, o) && FinalScore(d, o) == Weigh(CountTable(d, o))
  {
    forall n | n in d.nonElders
      ensures n != o ==> FinalScore(d, n) == 0.0
    {
      FinalScoreIsWeightedIssues(d, o, n);
    }
    FinalScoreIsWeightedIssues(d, o, o);
  }

  /**
    End to end: of eleven or more non-elders, if one alone has issues and they weigh 46 or more, exactly
    that node is flagged.
   */
  lemma OnlyNodeWithIssuesFlagged(d: Detector, o: Name)
    requires OnlyIssuesOf(d, o) && 11 <= |d.nonElders|
    requires 46.0 <= Weigh(CountTable(d, o))
    ensures Flagged(d, d.nonElders).Keys == {o}
  {
    OnlyIssuesAreLone(d, o);
    LoneOffenderFlagged(d, d.nonElders, o);
  }

  /** How many issues of one kind weigh 46 or more. */
  function EnoughIssues(t: IssueType): nat {
    match t
    case RequestOperation => 46
    case Communication => 31
    case NetworkKnowledge => 23
    case Dkg => 23
    case ElderVoting => 19
    case AeProbeMsg => 19
  }

  lemma EnoughWeigh(table: Table, t: IssueType)
    requires t in ISSUE_TYPES && EnoughIssues(t) <= table[t]
    ensures 46.0 <= Weigh(table)
  {
    assert 92 <= TwiceWeighed(table);
  }

  /** That many issues of one kind are enough for the only offender of eleven or more non-elders, and for nobody else. */
  lemma EnoughIssuesAreFlagged(d: Detector, o: Name, t: IssueType)
    requires OnlyIssuesOf(d, o) && 11 <= |d.nonElders| && EnoughIssues(t) <= Count(d, o, t)
    ensures Flagged(d, d.nonElders).Keys == {o}
  {
    EnoughWeigh(CountTable(d, o), t);
    OnlyNodeWithIssuesFlagged(d, o);
  }

  /**
    Among ten non-elders, one node whose issues weigh `h` halves, with no other issue around, is flagged exactly
    if `h` is positive with one of six remainders: with 90 unfulfilled operations it is, with 91 it is not.
   */
  lemma TenNonEldersFlagByRemainder(d: Detector, o: Name, h: nat)
    requires OnlyIssuesOf(d, o) && |d.nonElders| == 10 && h == TwiceWeighed(CountTable(d, o))
    ensures Flagged(d, d.nonElders).Keys == if 0 < h && FlaggedRemainder(h) then {o} else {}
  {
    OnlyIssuesAreLone(d, o);
    LoneOffenderFlaggedExactly(d, d.nonElders, o, h);
  }

  // The effect of one more issue

  lemma {:induction false} CountsWithout(a: TimedTracker, b: TimedTracker, names: seq<Name>, except: Name)
    requires forall n :: n in names && n != except ==> CountIn(a, n) == CountIn(b, n)
    ensures Counts(a, names, except) == Counts(b, names, except)
  {
    if names != [] {
      assert names[|names| - 1] in names;
      CountsWithout(a, b, names[..|names| - 1], except);
    }
  }

  /** `b` holds one more issue of `m` than `a`, and otherwise as many. */
  ghost predicate OneMore(a: TimedTracker, b: TimedTracker, m: Name) {
    forall n :: CountIn(b, n) == CountIn(a, n) + if n == m then 1 else 0
  }

  lemma {:induction false} CountsRaised(a: TimedTracker, b: TimedTracker, names: seq<Name>, except: Name, m: Name)
    requires Increasing(names) && m in names && m != except
    requires OneMore(a, b, m)
    ensures |Counts(a, names, except)| == |Counts(b, names, except)| > 0
    ensures Sum(Counts(b, names, except)) == Sum(Counts(a, names, except)) + 1.0
  {
    var k := |names| - 1;
    var front, last := names[..k], names[k];
    var x, y := Counts(a, names, except), Counts(b, names, except);
    if last == m {
      CountsWithout(a, b, front, except);
    } else {
      assert m in front;
      CountsRaised(a, b, front, except, m);
    }
    if last != except {
      assert x[..|x| - 1] == Counts(a, front, except);
      assert y[..|y| - 1] == Counts(b, front, except);
    } else {
      assert x == Counts(a, front, except) && y == Counts(b, front, except);
    }
  }

  lemma FloorStep(sum: real, n: nat)
    requires n > 0
    ensures (sum / n as real).Floor <= ((sum + 1.0) / n as real).Floor <= (sum / n as real).Floor + 1
  {
    assert (sum + 1.0) / n as real == sum / n as real + 1.0 / n as real;
    assert 0.0 <= 1.0 / n as real <= 1.0;
  }

  lemma MeanStep(x: seq<real>, y: seq<real>)
    requires |x| == |y| > 0 && Sum(y) == Sum(x) + 1.0
    ensures MeanOf(x).Some? && MeanOf(y).Some?
    ensures MeanOf(x).value.Floor <= MeanOf(y).value.Floor <= MeanOf(x).value.Floor + 1
  {
    FloorStep(Sum(x), |x|);
  }

  lemma AverageIsMean(tracker: TimedTracker, nonElders: set<Name>, n: Name, counts: seq<real>, mean: real)
    requires counts == Counts(tracker, Sorted(nonElders), n) && MeanOf(counts) == Some(mean)
    ensures AverageOfOthers(tracker, nonElders, n) == mean.Floor
  {}

  lemma AverageRaised(a: TimedTracker, b: TimedTracker, nonElders: set<Name>, m: Name, n: Name)
    requires OneMore(a, b, m) && m in nonElders && m != n
    ensures AverageOfOthers(a, nonElders, n) <= AverageOfOthers(b, nonElders, n) <= AverageOfOthers(a, nonElders, n) + 1
  {
    var x, y := Counts(a, Sorted(nonElders), n), Counts(b, Sorted(nonElders), n);
    CountsRaised(a, b, Sorted(nonElders), n, m);
    MeanStep(x, y);
    AverageIsMean(a, nonElders, n, x, MeanOf(x).value);
    AverageIsMean(b, nonElders, n, y, MeanOf(y).value);
  }

  lemma AverageStep(a: TimedTracker, b: TimedTracker, nonElders: set<Name>, m: Name, n: Name)
    requires OneMore(a, b, m)
    ensures AverageOfOthers(a, nonElders, n) <= AverageOfOthers(b, nonElders, n) <= AverageOfOthers(a, nonElders, n) + 1
    ensures m !in nonElders || m == n ==> AverageOfOthers(b, nonElders, n) == AverageOfOthers(a, nonElders, n)
  {
    if m in nonElders && m != n {
      AverageRaised(a, b, nonElders, m, n);
    } else {
      CountsWithout(a, b, Sorted(nonElders), n);
    }
  }

  /**
    One more issue against `m`: its own score for that type grows by one exactly if it already had as many
    issues as the others have on average, and stays otherwise. Another node's score for that type can only
    drop, by at most one, and does not move at all if `m` is not a non-elder. Scores for other types stay.
   */
  lemma TrackMovesScores(d: Detector, m: Name, t: IssueType, now: nat, n: Name, u: IssueType)
    ensures
      var before, after := Score(d, n, u), Score(Track(d, m, t, now), n, u);
      var average := AverageOfOthers(d.Tracker(t), d.nonElders, m);
      && (u != t ==> after == before)
      && (u == t && n == m ==> after == before + if average <= Count(d, m, t) then 1 else 0)
      && (u == t && n != m ==> before - 1 <= after <= before)
      && (u == t && n != m && m !in d.nonElders ==> after == before)
  {
    if u == t {
      var a, b := d.Tracker(t), Track(d, m, t, now).Tracker(t);
      assert OneMore(a, b, m);
      AverageStep(a, b, d.nonElders, m, n);
    }
  }
}
