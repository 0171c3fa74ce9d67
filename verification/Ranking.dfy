/** Flagged nodes listed from the highest score down; equal scores stay in name order. */
module Ranking {
  import opened Ordered
  import opened Detector

  ghost predicate Before(scores: map<Name, nat>, a: Name, b: Name)
    requires a in scores && b in scores
  {
    scores[b] < scores[a] || (scores[a] == scores[b] && a < b)
  }

  ghost predicate Ranked(scores: map<Name, nat>, list: seq<Name>) {
    && (forall i :: 0 <= i < |list| ==> list[i] in scores)
    && forall i, j :: 0 <= i < j < |list| ==> Before(scores, list[i], list[j])
  }

  ghost predicate AllBelow(list: seq<Name>, n: Name) {
    forall i :: 0 <= i < |list| ==> list[i] < n
  }

  lemma SameMembers(a: seq<Name>, b: seq<Name>)
    requires multiset(a) == multiset(b)
    ensures |a| == |b|
    ensures forall n :: n in a <==> n in b
  {
    assert |a| == |multiset(a)| && |b| == |multiset(b)|;
    forall n
      ensures n in a <==> n in b
    {
      assert n in a <==> n in multiset(a);
      assert n in b <==> n in multiset(b);
    }
  }

  /** Appending keeps a ranked list ranked if the new entry comes after everything in it. */
  lemma AppendRanked(scores: map<Name, nat>, list: seq<Name>, last: Name)
    requires Ranked(scores, list) && last in scores
    requires forall i :: 0 <= i < |list| ==> Before(scores, list[i], last)
    ensures Ranked(scores, list + [last])
  {
  }

  /** Places `n`, which is above every listed name, behind all scores that are not lower than its own. */
  function Place(scores: map<Name, nat>, list: seq<Name>, n: Name): (r: seq<Name>)
    requires Ranked(scores, list) && n in scores && AllBelow(list, n)
    ensures Ranked(scores, r)
    ensures multiset(r) == multiset(list + [n])
  {
    if list == [] then [n]
    else
      var k := |list| - 1;
      var front, last := list[..k], list[k];
      assert list == front + [last];
      if scores[n] <= scores[last] then
        AppendRanked(scores, list, n);
        list + [n]
      else
        var r := Place(scores, front, n);
        PlacedBefore(scores, front, r, n, last);
        AppendRanked(scores, r, last);
        assert multiset(r + [last]) == multiset(front + [n]) + multiset{last};
        r + [last]
  }

  lemma PlacedBefore(scores: map<Name, nat>, front: seq<Name>, r: seq<Name>, n: Name, last: Name)
    requires Ranked(scores, front + [last]) && Ranked(scores, r)
    requires n in scores && last in scores && scores[last] < scores[n]
    requires multiset(r) == multiset(front + [n])
    ensures forall i :: 0 <= i < |r| ==> Before(scores, r[i], last)
  {
    SameMembers(r, front + [n]);
    var list := front + [last];
    forall i | 0 <= i < |r|
      ensures Before(scores, r[i], last)
    {
      assert r[i] in front + [n];
      if r[i] != n {
        var j :| 0 <= j < |front| && front[j] == r[i];
        assert Before(scores, list[j], list[|front|]);
      }
    }
  }

  lemma MembersBelow(r: seq<Name>, names: seq<Name>, k: nat)
    requires Increasing(names) && k < |names| && multiset(r) == multiset(names[..k])
    ensures AllBelow(r, names[k])
    ensures k == |names| - 1 ==> multiset(r + [names[k]]) == multiset(names)
  {
    assert k == |names| - 1 ==> names == names[..k] + [names[k]];
    SameMembers(r, names[..k]);
    forall i | 0 <= i < |r|
      ensures r[i] < names[k]
    {
      assert r[i] in names[..k];
    }
  }

  function PlaceAll(scores: map<Name, nat>, names: seq<Name>): (r: seq<Name>)
    requires Increasing(names) && forall i :: 0 <= i < |names| ==> names[i] in scores
    ensures Ranked(scores, r)
    ensures multiset(r) == multiset(names)
  {
    if names == [] then []
    else
      var k := |names| - 1;
      var r := PlaceAll(scores, names[..k]);
      MembersBelow(r, names, k);
      Place(scores, r, names[k])
  }

  function Rank(scores: map<Name, nat>): (r: seq<Name>)
    ensures Ranked(scores, r)
    ensures forall n :: n in r <==> n in scores
    ensures |r| == |scores|
  {
    var names := Sorted(scores.Keys);
    var r := PlaceAll(scores, names);
    SameMembers(r, names);
    r
  }
}
