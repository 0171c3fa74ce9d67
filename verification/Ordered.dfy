/** Enumerating finite sets of names in ascending order, as a `BTreeSet` or `BTreeMap` is iterated. */
module Ordered {

  ghost predicate Increasing(s: seq<nat>) {
    forall i, j :: 0 <= i < j < |s| ==> s[i] < s[j]
  }

  predicate IsLeast(m: nat, s: set<nat>) {
    m in s && forall x :: x in s ==> m <= x
  }

  lemma {:induction false} LeastExists(s: set<nat>, x: nat) returns (m: nat)
    requires x in s
    ensures IsLeast(m, s)
    decreases x
  {
    if y :| y in s && y < x {
      m := LeastExists(s, y);
    } else {
      m := x;
    }
  }

  function Least(s: set<nat>): (m: nat)
    requires s != {}
    ensures IsLeast(m, s)
  {
    assert exists m :: m in s && IsLeast(m, s) by {
      var x :| x in s;
      var m := LeastExists(s, x);
    }
    var m :| m in s && IsLeast(m, s);
    m
  }

  /** The elements of `s` in ascending order. */
  function Sorted(s: set<nat>): (r: seq<nat>)
    ensures Increasing(r)
    ensures forall x :: x in r <==> x in s
    ensures |r| == |s|
  {
    if s == {} then []
    else
      var m := Least(s);
      var rest := Sorted(s - {m});
      assert forall x :: x in rest ==> m < x;
      [m] + rest
  }
}
