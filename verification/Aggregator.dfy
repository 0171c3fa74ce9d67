/** The answer that is sent to a client when several nodes were asked. */
module Aggregator {
  import opened Wrappers
  import opened Base32

  type NodeId = nat

  datatype Msg = Msg(header: seq<byte>, dst: seq<byte>, payload: seq<byte>)

  datatype SendError = ConnectingToUnknownNode | FailedSend

  type NodeResult = (NodeId, Result<Msg, SendError>)

  datatype Decision =
    | Forward(msg: Msg)
    | ErrorResponse
    | Nothing

  type Answer = Result<Msg, SendError>

  function Answers(results: seq<NodeResult>): (r: seq<Answer>)
    ensures |r| == |results| && forall i :: 0 <= i < |r| ==> r[i] == results[i].1
  {
    if results == [] then [] else [results[0].1] + Answers(results[1..])
  }

  function Messages(answers: seq<Answer>): seq<Msg> {
    if answers == [] then []
    else (if answers[0].Ok? then [answers[0].value] else []) + Messages(answers[1..])
  }

  /** The answers of the nodes that succeeded, in order. */
  function Succeeded(results: seq<NodeResult>): seq<Msg> {
    Messages(Answers(results))
  }

  predicate AdjacentEqual(msgs: seq<Msg>) {
    |msgs| < 2 || (msgs[0].payload == msgs[1].payload && AdjacentEqual(msgs[1..]))
  }

  /** What the client is sent; `canRender` says that the error response can be serialized. */
  function Decide(expected: nat, results: seq<NodeResult>, canRender: bool): Decision {
    var ok := Succeeded(results);
    if expected > |ok| || !AdjacentEqual(ok) then
      if canRender then ErrorResponse else Nothing
    else if ok == [] then Nothing
    else Forward(ok[|ok| - 1])
  }

  ghost predicate PairwiseEqual(msgs: seq<Msg>) {
    forall i, j :: 0 <= i < |msgs| && 0 <= j < |msgs| ==> msgs[i].payload == msgs[j].payload
  }

  /** Comparing neighbours is comparing all. */
  lemma {:induction false} AdjacentIsPairwise(msgs: seq<Msg>)
    ensures AdjacentEqual(msgs) <==> PairwiseEqual(msgs)
  {
    if |msgs| >= 2 {
      AdjacentIsPairwise(msgs[1..]);
      if AdjacentEqual(msgs) {
        forall i, j | 0 <= i < |msgs| && 0 <= j < |msgs|
          ensures msgs[i].payload == msgs[j].payload
        {
          EqualToSecond(msgs, i);
          EqualToSecond(msgs, j);
        }
      }
      if PairwiseEqual(msgs) {
        forall i, j | 0 <= i < |msgs[1..]| && 0 <= j < |msgs[1..]|
          ensures msgs[1..][i].payload == msgs[1..][j].payload
        {
          assert msgs[i + 1].payload == msgs[j + 1].payload;
        }
      }
    }
  }

  lemma EqualToSecond(msgs: seq<Msg>, i: nat)
    requires |msgs| >= 2 && i < |msgs| && msgs[0].payload == msgs[1].payload && PairwiseEqual(msgs[1..])
    ensures msgs[i].payload == msgs[1].payload
  {
    if i > 0 {
      assert msgs[1..][i - 1].payload == msgs[1..][0].payload;
    }
  }

  /**
   * An answer of a node is forwarded if and only if enough nodes succeeded, at least one did, and all their
   * payloads are the same; short of that the client gets the error response, and nothing when that cannot be
   * rendered or when no answer was expected and none came.
   */
  lemma ForwardExactly(expected: nat, results: seq<NodeResult>, canRender: bool)
    ensures var ok := Succeeded(results);
            var d := Decide(expected, results, canRender);
      && (d.Forward? <==> expected <= |ok| && ok != [] && PairwiseEqual(ok))
      && (d.Forward? ==> d.msg in ok && forall i :: 0 <= i < |ok| ==> ok[i].payload == d.msg.payload)
      && (d.ErrorResponse? <==> canRender && (expected > |ok| || !PairwiseEqual(ok)))
  {
    AdjacentIsPairwise(Succeeded(results));
  }

  // The order of the results, and who gave which answer

  lemma WithoutOne<T>(s: seq<T>, i: nat)
    requires i < |s|
    ensures multiset(s) == multiset(s[..i] + s[i + 1..]) + multiset{s[i]}
  {
    assert s == s[..i] + [s[i]] + s[i + 1..];
  }

  lemma {:induction false} RemoveAnswer(answers: seq<Answer>, i: nat)
    requires i < |answers|
    ensures multiset(Messages(answers)) == multiset(Messages(answers[..i] + answers[i + 1..]))
      + (if answers[i].Ok? then multiset{answers[i].value} else multiset{})
    decreases i
  {
    var rest := answers[..i] + answers[i + 1..];
    if i == 0 {
      assert rest == answers[1..];
    } else {
      assert rest[1..] == answers[1..][..i - 1] + answers[1..][i..];
      RemoveAnswer(answers[1..], i - 1);
    }
  }

  lemma SameRest<T>(a: multiset<T>, b: multiset<T>, x: T)
    requires a + multiset{x} == b + multiset{x}
    ensures a == b
  {
    assert a == a + multiset{x} - multiset{x};
    assert b == b + multiset{x} - multiset{x};
  }

  lemma FindOne<T>(s: seq<T>, i: nat, x: T, a: seq<T>)
    requires i < |s| && s[i] == x && a != [] && a[0] == x && multiset(a) == multiset(s)
    ensures multiset(a[1..]) == multiset(s[..i] + s[i + 1..])
  {
    WithoutOne(a, 0);
    WithoutOne(s, i);
    assert a[..0] + a[1..] == a[1..];
    SameRest(multiset(a[1..]), multiset(s[..i] + s[i + 1..]), x);
  }

  lemma {:induction false} SameMessages(a: seq<Answer>, b: seq<Answer>)
    requires multiset(a) == multiset(b)
    ensures multiset(Messages(a)) == multiset(Messages(b))
    decreases a
  {
    if a == [] {
      assert |multiset(b)| == 0;
    } else {
      assert a[0] in multiset(b);
      var i :| 0 <= i < |b| && b[i] == a[0];
      FindOne(b, i, a[0], a);
      SameMessages(a[1..], b[..i] + b[i + 1..]);
      RemoveAnswer(b, i);
    }
  }

  lemma {:induction false} AnswersOfRest(results: seq<NodeResult>, i: nat)
    requires i < |results|
    ensures Answers(results[..i] + results[i + 1..]) == Answers(results)[..i] + Answers(results)[i + 1..]
  {}

  /** A permutation of the results is one of the answers. */
  lemma {:induction false} AnswersOfPermutation(a: seq<NodeResult>, b: seq<NodeResult>)
    requires multiset(a) == multiset(b)
    ensures multiset(Answers(a)) == multiset(Answers(b))
    decreases a
  {
    if a == [] {
      assert |multiset(b)| == 0;
    } else {
      assert a[0] in multiset(b);
      var i :| 0 <= i < |b| && b[i] == a[0];
      FindOne(b, i, a[0], a);
      AnswersOfPermutation(a[1..], b[..i] + b[i + 1..]);
      AnswersOfRest(b, i);
      WithoutOne(Answers(b), i);
    }
  }

  lemma PairwiseOfSame(a: seq<Msg>, b: seq<Msg>)
    requires multiset(a) == multiset(b) && PairwiseEqual(a)
    ensures PairwiseEqual(b)
  {
    forall i, j | 0 <= i < |b| && 0 <= j < |b|
      ensures b[i].payload == b[j].payload
    {
      assert b[i] in multiset(a) && b[j] in multiset(a);
    }
  }

  /**
    The kind of the decision and the forwarded payload depend neither on the order of the results nor on
    which node gave which answer.
   */
  lemma DecisionIsOrderFree(expected: nat, a: seq<NodeResult>, b: seq<NodeResult>, canRender: bool)
    requires multiset(Answers(a)) == multiset(Answers(b))
    ensures var d, e := Decide(expected, a, canRender), Decide(expected, b, canRender);
      && (d.Forward? <==> e.Forward?) && (d.ErrorResponse? <==> e.ErrorResponse?)
      && (d.Forward? ==> d.msg.payload == e.msg.payload)
  {
    var x, y := Succeeded(a), Succeeded(b);
    SameMessages(Answers(a), Answers(b));
    assert |x| == |multiset(x)| == |multiset(y)| == |y|;
    ForwardExactly(expected, a, canRender);
    ForwardExactly(expected, b, canRender);
    if PairwiseEqual(x) {
      PairwiseOfSame(x, y);
    }
    if PairwiseEqual(y) {
      PairwiseOfSame(y, x);
    }
    if Decide(expected, a, canRender).Forward? {
      assert y[0] in multiset(x);
    }
  }

  // The whole message

  /** The results come in ascending order of the nodes. */
  ghost predicate Ascending(results: seq<NodeResult>) {
    forall i, j :: 0 <= i < j < |results| ==> results[i].0 < results[j].0
  }

  /** The place of the last answer that is a success, which is the message that is forwarded. */
  lemma {:induction false} LastSuccess(answers: seq<Answer>) returns (q: nat)
    requires Messages(answers) != []
    ensures q < |answers| && answers[q].Ok?
    ensures answers[q].value == Messages(answers)[|Messages(answers)| - 1]
    ensures forall j :: q < j < |answers| ==> answers[j].Err?
  {
    var rest := answers[1..];
    if Messages(rest) == [] {
      q := 0;
      NoMessages(rest);
      assert forall j :: 0 < j < |answers| ==> answers[j] == rest[j - 1];
    } else {
      var r := LastSuccess(rest);
      q := r + 1;
      assert forall j :: 0 < j < |answers| ==> answers[j] == rest[j - 1];
    }
  }

  lemma {:induction false} NoMessages(answers: seq<Answer>)
    ensures Messages(answers) == [] <==> forall j :: 0 <= j < |answers| ==> answers[j].Err?
  {
    if answers != [] {
      NoMessages(answers[1..]);
      assert forall j :: 0 < j < |answers| ==> answers[j] == answers[1..][j - 1];
    }
  }

  lemma {:induction false} MessageAt(answers: seq<Answer>, k: nat) returns (p: nat)
    requires k < |Messages(answers)|
    ensures p < |answers| && answers[p] == Ok(Messages(answers)[k])
  {
    if answers[0].Ok? && k == 0 {
      p := 0;
    } else {
      var r := MessageAt(answers[1..], if answers[0].Ok? then k - 1 else k);
      p := r + 1;
    }
  }

  lemma LastSuccessIsUnique(answers: seq<Answer>, q: nat)
    requires q < |answers| && answers[q].Ok? && forall j :: q < j < |answers| ==> answers[j].Err?
    ensures Messages(answers) != [] && answers[q].value == Messages(answers)[|Messages(answers)| - 1]
  {
    NoMessages(answers);
    var r := LastSuccess(answers);
    assert r == q;
  }

  /** What is forwarded is the answer of the highest node that succeeded. */
  lemma ForwardsTheHighest(expected: nat, results: seq<NodeResult>, canRender: bool) returns (q: nat)
    requires Ascending(results) && Decide(expected, results, canRender).Forward?
    ensures q < |results| && results[q].1 == Ok(Decide(expected, results, canRender).msg)
    ensures forall j :: 0 <= j < |results| && results[j].1.Ok? ==> results[j].0 <= results[q].0
  {
    q := LastSuccess(Answers(results));
  }

  /** The same nodes gave the same answers, but not each its own. */
  ghost predicate Exchanged(a: seq<NodeResult>, b: seq<NodeResult>) {
    && |a| == |b|
    && (forall i :: 0 <= i < |a| ==> a[i].0 == b[i].0)
    && multiset(Answers(a)) == multiset(Answers(b))
  }

  ghost predicate AllSame(msgs: seq<Msg>) {
    forall i, j :: 0 <= i < |msgs| && 0 <= j < |msgs| ==> msgs[i] == msgs[j]
  }

  /** Two nodes exchange their answers. */
  function Swap(results: seq<NodeResult>, p: nat, q: nat): (r: seq<NodeResult>)
    requires p < |results| && q < |results|
  {
    results[p := (results[p].0, results[q].1)][q := (results[q].0, results[p].1)]
  }

  lemma SwapKeepsMembers<T>(s: seq<T>, p: nat, q: nat)
    requires p < |s| && q < |s|
    ensures multiset(s[p := s[q]][q := s[p]]) == multiset(s)
  {}

  lemma AnswersOfUpdate(results: seq<NodeResult>, i: nat, r: NodeResult)
    requires i < |results|
    ensures Answers(results[i := r]) == Answers(results)[i := r.1]
  {}

  lemma AnswersOfSwap(results: seq<NodeResult>, p: nat, q: nat)
    requires p < |results| && q < |results|
    ensures Answers(Swap(results, p, q)) == Answers(results)[p := results[q].1][q := results[p].1]
  {
    AnswersOfUpdate(results, p, (results[p].0, results[q].1));
    AnswersOfUpdate(results[p := (results[p].0, results[q].1)], q, (results[q].0, results[p].1));
  }

  lemma SwapExchanges(results: seq<NodeResult>, p: nat, q: nat)
    requires p < |results| && q < |results|
    ensures Exchanged(results, Swap(results, p, q))
  {
    AnswersOfSwap(results, p, q);
    SwapKeepsMembers(Answers(results), p, q);
  }

  lemma LastOfSwap(answers: seq<Answer>, p: nat, q: nat, swapped: seq<Answer>)
    requires p < |answers| && q < |answers| && answers[p].Ok? && answers[q].Ok?
    requires forall j :: q < j < |answers| ==> answers[j].Err?
    requires swapped == answers[p := answers[q]][q := answers[p]]
    ensures Messages(swapped) != [] && Messages(swapped)[|Messages(swapped)| - 1] == answers[p].value
  {
    assert p <= q;
    LastSuccessIsUnique(swapped, q);
  }

  lemma ForwardsLast(expected: nat, a: seq<NodeResult>, b: seq<NodeResult>, canRender: bool, m: Msg)
    requires Decide(expected, a, canRender).Forward? && multiset(Answers(a)) == multiset(Answers(b))
    requires Succeeded(b) != [] && Succeeded(b)[|Succeeded(b)| - 1] == m
    ensures Decide(expected, b, canRender) == Forward(m)
  {
    DecisionIsOrderFree(expected, a, b, canRender);
  }

  lemma AnswerOfSwap(expected: nat, results: seq<NodeResult>, canRender: bool, p: nat, q: nat, swapped: seq<NodeResult>)
    requires Decide(expected, results, canRender).Forward? && p < |results| && q < |results|
    requires results[p].1.Ok? && results[q].1.Ok? && forall j :: q < j < |results| ==> results[j].1.Err?
    requires swapped == Swap(results, p, q)
    ensures Decide(expected, swapped, canRender) == Forward(results[p].1.value)
  {
    SwapExchanges(results, p, q);
    assert Succeeded(swapped) != [] && Succeeded(swapped)[|Succeeded(swapped)| - 1] == results[p].1.value by {
      AnswersOfSwap(results, p, q);
      LastOfSwap(Answers(results), p, q, Answers(swapped));
    }
    ForwardsLast(expected, results, swapped, canRender, results[p].1.value);
  }

  lemma SameWhenAllSame(expected: nat, a: seq<NodeResult>, b: seq<NodeResult>, canRender: bool)
    requires Decide(expected, a, canRender).Forward? && AllSame(Succeeded(a)) && Exchanged(a, b)
    ensures Decide(expected, b, canRender) == Decide(expected, a, canRender)
  {
    DecisionIsOrderFree(expected, a, b, canRender);
    SameMessages(Answers(a), Answers(b));
    var x, y := Succeeded(a), Succeeded(b);
    assert y[|y| - 1] in multiset(x);
  }

  /**
    The forwarded message is the same whichever node gave which answer if and only if all messages of the
    nodes that succeeded are the same as whole messages, not only in their payloads.
   */
  lemma WholeMessageExactly(expected: nat, results: seq<NodeResult>, canRender: bool)
    requires Decide(expected, results, canRender).Forward?
    ensures (forall other :: Exchanged(results, other) ==>
               Decide(expected, other, canRender) == Decide(expected, results, canRender))
       <==> AllSame(Succeeded(results))
  {
    var ok := Succeeded(results);
    if AllSame(ok) {
      forall other | Exchanged(results, other)
        ensures Decide(expected, other, canRender) == Decide(expected, results, canRender)
      {
        SameWhenAllSame(expected, results, other, canRender);
      }
    } else {
      var i, j :| 0 <= i < |ok| && 0 <= j < |ok| && ok[i] != ok[j];
      var k := if ok[i] != ok[|ok| - 1] then i else j;
      var p := MessageAt(Answers(results), k);
      var q := LastSuccess(Answers(results));
      SwapExchanges(results, p, q);
      AnswerOfSwap(expected, results, canRender, p, q, Swap(results, p, q));
    }
  }

  /** Two nodes with answers of one payload under two headers: who gave which decides what the client gets. */
  lemma HeaderDependsOnWhoAnswered(m: Msg, n: Msg)
    requires m.payload == n.payload && m.header != n.header
    ensures var a, b := [(0, Ok(m)), (1, Ok(n))], [(0, Ok(n)), (1, Ok(m))];
      && Ascending(a) && Ascending(b) && Exchanged(a, b)
      && Decide(2, a, true) == Forward(n) && Decide(2, b, true) == Forward(m)
  {
    var a: seq<NodeResult> := [(0, Ok(m)), (1, Ok(n))];
    var b: seq<NodeResult> := [(0, Ok(n)), (1, Ok(m))];
    SwapExchanges(a, 0, 1);
    assert Swap(a, 0, 1) == b;
    LastOfTwo(0, m, 1, n);
    LastOfTwo(0, n, 1, m);
  }

  lemma LastOfTwo(p: NodeId, m: Msg, q: NodeId, n: Msg)
    requires m.payload == n.payload
    ensures Decide(2, [(p, Ok(m)), (q, Ok(n))], true) == Forward(n)
  {
    var two: seq<Answer> := [Ok(m), Ok(n)];
    var one: seq<Answer> := [Ok(n)];
    assert Answers([(p, Ok(m)), (q, Ok(n))]) == two;
    assert two[1..] == one && one[1..] == [];
    assert Messages(one) == [n];
    assert Messages(two) == [m, n];
    assert AdjacentEqual([m, n][1..]);
  }

  // The comparison

  method AreBytesEqual(one: seq<byte>, other: seq<byte>) returns (equal: bool)
    ensures equal <==> one == other
  {
    if |one| != |other| {
      return false;
    }
    for i := 0 to |one|
      invariant one[..i] == other[..i]
    {
      if one[i] != other[i] {
        return false;
      }
      assert one[..i + 1] == one[..i] + [one[i]] && other[..i + 1] == other[..i] + [other[i]];
    }
    assert one[..|one|] == one && other[..|one|] == other;
    equal := true;
  }
}
