/** What the trackers hold after any run of operations. */
module IssueHistory {
  import opened Detector

  datatype Event =
    | Tracked(node: Name, kind: IssueType, time: nat)
    | DkgAcked(node: Name)
    | VoteReceived(node: Name)
    | ProbeAnswered(node: Name)
    | Added(node: Name)
    | Retained(nonElders: set<Name>, elders: set<Name>)
    | FaultyAsked(now: nat)

  function Step(d: Detector, e: Event): Detector {
    match e
    case Tracked(n, t, time) => Track(d, n, t, time)
    case DkgAcked(n) => Acknowledge(d, n, Dkg)
    case VoteReceived(n) => Acknowledge(d, n, ElderVoting)
    case ProbeAnswered(n) => Acknowledge(d, n, AeProbeMsg)
    case Added(n) => AddNode(d, n)
    case Retained(nonElders, elders) => Retain(d, nonElders, elders)
    case FaultyAsked(now) => Expire(d, now)
  }

  function Run(d: Detector, es: seq<Event>): Detector {
    if es == [] then d else Step(Run(d, es[..|es| - 1]), es[|es| - 1])
  }

  /** The times tracked for one node and type since the node was last left out of the members. */
  function TrackedSinceDrop(es: seq<Event>, n: Name, t: IssueType): seq<nat> {
    if es == [] then []
    else Remembered(TrackedSinceDrop(es[..|es| - 1], n, t), es[|es| - 1], n, t)
  }

  function Remembered(before: seq<nat>, e: Event, n: Name, t: IssueType): seq<nat> {
    match e
    case Tracked(m, u, time) => if m == n && u == t then before + [time] else before
    case Retained(nonElders, elders) => if n in nonElders || n in elders then before else []
    case _ => before
  }

  ghost predicate Ascending(q: seq<nat>) {
    forall i, j :: 0 <= i < j < |q| ==> q[i] <= q[j]
  }

  ghost predicate IsSuffix(q: seq<nat>, of: seq<nat>) {
    |q| <= |of| && q == of[|of| - |q|..]
  }

  /** The clock never runs backwards between tracked issues. */
  ghost predicate TimesAscend(es: seq<Event>) {
    forall i, j :: 0 <= i < j < |es| && es[i].Tracked? && es[j].Tracked? ==> es[i].time <= es[j].time
  }

  /** Every issue is tracked against a node that is a member at that moment. */
  ghost predicate TracksMembersOnly(d: Detector, es: seq<Event>) {
    forall i :: 0 <= i < |es| && es[i].Tracked? ==> es[i].node in Run(d, es[..i]).Members()
  }

  ghost predicate KeysAreMembers(d: Detector) {
    forall t, n :: n in d.Tracker(t) ==> n in d.Members()
  }

  // Expiry

  lemma {:induction false} KeepAllRecent(q: seq<nat>, now: nat)
    requires Ascending(q) && (q != [] ==> Recent(q[0], now))
    ensures KeepRecent(q, now) == q
  {
    if q != [] {
      KeepAllRecent(q[1..], now);
    }
  }

  /** Expiry cuts an ascending queue where the times are ten minutes old: its old head goes, its recent tail stays. */
  lemma {:induction false} ExpiryKeepsRecentTail(q: seq<nat>, now: nat)
    requires Ascending(q)
    ensures var kept := KeepRecent(q, now);
      && IsSuffix(kept, q)
      && (forall i :: 0 <= i < |q| ==> (now < q[i] + 10 * 60 * 1_000_000_000 <==> |q| - |kept| <= i))
  {
    if q != [] {
      if Recent(q[0], now) {
        KeepAllRecent(q, now);
      } else {
        ExpiryKeepsRecentTail(q[1..], now);
        var kept := KeepRecent(q[1..], now);
        assert KeepRecent(q, now) == kept;
        assert q[1..][|q| - 1 - |kept|..] == q[|q| - |kept|..];
        forall i | 0 <= i < |q|
          ensures now < q[i] + 10 * 60 * 1_000_000_000 <==> |q| - |kept| <= i
        {
          assert i > 0 ==> q[i] == q[1..][i - 1];
        }
      }
    }
  }

  // One step

  lemma {:induction false} TimesComeFromRun(es: seq<Event>, n: Name, t: IssueType, k: nat) returns (i: nat)
    requires k < |TrackedSinceDrop(es, n, t)|
    ensures i < |es| && es[i].Tracked? && es[i].time == TrackedSinceDrop(es, n, t)[k]
  {
    var last := |es| - 1;
    if k < |TrackedSinceDrop(es[..last], n, t)| && TrackedSinceDrop(es, n, t)[k] == TrackedSinceDrop(es[..last], n, t)[k] {
      i := TimesComeFromRun(es[..last], n, t, k);
    } else {
      i := last;
    }
  }

  lemma {:induction false} HistoryAscends(es: seq<Event>, n: Name, t: IssueType)
    requires TimesAscend(es)
    ensures Ascending(TrackedSinceDrop(es, n, t))
  {
    if es != [] {
      var last := |es| - 1;
      var before := TrackedSinceDrop(es[..last], n, t);
      HistoryAscends(es[..last], n, t);
      if es[last].Tracked? {
        forall k | 0 <= k < |before|
          ensures before[k] <= es[last].time
        {
          var i := TimesComeFromRun(es[..last], n, t, k);
        }
      }
    }
  }

  lemma SuffixAscends(q: seq<nat>, of: seq<nat>)
    requires Ascending(of) && IsSuffix(q, of)
    ensures Ascending(q)
  {}

  lemma SuffixOfSuffix(q: seq<nat>, mid: seq<nat>, of: seq<nat>)
    requires IsSuffix(q, mid) && IsSuffix(mid, of)
    ensures IsSuffix(q, of)
  {}

  lemma SuffixExtends(q: seq<nat>, of: seq<nat>, time: nat)
    requires IsSuffix(q, of)
    ensures IsSuffix(q + [time], of + [time])
  {}

  lemma WithTrackerAt(d: Detector, u: IssueType, tracker: TimedTracker, t: IssueType)
    ensures d.WithTracker(u, tracker).Tracker(t) == if t == u then tracker else d.Tracker(t)
    ensures d.WithTracker(u, tracker).Members() == d.Members()
  {}

  lemma RetainTracker(d: Detector, nonElders: set<Name>, elders: set<Name>, t: IssueType)
    ensures Retain(d, nonElders, elders).Tracker(t) == d.Tracker(t) - (d.Members() - nonElders - elders)
  {}

  lemma ExpireTracker(d: Detector, now: nat, t: IssueType)
    ensures Expire(d, now).Tracker(t) == if t == ElderVoting then d.Tracker(t) else RecentOnly(d.Tracker(t), now)
  {}

  /** What a step does to one tracker. */
  function StepTracker(d: Detector, e: Event, t: IssueType): TimedTracker {
    var tracker := d.Tracker(t);
    match e
    case Tracked(m, u, time) => if u == t then Pushed(tracker, m, time) else tracker
    case Retained(nonElders, elders) => tracker - (d.Members() - nonElders - elders)
    case FaultyAsked(now) => if t == ElderVoting then tracker else RecentOnly(tracker, now)
    case Added(_) => tracker
    case DkgAcked(m) => if t == Dkg then Popped(tracker, m) else tracker
    case VoteReceived(m) => if t == ElderVoting then Popped(tracker, m) else tracker
    case ProbeAnswered(m) => if t == AeProbeMsg then Popped(tracker, m) else tracker
  }

  lemma StepOnTracker(d: Detector, e: Event, t: IssueType)
    ensures Step(d, e).Tracker(t) == StepTracker(d, e, t)
  {
    match e
    case Tracked(m, u, time) => WithTrackerAt(d, u, Pushed(d.Tracker(u), m, time), t);
    case Retained(nonElders, elders) => RetainTracker(d, nonElders, elders, t);
    case FaultyAsked(now) => ExpireTracker(d, now, t);
    case Added(_) =>
    case DkgAcked(m) => WithTrackerAt(d, Dkg, Popped(d.Tracker(Dkg), m), t);
    case VoteReceived(m) => WithTrackerAt(d, ElderVoting, Popped(d.Tracker(ElderVoting), m), t);
    case ProbeAnswered(m) => WithTrackerAt(d, AeProbeMsg, Popped(d.Tracker(AeProbeMsg), m), t);
  }

  /** What a step does to the queue of one node. */
  ghost predicate StepsQueue(d: Detector, e: Event, n: Name, t: IssueType, q: seq<nat>, r: seq<nat>) {
    match e
    case Tracked(m, u, time) => r == if m == n && u == t then q + [time] else q
    case Retained(nonElders, elders) =>
      r == if n in d.Members() && n !in nonElders && n !in elders then [] else q
    case FaultyAsked(now) => r == if t == ElderVoting then q else KeepRecent(q, now)
    case Added(_) => r == q
    case DkgAcked(m) => r == if m == n && t == Dkg && q != [] then q[1..] else q
    case VoteReceived(m) => r == if m == n && t == ElderVoting && q != [] then q[1..] else q
    case ProbeAnswered(m) => r == if m == n && t == AeProbeMsg && q != [] then q[1..] else q
  }

  lemma StepOnQueue(d: Detector, e: Event, n: Name, t: IssueType)
    ensures StepsQueue(d, e, n, t, d.Queue(n, t), Step(d, e).Queue(n, t))
  {
    StepOnTracker(d, e, t);
    var tracker := d.Tracker(t);
    QueueIn(Step(d, e), n, t);
  }

  lemma QueueIn(d: Detector, n: Name, t: IssueType)
    ensures d.Queue(n, t) == if n in d.Tracker(t) then d.Tracker(t)[n] else []
  {}

  lemma StepOnMembers(d: Detector, e: Event)
    ensures Step(d, e).Members() == match e
                                    case Added(n) => d.Members() + {n}
                                    case Retained(nonElders, elders) => nonElders + elders
                                    case _ => d.Members()
  {
    match e
    case Tracked(m, u, time) => WithTrackerAt(d, u, Pushed(d.Tracker(u), m, time), u);
    case DkgAcked(m) => WithTrackerAt(d, Dkg, Popped(d.Tracker(Dkg), m), Dkg);
    case VoteReceived(m) => WithTrackerAt(d, ElderVoting, Popped(d.Tracker(ElderVoting), m), Dkg);
    case ProbeAnswered(m) => WithTrackerAt(d, AeProbeMsg, Popped(d.Tracker(AeProbeMsg), m), Dkg);
    case _ =>
  }

  lemma StepKeepsKeys(d: Detector, e: Event)
    requires KeysAreMembers(d)
    requires e.Tracked? ==> e.node in d.Members()
    ensures KeysAreMembers(Step(d, e))
  {
    StepOnMembers(d, e);
    forall t, n | n in Step(d, e).Tracker(t)
      ensures n in Step(d, e).Members()
    {
      StepOnTracker(d, e, t);
      KeyWasMember(d, e, n, t);
    }
  }

  lemma KeyWasMember(d: Detector, e: Event, n: Name, t: IssueType)
    requires KeysAreMembers(d) && n in StepTracker(d, e, t)
    requires e.Tracked? ==> e.node in d.Members()
    ensures n in d.Members()
    ensures e.Retained? ==> n in e.nonElders + e.elders
  {
    if !(e.Tracked? && n == e.node) {
      assert n in d.Tracker(t);
    }
  }

  /**
    In every run that tracks issues against members only, each queue is a suffix of the ascending times
    tracked since its node was last dropped, and every key of every tracker is a current member.
   */
  lemma {:induction false} QueuesAreSuffixes(nonElders: set<Name>, elders: set<Name>, es: seq<Event>)
    requires TimesAscend(es) && TracksMembersOnly(New(nonElders, elders), es)
    ensures var d := Run(New(nonElders, elders), es);
      && KeysAreMembers(d)
      && forall n, t :: Ascending(d.Queue(n, t)) && IsSuffix(d.Queue(n, t), TrackedSinceDrop(es, n, t))
  {
    var start := New(nonElders, elders);
    if es == [] {
      assert forall t :: start.Tracker(t) == map[];
    } else {
      var last := |es| - 1;
      var front, e := es[..last], es[last];
      assert forall i :: 0 <= i < |front| ==> front[..i] == es[..i];
      QueuesAreSuffixes(nonElders, elders, front);
      StepKeepsKeys(Run(start, front), e);
      forall n, t
        ensures var q := Step(Run(start, front), e).Queue(n, t);
          Ascending(q) && IsSuffix(q, TrackedSinceDrop(es, n, t))
      {
        QueueStep(Run(start, front), es, n, t);
      }
    }
  }

  lemma QueueStep(d: Detector, es: seq<Event>, n: Name, t: IssueType)
    requires es != [] && TimesAscend(es) && KeysAreMembers(d)
    requires IsSuffix(d.Queue(n, t), TrackedSinceDrop(es[..|es| - 1], n, t))
    ensures var q := Step(d, es[|es| - 1]).Queue(n, t);
      Ascending(q) && IsSuffix(q, TrackedSinceDrop(es, n, t))
  {
    var e := es[|es| - 1];
    var q, r := d.Queue(n, t), Step(d, e).Queue(n, t);
    HistoryAscends(es, n, t);
    HistoryAscends(es[..|es| - 1], n, t);
    StepOnQueue(d, e, n, t);
    if q != [] {
      assert n in d.Tracker(t);
    }
    SuffixStep(d, e, n, t, q, r, TrackedSinceDrop(es[..|es| - 1], n, t));
    SuffixAscends(r, TrackedSinceDrop(es, n, t));
  }

  lemma SuffixStep(d: Detector, e: Event, n: Name, t: IssueType, q: seq<nat>, r: seq<nat>, before: seq<nat>)
    requires Ascending(before) && IsSuffix(q, before) && (q != [] ==> n in d.Members())
    requires StepsQueue(d, e, n, t, q, r)
    ensures IsSuffix(r, Remembered(before, e, n, t))
  {
    if e.Tracked? {
      SuffixExtends(q, before, e.time);
    } else if e.FaultyAsked? {
      ExpiredSuffix(q, before, e.now);
    } else if q != [] {
      SuffixOfSuffix(q[1..], q, before);
    }
  }

  lemma ExpiredSuffix(q: seq<nat>, before: seq<nat>, now: nat)
    requires Ascending(before) && IsSuffix(q, before)
    ensures IsSuffix(KeepRecent(q, now), before)
  {
    SuffixAscends(q, before);
    ExpiryKeepsRecentTail(q, now);
    SuffixOfSuffix(KeepRecent(q, now), q, before);
  }

  /** Elder votes never expire: without a received vote, all that was tracked since the last drop is still there. */
  lemma {:induction false} ElderVotesNeverExpire(nonElders: set<Name>, elders: set<Name>, es: seq<Event>, n: Name)
    requires TracksMembersOnly(New(nonElders, elders), es)
    requires VoteReceived(n) !in es
    ensures KeysAreMembers(Run(New(nonElders, elders), es))
    ensures Run(New(nonElders, elders), es).Queue(n, ElderVoting) == TrackedSinceDrop(es, n, ElderVoting)
  {
    var start := New(nonElders, elders);
    if es == [] {
      assert forall t :: start.Tracker(t) == map[];
    } else {
      var last := |es| - 1;
      var front, e := es[..last], es[last];
      assert forall i :: 0 <= i < |front| ==> front[..i] == es[..i];
      assert e in es;
      ElderVotesNeverExpire(nonElders, elders, front, n);
      StepKeepsKeys(Run(start, front), e);
      StepOnQueue(Run(start, front), e, n, ElderVoting);
      assert e != VoteReceived(n);
    }
  }

  /** Tracking keeps the keys among the members exactly if the tracked node is one. */
  lemma TrackingStrangersLeaks(d: Detector, n: Name, t: IssueType, now: nat)
    requires KeysAreMembers(d)
    ensures KeysAreMembers(Track(d, n, t, now)) <==> n in d.Members()
  {
    if n in d.Members() {
      StepKeepsKeys(d, Tracked(n, t, now));
    } else {
      WithTrackerAt(d, t, Pushed(d.Tracker(t), n, now), t);
      assert n in Track(d, n, t, now).Tracker(t);
    }
  }

  /** The only step that drops a key is a change of members in which the node leaves. */
  lemma KeyIsDroppedExactly(d: Detector, e: Event, n: Name, t: IssueType)
    requires n in d.Tracker(t)
    ensures n !in Step(d, e).Tracker(t)
       <==> e.Retained? && n in d.Members() && n !in e.nonElders && n !in e.elders
  {
    StepOnTracker(d, e, t);
  }

  /** The node is never added and never among the members that are retained. */
  ghost predicate StaysStranger(es: seq<Event>, n: Name) {
    forall i :: 0 <= i < |es| ==>
      es[i] != Added(n) && (es[i].Retained? ==> n !in es[i].nonElders && n !in es[i].elders)
  }

  /** All times tracked for one node and type. */
  function TimesTracked(es: seq<Event>, n: Name, t: IssueType): seq<nat> {
    if es == [] then []
    else
      var e := es[|es| - 1];
      TimesTracked(es[..|es| - 1], n, t) + if e.Tracked? && e.node == n && e.kind == t then [e.time] else []
  }

  lemma StrangerStep(d: Detector, e: Event, n: Name)
    requires n !in d.Members() && e != Added(n) && (e.Retained? ==> n !in e.nonElders && n !in e.elders)
    ensures n !in Step(d, e).Members()
  {
    StepOnMembers(d, e);
  }

  /**
    The keys of a node that is no member leave no tracker for as long as it does not become one, whatever else
    happens; expiry and acknowledgements only shorten the queues behind them.
   */
  lemma {:induction false} StrangersKeepTheirKeys(d: Detector, es: seq<Event>, n: Name, t: IssueType)
    requires n !in d.Members() && n in d.Tracker(t) && StaysStranger(es, n)
    ensures n !in Run(d, es).Members() && n in Run(d, es).Tracker(t)
  {
    if es != [] {
      var front, e := es[..|es| - 1], es[|es| - 1];
      StrangersKeepTheirKeys(d, front, n, t);
      StrangerStep(Run(d, front), e, n);
      KeyIsDroppedExactly(Run(d, front), e, n, t);
    }
  }

  /** Its vote issues stay whole, without a received vote: those of the start and all tracked since. */
  lemma {:induction false} StrangersKeepTheirVotes(d: Detector, es: seq<Event>, n: Name)
    requires n !in d.Members() && StaysStranger(es, n) && VoteReceived(n) !in es
    ensures n !in Run(d, es).Members()
    ensures Run(d, es).Queue(n, ElderVoting) == d.Queue(n, ElderVoting) + TimesTracked(es, n, ElderVoting)
  {
    if es != [] {
      var front, e := es[..|es| - 1], es[|es| - 1];
      StrangersKeepTheirVotes(d, front, n);
      StrangerStep(Run(d, front), e, n);
      StepOnQueue(Run(d, front), e, n, ElderVoting);
      assert e != VoteReceived(n);
    }
  }
}
