/**
  The fault detector as a value: six trackers of issue times, the two groups of nodes, the effect of
  every operation, and the scores computed from them. Names are read as big-endian numbers, so their
  order is the order of a `BTreeMap`. Times are clock readings in nanoseconds.
 */
module Detector {
  import opened Ordered
  import opened Wrappers
  import opened Statistics

  type Name = nat
  type TimedTracker = map<Name, seq<nat>>

  const RECENT_ISSUE_DURATION: nat := 600_000_000_000

  datatype IssueType = AeProbeMsg | Dkg | ElderVoting | Communication | NetworkKnowledge | RequestOperation

  datatype Detector = Detector(
    communication: TimedTracker,
    dkg: TimedTracker,
    elderVoting: TimedTracker,
    probe: TimedTracker,
    knowledge: TimedTracker,
    ops: TimedTracker,
    nonElders: set<Name>,
    elders: set<Name>)
  {
    function Tracker(t: IssueType): TimedTracker {
      match t
      case AeProbeMsg => probe
      case Dkg => dkg
      case ElderVoting => elderVoting
      case Communication => communication
      case NetworkKnowledge => knowledge
      case RequestOperation => ops
    }

    function WithTracker(t: IssueType, tracker: TimedTracker): Detector {
      match t
      case AeProbeMsg => this.(probe := tracker)
      case Dkg => this.(dkg := tracker)
      case ElderVoting => this.(elderVoting := tracker)
      case Communication => this.(communication := tracker)
      case NetworkKnowledge => this.(knowledge := tracker)
      case RequestOperation => this.(ops := tracker)
    }

    function Members(): set<Name> {
      nonElders + elders
    }

    /** The recorded times of one issue type of one node; a missing entry counts as an empty queue. */
    function Queue(n: Name, t: IssueType): seq<nat> {
      if n in Tracker(t) then Tracker(t)[n] else []
    }
  }

  function New(nonElders: set<Name>, elders: set<Name>): Detector {
    Detector(map[], map[], map[], map[], map[], map[], nonElders, elders)
  }

  // Operations

  function Pushed(tracker: TimedTracker, n: Name, now: nat): TimedTracker {
    tracker[n := (if n in tracker then tracker[n] else []) + [now]]
  }

  function Track(d: Detector, n: Name, t: IssueType, now: nat): Detector {
    d.WithTracker(t, Pushed(d.Tracker(t), n, now))
  }

  function Popped(tracker: TimedTracker, n: Name): TimedTracker {
    if n in tracker && tracker[n] != [] then tracker[n := tracker[n][1..]] else tracker
  }

  /** An acknowledgement removes the oldest issue of its type. */
  function Acknowledge(d: Detector, n: Name, t: IssueType): Detector {
    d.WithTracker(t, Popped(d.Tracker(t), n))
  }

  function AddNode(d: Detector, n: Name): Detector {
    d.(nonElders := d.nonElders + {n})
  }

  function Forget(d: Detector, removed: set<Name>): Detector {
    d.(communication := d.communication - removed, dkg := d.dkg - removed, elderVoting := d.elderVoting - removed,
       probe := d.probe - removed, knowledge := d.knowledge - removed, ops := d.ops - removed)
  }

  lemma ForgetMore(d: Detector, removed: set<Name>, n: Name)
    ensures Forget(Forget(d, removed), {n}) == Forget(d, removed + {n})
  {
    forall t: TimedTracker
      ensures (t - removed) - {n} == t - (removed + {n})
    {}
  }

  /** Only nodes that were members before and no longer are lose their issues. */
  function Retain(d: Detector, nonElders: set<Name>, elders: set<Name>): Detector {
    Forget(d, d.Members() - nonElders - elders).(nonElders := nonElders, elders := elders)
  }

  predicate Recent(time: nat, now: nat) {
    now - time < RECENT_ISSUE_DURATION
  }

  function KeepRecent(queue: seq<nat>, now: nat): seq<nat> {
    if queue == [] then []
    else (if Recent(queue[0], now) then [queue[0]] else []) + KeepRecent(queue[1..], now)
  }

  function RecentOnly(tracker: TimedTracker, now: nat): TimedTracker {
    map n | n in tracker :: KeepRecent(tracker[n], now)
  }

  /** Expiry covers every tracker except the elder votes. */
  function Expire(d: Detector, now: nat): Detector {
    d.(communication := RecentOnly(d.communication, now), probe := RecentOnly(d.probe, now),
       knowledge := RecentOnly(d.knowledge, now), dkg := RecentOnly(d.dkg, now), ops := RecentOnly(d.ops, now))
  }

  // Scores

  function CountIn(tracker: TimedTracker, n: Name): nat {
    if n in tracker then |tracker[n]| else 0
  }

  /** The issue counts of the named nodes, leaving out `except`. */
  function Counts(tracker: TimedTracker, names: seq<Name>, except: Name): (r: seq<real>)
    ensures NonNegative(r)
  {
    if names == [] then []
    else
      var last := names[|names| - 1];
      Counts(tracker, names[..|names| - 1], except) + (if last == except then [] else [CountIn(tracker, last) as real])
  }

  /** The rounded-down mean issue count of all non-elders other than `n`; one if there are none. */
  function AverageOfOthers(tracker: TimedTracker, nonElders: set<Name>, n: Name): nat {
    var others := Counts(tracker, Sorted(nonElders), n);
    SumNonNegative(others);
    match MeanOf(others)
    case Some(mean) => mean.Floor
    case None => 1
  }

  function ScoreIn(tracker: TimedTracker, nonElders: set<Name>, n: Name): nat {
    var count := CountIn(tracker, n);
    if count == 0 then 0
    else
      var average := AverageOfOthers(tracker, nonElders, n);
      if count <= average then 0 else count - average
  }

  function Count(d: Detector, n: Name, t: IssueType): nat {
    CountIn(d.Tracker(t), n)
  }

  function Score(d: Detector, n: Name, t: IssueType): nat {
    ScoreIn(d.Tracker(t), d.nonElders, n)
  }

  function ScoresFor(d: Detector, nodes: set<Name>, t: IssueType): map<Name, real> {
    map n | n in nodes :: Score(d, n, t) as real
  }

  lemma ScoresForMore(d: Detector, nodes: set<Name>, n: Name, t: IssueType)
    ensures ScoresFor(d, nodes + {n}, t) == ScoresFor(d, nodes, t)[n := Score(d, n, t) as real]
  {}

  const CONN_WEIGHTING := 1.5
  const OP_WEIGHTING := 1.0
  const KNOWLEDGE_WEIGHTING := 2.0
  const DKG_WEIGHTING := 2.0
  const ELDER_VOTE_WEIGHTING := 2.5
  const AE_PROBE_WEIGHTING := 2.5

  const ISSUE_TYPES: set<IssueType> :=
    {AeProbeMsg, Dkg, ElderVoting, Communication, NetworkKnowledge, RequestOperation}

  /** One number per issue type. */
  type Table = m: map<IssueType, nat> | m.Keys == ISSUE_TYPES witness map t | t in ISSUE_TYPES :: 0

  function Weigh(table: Table): real {
    table[RequestOperation] as real * OP_WEIGHTING
    + table[Communication] as real * CONN_WEIGHTING
    + table[NetworkKnowledge] as real * KNOWLEDGE_WEIGHTING
    + table[ElderVoting] as real * ELDER_VOTE_WEIGHTING
    + table[Dkg] as real * DKG_WEIGHTING
    + table[AeProbeMsg] as real * AE_PROBE_WEIGHTING
  }

  /** All weights are halves, so twice a weighted sum is a natural number. */
  function TwiceWeighed(table: Table): (h: nat)
    ensures Weigh(table) == 0.5 * h as real
  {
    2 * table[RequestOperation] + 3 * table[Communication] + 4 * table[NetworkKnowledge]
    + 5 * table[ElderVoting] + 4 * table[Dkg] + 5 * table[AeProbeMsg]
  }

  function ScoreTable(d: Detector, n: Name): (r: Table)
    ensures forall t :: t in ISSUE_TYPES ==> r[t] == Score(d, n, t)
  {
    map t | t in ISSUE_TYPES :: Score(d, n, t)
  }

  function CountTable(d: Detector, n: Name): (r: Table)
    ensures forall t :: t in ISSUE_TYPES ==> r[t] == Count(d, n, t)
  {
    map t | t in ISSUE_TYPES :: Count(d, n, t)
  }

  function FinalScore(d: Detector, n: Name): real {
    Weigh(ScoreTable(d, n))
  }

  function FinalScores(d: Detector, group: set<Name>): (r: map<Name, real>)
    ensures r.Keys == group
  {
    map n | n in group :: FinalScore(d, n)
  }

  // Outliers

  function Values(scores: map<Name, real>, names: seq<Name>): (r: seq<real>)
    requires forall n :: n in names ==> n in scores
    ensures |r| == |names|
    ensures forall i :: 0 <= i < |r| ==> r[i] == scores[names[i]]
  {
    seq(|names|, i requires 0 <= i < |names| => scores[names[i]])
  }

  ghost predicate AllNonNegative(scores: map<Name, real>) {
    forall n :: n in scores ==> scores[n] >= 0.0
  }

  function GroupThreshold(scores: map<Name, real>): nat
    requires AllNonNegative(scores)
  {
    Threshold(Values(scores, Sorted(scores.Keys)))
  }

  /** The nodes whose truncated score reaches the threshold, with that truncated score. */
  function Above(scores: map<Name, real>, threshold: nat): map<Name, nat> {
    map n | n in scores && Exceeds(scores[n], threshold) :: scores[n].Floor
  }

  function Outliers(scores: map<Name, real>): map<Name, nat>
    requires AllNonNegative(scores)
  {
    Above(scores, GroupThreshold(scores))
  }

  lemma ScoresNonNegative(d: Detector, group: set<Name>)
    ensures AllNonNegative(FinalScores(d, group))
  {
    forall n | n in group
      ensures FinalScore(d, n) >= 0.0
    {
      var h := TwiceWeighed(ScoreTable(d, n));
    }
  }

  function Flagged(d: Detector, group: set<Name>): map<Name, nat> {
    ScoresNonNegative(d, group);
    Outliers(FinalScores(d, group))
  }
}
