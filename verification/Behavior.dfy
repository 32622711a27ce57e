/**
 Behavioural correlation (packages/core/src/behavioral-privacy/correlation.ts and
 engine.ts): capped access buckets, burst counts, scores and the decisions the
 request pipeline takes from them (apps/grl-server/src/local-api.ts).
 */
module Behavior {
  import opened Correlations
  import opened Numbers
  import opened Wrappers

  datatype Policy = Policy(enabled: bool, repeatedQueryThreshold: int, maxBehaviorScore: int)
  datatype Topic = Topic(name: string, count: nat)
  datatype Profile = Profile(risk: Risk, patterns: nat, score: int)
  datatype Decision = Decision(
    allowed: bool,
    requiresFragmentation: bool,
    requiresDelay: bool,
    requiresTransportRotation: bool)

  datatype State = State(
    policy: Policy,
    topics: map<string, seq<Topic>>,
    buckets: map<string, seq<int>>,
    scores: map<string, int>,
    profiles: map<string, Profile>)

  const BURST_THRESHOLD_MS := 100
  const BUCKET_CAP := 100
  const DEFAULT_POLICY := Policy(true, 5, 100)

  // ---- Correlation ------------------------------------------------------------

  function Bucket(s: State, a: string): seq<int> {
    if a in s.buckets then s.buckets[a] else []
  }

  function Capped(bucket: seq<int>): seq<int> {
    if |bucket| > BUCKET_CAP then bucket[1..] else bucket
  }

  function RecordAccess(s: State, a: string, now: int): State {
    if !s.policy.enabled then s else s.(buckets := s.buckets[a := Capped(Bucket(s, a) + [now])])
  }

  function Topics(s: State, a: string): seq<Topic> {
    if a in s.topics then s.topics[a] else []
  }

  /** Counts the topic up where it is first listed, or lists it. */
  function Observe(topics: seq<Topic>, name: string): seq<Topic> {
    if topics == [] then [Topic(name, 1)]
    else if topics[0].name == name then [Topic(name, topics[0].count + 1)] + topics[1..]
    else [topics[0]] + Observe(topics[1..], name)
  }

  function RecordTopic(s: State, a: string, name: string): State {
    if !s.policy.enabled then s else s.(topics := s.topics[a := Observe(Topics(s, a), name)])
  }

  function CountRepeated(topics: seq<Topic>, threshold: int): nat {
    if topics == [] then 0
    else CountRepeated(topics[..|topics| - 1], threshold) + (if topics[|topics| - 1].count >= threshold then 1 else 0)
  }

  function RepeatedTopics(s: State, a: string): nat {
    if !s.policy.enabled then 0 else CountRepeated(Topics(s, a), s.policy.repeatedQueryThreshold)
  }

  /** How many neighbouring accesses are less than the burst threshold apart. */
  function Bursts(bucket: seq<int>): nat {
    if |bucket| < 2 then 0
    else
      var n := |bucket|;
      Bursts(bucket[..n - 1]) + (if bucket[n - 1] - bucket[n - 2] < BURST_THRESHOLD_MS then 1 else 0)
  }

  function Patterns(s: State, a: string): nat {
    if !s.policy.enabled then 0 else Bursts(Bucket(s, a))
  }

  function Score(s: State, a: string): int {
    if !s.policy.enabled then 0
    else Min(RepeatedTopics(s, a) * 10 + Patterns(s, a) * 5, s.policy.maxBehaviorScore)
  }

  function Classify(score: int): Risk {
    if score >= 80 then Critical else if score >= 50 then High else if score >= 25 then Medium else Low
  }

  // ---- The engine -------------------------------------------------------------

  /** Recomputes score, risk and pattern count of a profile. */
  function Sync(s: State, a: string): State {
    var score := Score(s, a);
    s.(scores := if s.policy.enabled then s.scores[a := score] else s.scores,
       profiles := s.profiles[a := Profile(Classify(score), Patterns(s, a), score)])
  }

  function Decide(risk: Risk): Decision {
    match risk
    case Low => Decision(true, false, false, false)
    case Medium => Decision(true, false, true, false)
    case High => Decision(true, true, true, true)
    case Critical => Decision(false, true, true, true)
  }

  function Evaluate(s: State, a: string, at: int): (State, Decision) {
    var t := Sync(RecordAccess(s, a, at), a);
    (t, Decide(t.profiles[a].risk))
  }

  function RecordBehavior(s: State, a: string, at: int, topic: Option<string>): State {
    var s1 := RecordAccess(s, a, at);
    var s2 := if topic.Some? && topic.value != "" then RecordTopic(s1, a, topic.value) else s1;
    Sync(s2, a)
  }

  function DecayedScore(s: State, a: string, amount: int): int {
    Max(0, (if a in s.scores then s.scores[a] else 0) - amount)
  }

  /** Lowers the stored score of every profile; buckets are not touched. */
  function Decay(s: State, amount: int): State {
    s.(scores := s.scores + (map a | a in s.profiles :: DecayedScore(s, a, amount)),
       profiles := map a | a in s.profiles ::
         s.profiles[a].(score := DecayedScore(s, a, amount), risk := Classify(DecayedScore(s, a, amount))))
  }

  // ---- The pipeline -----------------------------------------------------------

  /** A request evaluates at one clock reading and records at another, and refreshes if it was allowed. */
  datatype Op =
    | Request(agent: string, evaluatedAt: int, recordedAt: int)
    | Refresh(agent: string)
    | DecayAll(amount: int)

  function Step(s: State, op: Op): State {
    match op
    case Request(a, e, r) =>
      var (s1, d) := Evaluate(s, a, e);
      var s2 := RecordBehavior(s1, a, r, None);
      if d.allowed then Sync(s2, a) else s2
    case Refresh(a) => Sync(s, a)
    case DecayAll(amount) => Decay(s, amount)
  }

  function Initial(policy: Policy): State {
    State(policy, map[], map[], map[], map[])
  }

  function Run(policy: Policy, ops: seq<Op>): State
    decreases |ops|
  {
    if ops == [] then Initial(policy) else Step(Run(policy, ops[..|ops| - 1]), ops[|ops| - 1])
  }

  function Requests(ops: seq<Op>, a: string): nat
    decreases |ops|
  {
    if ops == [] then 0
    else
      Requests(ops[..|ops| - 1], a) + (if ops[|ops| - 1].Request? && ops[|ops| - 1].agent == a then 1 else 0)
  }

  /** The two accesses of each request of the agent are less than the threshold apart. */
  predicate Prompt(ops: seq<Op>, a: string) {
    forall i :: 0 <= i < |ops| && ops[i].Request? && ops[i].agent == a ==>
      ops[i].recordedAt - ops[i].evaluatedAt < BURST_THRESHOLD_MS
  }

  /** Evaluate and record accesses alternate, each pair a burst. */
  predicate Paired(bucket: seq<int>) {
    && |bucket| % 2 == 0 && |bucket| <= BUCKET_CAP
    && forall i :: 0 <= i < |bucket| / 2 ==> bucket[2 * i + 1] - bucket[2 * i] < BURST_THRESHOLD_MS
  }

  lemma {:induction false} BurstsConcat(a: seq<int>, b: seq<int>)
    ensures Bursts(a + b) >= Bursts(a) + Bursts(b)
    ensures a == [] || b == [] ==> Bursts(a + b) == Bursts(a) + Bursts(b)
    ensures a != [] && b != [] ==>
              Bursts(a + b) == Bursts(a) + Bursts(b) + (if b[0] - a[|a| - 1] < BURST_THRESHOLD_MS then 1 else 0)
  {
    if b == [] {
      assert a + b == a;
    } else if a == [] {
      assert a + b == b;
    } else if |b| == 1 {
      assert (a + b)[..|a|] == a;
    } else {
      var init := b[..|b| - 1];
      BurstsConcat(a, init);
      assert (a + b)[..|a + b| - 1] == a + init;
    }
  }

  lemma {:induction false} PairedBursts(bucket: seq<int>)
    requires Paired(bucket)
    ensures Bursts(bucket) >= |bucket| / 2
  {
    if bucket == [] {
    } else {
      var n := |bucket|;
      var init := bucket[..n - 2];
      forall i | 0 <= i < |init| / 2 ensures init[2 * i + 1] - init[2 * i] < BURST_THRESHOLD_MS {
        assert init[2 * i + 1] == bucket[2 * i + 1] && init[2 * i] == bucket[2 * i];
      }
      PairedBursts(init);
      var m := n / 2 - 1;
      assert bucket[2 * m + 1] - bucket[2 * m] < BURST_THRESHOLD_MS;
      assert bucket == init + [bucket[n - 2], bucket[n - 1]];
      BurstsConcat(init, [bucket[n - 2], bucket[n - 1]]);
    }
  }

  /** The bucket of an agent after one more request, from its bucket before. */
  function AfterRequest(bucket: seq<int>, e: int, r: int): seq<int> {
    Capped(Capped(bucket + [e]) + [r])
  }

  lemma PairedAfterRequest(bucket: seq<int>, e: int, r: int)
    requires Paired(bucket) && r - e < BURST_THRESHOLD_MS
    ensures Paired(AfterRequest(bucket, e, r))
    ensures |AfterRequest(bucket, e, r)| == Min(|bucket| + 2, BUCKET_CAP)
  {
    var longer := bucket + [e] + [r];
    var next := AfterRequest(bucket, e, r);
    var shift := if |bucket| == BUCKET_CAP then 2 else 0;
    assert next == longer[shift..];
    forall i | 0 <= i < |next| / 2 ensures next[2 * i + 1] - next[2 * i] < BURST_THRESHOLD_MS {
      var j := i + shift / 2;
      assert next[2 * i + 1] == longer[2 * j + 1] && next[2 * i] == longer[2 * j];
      if j < |bucket| / 2 {
        assert bucket[2 * j + 1] - bucket[2 * j] < BURST_THRESHOLD_MS;
      }
    }
  }

  lemma BucketAfter(s: State, op: Op, a: string)
    requires s.policy.enabled
    ensures Step(s, op).policy == s.policy && Step(s, op).topics == s.topics
    ensures Bucket(Step(s, op), a)
            == if op.Request? && op.agent == a then AfterRequest(Bucket(s, a), op.evaluatedAt, op.recordedAt)
               else Bucket(s, a)
  {
  }

  lemma {:induction false} RunsArePaired(policy: Policy, ops: seq<Op>, a: string)
    requires policy.enabled && Prompt(ops, a)
    ensures Run(policy, ops).policy == policy && Run(policy, ops).topics == map[]
    ensures Paired(Bucket(Run(policy, ops), a))
    ensures |Bucket(Run(policy, ops), a)| == Min(2 * Requests(ops, a), BUCKET_CAP)
    decreases |ops|
  {
    if ops == [] {
    } else {
      var before := ops[..|ops| - 1];
      var op := ops[|ops| - 1];
      RunsArePaired(policy, before, a);
      BucketAfter(Run(policy, before), op, a);
      if op.Request? && op.agent == a {
        PairedAfterRequest(Bucket(Run(policy, before), a), op.evaluatedAt, op.recordedAt);
      }
    }
  }

  lemma EvaluatedBursts(bucket: seq<int>, e: int)
    requires Paired(bucket)
    ensures Bursts(Capped(bucket + [e])) >= Min(|bucket| / 2, 49)
  {
    if |bucket| == BUCKET_CAP {
      var kept := bucket[2..];
      forall i | 0 <= i < |kept| / 2 ensures kept[2 * i + 1] - kept[2 * i] < BURST_THRESHOLD_MS {
        assert bucket[2 * (i + 1) + 1] - bucket[2 * (i + 1)] < BURST_THRESHOLD_MS;
      }
      PairedBursts(kept);
      BurstsConcat(kept, [e]);
      BurstsConcat([bucket[1]], kept + [e]);
      assert Capped(bucket + [e]) == [bucket[1]] + (kept + [e]);
    } else {
      PairedBursts(bucket);
      BurstsConcat(bucket, [e]);
    }
  }

  /**
   However far apart an agent's requests are, and despite the cap on its bucket,
   its k-th request is evaluated with at least min(k - 1, 49) burst patterns:
   the two accesses of each earlier request count as one.
   */
  lemma PatternsGrowWithRequests(policy: Policy, ops: seq<Op>, a: string, at: int)
    requires policy.enabled && Prompt(ops, a)
    ensures Patterns(RecordAccess(Run(policy, ops), a, at), a) >= Min(Requests(ops, a), 49)
  {
    RunsArePaired(policy, ops, a);
    EvaluatedBursts(Bucket(Run(policy, ops), a), at);
  }

  /** With no topics recorded, the pattern count alone decides. */
  lemma DecisionFromPatterns(s: State, a: string, at: int)
    requires s.policy.enabled && s.topics == map[]
    ensures !Evaluate(s, a, at).1.allowed
            <==> Patterns(RecordAccess(s, a, at), a) >= 16 && s.policy.maxBehaviorScore >= 80
  {
    var s1 := RecordAccess(s, a, at);
    assert RepeatedTopics(s1, a) == 0;
    assert Evaluate(s, a, at).1 == Decide(Classify(Score(s1, a)));
  }

  /**
   From its 17th request on an agent is denied for good, whatever decay passes
   come between, exactly when the policy lets scores reach the critical level.
   The default policy does.
   */
  lemma DeniedForGood(policy: Policy, ops: seq<Op>, a: string, at: int)
    requires policy.enabled && Prompt(ops, a) && Requests(ops, a) >= 16
    ensures !Evaluate(Run(policy, ops), a, at).1.allowed <==> policy.maxBehaviorScore >= 80
    ensures DEFAULT_POLICY.maxBehaviorScore >= 80
  {
    PatternsGrowWithRequests(policy, ops, a, at);
    RunsArePaired(policy, ops, a);
    DecisionFromPatterns(Run(policy, ops), a, at);
  }

  // ---- Exactly, for well spaced requests ---------------------------------------

  /** Each request of the agent is evaluated at least the threshold after the record before it. */
  predicate Spaced(policy: Policy, ops: seq<Op>, a: string)
    decreases |ops|
  {
    ops != [] ==>
      var before := ops[..|ops| - 1];
      var op := ops[|ops| - 1];
      && Spaced(policy, before, a)
      && (op.Request? && op.agent == a ==> Apart(Bucket(Run(policy, before), a), op.evaluatedAt))
  }

  predicate Apart(bucket: seq<int>, at: int) {
    bucket != [] ==> at - bucket[|bucket| - 1] >= BURST_THRESHOLD_MS
  }

  /** No burst runs from one pair to the next. */
  predicate Separate(bucket: seq<int>) {
    forall i :: 0 < i < |bucket| / 2 && 2 * i < |bucket| ==> bucket[2 * i] - bucket[2 * i - 1] >= BURST_THRESHOLD_MS
  }

  lemma {:induction false} SeparateBursts(bucket: seq<int>)
    requires Paired(bucket) && Separate(bucket)
    ensures Bursts(bucket) == |bucket| / 2
  {
    if bucket == [] {
    } else {
      var n := |bucket|;
      var init := bucket[..n - 2];
      forall i | 0 <= i < |init| / 2 ensures init[2 * i + 1] - init[2 * i] < BURST_THRESHOLD_MS {
        assert init[2 * i + 1] == bucket[2 * i + 1] && init[2 * i] == bucket[2 * i];
      }
      forall i | 0 < i < |init| / 2 ensures init[2 * i] - init[2 * i - 1] >= BURST_THRESHOLD_MS {
        assert init[2 * i] == bucket[2 * i] && init[2 * i - 1] == bucket[2 * i - 1];
      }
      SeparateBursts(init);
      var m := n / 2 - 1;
      assert bucket[2 * m + 1] - bucket[2 * m] < BURST_THRESHOLD_MS;
      if m > 0 { assert bucket[2 * m] - bucket[2 * m - 1] >= BURST_THRESHOLD_MS; }
      assert bucket == init + [bucket[n - 2], bucket[n - 1]];
      BurstsConcat(init, [bucket[n - 2], bucket[n - 1]]);
    }
  }

  lemma SeparateAfterRequest(bucket: seq<int>, e: int, r: int)
    requires Paired(bucket) && Separate(bucket) && Apart(bucket, e)
    ensures Separate(AfterRequest(bucket, e, r))
  {
    var longer := bucket + [e] + [r];
    var next := AfterRequest(bucket, e, r);
    var shift := if |bucket| == BUCKET_CAP then 2 else 0;
    assert next == longer[shift..];
    forall i | 0 < i < |next| / 2 ensures next[2 * i] - next[2 * i - 1] >= BURST_THRESHOLD_MS {
      var j := i + shift / 2;
      assert next[2 * i] == longer[2 * j] && next[2 * i - 1] == longer[2 * j - 1];
      if j < |bucket| / 2 {
        assert bucket[2 * j] - bucket[2 * j - 1] >= BURST_THRESHOLD_MS;
      }
    }
  }

  lemma {:induction false} RunsAreSeparate(policy: Policy, ops: seq<Op>, a: string)
    requires policy.enabled && Prompt(ops, a) && Spaced(policy, ops, a)
    ensures Separate(Bucket(Run(policy, ops), a))
    decreases |ops|
  {
    if ops == [] {
    } else {
      var before := ops[..|ops| - 1];
      var op := ops[|ops| - 1];
      RunsAreSeparate(policy, before, a);
      RunsArePaired(policy, before, a);
      BucketAfter(Run(policy, before), op, a);
      if op.Request? && op.agent == a {
        SeparateAfterRequest(Bucket(Run(policy, before), a), op.evaluatedAt, op.recordedAt);
      }
    }
  }

  lemma EvaluatedExactly(bucket: seq<int>, e: int)
    requires Paired(bucket) && Separate(bucket) && Apart(bucket, e)
    ensures Bursts(Capped(bucket + [e])) == Min(|bucket| / 2, 49)
  {
    SeparateBursts(bucket);
    BurstsConcat(bucket, [e]);
    if |bucket| == BUCKET_CAP {
      var longer := bucket + [e];
      assert longer == [bucket[0]] + longer[1..];
      BurstsConcat([bucket[0]], longer[1..]);
      assert bucket[2 * 0 + 1] - bucket[2 * 0] < BURST_THRESHOLD_MS;
    }
  }

  /**
   For every state, each part of the decision follows the score at its own
   threshold: delay from 25, fragmentation and transport rotation from 50, denial
   from 80.
   */
  lemma DecisionFromScoreExactly(s: State, a: string, at: int)
    ensures var d, score := Evaluate(s, a, at).1, Score(RecordAccess(s, a, at), a);
            && (d.requiresDelay <==> score >= 25)
            && (d.requiresFragmentation <==> score >= 50)
            && (d.requiresTransportRotation <==> score >= 50)
            && (d.allowed <==> score < 80)
  {
    assert Evaluate(s, a, at).1 == Decide(Classify(Score(RecordAccess(s, a, at), a)));
  }

  lemma SpacedScore(ops: seq<Op>, a: string, at: int)
    requires Prompt(ops, a) && Spaced(DEFAULT_POLICY, ops, a) && Apart(Bucket(Run(DEFAULT_POLICY, ops), a), at)
    ensures var n := Requests(ops, a);
            Score(RecordAccess(Run(DEFAULT_POLICY, ops), a, at), a) == if n < 20 then 5 * n else 100
  {
    RunsArePaired(DEFAULT_POLICY, ops, a);
    RunsAreSeparate(DEFAULT_POLICY, ops, a);
    var s := Run(DEFAULT_POLICY, ops);
    EvaluatedExactly(Bucket(s, a), at);
    assert RepeatedTopics(RecordAccess(s, a, at), a) == 0;
  }

  /**
   An agent whose requests are well apart, and so shows no bursts of its own, is
   delayed exactly from its 6th request on, fragmented and rotated exactly from
   the 11th, and denied exactly from the 17th.
   */
  lemma SpacedAgentDecidedExactly(ops: seq<Op>, a: string, at: int)
    requires Prompt(ops, a) && Spaced(DEFAULT_POLICY, ops, a) && Apart(Bucket(Run(DEFAULT_POLICY, ops), a), at)
    ensures var d, n := Evaluate(Run(DEFAULT_POLICY, ops), a, at).1, Requests(ops, a);
            && (d.requiresDelay <==> n >= 5)
            && (d.requiresFragmentation <==> n >= 10)
            && (d.requiresTransportRotation <==> n >= 10)
            && (!d.allowed <==> n >= 16)
  {
    SpacedScore(ops, a, at);
    DecisionFromScoreExactly(Run(DEFAULT_POLICY, ops), a, at);
  }

  // ---- What buckets, topics and profiles hold ----------------------------------

  /** Every access of an agent in a run, in order. */
  function Accesses(ops: seq<Op>, a: string): seq<int>
    decreases |ops|
  {
    if ops == [] then []
    else
      var earlier, op := Accesses(ops[..|ops| - 1], a), ops[|ops| - 1];
      if op.Request? && op.agent == a then earlier + [op.evaluatedAt, op.recordedAt] else earlier
  }

  function LastHundred(ts: seq<int>): seq<int> {
    if |ts| <= 100 then ts else ts[|ts| - 100..]
  }

  /** In every run a bucket is the last hundred accesses of its agent. */
  lemma {:induction false} BucketIsLastHundred(policy: Policy, ops: seq<Op>, a: string)
    requires policy.enabled
    ensures Run(policy, ops).policy == policy
    ensures Bucket(Run(policy, ops), a) == LastHundred(Accesses(ops, a))
    decreases |ops|
  {
    if ops == [] {
    } else {
      var before, op := ops[..|ops| - 1], ops[|ops| - 1];
      BucketIsLastHundred(policy, before, a);
      BucketAfter(Run(policy, before), op, a);
      if op.Request? && op.agent == a {
        LastHundredAppend(Accesses(before, a), op.evaluatedAt);
        LastHundredAppend(Accesses(before, a) + [op.evaluatedAt], op.recordedAt);
        assert Accesses(before, a) + [op.evaluatedAt] + [op.recordedAt] == Accesses(ops, a);
      }
    }
  }

  lemma LastHundredAppend(ts: seq<int>, t: int)
    ensures Capped(LastHundred(ts) + [t]) == LastHundred(ts + [t])
  {
  }

  /** The accesses less than 100 ms after the one before. */
  ghost function Quick(bucket: seq<int>): set<int> {
    set i | 0 < i < |bucket| && IsQuick(bucket, i)
  }

  predicate IsQuick(bucket: seq<int>, i: int)
    requires 0 < i < |bucket|
  {
    bucket[i] - bucket[i - 1] < 100
  }

  ghost function Frequent(topics: seq<Topic>, threshold: int): set<int> {
    set i | 0 <= i < |topics| && topics[i].count >= threshold
  }

  lemma {:induction false} BurstsCountQuick(bucket: seq<int>)
    ensures Bursts(bucket) == |Quick(bucket)|
  {
    var n := |bucket|;
    if n < 2 {
      assert Quick(bucket) == {};
    } else {
      BurstsCountQuick(bucket[..n - 1]);
      assert forall i :: 0 < i < n - 1 ==> (IsQuick(bucket, i) <==> IsQuick(bucket[..n - 1], i));
      assert Quick(bucket) == Quick(bucket[..n - 1]) + (if IsQuick(bucket, n - 1) then {n - 1} else {});
    }
  }

  lemma {:induction false} RepeatedCountFrequent(topics: seq<Topic>, threshold: int)
    ensures CountRepeated(topics, threshold) == |Frequent(topics, threshold)|
  {
    var n := |topics|;
    if n == 0 {
      assert Frequent(topics, threshold) == {};
    } else {
      RepeatedCountFrequent(topics[..n - 1], threshold);
      assert Frequent(topics, threshold)
          == Frequent(topics[..n - 1], threshold) + (if topics[n - 1].count >= threshold then {n - 1} else {});
    }
  }

  /** Ten for each topic at its threshold and five for each quick access, up to the policy's maximum. */
  lemma ScoreExactly(s: State, a: string)
    requires s.policy.enabled
    ensures var total := 10 * |Frequent(Topics(s, a), s.policy.repeatedQueryThreshold)| + 5 * |Quick(Bucket(s, a))|;
            Score(s, a) == if total <= s.policy.maxBehaviorScore then total else s.policy.maxBehaviorScore
    ensures s.policy == DEFAULT_POLICY ==>
              Score(s, a) == Min(100, 10 * |Frequent(Topics(s, a), 5)| + 5 * |Quick(Bucket(s, a))|)
  {
    BurstsCountQuick(Bucket(s, a));
    RepeatedCountFrequent(Topics(s, a), s.policy.repeatedQueryThreshold);
  }

  function ObserveAll(labels: seq<string>): seq<Topic> {
    if labels == [] then [] else Observe(ObserveAll(labels[..|labels| - 1]), labels[|labels| - 1])
  }

  predicate Lists(topics: seq<Topic>, name: string) {
    exists i :: 0 <= i < |topics| && topics[i].name == name
  }

  predicate DistinctNames(topics: seq<Topic>) {
    forall i, j :: 0 <= i < j < |topics| ==> topics[i].name != topics[j].name
  }

  /** Each topic that was seen is listed once, with the number of times it was seen. */
  ghost predicate Counts(topics: seq<Topic>, seen: multiset<string>) {
    && (forall i :: 0 <= i < |topics| ==> topics[i].count == seen[topics[i].name])
    && DistinctNames(topics)
    && (forall name :: name in seen <==> Lists(topics, name))
  }

  /** What observing does to a listing: counts up in place, or lists at the end. */
  lemma {:induction false} ObserveListing(topics: seq<Topic>, name: string)
    requires DistinctNames(topics)
    ensures var after := Observe(topics, name);
            && |after| == |topics| + (if Lists(topics, name) then 0 else 1)
            && (forall i :: 0 <= i < |topics| ==>
                  after[i] == Topic(topics[i].name, topics[i].count + (if topics[i].name == name then 1 else 0)))
            && (!Lists(topics, name) ==> after[|topics|] == Topic(name, 1))
  {
    if topics == [] {
    } else {
      var rest := topics[1..];
      assert forall i :: 1 <= i < |topics| ==> topics[i] == rest[i - 1];
      assert forall i :: 0 <= i < |rest| ==> rest[i] == topics[i + 1];
      ObserveListing(rest, name);
    }
  }

  /** However labels are observed, each is listed once, with the number of times it was observed. */
  lemma {:induction false} TopicsCountObservations(labels: seq<string>)
    ensures Counts(ObserveAll(labels), multiset(labels))
  {
    if labels == [] {
    } else {
      var init, name := labels[..|labels| - 1], labels[|labels| - 1];
      TopicsCountObservations(init);
      assert labels == init + [name];
      CountsObserve(ObserveAll(init), multiset(init), name);
    }
  }

  lemma CountsObserve(topics: seq<Topic>, seen: multiset<string>, name: string)
    requires Counts(topics, seen)
    ensures Counts(Observe(topics, name), seen + multiset{name})
  {
    var after, more := Observe(topics, name), seen + multiset{name};
    StaysDistinct(topics, name);
    forall i | 0 <= i < |after| ensures after[i].count == more[after[i].name] {
      CountAfter(topics, seen, name, i);
    }
    forall other ensures other in more <==> Lists(after, other) {
      ListsAfter(topics, name, other);
    }
  }

  lemma StaysDistinct(topics: seq<Topic>, name: string)
    requires DistinctNames(topics)
    ensures DistinctNames(Observe(topics, name))
  {
    ObserveListing(topics, name);
  }

  lemma CountAfter(topics: seq<Topic>, seen: multiset<string>, name: string, i: nat)
    requires Counts(topics, seen) && i < |Observe(topics, name)|
    ensures Observe(topics, name)[i].count == (seen + multiset{name})[Observe(topics, name)[i].name]
  {
    ObserveListing(topics, name);
    if i < |topics| {
      assert topics[i].count == seen[topics[i].name];
    } else {
      assert name !in seen;
    }
  }

  lemma ListsAfter(topics: seq<Topic>, name: string, other: string)
    requires DistinctNames(topics)
    ensures Lists(Observe(topics, name), other) <==> Lists(topics, other) || other == name
  {
    var after := Observe(topics, name);
    ObserveListing(topics, name);
    if Lists(topics, other) {
      var i :| 0 <= i < |topics| && topics[i].name == other;
      assert after[i].name == other;
    } else if other == name {
      assert after[|topics|].name == other;
    }
  }

  /** What a profile stores agrees with itself and with the bucket, whatever was decayed or refreshed before. */
  predicate Agrees(s: State, a: string) {
    a in s.profiles ==>
      var p := s.profiles[a];
      && a in s.scores && s.scores[a] == p.score && p.patterns == Patterns(s, a)
      && (p.risk == Critical <==> p.score >= 80)
      && (p.risk == High <==> 50 <= p.score < 80)
      && (p.risk == Medium <==> 25 <= p.score < 50)
  }

  lemma SyncAgrees(s: State, b: string, a: string)
    requires s.policy.enabled && (a != b ==> Agrees(s, a))
    ensures Agrees(Sync(s, b), a) && Sync(s, b).policy == s.policy
  {
  }

  lemma StepAgrees(s: State, op: Op, a: string)
    requires s.policy.enabled && Agrees(s, a)
    ensures Agrees(Step(s, op), a) && Step(s, op).policy == s.policy
  {
    match op
    case Request(b, e, r) =>
      var s1 := Sync(RecordAccess(s, b, e), b);
      SyncAgrees(RecordAccess(s, b, e), b, a);
      SyncAgrees(RecordAccess(s1, b, r), b, a);
      SyncAgrees(Sync(RecordAccess(s1, b, r), b), b, a);
    case Refresh(b) => SyncAgrees(s, b, a);
    case DecayAll(_) =>
  }

  lemma {:induction false} ProfilesAgree(policy: Policy, ops: seq<Op>, a: string)
    requires policy.enabled
    ensures Run(policy, ops).policy == policy && Agrees(Run(policy, ops), a)
    decreases |ops|
  {
    if ops == [] {
    } else {
      ProfilesAgree(policy, ops[..|ops| - 1], a);
      StepAgrees(Run(policy, ops[..|ops| - 1]), ops[|ops| - 1], a);
    }
  }

  /** A decay pass lowers every profile by the amount, to zero at least, and forgets no access. */
  lemma DecayExactly(s: State, amount: int, a: string)
    requires Agrees(s, a) && a in s.profiles
    ensures var t := Decay(s, amount);
            && Agrees(t, a) && a in t.profiles
            && t.profiles[a].score == (if s.profiles[a].score <= amount then 0 else s.profiles[a].score - amount)
            && t.buckets == s.buckets && t.topics == s.topics
  {
  }

  /** What a list of observations leaves: each an access, some with a topic. */
  function ObserveRun(s: State, a: string, seen: seq<(int, Option<string>)>): State
    decreases |seen|
  {
    if seen == [] then s
    else
      var last := seen[|seen| - 1];
      RecordBehavior(ObserveRun(s, a, seen[..|seen| - 1]), a, last.0, last.1)
  }

  function Times(seen: seq<(int, Option<string>)>): seq<int> {
    seq(|seen|, i requires 0 <= i < |seen| => seen[i].0)
  }

  /** The topics observed, an empty one counting as none. */
  function Labels(seen: seq<(int, Option<string>)>): seq<string> {
    if seen == [] then []
    else
      var earlier, topic := Labels(seen[..|seen| - 1]), seen[|seen| - 1].1;
      if topic.None? || |topic.value| == 0 then earlier else earlier + [topic.value]
  }

  lemma RecordedBehavior(s: State, a: string, at: int, topic: Option<string>)
    requires s.policy.enabled
    ensures var t := RecordBehavior(s, a, at, topic);
            && t.policy == s.policy && Bucket(t, a) == Capped(Bucket(s, a) + [at])
            && Topics(t, a)
               == (if topic.Some? && |topic.value| > 0 then Observe(Topics(s, a), topic.value) else Topics(s, a))
            && a in t.profiles && t.profiles[a].score == Score(t, a)
  {
  }

  lemma LabelsStep(seen: seq<(int, Option<string>)>)
    requires seen != []
    ensures var init, topic := seen[..|seen| - 1], seen[|seen| - 1].1;
            ObserveAll(Labels(seen))
            == if topic.Some? && |topic.value| > 0 then Observe(ObserveAll(Labels(init)), topic.value)
               else ObserveAll(Labels(init))
  {
    var earlier, topic := Labels(seen[..|seen| - 1]), seen[|seen| - 1].1;
    if topic.Some? && |topic.value| > 0 {
      assert (earlier + [topic.value])[..|earlier|] == earlier;
    }
  }

  lemma TimesStep(seen: seq<(int, Option<string>)>)
    requires seen != []
    ensures var init, last := seen[..|seen| - 1], seen[|seen| - 1];
            LastHundred(Times(seen)) == Capped(LastHundred(Times(init)) + [last.0])
  {
    var init, last := seen[..|seen| - 1], seen[|seen| - 1];
    LastHundredAppend(Times(init), last.0);
    assert Times(seen) == Times(init) + [last.0];
  }

  /** What an agent with these observations has in store. */
  predicate Stores(s: State, a: string, seen: seq<(int, Option<string>)>) {
    && Bucket(s, a) == LastHundred(Times(seen))
    && Topics(s, a) == ObserveAll(Labels(seen))
  }

  lemma ObservedStep(s: State, a: string, seen: seq<(int, Option<string>)>)
    requires s.policy.enabled && seen != [] && Stores(s, a, seen[..|seen| - 1])
    ensures var last := seen[|seen| - 1];
            Stores(RecordBehavior(s, a, last.0, last.1), a, seen)
  {
    var last := seen[|seen| - 1];
    RecordedBehavior(s, a, last.0, last.1);
    TimesStep(seen);
    LabelsStep(seen);
  }

  /** Observing is remembered: the last hundred accesses, and every topic as often as it was observed. */
  lemma {:induction false} ObservationsAreRemembered(policy: Policy, a: string, seen: seq<(int, Option<string>)>)
    requires policy.enabled
    ensures var s := ObserveRun(Initial(policy), a, seen);
            && s.policy == policy && Stores(s, a, seen)
            && (seen != [] ==> a in s.profiles && s.profiles[a].score == Score(s, a))
    decreases |seen|
  {
    if seen == [] {
    } else {
      var init, last := seen[..|seen| - 1], seen[|seen| - 1];
      ObservationsAreRemembered(policy, a, init);
      var s := ObserveRun(Initial(policy), a, init);
      ObservedStep(s, a, seen);
      RecordedBehavior(s, a, last.0, last.1);
    }
  }

  /** A disabled policy remembers no access and holds nobody up. */
  lemma {:induction false} DisabledHoldsNobodyUp(policy: Policy, ops: seq<Op>, a: string, at: int)
    requires !policy.enabled
    ensures var s := Run(policy, ops);
            && s.policy == policy && s.buckets == map[] && s.topics == map[]
            && Patterns(s, a) == 0 && RepeatedTopics(s, a) == 0
            && Evaluate(s, a, at).1 == Decision(true, false, false, false)
            && ((forall i :: 0 <= i < |ops| ==> !ops[i].DecayAll?) ==>
                  s.scores == map[] && forall b :: b in s.profiles ==> s.profiles[b] == Profile(Low, 0, 0))
    decreases |ops|
  {
    if ops == [] {
    } else {
      DisabledHoldsNobodyUp(policy, ops[..|ops| - 1], a, at);
      DisabledStep(Run(policy, ops[..|ops| - 1]), ops[|ops| - 1]);
    }
  }

  lemma DisabledStep(s: State, op: Op)
    requires !s.policy.enabled
    ensures var t := Step(s, op);
            && t.policy == s.policy && t.buckets == s.buckets && t.topics == s.topics
            && (!op.DecayAll? ==>
                  t.scores == s.scores
                  && forall b :: b in t.profiles ==>
                    t.profiles[b] == Profile(Low, 0, 0) || (b in s.profiles && t.profiles[b] == s.profiles[b]))
  {
  }
}
