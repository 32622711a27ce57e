/** The engines of packages/core/src/behavioral-privacy/correlation.ts and engine.ts. */
module BehavioralPrivacy {
  import opened Correlations
  import opened Numbers
  import opened Wrappers
  import B = Behavior
  import opened Behavior
  import J = Jitter

  class CorrelationEngine {
    const policy: Policy
    var topicCounts: map<string, seq<Topic>>
    var temporalBuckets: map<string, seq<int>>
    var behaviorScores: map<string, int>

    ghost function View(profiles: map<string, Profile>): State
      reads this
    {
      State(policy, topicCounts, temporalBuckets, behaviorScores, profiles)
    }

    constructor (policy: Policy)
      ensures this.policy == policy && View(map[]) == Initial(policy)
    {
      this.policy := policy;
      topicCounts, temporalBuckets, behaviorScores := map[], map[], map[];
    }

    /** Counts a topic up in place, or appends it. */
    static method Count(topics: seq<Topic>, name: string) returns (records: seq<Topic>)
      ensures records == Observe(topics, name)
    {
      var i := 0;
      while i < |topics| && topics[i].name != name
        invariant 0 <= i <= |topics|
        invariant forall j :: 0 <= j < i ==> topics[j].name != name
      {
        i := i + 1;
      }
      ObserveAt(topics, i, name);
      records := if i < |topics| then topics[i := Topic(name, topics[i].count + 1)] else topics + [Topic(name, 1)];
    }

    method RecordTopic(a: string, name: string)
      modifies this`topicCounts
      ensures topicCounts == B.RecordTopic(old(View(map[])), a, name).topics
    {
      if !policy.enabled { return; }
      var records := Count(if a in topicCounts then topicCounts[a] else [], name);
      topicCounts := topicCounts[a := records];
    }

    method RecordAccess(a: string, now: int)
      modifies this`temporalBuckets
      ensures temporalBuckets == B.RecordAccess(old(View(map[])), a, now).buckets
    {
      if !policy.enabled { return; }
      var buckets := if a in temporalBuckets then temporalBuckets[a] else [];
      buckets := buckets + [now];
      if |buckets| > 100 { buckets := buckets[1..]; }
      temporalBuckets := temporalBuckets[a := buckets];
    }

    method RepeatedTopicCount(a: string) returns (n: nat)
      ensures n == RepeatedTopics(View(map[]), a)
    {
      if !policy.enabled { return 0; }
      var records := if a in topicCounts then topicCounts[a] else [];
      n := 0;
      var i := 0;
      while i < |records|
        invariant 0 <= i <= |records|
        invariant n == CountRepeated(records[..i], policy.repeatedQueryThreshold)
      {
        assert records[..i + 1][..i] == records[..i];
        if records[i].count >= policy.repeatedQueryThreshold { n := n + 1; }
        i := i + 1;
      }
      assert records[..i] == records;
    }

    method TemporalPatternCount(a: string) returns (patterns: nat)
      ensures patterns == Patterns(View(map[]), a)
    {
      if !policy.enabled { return 0; }
      var buckets := if a in temporalBuckets then temporalBuckets[a] else [];
      if |buckets| < 2 { return 0; }
      patterns := 0;
      var i := 1;
      while i < |buckets|
        invariant 1 <= i <= |buckets|
        invariant patterns == Bursts(buckets[..i])
      {
        assert buckets[..i + 1][..i] == buckets[..i];
        if buckets[i] - buckets[i - 1] < BURST_THRESHOLD_MS { patterns := patterns + 1; }
        i := i + 1;
      }
      assert buckets[..i] == buckets;
    }

    method UpdateBehaviorScore(a: string) returns (score: int)
      modifies this`behaviorScores
      ensures score == Score(old(View(map[])), a)
      ensures behaviorScores == if policy.enabled then old(behaviorScores)[a := score] else old(behaviorScores)
    {
      if !policy.enabled { return 0; }
      var repeated := RepeatedTopicCount(a);
      var temporal := TemporalPatternCount(a);
      score := Min(repeated * 10 + temporal * 5, policy.maxBehaviorScore);
      behaviorScores := behaviorScores[a := score];
    }

    method ApplyDecay(a: string, amount: int)
      modifies this`behaviorScores
      ensures behaviorScores == old(behaviorScores)[a := DecayedScore(old(View(map[])), a, amount)]
    {
      var current := if a in behaviorScores then behaviorScores[a] else 0;
      behaviorScores := behaviorScores[a := Max(0, current - amount)];
    }
  }

  lemma {:induction false} ObserveAt(topics: seq<Topic>, i: nat, name: string)
    requires i <= |topics| && (forall j :: 0 <= j < i ==> topics[j].name != name)
    requires i < |topics| ==> topics[i].name == name
    ensures Observe(topics, name)
            == if i < |topics| then topics[i := Topic(name, topics[i].count + 1)] else topics + [Topic(name, 1)]
  {
    if i == 0 {
    } else {
      var rest := topics[1..];
      assert forall j :: 0 <= j < |rest| ==> rest[j] == topics[j + 1];
      ObserveAt(rest, i - 1, name);
      assert Observe(topics, name) == [topics[0]] + Observe(rest, name);
    }
  }

  class BehavioralPrivacyEngine {
    const correlation: CorrelationEngine
    const jitterPolicy: J.Policy
    var profiles: map<string, Profile>

    ghost function View(): State
      reads this, correlation
    {
      correlation.View(profiles)
    }

    constructor (policy: Policy, jitterPolicy: J.Policy)
      ensures View() == Initial(policy) && fresh(correlation) && this.jitterPolicy == jitterPolicy
    {
      this.jitterPolicy := jitterPolicy;
      correlation := new CorrelationEngine(policy);
      profiles := map[];
    }

    method SyncProfile(a: string)
      modifies this`profiles, correlation`behaviorScores
      ensures View() == Sync(old(View()), a)
    {
      var score := correlation.UpdateBehaviorScore(a);
      var patterns := correlation.TemporalPatternCount(a);
      profiles := profiles[a := Profile(Classify(score), patterns, score)];
    }

    method RecordBehavior(a: string, at: int, topic: Option<string>)
      modifies this, correlation
      ensures View() == B.RecordBehavior(old(View()), a, at, topic)
    {
      correlation.RecordAccess(a, at);
      if topic.Some? && topic.value != "" { correlation.RecordTopic(a, topic.value); }
      SyncProfile(a);
    }

    /** The scheduler reads its own clock for the delay, at `delayAt`. */
    method EvaluateRequest(a: string, at: int, delayAt: int) returns (d: Decision, delayMs: Option<int>)
      modifies this, correlation
      ensures View() == Evaluate(old(View()), a, at).0
      ensures d == Evaluate(old(View()), a, at).1
      ensures delayMs == RecommendedDelay(View(), a, jitterPolicy, delayAt)
    {
      correlation.RecordAccess(a, at);
      SyncProfile(a);
      delayMs := None;
      match profiles[a].risk {
        case Low => d := Decision(true, false, false, false);
        case Medium => d := Decision(true, false, true, false);
        case High => d := Decision(true, true, true, true);
        case Critical => d := Decision(false, true, true, true);
      }
      if d.requiresDelay {
        var delay := J.ComputeJitter(a, profiles[a].score, profiles[a].risk, jitterPolicy, delayAt);
        delayMs := Some(delay.delayMs);
      }
    }

    /** Visits the profiles one by one. */
    method ApplyTemporalDecay(amount: int)
      modifies this`profiles, correlation`behaviorScores
      ensures View() == Decay(old(View()), amount)
    {
      ghost var s := View();
      ghost var seen: set<string> := {};
      var left := profiles.Keys;
      DecayNone(s, amount);
      while left != {}
        invariant left <= s.profiles.Keys && left !! seen && left + seen == s.profiles.Keys
        invariant profiles == DecayedProfiles(s, seen, amount)
        invariant correlation.behaviorScores == DecayedScores(s, seen, amount)
        decreases left
      {
        var a :| a in left;
        DecayOne(s, seen, a, amount);
        correlation.ApplyDecay(a, amount);
        var decayed := if a in correlation.behaviorScores then correlation.behaviorScores[a] else 0;
        profiles := profiles[a := profiles[a].(score := decayed, risk := Classify(decayed))];
        left, seen := left - {a}, seen + {a};
      }
      assert seen == s.profiles.Keys;
      DecayEvery(s, amount);
    }
  }

  /** The delay a decision carries: none for low risk, else the jitter for the profile just refreshed. */
  function RecommendedDelay(s: State, a: string, p: J.Policy, now: int): Option<int> {
    if a !in s.profiles || !Decide(s.profiles[a].risk).requiresDelay then None
    else
      var base := J.Base(J.Seed(a, now), p.minDelayMs, p.maxDelayMs);
      Some(J.Delay(base, s.profiles[a].score, s.profiles[a].risk, p).delayMs)
  }

  /**
   A request is delayed exactly from a score of 25 on, where the policy lets scores
   get there; an enabled delay lies between the least and twice the greatest, and
   at one clock reading more score never shortens it.
   */
  lemma DelayGrowsWithScore(s: State, t: State, a: string, at: int, p: J.Policy, now: int)
    requires p.enabled && 0 <= p.minDelayMs <= p.maxDelayMs && 2 * (p.maxDelayMs - p.minDelayMs) < J.TWO_31 - 1
    requires Score(RecordAccess(s, a, at), a) <= Score(RecordAccess(t, a, at), a)
    ensures var u, v := Evaluate(s, a, at).0, Evaluate(t, a, at).0;
            var short, long := RecommendedDelay(u, a, p, now), RecommendedDelay(v, a, p, now);
            && (short.Some? <==> Score(RecordAccess(s, a, at), a) >= 25)
            && (short.Some? ==> long.Some? && p.minDelayMs <= short.value <= long.value <= 2 * p.maxDelayMs)
  {
    var seed := J.Seed(a, now);
    var m, n := Score(RecordAccess(s, a, at), a), Score(RecordAccess(t, a, at), a);
    J.DelayInRange(seed, m, Classify(m), p);
    J.DelayInRange(seed, n, Classify(n), p);
    J.RangeFromHash(J.Hash(seed), p.minDelayMs, p.maxDelayMs);
    if m >= 25 { J.EngineDelayMonotone(J.Base(seed, p.minDelayMs, p.maxDelayMs), m, n, p); }
  }

  ghost function DecayedProfiles(s: State, seen: set<string>, amount: int): map<string, Profile> {
    map a | a in s.profiles ::
      if a in seen then
        s.profiles[a].(score := DecayedScore(s, a, amount), risk := Classify(DecayedScore(s, a, amount)))
      else s.profiles[a]
  }

  ghost function DecayedScores(s: State, seen: set<string>, amount: int): map<string, int> {
    map a | a in s.scores.Keys + seen ::
      if a in seen then DecayedScore(s, a, amount) else if a in s.scores then s.scores[a] else 0
  }

  lemma DecayNone(s: State, amount: int)
    ensures DecayedProfiles(s, {}, amount) == s.profiles && DecayedScores(s, {}, amount) == s.scores
  {
  }

  lemma DecayOne(s: State, seen: set<string>, a: string, amount: int)
    requires a in s.profiles && a !in seen
    ensures DecayedProfiles(s, seen + {a}, amount)
            == DecayedProfiles(s, seen, amount)[a :=
                 s.profiles[a].(score := DecayedScore(s, a, amount), risk := Classify(DecayedScore(s, a, amount)))]
    ensures DecayedProfiles(s, seen, amount)[a] == s.profiles[a]
    ensures DecayedScores(s, seen + {a}, amount) == DecayedScores(s, seen, amount)[a := DecayedScore(s, a, amount)]
    ensures a in DecayedScores(s, seen, amount) <==> a in s.scores
    ensures a in s.scores ==> DecayedScores(s, seen, amount)[a] == s.scores[a]
  {
  }

  lemma DecayEvery(s: State, amount: int)
    ensures DecayedProfiles(s, s.profiles.Keys, amount) == Decay(s, amount).profiles
    ensures DecayedScores(s, s.profiles.Keys, amount) == Decay(s, amount).scores
  {
  }

  /** The two calls of the pipeline, at their two clock readings, and the refresh of an allowed request. */
  method HandleRequest(engine: BehavioralPrivacyEngine, a: string, evaluatedAt: int, delayAt: int, recordedAt: int)
    returns (d: Decision, delayMs: Option<int>)
    modifies engine, engine.correlation
    ensures engine.View() == Step(old(engine.View()), Request(a, evaluatedAt, recordedAt))
    ensures d == Evaluate(old(engine.View()), a, evaluatedAt).1
    ensures delayMs == RecommendedDelay(Evaluate(old(engine.View()), a, evaluatedAt).0, a, engine.jitterPolicy, delayAt)
  {
    d, delayMs := engine.EvaluateRequest(a, evaluatedAt, delayAt);
    engine.RecordBehavior(a, recordedAt, None);
    if d.allowed { engine.SyncProfile(a); }
  }
}
