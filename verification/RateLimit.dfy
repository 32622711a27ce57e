/**
 Sliding-window rate limiting (packages/core/src/adaptive-defense/rate-limiter.ts):
 the limiter as a state machine, what its buckets hold, and the ceiling they
 enforce over whole runs.
 */
module RateLimit {
  import opened Numbers
  import opened Wrappers

  datatype Scope = ByAgent | ByCompartment | BySession | ByTool
  datatype Action = Allow | Cooldown | TemporaryBlock | RequireApproval | EscalateRisk

  datatype Policy = Policy(id: string, scope: Scope, maxRequests: int, windowMs: int, action: Action, enabled: bool)

  datatype Input = Input(
    agentId: string,
    compartmentId: string,
    sessionId: Option<string>,
    tool: string,
    timestamp: int)

  datatype Block = Block(
    id: string,
    expiresAt: int,
    agentId: Option<string>,
    compartmentId: Option<string>,
    tool: Option<string>)

  datatype ScopeKey = AgentKey(id: string) | CompartmentKey(id: string) | SessionKey(id: string) | ToolKey(id: string)
  datatype Key = Key(policyId: string, scopeKey: ScopeKey)
  type Windows = map<Key, seq<int>>
  datatype State = State(policies: seq<Policy>, blocks: seq<Block>, windows: Windows)

  datatype Cause = LiveBlock(blockId: string) | Exceeded(policyId: string) | NoPolicyApplies | WithinLimits
  datatype Decision = Decision(action: Action, remaining: int, resetAt: int, retryAfterMs: Option<int>, cause: Cause)

  /** `Number.MAX_SAFE_INTEGER`. */
  const UNCONSTRAINED_REMAINING := 9007199254740991

  // ---- Blocks and keys -------------------------------------------------------

  /** A block matches when each field it defines equals the request's. */
  predicate BlockApplies(b: Block, input: Input) {
    && input.timestamp < b.expiresAt
    && (b.agentId.Some? ==> b.agentId.value == input.agentId)
    && (b.compartmentId.Some? ==> b.compartmentId.value == input.compartmentId)
    && (b.tool.Some? ==> b.tool.value == input.tool)
  }

  function FirstBlock(blocks: seq<Block>, input: Input): Option<Block> {
    if blocks == [] then None
    else if BlockApplies(blocks[0], input) then Some(blocks[0])
    else FirstBlock(blocks[1..], input)
  }

  predicate Blocked(blocks: seq<Block>, input: Input) {
    FirstBlock(blocks, input).Some?
  }

  /** A live block that names the request's agent, compartment and tool, or leaves them open. */
  predicate Stops(b: Block, input: Input) {
    && input.timestamp < b.expiresAt
    && b.agentId in {None, Some(input.agentId)}
    && b.compartmentId in {None, Some(input.compartmentId)}
    && b.tool in {None, Some(input.tool)}
  }

  lemma StopsExactly(b: Block, input: Input)
    ensures BlockApplies(b, input) <==> Stops(b, input)
  {
    assert b.agentId == None || b.agentId == Some(b.agentId.value);
    assert b.compartmentId == None || b.compartmentId == Some(b.compartmentId.value);
    assert b.tool == None || b.tool == Some(b.tool.value);
  }

  predicate FirstToStop(blocks: seq<Block>, input: Input, i: nat) {
    i < |blocks| && Stops(blocks[i], input) && forall j :: 0 <= j < i ==> !Stops(blocks[j], input)
  }

  lemma {:induction false} FirstBlockIsFirst(blocks: seq<Block>, input: Input)
    ensures FirstBlock(blocks, input).None? <==> forall i :: 0 <= i < |blocks| ==> !Stops(blocks[i], input)
    ensures forall i: nat :: FirstToStop(blocks, input, i) ==> FirstBlock(blocks, input) == Some(blocks[i])
  {
    if blocks == [] {
    } else {
      var rest := blocks[1..];
      FirstBlockIsFirst(rest, input);
      StopsExactly(blocks[0], input);
      assert forall i :: 1 <= i < |blocks| ==> blocks[i] == rest[i - 1];
      assert forall i :: 0 <= i < |rest| ==> rest[i] == blocks[i + 1];
      forall i: nat | FirstToStop(blocks, input, i) ensures FirstBlock(blocks, input) == Some(blocks[i]) {
        if i > 0 { assert FirstToStop(rest, input, i - 1); }
      }
    }
  }

  /** An empty session id is no session. */
  function ScopeKeyOf(scope: Scope, input: Input): Option<ScopeKey> {
    match scope
    case ByAgent => Some(AgentKey(input.agentId))
    case ByCompartment => Some(CompartmentKey(input.compartmentId))
    case BySession =>
      if input.sessionId.Some? && input.sessionId.value != "" then Some(SessionKey(input.sessionId.value)) else None
    case ByTool => Some(ToolKey(input.tool))
  }

  predicate Applies(p: Policy, input: Input) {
    p.enabled && ScopeKeyOf(p.scope, input).Some?
  }

  /** The request is for this agent, compartment, session or tool, whichever the scope names. */
  predicate IsFor(scope: Scope, input: Input, id: string) {
    match scope
    case ByAgent => input.agentId == id
    case ByCompartment => input.compartmentId == id
    case BySession => id != "" && input.sessionId == Some(id)
    case ByTool => input.tool == id
  }

  /** A policy applies exactly when it is enabled and, for session scope, the request has a session id. */
  lemma AppliesExactly(p: Policy, input: Input)
    ensures Applies(p, input)
            <==> p.enabled && (p.scope == BySession ==> input.sessionId.Some? && |input.sessionId.value| > 0)
  {
  }

  /** Two requests share a policy's bucket exactly when they agree in what its scope names. */
  lemma SharesBucketExactly(p: Policy, a: Input, b: Input)
    requires Applies(p, a) && Applies(p, b)
    ensures KeyOf(p, a) == KeyOf(p, b)
            <==> match p.scope
                 case ByAgent => a.agentId == b.agentId
                 case ByCompartment => a.compartmentId == b.compartmentId
                 case BySession => a.sessionId == b.sessionId
                 case ByTool => a.tool == b.tool
  {
  }

  /** The bucket key for an agent, compartment, session or tool. */
  function KeyFor(p: Policy, id: string): Key {
    Key(p.id,
        match p.scope
        case ByAgent => AgentKey(id)
        case ByCompartment => CompartmentKey(id)
        case BySession => SessionKey(id)
        case ByTool => ToolKey(id))
  }

  lemma KeyForExactly(p: Policy, input: Input, id: string)
    ensures p.enabled && IsFor(p.scope, input, id) <==> Applies(p, input) && KeyOf(p, input) == KeyFor(p, id)
  {
  }

  function KeyOf(p: Policy, input: Input): Key
    requires Applies(p, input)
  {
    Key(p.id, ScopeKeyOf(p.scope, input).value)
  }

  // ---- Recording -------------------------------------------------------------

  /** The timestamps at or after `start`, in order. */
  function Since(ts: seq<int>, start: int): (r: seq<int>)
    ensures |r| <= |ts|
  {
    if ts == [] then []
    else
      var before := Since(ts[..|ts| - 1], start);
      if ts[|ts| - 1] >= start then before + [ts[|ts| - 1]] else before
  }

  function Bucket(w: Windows, key: Key): seq<int> {
    if key in w then w[key] else []
  }

  function Recorded(w: Windows, p: Policy, input: Input): seq<int>
    requires Applies(p, input)
  {
    Since(Bucket(w, KeyOf(p, input)), input.timestamp - p.windowMs) + [input.timestamp]
  }

  predicate DistinctIds(ps: seq<Policy>) {
    forall i, j :: 0 <= i < j < |ps| ==> ps[i].id != ps[j].id
  }

  function RecordAll(ps: seq<Policy>, w: Windows, input: Input): Windows {
    if ps == [] then w
    else
      var p := ps[|ps| - 1];
      var before := RecordAll(ps[..|ps| - 1], w, input);
      if Applies(p, input) then before[KeyOf(p, input) := Recorded(w, p, input)] else before
  }

  datatype Evaluation = Evaluation(policy: Policy, count: int, remaining: int, resetAt: int)

  function EvaluationOf(w: Windows, p: Policy, input: Input): Evaluation
    requires Applies(p, input)
  {
    var pruned := Recorded(w, p, input);
    Evaluation(p, |pruned|, Max(0, p.maxRequests - |pruned|), pruned[0] + p.windowMs)
  }

  function Evaluations(ps: seq<Policy>, w: Windows, input: Input): seq<Evaluation> {
    if ps == [] then []
    else
      var p := ps[|ps| - 1];
      var before := Evaluations(ps[..|ps| - 1], w, input);
      if Applies(p, input) then before + [EvaluationOf(w, p, input)] else before
  }

  predicate Over(e: Evaluation) {
    e.count > e.policy.maxRequests
  }

  function FirstOver(es: seq<Evaluation>): Option<Evaluation> {
    if es == [] then None
    else
      var before := FirstOver(es[..|es| - 1]);
      if before.Some? then before else if Over(es[|es| - 1]) then Some(es[|es| - 1]) else None
  }

  /** The first evaluation with the least `remaining`. */
  function Tightest(es: seq<Evaluation>): Evaluation
    requires es != []
  {
    if |es| == 1 then es[0]
    else
      var before := Tightest(es[..|es| - 1]);
      var last := es[|es| - 1];
      if last.remaining < before.remaining then last else before
  }

  lemma {:induction false} TightestIsFirstLeast(es: seq<Evaluation>) returns (i: nat)
    requires es != []
    ensures i < |es| && Tightest(es) == es[i]
    ensures forall j :: 0 <= j < |es| ==> es[i].remaining <= es[j].remaining
    ensures forall j :: 0 <= j < i ==> es[i].remaining < es[j].remaining
  {
    if |es| == 1 {
      i := 0;
    } else {
      var init := es[..|es| - 1];
      i := TightestIsFirstLeast(init);
      assert forall j :: 0 <= j < |init| ==> init[j] == es[j];
      if es[|es| - 1].remaining < es[i].remaining { i := |es| - 1; }
    }
  }

  function DecideFrom(es: seq<Evaluation>, now: int): Decision {
    match FirstOver(es)
    case Some(e) =>
      var waits := e.policy.action == Cooldown || e.policy.action == TemporaryBlock;
      var retry := if waits then Some(Max(0, e.resetAt - now)) else None;
      Decision(e.policy.action, 0, e.resetAt, retry, Exceeded(e.policy.id))
    case None =>
      if es == [] then Decision(Allow, UNCONSTRAINED_REMAINING, now, None, NoPolicyApplies)
      else Decision(Allow, Tightest(es).remaining, Tightest(es).resetAt, None, WithinLimits)
  }

  function Decide(s: State, input: Input): Decision {
    match FirstBlock(s.blocks, input)
    case Some(b) =>
      Decision(TemporaryBlock, 0, b.expiresAt, Some(Max(0, b.expiresAt - input.timestamp)), LiveBlock(b.id))
    case None => DecideFrom(Evaluations(s.policies, s.windows, input), input.timestamp)
  }

  function AfterEvaluate(s: State, input: Input): State {
    if Blocked(s.blocks, input) then s else s.(windows := RecordAll(s.policies, s.windows, input))
  }

  /**
   A request is stopped exactly when some live block names it; the first such block
   says until when, and nothing is recorded.
   */
  lemma BlockedExactly(s: State, input: Input)
    ensures Decide(s, input).cause.LiveBlock? <==> exists i :: 0 <= i < |s.blocks| && Stops(s.blocks[i], input)
    ensures forall i: nat :: FirstToStop(s.blocks, input, i) ==>
              var b := s.blocks[i];
              && Decide(s, input)
                 == Decision(TemporaryBlock, 0, b.expiresAt, Some(b.expiresAt - input.timestamp), LiveBlock(b.id))
              && AfterEvaluate(s, input) == s
  {
    FirstBlockIsFirst(s.blocks, input);
  }

  function LiveBlocks(blocks: seq<Block>, now: int): seq<Block> {
    if blocks == [] then []
    else if blocks[0].expiresAt <= now then LiveBlocks(blocks[1..], now)
    else [blocks[0]] + LiveBlocks(blocks[1..], now)
  }

  /** Clearing keeps each block that has not expired, as often as it was there, and no other. */
  lemma {:induction false} ClearingKeepsLiveOnes(blocks: seq<Block>, now: int, b: Block)
    ensures multiset(LiveBlocks(blocks, now))[b] == if now < b.expiresAt then multiset(blocks)[b] else 0
  {
    if blocks == [] {
    } else {
      ClearingKeepsLiveOnes(blocks[1..], now, b);
      assert blocks == [blocks[0]] + blocks[1..];
    }
  }

  /** Clearing expired blocks changes no decision made from then on. */
  lemma {:induction false} ClearingKeepsDecisions(blocks: seq<Block>, now: int, input: Input)
    requires now <= input.timestamp
    ensures FirstBlock(LiveBlocks(blocks, now), input) == FirstBlock(blocks, input)
  {
    if blocks == [] {
    } else {
      ClearingKeepsDecisions(blocks[1..], now, input);
      if blocks[0].expiresAt > now {
        assert ([blocks[0]] + LiveBlocks(blocks[1..], now))[1..] == LiveBlocks(blocks[1..], now);
      }
    }
  }

  // ---- Runs ------------------------------------------------------------------

  datatype Op =
    | RegisterPolicy(policy: Policy)
    | Evaluate(input: Input)
    | RegisterBlock(block: Block)
    | ClearExpired(now: int)
    | ClearBlocks
    | ClearPolicies

  predicate HasPolicy(ps: seq<Policy>, id: string) {
    exists i :: 0 <= i < |ps| && ps[i].id == id
  }

  /** A duplicate policy id throws and changes nothing. */
  function Step(s: State, op: Op): State {
    match op
    case RegisterPolicy(p) => if HasPolicy(s.policies, p.id) then s else s.(policies := s.policies + [p])
    case Evaluate(input) => AfterEvaluate(s, input)
    case RegisterBlock(b) => s.(blocks := s.blocks + [b])
    case ClearExpired(now) => s.(blocks := LiveBlocks(s.blocks, now))
    case ClearBlocks => s.(blocks := [])
    case ClearPolicies => s.(policies := [], windows := map[])
  }

  const EMPTY := State([], [], map[])

  function Run(ops: seq<Op>): State
    decreases |ops|
  {
    if ops == [] then EMPTY else Step(Run(ops[..|ops| - 1]), ops[|ops| - 1])
  }

  lemma {:induction false} RunDistinct(ops: seq<Op>)
    ensures DistinctIds(Run(ops).policies)
    decreases |ops|
  {
    if ops == [] {
    } else {
      RunDistinct(ops[..|ops| - 1]);
    }
  }

  /** Policy `p` records the request, which is for `id`. */
  predicate Records(s: State, input: Input, p: Policy, id: string) {
    !Blocked(s.blocks, input) && p in s.policies && p.enabled && IsFor(p.scope, input, id)
  }

  /**
   Every timestamp a policy recorded for one agent, compartment, session or tool
   since policies were last cleared, with nothing pruned.
   */
  function History(ops: seq<Op>, p: Policy, id: string): seq<int>
    decreases |ops|
  {
    if ops == [] || ops[|ops| - 1].ClearPolicies? then []
    else
      var before := ops[..|ops| - 1];
      var op := ops[|ops| - 1];
      var h := History(before, p, id);
      if op.Evaluate? && Records(Run(before), op.input, p, id) then h + [op.input.timestamp] else h
  }

  /** What recording a request does to one bucket, whatever the other policies are. */
  lemma {:induction false} RecordAllAt(ps: seq<Policy>, w: Windows, input: Input, p: Policy, key: Key)
    requires DistinctIds(ps) && p in ps && key.policyId == p.id
    ensures Bucket(RecordAll(ps, w, input), key)
            == if Applies(p, input) && KeyOf(p, input) == key then Recorded(w, p, input) else Bucket(w, key)
  {
    var last := ps[|ps| - 1];
    var init := ps[..|ps| - 1];
    if p == last {
      RecordAllElsewhere(init, w, input, key);
    } else {
      assert p in init;
      RecordAllAt(init, w, input, p, key);
    }
  }

  lemma {:induction false} RecordAllElsewhere(ps: seq<Policy>, w: Windows, input: Input, key: Key)
    requires forall q :: q in ps ==> q.id != key.policyId
    ensures Bucket(RecordAll(ps, w, input), key) == Bucket(w, key)
  {
    if ps == [] {
    } else {
      RecordAllElsewhere(ps[..|ps| - 1], w, input, key);
    }
  }

  /** No later request's window start has passed entry `i`. */
  predicate Survives(h: seq<int>, windowMs: int, i: nat)
    requires i < |h|
  {
    forall j :: i < j < |h| ==> h[j] - windowMs <= h[i]
  }

  function Survivors(h: seq<int>, windowMs: int, upTo: nat): seq<int>
    requires upTo <= |h|
  {
    if upTo == 0 then []
    else
      var before := Survivors(h, windowMs, upTo - 1);
      if Survives(h, windowMs, upTo - 1) then before + [h[upTo - 1]] else before
  }

  lemma {:induction false} SurvivorsExtend(h: seq<int>, t: int, windowMs: int, upTo: nat)
    requires upTo <= |h|
    ensures Survivors(h + [t], windowMs, upTo) == Since(Survivors(h, windowMs, upTo), t - windowMs)
  {
    if upTo == 0 {
    } else {
      var h' := h + [t];
      SurvivorsExtend(h, t, windowMs, upTo - 1);
      var before := Survivors(h, windowMs, upTo - 1);
      assert Survives(h', windowMs, upTo - 1) <==> Survives(h, windowMs, upTo - 1) && t - windowMs <= h[upTo - 1] by {
        assert h'[|h|] == t;
        assert forall j :: 0 <= j < |h| ==> h'[j] == h[j];
      }
      if Survives(h, windowMs, upTo - 1) {
        assert (before + [h[upTo - 1]])[..|before|] == before;
      }
    }
  }

  lemma {:induction false} NoHistoryBeforeRegistration(ops: seq<Op>, p: Policy, id: string)
    requires p !in Run(ops).policies
    ensures History(ops, p, id) == []
    decreases |ops|
  {
    if ops == [] || ops[|ops| - 1].ClearPolicies? {
    } else {
      NoHistoryBeforeRegistration(ops[..|ops| - 1], p, id);
    }
  }

  /** No bucket exists for a policy id that is not registered. */
  lemma {:induction false} NoBucketBeforeRegistration(ops: seq<Op>, key: Key)
    requires !HasPolicy(Run(ops).policies, key.policyId)
    ensures Bucket(Run(ops).windows, key) == []
    decreases |ops|
  {
    if ops == [] || ops[|ops| - 1].ClearPolicies? {
    } else {
      var before := ops[..|ops| - 1];
      var s := Run(before);
      assert !HasPolicy(s.policies, key.policyId) by {
        assert forall i :: 0 <= i < |s.policies| ==> Run(ops).policies[i] == s.policies[i];
      }
      NoBucketBeforeRegistration(before, key);
      if ops[|ops| - 1].Evaluate? {
        RecordAllElsewhere(s.policies, s.windows, ops[|ops| - 1].input, key);
      }
    }
  }

  /** One request keeps a bucket equal to the surviving part of its history. */
  lemma EvaluateKeepsSurvivors(s: State, input: Input, p: Policy, id: string, h: seq<int>)
    requires DistinctIds(s.policies) && p in s.policies
    requires Bucket(s.windows, KeyFor(p, id)) == Survivors(h, p.windowMs, |h|)
    ensures var h' := if Records(s, input, p, id) then h + [input.timestamp] else h;
            Bucket(AfterEvaluate(s, input).windows, KeyFor(p, id)) == Survivors(h', p.windowMs, |h'|)
  {
    if !Blocked(s.blocks, input) {
      KeyForExactly(p, input, id);
      RecordAllAt(s.policies, s.windows, input, p, KeyFor(p, id));
      if Records(s, input, p, id) {
        SurvivorsExtend(h, input.timestamp, p.windowMs, |h|);
        assert Survives(h + [input.timestamp], p.windowMs, |h|);
      }
    }
  }

  /**
   In every run and for any clock, the pruned bucket of a registered policy is
   exactly the part of the full history that no later window has excluded.
   */
  lemma {:induction false} BucketIsSurvivingHistory(ops: seq<Op>, p: Policy, id: string)
    requires p in Run(ops).policies
    ensures var h := History(ops, p, id);
            Bucket(Run(ops).windows, KeyFor(p, id)) == Survivors(h, p.windowMs, |h|)
    decreases |ops|
  {
    var before, op := ops[..|ops| - 1], ops[|ops| - 1];
    var h := History(before, p, id);
    if p !in Run(before).policies {
      NoHistoryBeforeRegistration(before, p, id);
      NoBucketBeforeRegistration(before, KeyFor(p, id));
    } else {
      RunDistinct(before);
      BucketIsSurvivingHistory(before, p, id);
      if op.Evaluate? { EvaluateKeepsSurvivors(Run(before), op.input, p, id, h); }
    }
  }

  // ---- The ceiling -----------------------------------------------------------

  predicate NonDecreasing(h: seq<int>) {
    forall i, j :: 0 <= i <= j < |h| ==> h[i] <= h[j]
  }

  function Clock(ops: seq<Op>): seq<int>
    decreases |ops|
  {
    if ops == [] then []
    else
      var before := Clock(ops[..|ops| - 1]);
      if ops[|ops| - 1].Evaluate? then before + [ops[|ops| - 1].input.timestamp] else before
  }

  /** Under a non-decreasing clock, surviving is being inside the last window. */
  lemma {:induction false} SurvivorsAreRecent(h: seq<int>, windowMs: int, upTo: nat)
    requires NonDecreasing(h) && upTo < |h|
    ensures Survivors(h, windowMs, upTo) == Since(h[..upTo], h[|h| - 1] - windowMs)
  {
    if upTo == 0 {
    } else {
      SurvivorsAreRecent(h, windowMs, upTo - 1);
      assert h[..upTo][..upTo - 1] == h[..upTo - 1];
      assert Survives(h, windowMs, upTo - 1) <==> h[|h| - 1] - windowMs <= h[upTo - 1];
    }
  }

  /** The last element, or nothing to exceed. */
  predicate EndsBy(h: seq<int>, c: seq<int>) {
    h != [] ==> c != [] && h[|h| - 1] <= c[|c| - 1]
  }

  lemma FollowOne(h: seq<int>, c: seq<int>, t: int)
    requires NonDecreasing(h) && EndsBy(h, c) && NonDecreasing(c + [t])
    ensures NonDecreasing(h + [t]) && EndsBy(h + [t], c + [t]) && EndsBy(h, c + [t])
  {
    if c != [] { assert (c + [t])[|c| - 1] <= (c + [t])[|c|]; }
  }

  lemma {:induction false} HistoryFollowsClock(ops: seq<Op>, p: Policy, id: string)
    requires NonDecreasing(Clock(ops))
    ensures NonDecreasing(History(ops, p, id)) && EndsBy(History(ops, p, id), Clock(ops))
    decreases |ops|
  {
    if ops == [] || ops[|ops| - 1].ClearPolicies? {
    } else {
      var before, op := ops[..|ops| - 1], ops[|ops| - 1];
      ClockPrefix(ops);
      HistoryFollowsClock(before, p, id);
      var h, c := History(before, p, id), Clock(before);
      if op.Evaluate? { FollowOne(h, c, op.input.timestamp); }
    }
  }

  lemma ClockPrefix(ops: seq<Op>)
    requires ops != [] && NonDecreasing(Clock(ops))
    ensures NonDecreasing(Clock(ops[..|ops| - 1]))
  {
    var c := Clock(ops[..|ops| - 1]);
    assert forall i :: 0 <= i < |c| ==> Clock(ops)[i] == c[i];
  }

  /** The part of a history inside the window of its last entry. */
  function LastWindow(h: seq<int>, windowMs: int): seq<int> {
    if h == [] then [] else Since(h, h[|h| - 1] - windowMs)
  }

  lemma SurvivorsAreWindow(h: seq<int>, windowMs: int)
    requires NonDecreasing(h) && windowMs >= 0
    ensures Survivors(h, windowMs, |h|) == LastWindow(h, windowMs)
  {
    if h != [] {
      SurvivorsAreRecent(h, windowMs, |h| - 1);
      assert Survives(h, windowMs, |h| - 1);
    }
  }

  /**
   In every run with a non-decreasing clock, a bucket holds exactly the part of
   the full history inside the window of its latest request.
   */
  lemma BucketIsWindow(ops: seq<Op>, p: Policy, id: string)
    requires NonDecreasing(Clock(ops)) && p in Run(ops).policies && p.windowMs >= 0
    ensures Bucket(Run(ops).windows, KeyFor(p, id)) == LastWindow(History(ops, p, id), p.windowMs)
  {
    BucketIsSurvivingHistory(ops, p, id);
    HistoryFollowsClock(ops, p, id);
    SurvivorsAreWindow(History(ops, p, id), p.windowMs);
  }

  /** At least as many entries survive as lie at or after `start`, once the window reaches back to `start`. */
  lemma {:induction false} RecentSurvive(h: seq<int>, windowMs: int, start: int, upTo: nat)
    requires NonDecreasing(h) && upTo <= |h| && h != [] && h[|h| - 1] - windowMs <= start
    ensures |Since(h[..upTo], start)| <= |Survivors(h, windowMs, upTo)|
  {
    if upTo == 0 {
    } else {
      RecentSurvive(h, windowMs, start, upTo - 1);
      assert h[..upTo][..upTo - 1] == h[..upTo - 1];
      assert Survives(h, windowMs, upTo - 1) <==> upTo == |h| || h[|h| - 1] - windowMs <= h[upTo - 1];
    }
  }

  /**
   How many requests for one agent, compartment, session or tool (what the scope of
   `p` names) were allowed with timestamps in a closed interval, since `p` was
   registered and policies were last cleared.
   */
  function Allowed(ops: seq<Op>, p: Policy, id: string, from: int, to: int): nat
    decreases |ops|
  {
    if ops == [] || ops[|ops| - 1].ClearPolicies? then 0
    else
      var before := ops[..|ops| - 1];
      Allowed(before, p, id, from, to)
      + (if AllowedNow(Run(before), ops[|ops| - 1], p, id, from, to) then 1 else 0)
  }

  predicate AllowedNow(s: State, op: Op, p: Policy, id: string, from: int, to: int) {
    && op.Evaluate? && from <= op.input.timestamp <= to
    && p in s.policies && p.enabled && IsFor(p.scope, op.input, id)
    && Decide(s, op.input).action == Allow
  }

  lemma {:induction false} AllowedWereRecorded(ops: seq<Op>, p: Policy, id: string, from: int, to: int)
    ensures Allowed(ops, p, id, from, to) <= |Since(History(ops, p, id), from)|
    decreases |ops|
  {
    if ops == [] || ops[|ops| - 1].ClearPolicies? {
    } else {
      var before := ops[..|ops| - 1];
      AllowedWereRecorded(before, p, id, from, to);
      var h, h' := History(before, p, id), History(ops, p, id);
      if h' == h {
      } else {
        assert h'[..|h'| - 1] == h;
      }
    }
  }

  /** No enabled policy with action `allow` is registered before `p`, nor is `p` one. */
  predicate NoAllowUpTo(ps: seq<Policy>, p: Policy) {
    exists i :: 0 <= i < |ps| && ps[i] == p && forall j :: 0 <= j <= i ==> !(ps[j].enabled && ps[j].action == Allow)
  }

  /** Counting this request, the policy is over its ceiling. */
  predicate Exceeds(s: State, input: Input, p: Policy) {
    Applies(p, input) && |Recorded(s.windows, p, input)| > p.maxRequests
  }

  lemma EvaluationsStep(s: State, input: Input, n: nat)
    requires 0 < n <= |s.policies|
    ensures var es := Evaluations(s.policies[..n - 1], s.windows, input);
            FirstOver(Evaluations(s.policies[..n], s.windows, input))
            == if FirstOver(es).Some? then FirstOver(es)
               else if Exceeds(s, input, s.policies[n - 1])
               then Some(EvaluationOf(s.windows, s.policies[n - 1], input)) else None
  {
    var es, last := Evaluations(s.policies[..n - 1], s.windows, input), s.policies[n - 1];
    assert s.policies[..n][..n - 1] == s.policies[..n - 1];
    if Applies(last, input) {
      assert (es + [EvaluationOf(s.windows, last, input)])[..|es|] == es;
    }
  }

  lemma {:induction false} NoneExceeded(s: State, input: Input, n: nat)
    requires n <= |s.policies| && forall j :: 0 <= j < n ==> !Exceeds(s, input, s.policies[j])
    ensures FirstOver(Evaluations(s.policies[..n], s.windows, input)) == None
  {
    if n == 0 {
    } else {
      NoneExceeded(s, input, n - 1);
      EvaluationsStep(s, input, n);
    }
  }

  /** The first policy over its ceiling is the one that decides. */
  lemma {:induction false} FirstExceededDecides(s: State, input: Input, n: nat, i: nat)
    requires i < n <= |s.policies| && Exceeds(s, input, s.policies[i])
    requires forall j :: 0 <= j < i ==> !Exceeds(s, input, s.policies[j])
    ensures FirstOver(Evaluations(s.policies[..n], s.windows, input))
            == Some(EvaluationOf(s.windows, s.policies[i], input))
  {
    EvaluationsStep(s, input, n);
    if i == n - 1 {
      NoneExceeded(s, input, i);
    } else {
      FirstExceededDecides(s, input, n - 1, i);
    }
  }

  /** Among the policies over their ceilings, this one comes first. */
  predicate FirstExceeded(s: State, input: Input, i: nat) {
    i < |s.policies| && Exceeds(s, input, s.policies[i]) && forall j :: 0 <= j < i ==> !Exceeds(s, input, s.policies[j])
  }

  lemma {:induction false} LeastExceeded(s: State, input: Input, i: nat) returns (first: nat)
    requires i < |s.policies| && Exceeds(s, input, s.policies[i])
    ensures first <= i && FirstExceeded(s, input, first)
    decreases i
  {
    if j :| 0 <= j < i && Exceeds(s, input, s.policies[j]) {
      first := LeastExceeded(s, input, j);
    } else {
      first := i;
    }
  }

  /** It gives the action, nothing remains, and only an action that bears waiting says how long. */
  lemma FirstExceededActs(s: State, input: Input, i: nat)
    requires !Blocked(s.blocks, input) && FirstExceeded(s, input, i)
    ensures var d, p := Decide(s, input), s.policies[i];
            && d.action == p.action && d.remaining == 0 && d.cause == Exceeded(p.id)
            && d.resetAt == Recorded(s.windows, p, input)[0] + p.windowMs
            && d.retryAfterMs == if p.action == Cooldown || p.action == TemporaryBlock
                                 then Some(Max(0, d.resetAt - input.timestamp)) else None
  {
    FirstExceededDecides(s, input, |s.policies|, i);
    assert s.policies[..|s.policies|] == s.policies;
  }

  /**
   Exactly when a request is allowed though it takes some other policy over its
   ceiling: the first policy over its ceiling has the action `allow` itself.
   */
  lemma AllowedOverCeilingExactly(s: State, input: Input, p: Policy)
    requires !Blocked(s.blocks, input) && p in s.policies && p.action != Allow && Exceeds(s, input, p)
    ensures Decide(s, input).action == Allow
            <==> exists i: nat :: FirstExceeded(s, input, i) && s.policies[i].action == Allow
  {
    var k: nat :| k < |s.policies| && s.policies[k] == p;
    var first := LeastExceeded(s, input, k);
    FirstExceededActs(s, input, first);
    if i: nat :| FirstExceeded(s, input, i) && s.policies[i].action == Allow {
      FirstExceededActs(s, input, i);
    }
  }

  /** With no `allow` policy up to `p`, an allowed request is within the ceiling of `p`. */
  lemma AllowMeansWithin(s: State, input: Input, p: Policy)
    requires NoAllowUpTo(s.policies, p) && Applies(p, input) && Decide(s, input).action == Allow
    ensures !Blocked(s.blocks, input)
    ensures |Recorded(s.windows, p, input)| <= p.maxRequests
  {
    if Exceeds(s, input, p) {
      var k :| 0 <= k < |s.policies| && s.policies[k] == p
               && forall j :: 0 <= j <= k ==> !(s.policies[j].enabled && s.policies[j].action == Allow);
      var first := LeastExceeded(s, input, k);
      FirstExceededActs(s, input, first);
    }
  }

  lemma {:induction false} PoliciesGrow(ops: seq<Op>)
    requires ops != [] && !ops[|ops| - 1].ClearPolicies?
    ensures Run(ops[..|ops| - 1]).policies <= Run(ops).policies
  {
  }

  lemma NoAllowEarlier(ps: seq<Policy>, ps': seq<Policy>, p: Policy)
    requires ps <= ps' && DistinctIds(ps') && p in ps && NoAllowUpTo(ps', p)
    ensures NoAllowUpTo(ps, p)
  {
    var i :| 0 <= i < |ps'| && ps'[i] == p && forall j :: 0 <= j <= i ==> !(ps'[j].enabled && ps'[j].action == Allow);
    var k :| 0 <= k < |ps| && ps[k] == p;
    assert ps'[k] == p;
    assert k == i;
  }

  /** An allowed request leaves the bucket within the ceiling, itself included. */
  lemma AllowedBucketWithin(ops: seq<Op>, p: Policy, id: string, from: int, to: int)
    requires ops != [] && AllowedNow(Run(ops[..|ops| - 1]), ops[|ops| - 1], p, id, from, to)
    requires NoAllowUpTo(Run(ops[..|ops| - 1]).policies, p)
    ensures |Bucket(Run(ops).windows, KeyFor(p, id))| <= p.maxRequests
    ensures var h := History(ops, p, id); h != [] && h[|h| - 1] <= to
  {
    var s, input := Run(ops[..|ops| - 1]), ops[|ops| - 1].input;
    KeyForExactly(p, input, id);
    AllowMeansWithin(s, input, p);
    RunDistinct(ops[..|ops| - 1]);
    RecordAllAt(s.policies, s.windows, input, p, KeyFor(p, id));
  }

  /**
   The ceiling over whole runs: in any run with a non-decreasing clock, a policy
   that no `allow` policy precedes lets at most `maxRequests` requests for one
   agent, compartment, session or tool, as its scope says, through in any closed
   interval as long as its window.
   */
  lemma {:induction false} CeilingHolds(ops: seq<Op>, p: Policy, id: string, from: int)
    requires NonDecreasing(Clock(ops)) && NoAllowUpTo(Run(ops).policies, p)
    ensures Allowed(ops, p, id, from, from + p.windowMs) <= Max(0, p.maxRequests)
    decreases |ops|
  {
    var to := from + p.windowMs;
    var before := ops[..|ops| - 1];
    ClockPrefix(ops);
    PoliciesGrow(ops);
    RunDistinct(ops);
    if p !in Run(before).policies {
      NothingAllowedBeforeRegistration(before, p, id, from, to);
    } else {
      NoAllowEarlier(Run(before).policies, Run(ops).policies, p);
      if AllowedNow(Run(before), ops[|ops| - 1], p, id, from, to) {
        AllowedBucketWithin(ops, p, id, from, to);
        CeilingAtLast(ops, p, id, from);
      } else {
        CeilingHolds(before, p, id, from);
      }
    }
  }

  /** A bucket holds all that was recorded since `from`, once its window reaches back to `from`. */
  lemma RecentInBucket(ops: seq<Op>, p: Policy, id: string, from: int)
    requires NonDecreasing(Clock(ops)) && p in Run(ops).policies
    requires var h := History(ops, p, id); h != [] && h[|h| - 1] - p.windowMs <= from
    ensures |Since(History(ops, p, id), from)| <= |Bucket(Run(ops).windows, KeyFor(p, id))|
  {
    var h := History(ops, p, id);
    BucketIsSurvivingHistory(ops, p, id);
    HistoryFollowsClock(ops, p, id);
    RecentSurvive(h, p.windowMs, from, |h|);
    assert h[..|h|] == h;
  }

  lemma CeilingAtLast(ops: seq<Op>, p: Policy, id: string, from: int)
    requires NonDecreasing(Clock(ops)) && p in Run(ops).policies
    requires |Bucket(Run(ops).windows, KeyFor(p, id))| <= p.maxRequests
    requires var h := History(ops, p, id); h != [] && h[|h| - 1] <= from + p.windowMs
    ensures Allowed(ops, p, id, from, from + p.windowMs) <= p.maxRequests
  {
    RecentInBucket(ops, p, id, from);
    AllowedWereRecorded(ops, p, id, from, from + p.windowMs);
  }

  lemma {:induction false} NothingAllowedBeforeRegistration(ops: seq<Op>, p: Policy, id: string, from: int, to: int)
    requires p !in Run(ops).policies
    ensures Allowed(ops, p, id, from, to) == 0
    decreases |ops|
  {
    if ops == [] || ops[|ops| - 1].ClearPolicies? {
    } else {
      PoliciesGrow(ops);
      NothingAllowedBeforeRegistration(ops[..|ops| - 1], p, id, from, to);
    }
  }

  function Clears(ops: seq<Op>): nat
    decreases |ops|
  {
    if ops == [] then 0 else Clears(ops[..|ops| - 1]) + (if ops[|ops| - 1].ClearPolicies? then 1 else 0)
  }

  /** As `Allowed`, with the decisions before a clearing of policies counted too. */
  function AllowedEver(ops: seq<Op>, p: Policy, id: string, from: int, to: int): nat
    decreases |ops|
  {
    if ops == [] then 0
    else
      var before := ops[..|ops| - 1];
      AllowedEver(before, p, id, from, to)
      + (if AllowedNow(Run(before), ops[|ops| - 1], p, id, from, to) then 1 else 0)
  }

  /** Whenever `p` is registered, no `allow` policy precedes it. */
  predicate AlwaysFirst(ops: seq<Op>, p: Policy)
    decreases |ops|
  {
    && (p in Run(ops).policies ==> NoAllowUpTo(Run(ops).policies, p))
    && (ops != [] ==> AlwaysFirst(ops[..|ops| - 1], p))
  }

  /** Each clearing of the policies hands out the ceiling once more, and no more than that. */
  lemma {:induction false} CeilingOncePerClearing(ops: seq<Op>, p: Policy, id: string, from: int)
    requires NonDecreasing(Clock(ops)) && AlwaysFirst(ops, p)
    ensures var to := from + p.windowMs;
            && AllowedEver(ops, p, id, from, to)
               <= Allowed(ops, p, id, from, to) + Clears(ops) * Max(0, p.maxRequests)
            && AllowedEver(ops, p, id, from, to) <= (Clears(ops) + 1) * Max(0, p.maxRequests)
    decreases |ops|
  {
    var to := from + p.windowMs;
    if p in Run(ops).policies {
      CeilingHolds(ops, p, id, from);
    } else {
      NothingAllowedBeforeRegistration(ops, p, id, from, to);
    }
    if ops == [] {
    } else {
      ClockPrefix(ops);
      CeilingOncePerClearing(ops[..|ops| - 1], p, id, from);
    }
  }

  // ---- Where the ceiling does not hold ---------------------------------------

  // The breaking run is a burst of one request, sent over and over at time zero.
  const REQUEST := Input("agent", "compartment", Some("session"), "tool", 0)

  function Registrations(ps: seq<Policy>): seq<Op> {
    if ps == [] then [] else Registrations(ps[..|ps| - 1]) + [RegisterPolicy(ps[|ps| - 1])]
  }

  function Burst(ps: seq<Policy>, k: nat): seq<Op> {
    if k == 0 then Registrations(ps) else Burst(ps, k - 1) + [Evaluate(REQUEST)]
  }

  /** What the burst's requests are for. */
  function BurstId(p: Policy): string {
    match p.scope
    case ByAgent => REQUEST.agentId
    case ByCompartment => REQUEST.compartmentId
    case BySession => REQUEST.sessionId.value
    case ByTool => REQUEST.tool
  }

  function Zeros(n: nat): seq<int> {
    seq(n, _ => 0)
  }

  /** How many of `k` simultaneous requests a bucket holds; a negative window forgets all but the last. */
  function Held(p: Policy, k: nat): nat {
    if p.windowMs >= 0 then k else if k == 0 then 0 else 1
  }

  lemma RunAppend(ops: seq<Op>, op: Op)
    ensures Run(ops + [op]) == Step(Run(ops), op)
    ensures Clock(ops + [op]) == if op.Evaluate? then Clock(ops) + [op.input.timestamp] else Clock(ops)
  {
    assert (ops + [op])[..|ops|] == ops;
  }

  lemma LastIsNew(ps: seq<Policy>)
    requires ps != [] && DistinctIds(ps)
    ensures DistinctIds(ps[..|ps| - 1]) && !HasPolicy(ps[..|ps| - 1], ps[|ps| - 1].id)
    ensures ps[..|ps| - 1] + [ps[|ps| - 1]] == ps
  {
  }

  lemma {:induction false} RunRegistrations(ps: seq<Policy>)
    requires DistinctIds(ps)
    ensures Run(Registrations(ps)) == State(ps, [], map[]) && Clock(Registrations(ps)) == []
  {
    if ps == [] {
    } else {
      LastIsNew(ps);
      RunRegistrations(ps[..|ps| - 1]);
      RunAppend(Registrations(ps[..|ps| - 1]), RegisterPolicy(ps[|ps| - 1]));
    }
  }

  lemma SinceZeros(n: nat, start: int)
    ensures Since(Zeros(n), start) == if start <= 0 then Zeros(n) else []
  {
    if n == 0 {
    } else {
      assert Zeros(n)[..n - 1] == Zeros(n - 1);
      SinceZeros(n - 1, start);
      assert Zeros(n - 1) + [0] == Zeros(n);
    }
  }

  /** The state after `k` requests of the burst. */
  predicate AfterBurst(s: State, ps: seq<Policy>, k: nat) {
    && s.policies == ps && s.blocks == []
    && forall p :: p in ps && p.enabled ==> Bucket(s.windows, KeyFor(p, BurstId(p))) == Zeros(Held(p, k))
  }

  lemma RecordedInBurst(s: State, ps: seq<Policy>, k: nat, p: Policy)
    requires AfterBurst(s, ps, k) && p in ps && p.enabled
    ensures Applies(p, REQUEST) && KeyOf(p, REQUEST) == KeyFor(p, BurstId(p))
    ensures Recorded(s.windows, p, REQUEST) == Zeros(Held(p, k + 1))
  {
    SinceZeros(Held(p, k), -p.windowMs);
    assert Zeros(k) + [0] == Zeros(k + 1);
    assert Zeros(0) + [0] == Zeros(1);
  }

  lemma BurstStep(s: State, ps: seq<Policy>, k: nat)
    requires DistinctIds(ps) && AfterBurst(s, ps, k)
    ensures AfterBurst(AfterEvaluate(s, REQUEST), ps, k + 1)
  {
    forall p | p in ps && p.enabled
      ensures Bucket(RecordAll(ps, s.windows, REQUEST), KeyFor(p, BurstId(p))) == Zeros(Held(p, k + 1))
    {
      RecordedInBurst(s, ps, k, p);
      RecordAllAt(ps, s.windows, REQUEST, p, KeyFor(p, BurstId(p)));
    }
  }

  lemma {:induction false} BurstFills(ps: seq<Policy>, k: nat)
    requires DistinctIds(ps)
    ensures AfterBurst(Run(Burst(ps, k)), ps, k)
    decreases k
  {
    if k == 0 {
      RunRegistrations(ps);
    } else {
      BurstFills(ps, k - 1);
      BurstStep(Run(Burst(ps, k - 1)), ps, k - 1);
      BurstRun(ps, k);
    }
  }

  lemma BurstRun(ps: seq<Policy>, k: nat)
    requires k > 0
    ensures Burst(ps, k)[..|Burst(ps, k)| - 1] == Burst(ps, k - 1)
    ensures Run(Burst(ps, k)) == AfterEvaluate(Run(Burst(ps, k - 1)), REQUEST)
  {
    var ops := Burst(ps, k);
    assert ops[..|ops| - 1] == Burst(ps, k - 1) && ops[|ops| - 1] == Evaluate(REQUEST);
  }

  lemma {:induction false} BurstClock(ps: seq<Policy>, k: nat)
    requires DistinctIds(ps)
    ensures Clock(Burst(ps, k)) == Zeros(k)
    decreases k
  {
    if k == 0 {
      RunRegistrations(ps);
    } else {
      BurstClock(ps, k - 1);
      BurstRun(ps, k);
      assert Zeros(k - 1) + [0] == Zeros(k);
    }
  }

  /** The policy cannot refuse any of the first `n` simultaneous requests. */
  predicate LetsThrough(p: Policy, n: nat) {
    p.enabled && p.action != Allow ==> p.maxRequests >= n
  }

  /** Once the `allow` policy at `i` is over its ceiling, the burst passes. */
  lemma BurstPasses(s: State, ps: seq<Policy>, i: nat, k: nat, n: nat)
    requires AfterBurst(s, ps, k) && i < |ps| && ps[i].enabled && ps[i].action == Allow
    requires Held(ps[i], k + 1) > ps[i].maxRequests && k + 1 <= n
    requires forall h :: 0 <= h < i ==> LetsThrough(ps[h], n)
    ensures Decide(s, REQUEST).action == Allow
  {
    RecordedInBurst(s, ps, k, ps[i]);
    var first := LeastExceeded(s, REQUEST, i);
    RecordedInBurst(s, ps, k, ps[first]);
    assert first < i ==> LetsThrough(ps[first], n);
    FirstExceededActs(s, REQUEST, first);
  }

  /** An `allow` policy that a burst can take over its ceiling. */
  predicate Lifts(p: Policy) {
    p.enabled && p.action == Allow && (p.windowMs >= 0 || p.maxRequests <= 0)
  }

  lemma BurstAllowedNow(ps: seq<Policy>, i: nat, j: nat, k: nat, n: nat)
    requires DistinctIds(ps) && i < j < |ps| && Max(0, ps[i].maxRequests) < k + 1 <= n
    requires Lifts(ps[i]) && ps[j].enabled && ps[j].windowMs >= 0
    requires forall h :: 0 <= h < i ==> LetsThrough(ps[h], n)
    ensures AllowedNow(Run(Burst(ps, k)), Evaluate(REQUEST), ps[j], BurstId(ps[j]), 0, ps[j].windowMs)
  {
    var s := Run(Burst(ps, k));
    BurstFills(ps, k);
    BurstPasses(s, ps, i, k, n);
    RecordedInBurst(s, ps, k, ps[j]);
    assert IsFor(ps[j].scope, REQUEST, BurstId(ps[j]));
  }

  /** How many requests of a burst count towards the ceiling of `p`. */
  function Passed(ps: seq<Policy>, p: Policy, k: nat): nat {
    Allowed(Burst(ps, k), p, BurstId(p), 0, p.windowMs)
  }

  lemma PassedStep(ps: seq<Policy>, p: Policy, k: nat)
    requires k > 0
    ensures var s := Run(Burst(ps, k - 1));
            Passed(ps, p, k)
            == Passed(ps, p, k - 1)
               + (if AllowedNow(s, Evaluate(REQUEST), p, BurstId(p), 0, p.windowMs) then 1 else 0)
  {
    BurstRun(ps, k);
  }

  /** From `free` requests on, the `allow` policy at `i` stands over its ceiling and lets the burst through. */
  predicate Lifted(ps: seq<Policy>, i: nat, j: nat, free: nat, n: nat) {
    && DistinctIds(ps) && i < j < |ps|
    && Lifts(ps[i]) && ps[i].maxRequests <= free && ps[j].enabled && ps[j].windowMs >= 0
    && forall h :: 0 <= h < i ==> LetsThrough(ps[h], n)
  }

  lemma OneMorePasses(ps: seq<Policy>, i: nat, j: nat, free: nat, k: nat, n: nat)
    requires Lifted(ps, i, j, free, n) && 0 < k <= n
    ensures Passed(ps, ps[j], k) >= Passed(ps, ps[j], k - 1) + (if k > free then 1 else 0)
  {
    PassedStep(ps, ps[j], k);
    if k > free { BurstAllowedNow(ps, i, j, k - 1, n); }
  }

  lemma {:induction false} BurstAllowed(ps: seq<Policy>, i: nat, j: nat, free: nat, k: nat, n: nat)
    requires Lifted(ps, i, j, free, n) && k <= n
    ensures Passed(ps, ps[j], k) >= k - free
  {
    if k == 0 {
    } else {
      var less := k - 1;
      BurstAllowed(ps, i, j, free, less, n);
      OneMorePasses(ps, i, j, free, k, n);
    }
  }

  /**
   An `allow` policy lifts the ceiling of every policy registered after it, unless
   some policy before it is tight enough to refuse a burst: for all limits,
   windows and scopes, a run with a non-decreasing clock lets more requests
   through than the later policy's ceiling.
   */
  lemma EarlierAllowPolicyLiftsCeiling(ps: seq<Policy>, i: nat, j: nat) returns (ops: seq<Op>, id: string)
    requires DistinctIds(ps) && i < j < |ps|
    requires Lifts(ps[i]) && ps[j].enabled && ps[j].windowMs >= 0
    requires forall h :: 0 <= h < i ==> LetsThrough(ps[h], Max(0, ps[i].maxRequests) + Max(0, ps[j].maxRequests) + 1)
    ensures NonDecreasing(Clock(ops)) && Run(ops).policies == ps
    ensures Allowed(ops, ps[j], id, 0, ps[j].windowMs) > Max(0, ps[j].maxRequests)
  {
    var n := Max(0, ps[i].maxRequests) + Max(0, ps[j].maxRequests) + 1;
    ops, id := Burst(ps, n), BurstId(ps[j]);
    BurstFills(ps, n);
    BurstClock(ps, n);
    BurstAllowed(ps, i, j, Max(0, ps[i].maxRequests), n, n);
  }

  predicate WithinCeiling(ops: seq<Op>, p: Policy, id: string, from: int) {
    Allowed(ops, p, id, from, from + p.windowMs) <= Max(0, p.maxRequests)
  }

  /** The ceiling of a policy holds in every run that ends with just these policies. */
  ghost predicate CeilingKept(ps: seq<Policy>, p: Policy) {
    forall ops, id: string, from :: NonDecreasing(Clock(ops)) && Run(ops).policies == ps ==>
      WithinCeiling(ops, p, id, from)
  }

  predicate SameButLimits(ps: seq<Policy>, qs: seq<Policy>) {
    |ps| == |qs| && forall h :: 0 <= h < |ps| ==> qs[h] == ps[h].(maxRequests := qs[h].maxRequests)
  }

  /**
   Whatever limits an operator later sets, the ceiling of a policy holds exactly
   when no enabled `allow` policy is registered before it.
   */
  lemma CeilingHoldsExactly(ps: seq<Policy>, j: nat)
    requires DistinctIds(ps) && j < |ps| && ps[j].enabled && ps[j].action != Allow && ps[j].windowMs >= 0
    ensures (forall qs: seq<Policy> :: SameButLimits(ps, qs) ==> CeilingKept(qs, qs[j]))
            <==> forall i :: 0 <= i < j ==> !(ps[i].enabled && ps[i].action == Allow)
  {
    if i :| 0 <= i < j && ps[i].enabled && ps[i].action == Allow {
      var roomy := Max(0, ps[j].maxRequests) + 1;
      var qs := seq(|ps|, h requires 0 <= h < |ps| =>
        ps[h].(maxRequests := if h == i then 0 else if h < i then roomy else ps[h].maxRequests));
      var ops, id := EarlierAllowPolicyLiftsCeiling(qs, i, j);
      assert SameButLimits(ps, qs) && !WithinCeiling(ops, qs[j], id, 0);
    } else {
      forall qs: seq<Policy> | SameButLimits(ps, qs) ensures CeilingKept(qs, qs[j]) {
        forall ops, id: string, from | NonDecreasing(Clock(ops)) && Run(ops).policies == qs
          ensures WithinCeiling(ops, qs[j], id, from)
        {
          assert NoAllowUpTo(qs, qs[j]);
          CeilingHolds(ops, qs[j], id, from);
        }
      }
    }
  }

  /** What remains is exactly how many more simultaneous requests stay within the ceiling. */
  lemma RemainingExactly(w: Windows, p: Policy, input: Input, more: nat)
    requires Applies(p, input) && !Over(EvaluationOf(w, p, input))
    ensures |Recorded(w, p, input)| + more <= p.maxRequests <==> more <= EvaluationOf(w, p, input).remaining
  {
  }

  /** Nothing recorded leaves the window until the reset has passed, and then something does. */
  lemma ResetExactly(w: Windows, p: Policy, input: Input, later: int)
    requires Applies(p, input) && NonDecreasing(Recorded(w, p, input)) && p.windowMs >= 0
    ensures |Since(Recorded(w, p, input), later - p.windowMs)| == |Recorded(w, p, input)|
            <==> later <= EvaluationOf(w, p, input).resetAt
  {
    var pruned := Recorded(w, p, input);
    if later <= EvaluationOf(w, p, input).resetAt {
      SinceAll(pruned, later - p.windowMs);
    } else {
      SinceDrops(pruned, later - p.windowMs);
    }
  }

  lemma {:induction false} SinceDrops(ts: seq<int>, start: int)
    requires ts != [] && ts[0] < start
    ensures |Since(ts, start)| < |ts|
  {
    if |ts| == 1 {
    } else {
      SinceDrops(ts[..|ts| - 1], start);
    }
  }

  /** A client that waits exactly `retryAfterMs` is refused again: the window is closed at both ends. */
  lemma RetryAtResetIsStillOver(w: Windows, p: Policy, input: Input, retry: Input)
    requires Applies(p, input) && Applies(p, retry) && KeyOf(p, retry) == KeyOf(p, input)
    requires NonDecreasing(Recorded(w, p, input)) && p.windowMs >= 0
    requires Over(EvaluationOf(w, p, input))
    requires retry.timestamp == input.timestamp + Max(0, EvaluationOf(w, p, input).resetAt - input.timestamp)
    ensures Over(EvaluationOf(w[KeyOf(p, input) := Recorded(w, p, input)], p, retry))
  {
    var pruned := Recorded(w, p, input);
    SinceFirst(Bucket(w, KeyOf(p, input)), input.timestamp - p.windowMs);
    assert pruned[0] >= input.timestamp - p.windowMs;
    assert retry.timestamp - p.windowMs == pruned[0];
    SinceAll(pruned, pruned[0]);
  }

  lemma SinceFirst(ts: seq<int>, start: int)
    ensures forall i :: 0 <= i < |Since(ts, start)| ==> Since(ts, start)[i] >= start
  {
  }

  lemma {:induction false} SinceAll(ts: seq<int>, start: int)
    requires forall i :: 0 <= i < |ts| ==> ts[i] >= start
    ensures Since(ts, start) == ts
  {
    if ts == [] {
    } else {
      SinceAll(ts[..|ts| - 1], start);
    }
  }

  // ---- Requests that nothing holds back ---------------------------------------

  /** Some policy applies, and this is what it has left. */
  predicate Leaves(s: State, input: Input, i: nat, left: int) {
    && i < |s.policies| && Applies(s.policies[i], input)
    && left == s.policies[i].maxRequests - |Recorded(s.windows, s.policies[i], input)|
  }

  predicate SomeLeaves(s: State, input: Input, n: nat, left: int)
    requires n <= |s.policies|
  {
    exists i :: 0 <= i < n && Leaves(s, input, i, left)
  }

  predicate Reports(es: seq<Evaluation>, left: int) {
    exists k :: 0 <= k < |es| && es[k].remaining == left
  }

  /** The evaluations report exactly what the policies leave. */
  lemma {:induction false} EvaluationsReport(s: State, input: Input, n: nat, left: int)
    requires n <= |s.policies| && forall i :: 0 <= i < n ==> !Exceeds(s, input, s.policies[i])
    ensures Reports(Evaluations(s.policies[..n], s.windows, input), left) <==> SomeLeaves(s, input, n, left)
  {
    if n == 0 {
    } else {
      var last := s.policies[n - 1];
      assert s.policies[..n][..n - 1] == s.policies[..n - 1];
      EvaluationsReport(s, input, n - 1, left);
      assert SomeLeaves(s, input, n, left) <==> SomeLeaves(s, input, n - 1, left) || Leaves(s, input, n - 1, left);
      if Applies(last, input) {
        ReportsAppend(Evaluations(s.policies[..n - 1], s.windows, input), EvaluationOf(s.windows, last, input), left);
      }
    }
  }

  lemma ReportsAppend(es: seq<Evaluation>, e: Evaluation, left: int)
    ensures Reports(es + [e], left) <==> Reports(es, left) || e.remaining == left
  {
    assert (es + [e])[|es|] == e;
    assert forall k :: 0 <= k < |es| ==> (es + [e])[k] == es[k];
  }

  /**
   A request that no block stops and that takes no policy over its ceiling is
   allowed, without anything to wait for; what remains is the least that any
   policy it applies to leaves, or the greatest safe integer if none applies.
   */
  lemma WithinLimitsAllowed(s: State, input: Input)
    requires !Blocked(s.blocks, input) && forall i :: 0 <= i < |s.policies| ==> !Exceeds(s, input, s.policies[i])
    ensures var d := Decide(s, input);
            && d.action == Allow && d.retryAfterMs == None
            && (d.cause == NoPolicyApplies <==> forall i :: 0 <= i < |s.policies| ==> !Applies(s.policies[i], input))
            && (d.cause == NoPolicyApplies ==> d.remaining == 9007199254740991 && d.resetAt == input.timestamp)
            && (d.cause != NoPolicyApplies ==>
                  && d.cause == WithinLimits
                  && SomeLeaves(s, input, |s.policies|, d.remaining)
                  && forall i: nat, left :: Leaves(s, input, i, left) ==> d.remaining <= left)
  {
    assert s.policies[..|s.policies|] == s.policies;
    NoneExceeded(s, input, |s.policies|);
    TightestLeaves(s, input);
  }

  lemma TightestLeaves(s: State, input: Input)
    requires forall i :: 0 <= i < |s.policies| ==> !Exceeds(s, input, s.policies[i])
    ensures var es := Evaluations(s.policies, s.windows, input);
            && (es == [] <==> forall i :: 0 <= i < |s.policies| ==> !Applies(s.policies[i], input))
            && (es != [] ==>
                  && SomeLeaves(s, input, |s.policies|, Tightest(es).remaining)
                  && forall i: nat, left :: Leaves(s, input, i, left) ==> Tightest(es).remaining <= left)
  {
    var n, es := |s.policies|, Evaluations(s.policies, s.windows, input);
    assert s.policies[..n] == s.policies;
    if es != [] {
      var least := TightestIsFirstLeast(es);
      assert Reports(es, es[least].remaining);
      EvaluationsReport(s, input, n, es[least].remaining);
    }
    forall i: nat, left | Leaves(s, input, i, left) ensures es != [] && Tightest(es).remaining <= left {
      assert SomeLeaves(s, input, n, left);
      EvaluationsReport(s, input, n, left);
      var least := TightestIsFirstLeast(es);
    }
    forall i | 0 <= i < n && Applies(s.policies[i], input) ensures es != [] {
      var left := s.policies[i].maxRequests - |Recorded(s.windows, s.policies[i], input)|;
      assert Leaves(s, input, i, left);
    }
  }

  // ---- Blocks over runs -------------------------------------------------------

  /** The blocks registered since blocks were last cleared altogether. */
  function RegisteredBlocks(ops: seq<Op>): seq<Block>
    decreases |ops|
  {
    if ops == [] || ops[|ops| - 1].ClearBlocks? then []
    else
      var before, op := RegisteredBlocks(ops[..|ops| - 1]), ops[|ops| - 1];
      if op.RegisterBlock? then before + [op.block] else before
  }

  /** Expired blocks were only cleared as of times up to `now`. */
  predicate ClearedUpTo(ops: seq<Op>, now: int) {
    forall i :: 0 <= i < |ops| && ops[i].ClearExpired? ==> ops[i].now <= now
  }

  lemma LiveBlocksStop(blocks: seq<Block>, now: int, input: Input)
    requires now <= input.timestamp
    ensures Blocked(LiveBlocks(blocks, now), input) <==> Blocked(blocks, input)
  {
    ClearingKeepsDecisions(blocks, now, input);
  }

  lemma {:induction false} BlockedAppend(blocks: seq<Block>, b: Block, input: Input)
    ensures Blocked(blocks + [b], input) <==> Blocked(blocks, input) || BlockApplies(b, input)
  {
    if blocks == [] {
      assert blocks + [b] == [b];
    } else {
      assert (blocks + [b])[1..] == blocks[1..] + [b];
      BlockedAppend(blocks[1..], b, input);
    }
  }

  lemma {:induction false} RunBlocks(ops: seq<Op>, input: Input)
    requires ClearedUpTo(ops, input.timestamp)
    ensures Blocked(Run(ops).blocks, input) <==> Blocked(RegisteredBlocks(ops), input)
    decreases |ops|
  {
    if ops == [] {
    } else {
      var before, op := ops[..|ops| - 1], ops[|ops| - 1];
      RunBlocks(before, input);
      match op {
        case RegisterBlock(b) =>
          BlockedAppend(Run(before).blocks, b, input);
          BlockedAppend(RegisteredBlocks(before), b, input);
        case ClearExpired(now) => LiveBlocksStop(Run(before).blocks, now, input);
        case RegisterPolicy(_) =>
        case Evaluate(_) =>
        case ClearBlocks =>
        case ClearPolicies =>
      }
    }
  }

  /** Clearing at the end of a run leaves exactly the blocks that are live at that time. */
  lemma ClearedRunHoldsLiveOnes(ops: seq<Op>, now: int, b: Block)
    ensures b in Run(ops + [ClearExpired(now)]).blocks <==> b in Run(ops).blocks && now < b.expiresAt
  {
    assert (ops + [ClearExpired(now)])[..|ops|] == ops;
    ClearingKeepsLiveOnes(Run(ops).blocks, now, b);
  }

  /**
   In every run a request is stopped exactly when some block registered since
   blocks were last cleared altogether is live at its time and names it; clearing
   expired blocks on the way makes no difference.
   */
  lemma StoppedExactly(ops: seq<Op>, input: Input)
    requires ClearedUpTo(ops, input.timestamp)
    ensures var blocks := RegisteredBlocks(ops);
            Decide(Run(ops), input).cause.LiveBlock? <==> exists i :: 0 <= i < |blocks| && Stops(blocks[i], input)
  {
    RunBlocks(ops, input);
    FirstBlockIsFirst(RegisteredBlocks(ops), input);
  }

  /** The policies of a run: each id once, as first registered since policies were last cleared. */
  function RegisteredPolicies(ops: seq<Op>): seq<Policy>
    decreases |ops|
  {
    if ops == [] || ops[|ops| - 1].ClearPolicies? then []
    else
      var before, op := RegisteredPolicies(ops[..|ops| - 1]), ops[|ops| - 1];
      if op.RegisterPolicy? && forall p :: p in before ==> p.id != op.policy.id then before + [op.policy] else before
  }

  lemma {:induction false} PoliciesAreRegistered(ops: seq<Op>)
    ensures Run(ops).policies == RegisteredPolicies(ops)
    decreases |ops|
  {
    if ops == [] {
    } else {
      PoliciesAreRegistered(ops[..|ops| - 1]);
    }
  }
}
