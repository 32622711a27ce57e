/**
 The execution-capability graph (packages/core/src/capability-graph/engine.ts):
 the ten-rule path decision, the operations that grow paths and graph, and the
 server's evaluate, await, record protocol (apps/grl-server/src/local-api.ts).
 Ids come from one counter in place of random UUIDs.
 */
module CapabilityGraph {
  import opened Capabilities
  import opened Wrappers

  datatype PathRisk = LowPath | MediumPath | HighPath | BlockedPath
  datatype Action = Allow | RequireApproval | ForceRotation | Block

  datatype NodeKind = RequestNode | CapabilityNode | ApprovalNode | ExecutionNode
  datatype Relation = Approved | Executed | Blocked | TransitionedTo

  datatype Request = Request(agentId: string, compartmentId: string, tool: Tool, risk: Risk)
  datatype Node = Node(id: nat, kind: NodeKind, origin: Request)
  datatype Edge = Edge(id: nat, from: nat, to: nat, relation: Relation)
  datatype PathEntry = PathEntry(nodeId: nat, tool: Tool, risk: Risk)

  datatype Rule = Rule(
    id: string,
    fromTool: Tool,
    toTool: Tool,
    maxAllowedRisk: PathRisk,
    actionOnViolation: Action,
    enabled: bool)

  datatype Policy = Policy(
    id: string,
    compartmentId: string,
    maxPathLength: int,
    forbidCrossToolEscalation: bool,
    requireApprovalOnToolChange: bool,
    blockOnHighRiskPath: bool,
    enabled: bool)

  datatype State = State(
    nodes: seq<Node>,
    edges: seq<Edge>,
    rules: seq<Rule>,
    policies: map<string, Policy>,
    policyByCompartment: map<string, string>,
    paths: map<string, seq<PathEntry>>,
    issued: nat)

  datatype Reason =
    | NoPolicy | TooLong | FirstCapability | HighRiskPath | SameTool
    | NoRule | ExceedsRule | Escalation | ApprovalOnChange | Permitted

  datatype Decision = Decision(action: Action, risk: PathRisk, reason: Reason)

  const EMPTY := State([], [], [], map[], map[], map[], 0)

  // ---- Ranks ------------------------------------------------------------------

  function Rank(r: Risk): nat {
    match r case Low => 1 case Medium => 2 case High => 3
  }

  function PathRank(r: PathRisk): nat {
    match r case LowPath => 1 case MediumPath => 2 case HighPath => 3 case BlockedPath => 4
  }

  function PathRiskForRank(rank: nat): PathRisk {
    if rank >= Rank(High) then HighPath else if rank >= Rank(Medium) then MediumPath else LowPath
  }

  function MaxRank(path: seq<PathEntry>, start: nat): nat {
    if path == [] then start
    else
      var before := MaxRank(path[..|path| - 1], start);
      var last := Rank(path[|path| - 1].risk);
      if last > before then last else before
  }

  predicate HasHigh(path: seq<PathEntry>) {
    exists i :: 0 <= i < |path| && path[i].risk == High
  }

  /** The request or some entry on the path has this risk. */
  predicate HasRisk(path: seq<PathEntry>, asked: Risk, risk: Risk) {
    asked == risk || exists i :: 0 <= i < |path| && path[i].risk == risk
  }

  lemma HasRiskAppended(path: seq<PathEntry>, last: PathEntry, asked: Risk, risk: Risk)
    ensures HasRisk(path + [last], asked, risk) <==> HasRisk(path, asked, risk) || last.risk == risk
  {
    var all := path + [last];
    assert all[|path|] == last;
    if i :| 0 <= i < |path| && path[i].risk == risk { assert all[i].risk == risk; }
  }

  /** The aggregate risk is the highest of the path and the request. */
  lemma {:induction false} HighestRisk(path: seq<PathEntry>, asked: Risk)
    ensures PathRiskForRank(MaxRank(path, Rank(asked)))
            == if HasRisk(path, asked, High) then HighPath
               else if HasRisk(path, asked, Medium) then MediumPath else LowPath
    ensures MaxRank(path, Rank(asked))
            == if HasRisk(path, asked, High) then 3 else if HasRisk(path, asked, Medium) then 2 else 1
  {
    if path == [] {
    } else {
      var init, last := path[..|path| - 1], path[|path| - 1];
      HighestRisk(init, asked);
      assert path == init + [last];
      HasRiskAppended(init, last, asked, High);
      HasRiskAppended(init, last, asked, Medium);
    }
  }

  // ---- The decision -----------------------------------------------------------

  function PathOf(s: State, c: string): seq<PathEntry> {
    if c in s.paths then s.paths[c] else []
  }

  /** An empty policy id reads as no policy. */
  function PolicyOf(s: State, c: string): Option<Policy> {
    if c in s.policyByCompartment && s.policyByCompartment[c] != "" && s.policyByCompartment[c] in s.policies
    then Some(s.policies[s.policyByCompartment[c]]) else None
  }

  function FindRule(rules: seq<Rule>, fromTool: Tool, toTool: Tool): (r: Option<Rule>)
    ensures r.Some? <==> Licensed(rules, fromTool, toTool)
  {
    if rules == [] then None
    else if rules[0].enabled && rules[0].fromTool == fromTool && rules[0].toTool == toTool then Some(rules[0])
    else
      assert forall i :: 1 <= i < |rules| ==> rules[i] == rules[1..][i - 1];
      assert forall i :: 0 <= i < |rules[1..]| ==> rules[1..][i] == rules[i + 1];
      FindRule(rules[1..], fromTool, toTool)
  }

  predicate Licensed(rules: seq<Rule>, fromTool: Tool, toTool: Tool) {
    exists i :: 0 <= i < |rules| && rules[i].enabled && rules[i].fromTool == fromTool && rules[i].toTool == toTool
  }

  const NO_POLICY := Decision(Block, BlockedPath, NoPolicy)

  function EvaluatePath(s: State, q: Request): Decision {
    var policy := PolicyOf(s, q.compartmentId);
    if policy.None? || !policy.value.enabled then NO_POLICY
    else EvaluateUnder(policy.value, s.rules, PathOf(s, q.compartmentId), q)
  }

  function EvaluateUnder(p: Policy, rules: seq<Rule>, path: seq<PathEntry>, q: Request): Decision {
    var pathRisk := PathRiskForRank(MaxRank(path, Rank(q.risk)));
    if |path| + 1 > p.maxPathLength then Decision(Block, BlockedPath, TooLong)
    else if path == [] then Decision(Allow, pathRisk, FirstCapability)
    else
      var previous := path[|path| - 1];
      if previous.tool == q.tool then
        if p.blockOnHighRiskPath && pathRisk == HighPath then Decision(Block, BlockedPath, HighRiskPath)
        else Decision(Allow, pathRisk, SameTool)
      else
        match FindRule(rules, previous.tool, q.tool)
        case None => Decision(Block, BlockedPath, NoRule)
        case Some(rule) =>
          if p.blockOnHighRiskPath && pathRisk == HighPath then Decision(Block, BlockedPath, HighRiskPath)
          else if Rank(q.risk) > PathRank(rule.maxAllowedRisk) then
            var risk := if rule.actionOnViolation == Block then BlockedPath else pathRisk;
            Decision(rule.actionOnViolation, risk, ExceedsRule)
          else if p.forbidCrossToolEscalation && Rank(q.risk) > Rank(previous.risk) then
            Decision(ForceRotation, pathRisk, Escalation)
          else if p.requireApprovalOnToolChange then Decision(RequireApproval, pathRisk, ApprovalOnChange)
          else Decision(Allow, pathRisk, Permitted)
  }

  predicate Admits(s: State, q: Request) {
    var action := EvaluatePath(s, q).action;
    action == Allow || action == ForceRotation
  }

  // ---- Growing the graph ------------------------------------------------------

  function AddNodeOf(s: State, kind: NodeKind, q: Request): State {
    s.(nodes := s.nodes + [Node(s.issued, kind, q)], issued := s.issued + 1)
  }

  function AddEdgeOf(s: State, from: nat, to: nat, relation: Relation): State {
    s.(edges := s.edges + [Edge(s.issued, from, to, relation)], issued := s.issued + 1)
  }

  /** A new node, linked from the last entry of the compartment's path if there is one. */
  function Attach(s: State, q: Request, kind: NodeKind, relation: Relation): State {
    var path := PathOf(s, q.compartmentId);
    var s1 := AddNodeOf(s, kind, q);
    if path == [] then s1 else AddEdgeOf(s1, path[|path| - 1].nodeId, s.issued, relation)
  }

  /** Recording an admitted capability also advances the path. */
  function Grow(s: State, q: Request): State {
    var s1 := Attach(s, q, CapabilityNode, TransitionedTo);
    s1.(paths := s1.paths[q.compartmentId := PathOf(s, q.compartmentId) + [PathEntry(s.issued, q.tool, q.risk)]])
  }

  function Refuse(s: State, q: Request): State {
    if EvaluatePath(s, q).action == RequireApproval then Attach(s, q, ApprovalNode, Approved)
    else Attach(s, q, RequestNode, Blocked)
  }

  function RecordTransition(s: State, q: Request): State {
    if Admits(s, q) then Grow(s, q) else Refuse(s, q)
  }

  /** What the server records for a successful execution: capability, execution, and the edge between them. */
  function RecordExecution(s: State, q: Request): State {
    var s1 := Grow(s, q);
    var s2 := AddNodeOf(s1, ExecutionNode, q);
    AddEdgeOf(s2, s.issued, s1.issued, Executed)
  }

  predicate HasRule(rules: seq<Rule>, id: string) {
    exists i :: 0 <= i < |rules| && rules[i].id == id
  }

  function RegisterRule(s: State, rule: Rule): State {
    if HasRule(s.rules, rule.id) then s else s.(rules := s.rules + [rule])
  }

  function RegisterPolicy(s: State, p: Policy): State {
    if p.id in s.policies || p.compartmentId in s.policyByCompartment then s
    else s.(policies := s.policies[p.id := p], policyByCompartment := s.policyByCompartment[p.compartmentId := p.id])
  }

  // ---- What an admitted path obeys --------------------------------------------

  /** Every change of tool is licensed by an enabled rule. */
  predicate PathLicensed(rules: seq<Rule>, path: seq<PathEntry>) {
    forall i :: 0 < i < |path| ==>
      path[i - 1].tool == path[i].tool || Licensed(rules, path[i - 1].tool, path[i].tool)
  }

  /** A high-risk entry has the path to itself. */
  predicate HighAlone(path: seq<PathEntry>) {
    |path| >= 2 ==> !HasHigh(path)
  }

  predicate PathSafe(p: Policy, rules: seq<Rule>, path: seq<PathEntry>) {
    && p.enabled
    && |path| <= p.maxPathLength
    && PathLicensed(rules, path)
    && (p.blockOnHighRiskPath ==> HighAlone(path))
  }

  predicate Safe(s: State, c: string) {
    PathOf(s, c) != [] ==> PolicyOf(s, c).Some? && PathSafe(PolicyOf(s, c).value, s.rules, PathOf(s, c))
  }

  /** Exactly which capabilities may extend a safe path, without the order of the ten rules. */
  predicate MayExtend(p: Policy, rules: seq<Rule>, path: seq<PathEntry>, q: Request) {
    && |path| < p.maxPathLength
    && (path != [] ==>
          && !(p.blockOnHighRiskPath && (q.risk == High || HasHigh(path)))
          && (path[|path| - 1].tool != q.tool ==>
                || RuleSays(p, rules, path[|path| - 1], q, Allow)
                || RuleSays(p, rules, path[|path| - 1], q, ForceRotation)))
  }

  /** The first enabled rule for a change of tool. */
  predicate FirstRule(rules: seq<Rule>, fromTool: Tool, toTool: Tool, i: nat) {
    && i < |rules| && rules[i].enabled && rules[i].fromTool == fromTool && rules[i].toTool == toTool
    && forall j :: 0 <= j < i ==> !(rules[j].enabled && rules[j].fromTool == fromTool && rules[j].toTool == toTool)
  }

  lemma {:induction false} FindRuleIsFirst(rules: seq<Rule>, fromTool: Tool, toTool: Tool)
    ensures forall i: nat :: FirstRule(rules, fromTool, toTool, i) ==>
              FindRule(rules, fromTool, toTool) == Some(rules[i])
    ensures FindRule(rules, fromTool, toTool).Some? ==> exists i: nat :: FirstRule(rules, fromTool, toTool, i)
  {
    if rules == [] {
    } else {
      var rest := rules[1..];
      FindRuleIsFirst(rest, fromTool, toTool);
      if rules[0].enabled && rules[0].fromTool == fromTool && rules[0].toTool == toTool {
        assert FirstRule(rules, fromTool, toTool, 0);
      } else {
        assert forall j :: 1 <= j < |rules| ==> rules[j] == rest[j - 1];
        forall i: nat | FirstRule(rules, fromTool, toTool, i)
          ensures FindRule(rules, fromTool, toTool) == Some(rules[i])
        {
          assert FirstRule(rest, fromTool, toTool, i - 1) by {
            assert forall j :: 0 <= j < |rest| ==> rest[j] == rules[j + 1];
          }
        }
        if FindRule(rest, fromTool, toTool).Some? {
          var i: nat :| FirstRule(rest, fromTool, toTool, i);
          assert FirstRule(rules, fromTool, toTool, i + 1);
        }
      }
    }
  }

  /** High is above medium, and medium above low. */
  predicate Above(a: Risk, b: Risk) {
    (a == High && b != High) || (a == Medium && b == Low)
  }

  /** A rule's greatest allowed risk is passed. */
  predicate Passes(a: Risk, limit: PathRisk) {
    (limit == LowPath && a != Low) || (limit == MediumPath && a == High)
  }

  /** What the first enabled rule, and then the policy, makes of a change of tool. */
  predicate RuleSays(p: Policy, rules: seq<Rule>, previous: PathEntry, q: Request, action: Action) {
    exists i :: 0 <= i < |rules| && FirstRule(rules, previous.tool, q.tool, i)
      && action == if Passes(q.risk, rules[i].maxAllowedRisk) then rules[i].actionOnViolation
                   else if p.forbidCrossToolEscalation && Above(q.risk, previous.risk) then ForceRotation
                   else if p.requireApprovalOnToolChange then RequireApproval
                   else Allow
  }

  /** The policy leaves room on the path and blocks no high risk there. */
  predicate LeavesRoom(s: State, q: Request) {
    var p, path := PolicyOf(s, q.compartmentId), PathOf(s, q.compartmentId);
    && p.Some? && p.value.enabled && |path| < p.value.maxPathLength
    && !(path != [] && p.value.blockOnHighRiskPath && (q.risk == High || HasHigh(path)))
  }

  predicate ChangesTool(s: State, q: Request) {
    PathOf(s, q.compartmentId) != [] && Last(PathOf(s, q.compartmentId)).tool != q.tool
  }

  function Last(path: seq<PathEntry>): PathEntry
    requires path != []
  {
    path[|path| - 1]
  }

  /**
   Exactly which action is taken, for every state and request: with room on the
   path, the first enabled rule and then the policy speak on a change of tool, and
   anything else is allowed; without it, or without a rule, it is refused.
   */
  lemma ActionExactly(s: State, q: Request, action: Action)
    ensures EvaluatePath(s, q).action == action
            <==> if !LeavesRoom(s, q) then action == Block
                 else if !ChangesTool(s, q) then action == Allow
                 else var p, previous := PolicyOf(s, q.compartmentId).value, Last(PathOf(s, q.compartmentId));
                      || RuleSays(p, s.rules, previous, q, action)
                      || (action == Block && !Licensed(s.rules, previous.tool, q.tool))
  {
    HighestRisk(PathOf(s, q.compartmentId), q.risk);
    if ChangesTool(s, q) {
      FindRuleIsFirst(s.rules, Last(PathOf(s, q.compartmentId)).tool, q.tool);
    }
  }

  /** A refusal has blocked risk, any other decision the highest of the path and the request. */
  lemma RiskExactly(s: State, q: Request)
    ensures var d, path := EvaluatePath(s, q), PathOf(s, q.compartmentId);
            d.risk == if d.action == Block then BlockedPath
                      else if HasRisk(path, q.risk, High) then HighPath
                      else if HasRisk(path, q.risk, Medium) then MediumPath
                      else LowPath
  {
    HighestRisk(PathOf(s, q.compartmentId), q.risk);
  }

  /** Which rule of the ten spoke: the first that had something to say. */
  lemma ReasonExactly(s: State, q: Request)
    ensures var d, p, path := EvaluatePath(s, q), PolicyOf(s, q.compartmentId), PathOf(s, q.compartmentId);
            var governed := p.Some? && p.value.enabled;
            var room := governed && |path| < p.value.maxPathLength;
            var changes := room && ChangesTool(s, q);
            var licensed := changes && Licensed(s.rules, Last(path).tool, q.tool);
            && (d.reason == NoPolicy <==> !governed)
            && (d.reason == TooLong <==> governed && !room)
            && (d.reason == FirstCapability <==> room && path == [])
            && (d.reason == SameTool <==> room && path != [] && !changes && LeavesRoom(s, q))
            && (d.reason == NoRule <==> changes && !licensed)
            && (d.reason == HighRiskPath <==> room && path != [] && (changes ==> licensed) && !LeavesRoom(s, q))
            && (d.reason in {ExceedsRule, Escalation, ApprovalOnChange, Permitted} <==> licensed && LeavesRoom(s, q))
            && (d.reason == Escalation ==> d.action == ForceRotation)
            && (d.reason == ApprovalOnChange ==> d.action == RequireApproval)
            && (d.reason == Permitted ==> d.action == Allow)
            && (d.reason == ExceedsRule ==> q.risk != Low)
  {
    HighestRisk(PathOf(s, q.compartmentId), q.risk);
  }

  lemma AdmitsExactly(s: State, q: Request)
    ensures Admits(s, q) <==>
            var p := PolicyOf(s, q.compartmentId);
            p.Some? && p.value.enabled && MayExtend(p.value, s.rules, PathOf(s, q.compartmentId), q)
  {
    ActionExactly(s, q, Allow);
    ActionExactly(s, q, ForceRotation);
  }

  lemma ExtensionIsSafe(p: Policy, rules: seq<Rule>, path: seq<PathEntry>, q: Request, id: nat)
    requires p.enabled && MayExtend(p, rules, path, q)
    requires path != [] ==> PathSafe(p, rules, path)
    ensures PathSafe(p, rules, path + [PathEntry(id, q.tool, q.risk)])
  {
  }

  lemma GrowKeepsSafe(s: State, q: Request, c: string)
    requires Safe(s, c) && (c == q.compartmentId ==> Admits(s, q))
    ensures Safe(Grow(s, q), c)
  {
    if c == q.compartmentId {
      AdmitsExactly(s, q);
      ExtensionIsSafe(PolicyOf(s, c).value, s.rules, PathOf(s, c), q, s.issued);
    }
  }

  lemma MoreRulesKeepSafe(p: Policy, rules: seq<Rule>, path: seq<PathEntry>, rule: Rule)
    requires PathSafe(p, rules, path)
    ensures PathSafe(p, rules + [rule], path)
  {
    forall i | 0 < i < |path| && path[i - 1].tool != path[i].tool
      ensures Licensed(rules + [rule], path[i - 1].tool, path[i].tool)
    {
      assert Licensed(rules, path[i - 1].tool, path[i].tool);
      var k :| 0 <= k < |rules| && rules[k].enabled
               && rules[k].fromTool == path[i - 1].tool && rules[k].toTool == path[i].tool;
      assert (rules + [rule])[k] == rules[k];
    }
  }

  datatype Op = AddRule(rule: Rule) | AddPolicy(policy: Policy) | Transition(request: Request)

  function Step(s: State, op: Op): State {
    match op
    case AddRule(r) => RegisterRule(s, r)
    case AddPolicy(p) => RegisterPolicy(s, p)
    case Transition(q) => RecordTransition(s, q)
  }

  function Run(ops: seq<Op>): State
    decreases |ops|
  {
    if ops == [] then EMPTY else Step(Run(ops[..|ops| - 1]), ops[|ops| - 1])
  }

  /** A policy id names one registered policy. */
  predicate PoliciesRegistered(s: State) {
    forall c :: c in s.policyByCompartment ==> s.policyByCompartment[c] in s.policies
  }

  lemma StepKeepsSafe(s: State, op: Op, c: string)
    requires Safe(s, c) && PoliciesRegistered(s)
    ensures Safe(Step(s, op), c) && PoliciesRegistered(Step(s, op))
  {
    match op
    case AddRule(rule) =>
      if PathOf(s, c) != [] && !HasRule(s.rules, rule.id) {
        MoreRulesKeepSafe(PolicyOf(s, c).value, s.rules, PathOf(s, c), rule);
      }
    case AddPolicy(_) =>
    case Transition(q) =>
      if Admits(s, q) { GrowKeepsSafe(s, q, c); }
  }

  /**
   In every run of recorded transitions, with rules and policies added at any
   time, every path keeps its length limit, every change of tool on it is
   licensed by an enabled rule, and under high-risk blocking a path of two or
   more entries has no high-risk one.
   */
  lemma {:induction false} TransitionRunsAreSafe(ops: seq<Op>, c: string)
    ensures Safe(Run(ops), c) && PoliciesRegistered(Run(ops))
    decreases |ops|
  {
    if ops == [] {
    } else {
      TransitionRunsAreSafe(ops[..|ops| - 1], c);
      StepKeepsSafe(Run(ops[..|ops| - 1]), ops[|ops| - 1], c);
    }
  }

  /** A path opened by a high-risk capability never grows under high-risk blocking. */
  lemma HighRiskOpeningEndsPath(s: State, q: Request)
    requires PolicyOf(s, q.compartmentId).Some? && PolicyOf(s, q.compartmentId).value.blockOnHighRiskPath
    requires PathOf(s, q.compartmentId) != [] && PathOf(s, q.compartmentId)[0].risk == High
    ensures !Admits(s, q)
  {
    AdmitsExactly(s, q);
    assert HasHigh(PathOf(s, q.compartmentId));
  }

  // ---- What runs record -------------------------------------------------------

  function KindFor(action: Action): NodeKind {
    match action
    case Allow => CapabilityNode
    case ForceRotation => CapabilityNode
    case RequireApproval => ApprovalNode
    case Block => RequestNode
  }

  function RelationFor(action: Action): Relation {
    match action
    case Allow => TransitionedTo
    case ForceRotation => TransitionedTo
    case RequireApproval => Approved
    case Block => Blocked
  }

  predicate Proceeds(action: Action) {
    action == Allow || action == ForceRotation
  }

  /** A recorded request: one node of the kind its action calls for, linked from the end of its path. */
  lemma TransitionRecordsExactly(s: State, q: Request)
    ensures var t, path, action := RecordTransition(s, q), PathOf(s, q.compartmentId), EvaluatePath(s, q).action;
            && t.nodes == s.nodes + [Node(s.issued, KindFor(action), q)]
            && |t.edges| == |s.edges| + (if path == [] then 0 else 1) && s.edges <= t.edges
            && (path != [] ==>
                  var e := t.edges[|s.edges|];
                  e.from == Last(path).nodeId && e.to == s.issued && e.relation == RelationFor(action))
            && (forall c :: PathOf(t, c) ==
                  if c == q.compartmentId && Proceeds(action) then path + [PathEntry(s.issued, q.tool, q.risk)]
                  else PathOf(s, c))
  {
  }

  /** The requests of a compartment that a run let proceed, in order. */
  function Proceeded(ops: seq<Op>, c: string): seq<Request>
    decreases |ops|
  {
    if ops == [] then []
    else
      var before, op := ops[..|ops| - 1], ops[|ops| - 1];
      var earlier := Proceeded(before, c);
      if op.Transition? && op.request.compartmentId == c && Proceeds(EvaluatePath(Run(before), op.request).action)
      then earlier + [op.request] else earlier
  }

  /** A path tells tools and risks of these requests. */
  predicate Tells(path: seq<PathEntry>, requests: seq<Request>) {
    && |path| == |requests|
    && forall i :: 0 <= i < |path| ==> path[i].tool == requests[i].tool && path[i].risk == requests[i].risk
  }

  /** In every run the path of a compartment is the requests let proceed there, in order. */
  lemma {:induction false} PathsTellWhatProceeded(ops: seq<Op>, c: string)
    ensures Tells(PathOf(Run(ops), c), Proceeded(ops, c))
    decreases |ops|
  {
    if ops == [] {
    } else {
      var before := ops[..|ops| - 1];
      PathsTellWhatProceeded(before, c);
      if ops[|ops| - 1].Transition? { TransitionRecordsExactly(Run(before), ops[|ops| - 1].request); }
    }
  }

  /** Registering accepts a policy unless its id or its compartment is taken by one accepted before. */
  function Accepted(ops: seq<Op>): seq<Policy>
    decreases |ops|
  {
    if ops == [] then []
    else
      var earlier, op := Accepted(ops[..|ops| - 1]), ops[|ops| - 1];
      if op.AddPolicy?
         && forall p :: p in earlier ==> p.id != op.policy.id && p.compartmentId != op.policy.compartmentId
      then earlier + [op.policy] else earlier
  }

  predicate Registers(s: State, accepted: seq<Policy>) {
    && (forall p :: p in accepted ==>
          && p.id in s.policies && s.policies[p.id] == p
          && p.compartmentId in s.policyByCompartment && s.policyByCompartment[p.compartmentId] == p.id)
    && (forall id :: id in s.policies ==> s.policies[id] in accepted && s.policies[id].id == id)
    && (forall c :: c in s.policyByCompartment ==>
          s.policyByCompartment[c] in s.policies && s.policies[s.policyByCompartment[c]].compartmentId == c)
  }

  lemma PolicyKeepsRegister(s: State, earlier: seq<Policy>, policy: Policy)
    requires Registers(s, earlier)
    ensures var free := forall p :: p in earlier ==> p.id != policy.id && p.compartmentId != policy.compartmentId;
            Registers(RegisterPolicy(s, policy), if free then earlier + [policy] else earlier)
  {
  }

  lemma {:induction false} RunsRegister(ops: seq<Op>)
    ensures Registers(Run(ops), Accepted(ops))
    decreases |ops|
  {
    if ops == [] {
    } else {
      var before := ops[..|ops| - 1];
      RunsRegister(before);
      match ops[|ops| - 1] {
        case AddPolicy(p) => PolicyKeepsRegister(Run(before), Accepted(before), p);
        case AddRule(_) =>
        case Transition(q) => TransitionKeepsConfig(Run(before), q);
      }
    }
  }

  lemma TransitionKeepsConfig(s: State, q: Request)
    ensures SameConfig(s, RecordTransition(s, q))
  {
  }

  /** The rules registered: each id once, as first registered. */
  function AcceptedRules(ops: seq<Op>): seq<Rule>
    decreases |ops|
  {
    if ops == [] then []
    else
      var earlier, op := AcceptedRules(ops[..|ops| - 1]), ops[|ops| - 1];
      if op.AddRule? && forall r :: r in earlier ==> r.id != op.rule.id then earlier + [op.rule] else earlier
  }

  /** In every run the rules are those accepted, in the order of registration. */
  lemma {:induction false} RulesAreTheAccepted(ops: seq<Op>)
    ensures Run(ops).rules == AcceptedRules(ops)
    decreases |ops|
  {
    if ops == [] {
    } else {
      RulesAreTheAccepted(ops[..|ops| - 1]);
      if ops[|ops| - 1].Transition? { TransitionKeepsConfig(Run(ops[..|ops| - 1]), ops[|ops| - 1].request); }
    }
  }

  /** In every run a compartment is governed by the one policy accepted for it; an empty id reads as none. */
  lemma PolicyIsTheAccepted(ops: seq<Op>, c: string, p: Policy)
    ensures PolicyOf(Run(ops), c) == Some(p) <==> p in Accepted(ops) && p.compartmentId == c && p.id != ""
  {
    RunsRegister(ops);
  }

  // ---- The graph as a whole ---------------------------------------------------

  ghost predicate NodesOrdered(nodes: seq<Node>, issued: nat) {
    && (forall i, j :: 0 <= i < j < |nodes| ==> nodes[i].id < nodes[j].id)
    && (forall i :: 0 <= i < |nodes| ==> nodes[i].id < issued)
  }

  ghost predicate HasNode(nodes: seq<Node>, id: nat) {
    exists i :: 0 <= i < |nodes| && nodes[i].id == id
  }

  /** Both ends exist and the source was inserted before the target. */
  ghost predicate EdgesForward(nodes: seq<Node>, edges: seq<Edge>) {
    forall i :: 0 <= i < |edges| ==>
      edges[i].from < edges[i].to && HasNode(nodes, edges[i].from) && HasNode(nodes, edges[i].to)
  }

  ghost predicate PathNodes(nodes: seq<Node>, paths: map<string, seq<PathEntry>>) {
    forall c, i :: c in paths && 0 <= i < |paths[c]| ==> HasNode(nodes, paths[c][i].nodeId)
  }

  ghost predicate PathsBelow(paths: map<string, seq<PathEntry>>, issued: nat) {
    forall c, i :: c in paths && 0 <= i < |paths[c]| ==> paths[c][i].nodeId < issued
  }

  /** No node is on two paths, or twice on one. */
  ghost predicate Disjoint(paths: map<string, seq<PathEntry>>) {
    forall c, i, d, j :: (c in paths && d in paths && 0 <= i < |paths[c]| && 0 <= j < |paths[d]|
                          && paths[c][i].nodeId == paths[d][j].nodeId) ==> c == d && i == j
  }

  ghost predicate Consecutive(paths: map<string, seq<PathEntry>>, from: nat, to: nat) {
    exists c, i :: c in paths && 0 <= i < |paths[c]| - 1 && paths[c][i].nodeId == from && paths[c][i + 1].nodeId == to
  }

  predicate IsTransition(e: Edge, from: nat, to: nat) {
    e.relation == TransitionedTo && e.from == from && e.to == to
  }

  ghost predicate HasTransition(edges: seq<Edge>, from: nat, to: nat) {
    exists i :: 0 <= i < |edges| && IsTransition(edges[i], from, to)
  }

  /** The transition edges are exactly the consecutive pairs of the paths. */
  ghost predicate ChainsMatch(edges: seq<Edge>, paths: map<string, seq<PathEntry>>) {
    forall a, b :: HasTransition(edges, a, b) <==> Consecutive(paths, a, b)
  }

  /** No pair is linked twice. */
  ghost predicate SingleTransitions(edges: seq<Edge>) {
    forall i, j :: 0 <= i < j < |edges| && edges[i].relation == edges[j].relation == TransitionedTo ==>
      edges[i].to != edges[j].to
  }

  ghost predicate EdgesBelow(edges: seq<Edge>, issued: nat) {
    forall i :: 0 <= i < |edges| ==> edges[i].to < issued && edges[i].id < issued
  }

  ghost predicate GraphSound(s: State) {
    && NodesOrdered(s.nodes, s.issued)
    && EdgesForward(s.nodes, s.edges)
    && EdgesBelow(s.edges, s.issued)
    && PathNodes(s.nodes, s.paths)
    && PathsBelow(s.paths, s.issued)
    && Disjoint(s.paths)
    && ChainsMatch(s.edges, s.paths)
    && SingleTransitions(s.edges)
  }

  lemma HasNodeAppend(nodes: seq<Node>, node: Node, id: nat)
    ensures HasNode(nodes + [node], id) <==> HasNode(nodes, id) || node.id == id
  {
    if HasNode(nodes, id) {
      var i :| 0 <= i < |nodes| && nodes[i].id == id;
      assert (nodes + [node])[i].id == id;
    }
    if node.id == id { assert (nodes + [node])[|nodes|].id == id; }
    if HasNode(nodes + [node], id) && node.id != id {
      var i :| 0 <= i < |nodes + [node]| && (nodes + [node])[i].id == id;
      assert nodes[i].id == id;
    }
  }

  lemma AppendNodeKeeps(nodes: seq<Node>, edges: seq<Edge>, paths: map<string, seq<PathEntry>>, node: Node)
    ensures EdgesForward(nodes, edges) ==> EdgesForward(nodes + [node], edges)
    ensures PathNodes(nodes, paths) ==> PathNodes(nodes + [node], paths)
  {
    forall id ensures HasNode(nodes, id) ==> HasNode(nodes + [node], id) {
      HasNodeAppend(nodes, node, id);
    }
  }

  lemma HasTransitionAppend(edges: seq<Edge>, e: Edge, a: nat, b: nat)
    ensures HasTransition(edges + [e], a, b) <==> HasTransition(edges, a, b) || IsTransition(e, a, b)
  {
    if HasTransition(edges, a, b) {
      var i :| 0 <= i < |edges| && IsTransition(edges[i], a, b);
      assert (edges + [e])[i] == edges[i];
    }
    if IsTransition(e, a, b) { assert (edges + [e])[|edges|] == e; }
    if HasTransition(edges + [e], a, b) && !IsTransition(e, a, b) {
      var i :| 0 <= i < |edges + [e]| && IsTransition((edges + [e])[i], a, b);
      assert (edges + [e])[i] == edges[i];
    }
  }

  lemma AddNodeSound(s: State, kind: NodeKind, q: Request)
    requires GraphSound(s)
    ensures GraphSound(AddNodeOf(s, kind, q)) && HasNode(AddNodeOf(s, kind, q).nodes, s.issued)
  {
    var node := Node(s.issued, kind, q);
    AppendNodeKeeps(s.nodes, s.edges, s.paths, node);
    HasNodeAppend(s.nodes, node, s.issued);
  }

  /** An edge other than a transition keeps the graph sound if it runs forward. */
  lemma AddEdgeSound(s: State, from: nat, to: nat, relation: Relation)
    requires GraphSound(s) && relation != TransitionedTo
    requires from < to < s.issued && HasNode(s.nodes, from) && HasNode(s.nodes, to)
    ensures GraphSound(AddEdgeOf(s, from, to, relation))
  {
    var e := Edge(s.issued, from, to, relation);
    forall a, b ensures HasTransition(s.edges + [e], a, b) <==> Consecutive(s.paths, a, b) {
      HasTransitionAppend(s.edges, e, a, b);
    }
  }

  lemma RefuseSound(s: State, q: Request, kind: NodeKind, relation: Relation)
    requires GraphSound(s) && relation != TransitionedTo
    ensures GraphSound(Attach(s, q, kind, relation))
  {
    AddNodeSound(s, kind, q);
    var path := PathOf(s, q.compartmentId);
    if path != [] {
      var from := path[|path| - 1].nodeId;
      assert q.compartmentId in s.paths && s.paths[q.compartmentId] == path;
      assert HasNode(s.nodes, from) && from < s.issued;
      HasNodeAppend(s.nodes, Node(s.issued, kind, q), from);
      AddEdgeSound(AddNodeOf(s, kind, q), from, s.issued, relation);
    }
  }

  /** Extending one path adds exactly one consecutive pair, or none if it was empty. */
  lemma ConsecutiveAppend(paths: map<string, seq<PathEntry>>, c: string, path: seq<PathEntry>, entry: PathEntry,
          a: nat, b: nat)
    requires path == if c in paths then paths[c] else []
    ensures Consecutive(paths[c := path + [entry]], a, b)
            <==> Consecutive(paths, a, b) || (path != [] && a == path[|path| - 1].nodeId && b == entry.nodeId)
  {
    var paths': map<string, seq<PathEntry>> := paths[c := path + [entry]];
    if Consecutive(paths, a, b) {
      var d, i :| d in paths && 0 <= i < |paths[d]| - 1 && paths[d][i].nodeId == a && paths[d][i + 1].nodeId == b;
      assert paths'[d][i].nodeId == a && paths'[d][i + 1].nodeId == b;
    }
    if path != [] && a == path[|path| - 1].nodeId && b == entry.nodeId {
      var i := |path| - 1;
      assert paths'[c][i].nodeId == a && paths'[c][i + 1].nodeId == b;
    }
    if Consecutive(paths', a, b) {
      var d, i :| d in paths' && 0 <= i < |paths'[d]| - 1 && paths'[d][i].nodeId == a && paths'[d][i + 1].nodeId == b;
      if d != c || i < |path| - 1 {
        assert paths[d][i].nodeId == a && paths[d][i + 1].nodeId == b;
      }
    }
  }

  lemma DisjointAppend(paths: map<string, seq<PathEntry>>, c: string, path: seq<PathEntry>, entry: PathEntry)
    requires path == if c in paths then paths[c] else []
    requires Disjoint(paths) && PathsBelow(paths, entry.nodeId)
    ensures Disjoint(paths[c := path + [entry]])
    ensures PathsBelow(paths[c := path + [entry]], entry.nodeId + 1)
  {
    var paths': map<string, seq<PathEntry>> := paths[c := path + [entry]];
    forall d, i | d in paths' && 0 <= i < |paths'[d]|
      ensures paths'[d][i].nodeId <= entry.nodeId
      ensures paths'[d][i].nodeId == entry.nodeId ==> d == c && i == |path|
      ensures paths'[d][i].nodeId != entry.nodeId ==> d in paths && i < |paths[d]| && paths[d][i] == paths'[d][i]
    {
    }
  }

  lemma PathNodesAppend(nodes: seq<Node>, paths: map<string, seq<PathEntry>>, c: string, path: seq<PathEntry>,
          entry: PathEntry)
    requires path == if c in paths then paths[c] else []
    requires PathNodes(nodes, paths) && HasNode(nodes, entry.nodeId)
    ensures PathNodes(nodes, paths[c := path + [entry]])
  {
  }

  /** An edge from below to the newest node, which no transition has reached yet. */
  lemma EdgeAppend(nodes: seq<Node>, edges: seq<Edge>, e: Edge, bound: nat)
    requires EdgesForward(nodes, edges) && EdgesBelow(edges, bound) && SingleTransitions(edges)
    requires e.from < e.to == bound < e.id && HasNode(nodes, e.from) && HasNode(nodes, e.to)
    ensures EdgesForward(nodes, edges + [e]) && EdgesBelow(edges + [e], e.id + 1) && SingleTransitions(edges + [e])
  {
  }

  lemma GrowSound(s: State, q: Request)
    requires GraphSound(s)
    ensures GraphSound(Grow(s, q)) && HasNode(Grow(s, q).nodes, s.issued)
  {
    var c := q.compartmentId;
    var path := PathOf(s, c);
    var entry := PathEntry(s.issued, q.tool, q.risk);
    var s1 := AddNodeOf(s, CapabilityNode, q);
    AddNodeSound(s, CapabilityNode, q);
    DisjointAppend(s.paths, c, path, entry);
    PathNodesAppend(s1.nodes, s.paths, c, path, entry);
    if path != [] {
      var last := path[|path| - 1];
      assert last == s.paths[c][|path| - 1];
      assert HasNode(s1.nodes, last.nodeId);
      var e := Edge(s1.issued, last.nodeId, s.issued, TransitionedTo);
      GrowChains(s.edges, s.paths, c, path, entry, e);
      EdgeAppend(s1.nodes, s.edges, e, s.issued);
    } else {
      GrowFirst(s.edges, s.paths, c, path, entry);
    }
  }

  lemma GrowFirst(edges: seq<Edge>, paths: map<string, seq<PathEntry>>, c: string, path: seq<PathEntry>,
          entry: PathEntry)
    requires path == (if c in paths then paths[c] else []) && path == [] && ChainsMatch(edges, paths)
    ensures ChainsMatch(edges, paths[c := path + [entry]])
  {
    forall a, b ensures HasTransition(edges, a, b) <==> Consecutive(paths[c := path + [entry]], a, b) {
      ConsecutiveAppend(paths, c, path, entry, a, b);
    }
  }

  lemma GrowChains(edges: seq<Edge>, paths: map<string, seq<PathEntry>>, c: string, path: seq<PathEntry>,
          entry: PathEntry, e: Edge)
    requires path == (if c in paths then paths[c] else []) && path != []
    requires ChainsMatch(edges, paths)
    requires IsTransition(e, path[|path| - 1].nodeId, entry.nodeId)
    ensures ChainsMatch(edges + [e], paths[c := path + [entry]])
  {
    forall a, b ensures HasTransition(edges + [e], a, b) <==> Consecutive(paths[c := path + [entry]], a, b) {
      HasTransitionAppend(edges, e, a, b);
      ConsecutiveAppend(paths, c, path, entry, a, b);
    }
  }

  lemma RecordExecutionSound(s: State, q: Request)
    requires GraphSound(s)
    ensures GraphSound(RecordExecution(s, q))
  {
    var s1 := Grow(s, q);
    GrowSound(s, q);
    AddNodeSound(s1, ExecutionNode, q);
    HasNodeAppend(s1.nodes, Node(s1.issued, ExecutionNode, q), s.issued);
    AddEdgeSound(AddNodeOf(s1, ExecutionNode, q), s.issued, s1.issued, Executed);
  }

  lemma RecordTransitionSound(s: State, q: Request)
    requires GraphSound(s)
    ensures GraphSound(RecordTransition(s, q))
  {
    if Admits(s, q) {
      GrowSound(s, q);
    } else if EvaluatePath(s, q).action == RequireApproval {
      RefuseSound(s, q, ApprovalNode, Approved);
    } else {
      RefuseSound(s, q, RequestNode, Blocked);
    }
  }

  /** Over every run of recorded transitions the transition edges are the consecutive pairs of the paths. */
  lemma {:induction false} TransitionRunsAreSound(ops: seq<Op>)
    ensures GraphSound(Run(ops))
    decreases |ops|
  {
    if ops == [] {
    } else {
      var before := Run(ops[..|ops| - 1]);
      TransitionRunsAreSound(ops[..|ops| - 1]);
      if ops[|ops| - 1].Transition? { RecordTransitionSound(before, ops[|ops| - 1].request); }
    }
  }

  /** A walk along edges, each starting where the one before ended. */
  predicate Walk(edges: seq<Edge>, walk: seq<Edge>) {
    && (forall i :: 0 <= i < |walk| ==> walk[i] in edges)
    && (forall i :: 0 <= i < |walk| - 1 ==> walk[i].to == walk[i + 1].from)
  }

  lemma {:induction false} WalkRises(s: State, walk: seq<Edge>)
    requires GraphSound(s) && walk != [] && Walk(s.edges, walk)
    ensures walk[0].from < walk[|walk| - 1].to
  {
    var last := walk[|walk| - 1];
    assert last in s.edges;
    if |walk| == 1 {
    } else {
      WalkRises(s, walk[..|walk| - 1]);
      assert walk[|walk| - 2].to == last.from;
    }
  }

  /** The graph has no cycle, and insertion order is a topological order of it. */
  lemma GraphIsAcyclic(s: State, walk: seq<Edge>)
    requires GraphSound(s) && walk != [] && Walk(s.edges, walk)
    ensures walk[0].from != walk[|walk| - 1].to
    ensures forall i, j :: (0 <= i < |s.nodes| && 0 <= j < |s.nodes|
                            && s.nodes[i].id == walk[0].from && s.nodes[j].id == walk[|walk| - 1].to) ==> i < j
  {
    WalkRises(s, walk);
  }

  // ---- The server: evaluate, await, record ------------------------------------

  datatype Server = Server(graph: State, inFlight: seq<Request>)

  /** A request starts, or the one at a position of the waiting list ends. */
  datatype Event = Begin(request: Request) | Finish(index: nat, success: bool)

  function Without(waiting: seq<Request>, index: nat): seq<Request>
    requires index < |waiting|
  {
    waiting[..index] + waiting[index + 1..]
  }

  function Act(v: Server, a: Event): Server {
    match a
    case Begin(q) =>
      if Admits(v.graph, q) then v.(inFlight := v.inFlight + [q]) else v.(graph := Refuse(v.graph, q))
    case Finish(i, success) =>
      if i >= |v.inFlight| then v
      else Server(if success then RecordExecution(v.graph, v.inFlight[i]) else v.graph, Without(v.inFlight, i))
  }

  function Serve(v: Server, actions: seq<Event>): Server
    decreases |actions|
  {
    if actions == [] then v else Act(Serve(v, actions[..|actions| - 1]), actions[|actions| - 1])
  }

  function InFlight(waiting: seq<Request>, c: string): nat {
    if waiting == [] then 0
    else InFlight(waiting[1..], c) + (if waiting[0].compartmentId == c then 1 else 0)
  }

  /** At no point are more than `k` requests of the compartment in flight. */
  predicate Overlap(v: Server, actions: seq<Event>, c: string, k: nat)
    decreases |actions|
  {
    && InFlight(Serve(v, actions).inFlight, c) <= k
    && (actions != [] ==> Overlap(v, actions[..|actions| - 1], c, k))
  }

  lemma {:induction false} InFlightConcat(a: seq<Request>, b: seq<Request>, c: string)
    ensures InFlight(a + b, c) == InFlight(a, c) + InFlight(b, c)
  {
    if a == [] {
      assert a + b == b;
    } else {
      assert (a + b)[1..] == a[1..] + b;
      InFlightConcat(a[1..], b, c);
    }
  }

  lemma InFlightWithout(waiting: seq<Request>, index: nat, c: string)
    requires index < |waiting|
    ensures InFlight(waiting, c)
            == InFlight(Without(waiting, index), c) + (if waiting[index].compartmentId == c then 1 else 0)
  {
    InFlightConcat(waiting[..index], waiting[index + 1..], c);
    InFlightConcat(waiting[..index], waiting[index..], c);
    assert waiting == waiting[..index] + waiting[index..];
    assert waiting[index..][1..] == waiting[index + 1..];
  }

  lemma PathAfter(s: State, q: Request, c: string)
    ensures PathOf(RecordExecution(s, q), c)
            == if c == q.compartmentId then PathOf(s, c) + [PathEntry(s.issued, q.tool, q.risk)] else PathOf(s, c)
    ensures PathOf(Refuse(s, q), c) == PathOf(s, c)
    ensures SameConfig(s, RecordExecution(s, q)) && SameConfig(s, Refuse(s, q))
  {
  }

  predicate SameConfig(s: State, t: State) {
    s.rules == t.rules && s.policies == t.policies && s.policyByCompartment == t.policyByCompartment
  }

  lemma {:induction false} ConfigStays(v: Server, actions: seq<Event>)
    ensures SameConfig(v.graph, Serve(v, actions).graph)
    decreases |actions|
  {
    if actions == [] {
    } else {
      ConfigStays(v, actions[..|actions| - 1]);
      var u := Serve(v, actions[..|actions| - 1]);
      match actions[|actions| - 1] {
        case Begin(q) => PathAfter(u.graph, q, q.compartmentId);
        case Finish(i, _) => if i < |u.inFlight| { PathAfter(u.graph, u.inFlight[i], ""); }
      }
    }
  }

  /** Entries recorded and entries promised, against the limit. */
  predicate Budget(v: Server, c: string, limit: int, k: nat) {
    var used := |PathOf(v.graph, c)| + InFlight(v.inFlight, c);
    used == 0 || used <= limit - 1 + k
  }

  lemma ActKeepsBudget(v: Server, a: Event, c: string, p: Policy, k: nat)
    requires PolicyOf(v.graph, c) == Some(p) && Budget(v, c, p.maxPathLength, k)
    requires InFlight(Act(v, a).inFlight, c) <= k
    ensures Budget(Act(v, a), c, p.maxPathLength, k)
  {
    match a
    case Begin(q) =>
      PathAfter(v.graph, q, c);
      InFlightConcat(v.inFlight, [q], c);
      AdmitsExactly(v.graph, q);
    case Finish(i, success) =>
      if i < |v.inFlight| {
        PathAfter(v.graph, v.inFlight[i], c);
        InFlightWithout(v.inFlight, i, c);
      }
  }

  /**
   With at most `k` admitted requests of a compartment in flight at any time,
   its path never exceeds `maxPathLength - 1 + k`.
   */
  lemma {:induction false} OverlapBoundsPath(s: State, actions: seq<Event>, c: string, p: Policy, k: nat)
    requires PathOf(s, c) == [] && PolicyOf(s, c) == Some(p)
    requires Overlap(Server(s, []), actions, c, k)
    ensures Budget(Serve(Server(s, []), actions), c, p.maxPathLength, k)
    ensures |PathOf(Serve(Server(s, []), actions).graph, c)|
            <= if p.maxPathLength - 1 + k < 0 then 0 else p.maxPathLength - 1 + k
    decreases |actions|
  {
    if actions == [] {
    } else {
      var before := actions[..|actions| - 1];
      OverlapBoundsPath(s, before, c, p, k);
      ConfigStays(Server(s, []), before);
      ActKeepsBudget(Serve(Server(s, []), before), actions[|actions| - 1], c, p, k);
    }
  }

  /** A success records its capability, then its execution, and links the two. */
  lemma ExecutionRecordsExactly(s: State, q: Request)
    ensures var t, path := RecordExecution(s, q), PathOf(s, q.compartmentId);
            && |t.nodes| == |s.nodes| + 2 && s.nodes <= t.nodes && s.edges <= t.edges
            && t.nodes[|s.nodes|] == Node(s.issued, CapabilityNode, q)
            && t.nodes[|s.nodes| + 1].kind == ExecutionNode && t.nodes[|s.nodes| + 1].origin == q
            && |t.edges| == |s.edges| + (if path == [] then 1 else 2)
            && (var e := t.edges[|t.edges| - 1];
                e.relation == Executed && e.from == s.issued && e.to == t.nodes[|s.nodes| + 1].id)
            && (path != [] ==>
                  var e := t.edges[|s.edges|];
                  e.relation == TransitionedTo && e.from == Last(path).nodeId && e.to == s.issued)
  {
  }

  /** What each turn of the server adds to the graph: nothing on admission, a refusal, or an execution. */
  function NodesAdded(v: Server, a: Event): nat {
    match a
    case Begin(q) => if Proceeds(EvaluatePath(v.graph, q).action) then 0 else 1
    case Finish(i, success) => if i < |v.inFlight| && success then 2 else 0
  }

  function AllNodesAdded(v: Server, actions: seq<Event>): nat
    decreases |actions|
  {
    if actions == [] then 0
    else
      var before := actions[..|actions| - 1];
      AllNodesAdded(v, before) + NodesAdded(Serve(v, before), actions[|actions| - 1])
  }

  /** In every run of the server the graph holds one node per refusal and two per success. */
  lemma {:induction false} ServerNodesAreCounted(v: Server, actions: seq<Event>)
    ensures |Serve(v, actions).graph.nodes| == |v.graph.nodes| + AllNodesAdded(v, actions)
    decreases |actions|
  {
    if actions == [] {
    } else {
      ServerNodesAreCounted(v, actions[..|actions| - 1]);
      var u, a := Serve(v, actions[..|actions| - 1]), actions[|actions| - 1];
      if a.Finish? && a.index < |u.inFlight| { ExecutionRecordsExactly(u.graph, u.inFlight[a.index]); }
    }
  }

  /** The requests of a compartment that ended with success, in order. */
  function Succeeded(v: Server, actions: seq<Event>, c: string): seq<Request>
    decreases |actions|
  {
    if actions == [] then []
    else
      var u, a := Serve(v, actions[..|actions| - 1]), actions[|actions| - 1];
      var earlier := Succeeded(v, actions[..|actions| - 1], c);
      if a.Finish? && a.success && a.index < |u.inFlight| && u.inFlight[a.index].compartmentId == c
      then earlier + [u.inFlight[a.index]] else earlier
  }

  /** However requests overlap, a path is exactly the requests that succeeded there, in the order they ended. */
  lemma {:induction false} ServerPathsTellWhatSucceeded(s: State, actions: seq<Event>, c: string)
    requires PathOf(s, c) == []
    ensures Tells(PathOf(Serve(Server(s, []), actions).graph, c), Succeeded(Server(s, []), actions, c))
    decreases |actions|
  {
    if actions == [] {
    } else {
      var before := actions[..|actions| - 1];
      ServerPathsTellWhatSucceeded(s, before, c);
      var u := Serve(Server(s, []), before);
      match actions[|actions| - 1] {
        case Begin(q) => PathAfter(u.graph, q, c);
        case Finish(i, _) => if i < |u.inFlight| { PathAfter(u.graph, u.inFlight[i], c); }
      }
    }
  }

  // ---- Overlap one: the paths are as safe as recorded transitions --------------

  /** Whatever waits alone in its compartment would still be admitted. */
  predicate StillAdmitted(v: Server, c: string) {
    forall i :: 0 <= i < |v.inFlight| && v.inFlight[i].compartmentId == c ==> Admits(v.graph, v.inFlight[i])
  }

  lemma {:induction false} AloneMeansOnly(waiting: seq<Request>, c: string, i: nat, j: nat)
    requires InFlight(waiting, c) <= 1 && i < j < |waiting|
    requires waiting[i].compartmentId == c
    ensures waiting[j].compartmentId != c
  {
    InFlightWithout(waiting, j, c);
    InFlightWithout(Without(waiting, j), i, c);
    assert Without(waiting, j)[i] == waiting[i];
  }

  lemma AdmissionDependsOnPath(s: State, t: State, q: Request)
    requires SameConfig(s, t) && PathOf(s, q.compartmentId) == PathOf(t, q.compartmentId)
    ensures EvaluatePath(s, q) == EvaluatePath(t, q)
  {
  }

  lemma BeginKeepsSerial(v: Server, q: Request, c: string)
    requires Safe(v.graph, c) && StillAdmitted(v, c)
    ensures Safe(Act(v, Begin(q)).graph, c) && StillAdmitted(Act(v, Begin(q)), c)
  {
    PathAfter(v.graph, q, c);
    var u := Act(v, Begin(q));
    if !Admits(v.graph, q) {
      forall i | 0 <= i < |u.inFlight| && u.inFlight[i].compartmentId == c ensures Admits(u.graph, u.inFlight[i]) {
        AdmissionDependsOnPath(v.graph, u.graph, u.inFlight[i]);
      }
    }
  }

  lemma RecordExecutionKeepsSafe(s: State, q: Request, c: string)
    requires Safe(s, c) && (c == q.compartmentId ==> Admits(s, q))
    ensures Safe(RecordExecution(s, q), c)
  {
    GrowKeepsSafe(s, q, c);
  }

  lemma FinishKeepsSerial(v: Server, i: nat, success: bool, c: string)
    requires Safe(v.graph, c) && StillAdmitted(v, c) && InFlight(v.inFlight, c) <= 1
    ensures Safe(Act(v, Finish(i, success)).graph, c) && StillAdmitted(Act(v, Finish(i, success)), c)
  {
    var u := Act(v, Finish(i, success));
    if i < |v.inFlight| {
      var q := v.inFlight[i];
      PathAfter(v.graph, q, c);
      RecordExecutionKeepsSafe(v.graph, q, c);
      forall j | 0 <= j < |u.inFlight| && u.inFlight[j].compartmentId == c ensures Admits(u.graph, u.inFlight[j]) {
        var j' := if j < i then j else j + 1;
        assert u.inFlight[j] == v.inFlight[j'];
        if q.compartmentId == c { AloneMeansOnly(v.inFlight, c, if j < i then j' else i, if j < i then i else j'); }
        AdmissionDependsOnPath(v.graph, u.graph, u.inFlight[j]);
      }
    }
  }

  /**
   While a compartment's requests do not overlap, the server keeps its path as
   safe as evaluating and recording in one step would.
   */
  lemma {:induction false} SerialServerIsSafe(s: State, actions: seq<Event>, c: string)
    requires PathOf(s, c) == [] && Overlap(Server(s, []), actions, c, 1)
    ensures Safe(Serve(Server(s, []), actions).graph, c) && StillAdmitted(Serve(Server(s, []), actions), c)
    decreases |actions|
  {
    if actions == [] {
    } else {
      var before := actions[..|actions| - 1];
      SerialServerIsSafe(s, before, c);
      match actions[|actions| - 1] {
        case Begin(q) => BeginKeepsSerial(Serve(Server(s, []), before), q, c);
        case Finish(i, success) => FinishKeepsSerial(Serve(Server(s, []), before), i, success, c);
      }
    }
  }

  /** The graph stays sound under the server's protocol too, however requests overlap. */
  lemma {:induction false} ServerGraphIsSound(v: Server, actions: seq<Event>)
    requires GraphSound(v.graph)
    ensures GraphSound(Serve(v, actions).graph)
    decreases |actions|
  {
    if actions == [] {
    } else {
      ServerGraphIsSound(v, actions[..|actions| - 1]);
      var u := Serve(v, actions[..|actions| - 1]);
      match actions[|actions| - 1] {
        case Begin(q) => if !Admits(u.graph, q) { RecordTransitionSound(u.graph, q); }
        case Finish(i, success) => if i < |u.inFlight| && success { RecordExecutionSound(u.graph, u.inFlight[i]); }
      }
    }
  }

  // ---- The overlap bound is reached, and overlap does break the other rules ----

  predicate Uniform(path: seq<PathEntry>) {
    forall i :: 0 <= i < |path| ==> path[i].tool == Search && path[i].risk == Low
  }

  /** The path holds `n` uniform entries and `b` like requests wait. */
  predicate Filled(v: Server, q: Request, n: nat, b: nat) {
    && |PathOf(v.graph, q.compartmentId)| == n && Uniform(PathOf(v.graph, q.compartmentId))
    && v.inFlight == seq(b, _ => q)
  }

  lemma {:induction false} CopiesInFlight(q: Request, b: nat)
    ensures InFlight(seq(b, _ => q), q.compartmentId) == b
  {
    if b == 0 {
    } else {
      assert seq(b, _ => q)[1..] == seq(b - 1, _ => q);
      CopiesInFlight(q, b - 1);
    }
  }

  lemma OverlapExtend(v: Server, actions: seq<Event>, a: Event, c: string, k: nat)
    requires Overlap(v, actions, c, k) && InFlight(Act(Serve(v, actions), a).inFlight, c) <= k
    ensures Serve(v, actions + [a]) == Act(Serve(v, actions), a)
    ensures Overlap(v, actions + [a], c, k)
  {
    assert (actions + [a])[..|actions|] == actions;
  }

  lemma BeginFills(v: Server, actions: seq<Event>, q: Request, p: Policy, k: nat, n: nat, b: nat)
    requires q.tool == Search && q.risk == Low && PolicyOf(v.graph, q.compartmentId) == Some(p) && p.enabled
    requires Overlap(v, actions, q.compartmentId, k) && Filled(Serve(v, actions), q, n, b)
    requires n < p.maxPathLength && b < k
    ensures Overlap(v, actions + [Begin(q)], q.compartmentId, k)
    ensures Filled(Serve(v, actions + [Begin(q)]), q, n, b + 1)
  {
    ConfigStays(v, actions);
    AdmitsExactly(Serve(v, actions).graph, q);
    assert seq(b, _ => q) + [q] == seq(b + 1, _ => q);
    CopiesInFlight(q, b + 1);
    OverlapExtend(v, actions, Begin(q), q.compartmentId, k);
  }

  lemma FinishFills(v: Server, actions: seq<Event>, q: Request, k: nat, n: nat, b: nat)
    requires q.tool == Search && q.risk == Low && 0 < b <= k
    requires Overlap(v, actions, q.compartmentId, k) && Filled(Serve(v, actions), q, n, b)
    ensures Overlap(v, actions + [Finish(0, true)], q.compartmentId, k)
    ensures Filled(Serve(v, actions + [Finish(0, true)]), q, n + 1, b - 1)
  {
    var u := Serve(v, actions);
    PathAfter(u.graph, q, q.compartmentId);
    assert Without(u.inFlight, 0) == seq(b - 1, _ => q);
    CopiesInFlight(q, b - 1);
    OverlapExtend(v, actions, Finish(0, true), q.compartmentId, k);
  }

  lemma RoundFills(v: Server, actions: seq<Event>, q: Request, p: Policy, k: nat, n: nat) returns (longer: seq<Event>)
    requires q.tool == Search && q.risk == Low && PolicyOf(v.graph, q.compartmentId) == Some(p) && p.enabled
    requires Overlap(v, actions, q.compartmentId, k) && Filled(Serve(v, actions), q, n, 0)
    requires n < p.maxPathLength && 1 <= k
    ensures Overlap(v, longer, q.compartmentId, k) && Filled(Serve(v, longer), q, n + 1, 0)
  {
    BeginFills(v, actions, q, p, k, n, 0);
    FinishFills(v, actions + [Begin(q)], q, k, n, 1);
    longer := actions + [Begin(q)] + [Finish(0, true)];
  }

  lemma {:induction false} FillSerially(s: State, q: Request, p: Policy, k: nat, n: nat) returns (actions: seq<Event>)
    requires q.tool == Search && q.risk == Low && PolicyOf(s, q.compartmentId) == Some(p) && p.enabled
    requires PathOf(s, q.compartmentId) == [] && 1 <= k && n < p.maxPathLength
    ensures Overlap(Server(s, []), actions, q.compartmentId, k) && Filled(Serve(Server(s, []), actions), q, n, 0)
  {
    if n == 0 {
      actions := [];
    } else {
      actions := FillSerially(s, q, p, k, n - 1);
      actions := RoundFills(Server(s, []), actions, q, p, k, n - 1);
    }
  }

  lemma {:induction false} FillWaiting(s: State, q: Request, p: Policy, k: nat, b: nat) returns (actions: seq<Event>)
    requires q.tool == Search && q.risk == Low && PolicyOf(s, q.compartmentId) == Some(p) && p.enabled
    requires PathOf(s, q.compartmentId) == [] && 1 <= k && b <= k && 1 <= p.maxPathLength
    ensures Overlap(Server(s, []), actions, q.compartmentId, k)
    ensures Filled(Serve(Server(s, []), actions), q, p.maxPathLength - 1, b)
  {
    if b == 0 {
      actions := FillSerially(s, q, p, k, p.maxPathLength - 1);
    } else {
      var before := FillWaiting(s, q, p, k, b - 1);
      BeginFills(Server(s, []), before, q, p, k, p.maxPathLength - 1, b - 1);
      actions := before + [Begin(q)];
    }
  }

  lemma {:induction false} FillBeyond(s: State, q: Request, p: Policy, k: nat, ended: nat) returns (actions: seq<Event>)
    requires q.tool == Search && q.risk == Low && PolicyOf(s, q.compartmentId) == Some(p) && p.enabled
    requires PathOf(s, q.compartmentId) == [] && 1 <= k && ended <= k && 1 <= p.maxPathLength
    ensures Overlap(Server(s, []), actions, q.compartmentId, k)
    ensures Filled(Serve(Server(s, []), actions), q, p.maxPathLength - 1 + ended, k - ended)
  {
    if ended == 0 {
      actions := FillWaiting(s, q, p, k, k);
    } else {
      var before := FillBeyond(s, q, p, k, ended - 1);
      FinishFills(Server(s, []), before, q, k, p.maxPathLength - 1 + (ended - 1), k - (ended - 1));
      actions := before + [Finish(0, true)];
    }
  }

  /** The bound is exact: every usable policy and every overlap reach it. */
  lemma OverlapBoundIsReached(s: State, c: string, p: Policy, k: nat) returns (actions: seq<Event>)
    requires PolicyOf(s, c) == Some(p) && p.enabled && PathOf(s, c) == [] && 1 <= k && 1 <= p.maxPathLength
    ensures Overlap(Server(s, []), actions, c, k)
    ensures |PathOf(Serve(Server(s, []), actions).graph, c)| == p.maxPathLength - 1 + k
  {
    actions := FillBeyond(s, Request("", c, Search, Low), p, k, k);
  }

  lemma TwoBegin(s: State, p: Policy, q: Request, r: Request)
    requires PolicyOf(s, q.compartmentId) == Some(p) && p.enabled && 1 <= p.maxPathLength
    requires PathOf(s, q.compartmentId) == []
    requires r.compartmentId == q.compartmentId
    ensures Serve(Server(s, []), [Begin(q), Begin(r)]) == Server(s, [q, r])
    ensures Overlap(Server(s, []), [Begin(q), Begin(r)], q.compartmentId, 2)
  {
    var v, c := Server(s, []), q.compartmentId;
    AdmitsExactly(s, q);
    AdmitsExactly(s, r);
    InFlightConcat([q], [r], c);
    assert [q] + [r] == [q, r];
    assert InFlight([q], c) == 1 && InFlight([r], c) == 1 by {
      assert [q][1..] == [] && [r][1..] == [];
    }
    assert Overlap(v, [], c, 2);
    OverlapExtend(v, [], Begin(q), c, 2);
    assert [] + [Begin(q)] == [Begin(q)];
    OverlapExtend(v, [Begin(q)], Begin(r), c, 2);
    assert [Begin(q)] + [Begin(r)] == [Begin(q), Begin(r)];
  }

  lemma TwoFinish(v: Server, actions: seq<Event>, s: State, q: Request, r: Request)
    requires Serve(v, actions) == Server(s, [q, r]) && Overlap(v, actions, q.compartmentId, 2)
    requires r.compartmentId == q.compartmentId
    ensures Serve(v, actions + [Finish(0, true)] + [Finish(0, true)]).graph == RecordExecution(RecordExecution(s, q), r)
    ensures Overlap(v, actions + [Finish(0, true)] + [Finish(0, true)], q.compartmentId, 2)
  {
    var c := q.compartmentId;
    InFlightWithout([q, r], 0, c);
    assert Without([q, r], 0) == [r];
    OverlapExtend(v, actions, Finish(0, true), c, 2);
    InFlightWithout([r], 0, c);
    assert Without([r], 0) == [];
    OverlapExtend(v, actions + [Finish(0, true)], Finish(0, true), c, 2);
  }

  predicate IsPair(path: seq<PathEntry>, q: Request, r: Request) {
    |path| == 2 && path[0].tool == q.tool && path[0].risk == q.risk && path[1].tool == r.tool && path[1].risk == r.risk
  }

  lemma PairRecorded(s: State, q: Request, r: Request)
    requires PathOf(s, q.compartmentId) == [] && r.compartmentId == q.compartmentId
    ensures IsPair(PathOf(RecordExecution(RecordExecution(s, q), r), q.compartmentId), q, r)
  {
    var c := q.compartmentId;
    PathAfter(s, q, c);
    PathAfter(RecordExecution(s, q), r, c);
  }

  /** Two requests that start together are recorded unchecked against each other. */
  lemma TwoTogether(s: State, q: Request, r: Request) returns (actions: seq<Event>)
    requires Opens(s, q.compartmentId) && PathOf(s, q.compartmentId) == [] && r.compartmentId == q.compartmentId
    ensures Overlap(Server(s, []), actions, q.compartmentId, 2)
    ensures IsPair(PathOf(Serve(Server(s, []), actions).graph, q.compartmentId), q, r)
  {
    TwoBegin(s, PolicyOf(s, q.compartmentId).value, q, r);
    actions := [Begin(q), Begin(r)];
    TwoFinish(Server(s, []), actions, s, q, r);
    PairRecorded(s, q, r);
    actions := actions + [Finish(0, true)] + [Finish(0, true)];
  }

  // ---- Exactly which overlaps the path rules survive --------------------------

  /** The compartment's policy lets a path be opened at all. */
  predicate Opens(s: State, c: string) {
    var p := PolicyOf(s, c);
    p.Some? && p.value.enabled && p.value.maxPathLength >= 1
  }

  lemma {:induction false} ClosedStaysEmpty(s: State, actions: seq<Event>, c: string)
    requires PathOf(s, c) == [] && !Opens(s, c)
    ensures PathOf(Serve(Server(s, []), actions).graph, c) == []
    ensures InFlight(Serve(Server(s, []), actions).inFlight, c) == 0
    decreases |actions|
  {
    if actions == [] {
    } else {
      var before := actions[..|actions| - 1];
      var u := Serve(Server(s, []), before);
      ClosedStaysEmpty(s, before, c);
      ConfigStays(Server(s, []), before);
      match actions[|actions| - 1] {
        case Begin(q) =>
          AdmitsExactly(u.graph, q);
          PathAfter(u.graph, q, c);
          InFlightConcat(u.inFlight, [q], c);
        case Finish(i, _) =>
          if i < |u.inFlight| {
            PathAfter(u.graph, u.inFlight[i], c);
            InFlightWithout(u.inFlight, i, c);
          }
      }
    }
  }

  lemma {:induction false} OverlapWeakens(v: Server, actions: seq<Event>, c: string, k: nat, l: nat)
    requires Overlap(v, actions, c, k) && k <= l
    ensures Overlap(v, actions, c, l)
    decreases |actions|
  {
    if actions == [] {
    } else {
      OverlapWeakens(v, actions[..|actions| - 1], c, k, l);
    }
  }

  /** With no overlap, or no way to open a path, every run is safe. */
  lemma WithoutOverlapSafe(s: State, actions: seq<Event>, c: string, k: nat)
    requires PathOf(s, c) == [] && Overlap(Server(s, []), actions, c, k) && (k <= 1 || !Opens(s, c))
    ensures Safe(Serve(Server(s, []), actions).graph, c)
    ensures SameConfig(s, Serve(Server(s, []), actions).graph)
  {
    ConfigStays(Server(s, []), actions);
    if Opens(s, c) {
      OverlapWeakens(Server(s, []), actions, c, k, 1);
      SerialServerIsSafe(s, actions, c);
    } else {
      ClosedStaysEmpty(s, actions, c);
    }
  }

  ghost predicate SafeUnderOverlap(s: State, c: string, k: nat) {
    forall actions :: Overlap(Server(s, []), actions, c, k) ==> Safe(Serve(Server(s, []), actions).graph, c)
  }

  ghost predicate LicensedUnderOverlap(s: State, c: string, k: nat) {
    forall actions :: Overlap(Server(s, []), actions, c, k) ==>
      PathLicensed(s.rules, PathOf(Serve(Server(s, []), actions).graph, c))
  }

  ghost predicate HighAloneUnderOverlap(s: State, c: string, k: nat) {
    forall actions :: Overlap(Server(s, []), actions, c, k) ==>
      HighAlone(PathOf(Serve(Server(s, []), actions).graph, c))
  }

  /**
   The path rules together survive an overlap of `k` exactly when requests do not
   overlap at all or the policy opens no path: two at a time already pass the
   length limit.
   */
  lemma SafeExactlyWithoutOverlap(s: State, c: string, k: nat)
    requires PathOf(s, c) == []
    ensures SafeUnderOverlap(s, c, k) <==> k <= 1 || !Opens(s, c)
  {
    if k <= 1 || !Opens(s, c) {
      forall actions | Overlap(Server(s, []), actions, c, k) ensures Safe(Serve(Server(s, []), actions).graph, c) {
        WithoutOverlapSafe(s, actions, c, k);
      }
    } else {
      var actions := OverlapBoundIsReached(s, c, PolicyOf(s, c).value, k);
      ConfigStays(Server(s, []), actions);
      assert !Safe(Serve(Server(s, []), actions).graph, c);
    }
  }

  predicate AllLicensed(rules: seq<Rule>) {
    forall a: Tool, b: Tool :: a != b ==> Licensed(rules, a, b)
  }

  /**
   Every change of tool stays licensed under an overlap of `k` exactly when
   requests do not overlap, the policy opens no path, or the rules license every
   change of tool there is.
   */
  lemma LicensingSurvivesExactly(s: State, c: string, k: nat)
    requires PathOf(s, c) == []
    ensures LicensedUnderOverlap(s, c, k) <==> k <= 1 || !Opens(s, c) || AllLicensed(s.rules)
  {
    if k <= 1 || !Opens(s, c) || AllLicensed(s.rules) {
      forall actions | Overlap(Server(s, []), actions, c, k)
        ensures PathLicensed(s.rules, PathOf(Serve(Server(s, []), actions).graph, c))
      {
        if !AllLicensed(s.rules) { WithoutOverlapSafe(s, actions, c, k); }
      }
    } else {
      var a: Tool, b: Tool :| a != b && !Licensed(s.rules, a, b);
      var actions := TwoTogether(s, Request("", c, a, Low), Request("", c, b, Low));
      OverlapWeakens(Server(s, []), actions, c, 2, k);
      var path := PathOf(Serve(Server(s, []), actions).graph, c);
      assert path[1 - 1].tool == a && path[1].tool == b;
      assert !PathLicensed(s.rules, path);
    }
  }

  /**
   High-risk blocking survives an overlap of `k` exactly when requests do not
   overlap, the policy opens no path, or there is no such blocking to keep.
   */
  lemma HighRiskBlockingSurvivesExactly(s: State, c: string, k: nat)
    requires PathOf(s, c) == []
    ensures var blocks := PolicyOf(s, c).Some? && PolicyOf(s, c).value.blockOnHighRiskPath;
            (blocks ==> HighAloneUnderOverlap(s, c, k)) <==> k <= 1 || !Opens(s, c) || !blocks
  {
    var blocks := PolicyOf(s, c).Some? && PolicyOf(s, c).value.blockOnHighRiskPath;
    if k <= 1 || !Opens(s, c) {
      forall actions | blocks && Overlap(Server(s, []), actions, c, k)
        ensures HighAlone(PathOf(Serve(Server(s, []), actions).graph, c))
      {
        WithoutOverlapSafe(s, actions, c, k);
      }
    } else {
      var actions := TwoTogether(s, Request("", c, Search, High), Request("", c, Search, Low));
      OverlapWeakens(Server(s, []), actions, c, 2, k);
      assert !HighAlone(PathOf(Serve(Server(s, []), actions).graph, c));
    }
  }
}
