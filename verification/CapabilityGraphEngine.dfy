/** The engine of packages/core/src/capability-graph/engine.ts, with its maps. */
module CapabilityGraphEngine {
  import opened Capabilities
  import opened Wrappers
  import G = CapabilityGraph
  import opened CapabilityGraph

  datatype Error =
    | DuplicateNode(nodeId: nat)
    | DuplicateEdge(edgeId: nat)
    | UnknownSource(nodeId: nat)
    | UnknownTarget(nodeId: nat)
    | DuplicateRule(ruleId: string)
    | DuplicatePolicy(policyId: string)
    | CompartmentHasPolicy(compartmentId: string)

  class Engine {
    var nodes: seq<Node>
    var edges: seq<Edge>
    var transitionRules: seq<Rule>
    var isolationPolicies: map<string, Policy>
    var policyByCompartment: map<string, string>
    var paths: map<string, seq<PathEntry>>
    /** Every id in use is below this one, which the generator hands out next. */
    var issued: nat

    ghost function View(): State
      reads this
    {
      State(nodes, edges, transitionRules, isolationPolicies, policyByCompartment, paths, issued)
    }

    /** Edges run forward between existing nodes and chain exactly the paths. */
    ghost predicate Valid()
      reads this
    {
      GraphSound(View())
    }

    constructor ()
      ensures Valid() && View() == EMPTY
    {
      nodes, edges, transitionRules := [], [], [];
      isolationPolicies, policyByCompartment, paths, issued := map[], map[], map[], 0;
    }

    method FindNode(id: nat) returns (found: bool)
      ensures found <==> HasNode(nodes, id)
    {
      var i := 0;
      while i < |nodes|
        invariant 0 <= i <= |nodes|
        invariant forall j :: 0 <= j < i ==> nodes[j].id != id
      {
        if nodes[i].id == id { return true; }
        i := i + 1;
      }
      found := false;
    }

    method AddNode(node: Node) returns (r: Result<(), Error>)
      modifies this`nodes, this`issued
      ensures r.Failure? <==> HasNode(old(nodes), node.id)
      ensures r.Failure? ==> View() == old(View())
      ensures r.Success? ==> nodes == old(nodes) + [node]
      ensures r.Success? ==> issued == if node.id < old(issued) then old(issued) else node.id + 1
    {
      var found := FindNode(node.id);
      if found { return Failure(DuplicateNode(node.id)); }
      nodes := nodes + [node];
      if node.id >= issued { issued := node.id + 1; }
      r := Success(());
    }

    /** Refuses a known edge id and unknown ends, in that order. */
    method AddEdge(edge: Edge) returns (r: Result<(), Error>)
      modifies this`edges, this`issued
      ensures r.Success? <==> (forall i :: 0 <= i < |old(edges)| ==> old(edges)[i].id != edge.id)
                              && HasNode(nodes, edge.from) && HasNode(nodes, edge.to)
      ensures r.Failure? ==> View() == old(View())
      ensures r.Success? ==> edges == old(edges) + [edge]
      ensures r.Success? ==> issued == if edge.id < old(issued) then old(issued) else edge.id + 1
    {
      var i := 0;
      while i < |edges|
        invariant 0 <= i <= |edges|
        invariant forall j :: 0 <= j < i ==> edges[j].id != edge.id
      {
        if edges[i].id == edge.id { return Failure(DuplicateEdge(edge.id)); }
        i := i + 1;
      }
      var source := FindNode(edge.from);
      if !source { return Failure(UnknownSource(edge.from)); }
      var target := FindNode(edge.to);
      if !target { return Failure(UnknownTarget(edge.to)); }
      edges := edges + [edge];
      if edge.id >= issued { issued := edge.id + 1; }
      r := Success(());
    }

    method CreateNode(kind: NodeKind, q: Request) returns (id: nat)
      modifies this`nodes, this`issued
      ensures View() == AddNodeOf(old(View()), kind, q) && id == old(issued)
    {
      id := issued;
      issued := issued + 1;
      nodes := nodes + [Node(id, kind, q)];
    }

    method CreateEdge(from: nat, to: nat, relation: Relation) returns (id: nat)
      modifies this`edges, this`issued
      ensures View() == AddEdgeOf(old(View()), from, to, relation) && id == old(issued)
    {
      id := issued;
      issued := issued + 1;
      edges := edges + [Edge(id, from, to, relation)];
    }

    /** A new node, linked from the last entry of the compartment's path; says which ids were made. */
    method AttachNode(q: Request, kind: NodeKind, relation: Relation) returns (nodeId: nat, edgeIds: seq<nat>)
      modifies this`nodes, this`edges, this`issued
      ensures View() == Attach(old(View()), q, kind, relation)
      ensures nodeId == old(issued)
      ensures edgeIds == if PathOf(old(View()), q.compartmentId) == [] then [] else [old(issued) + 1]
    {
      nodeId := CreateNode(kind, q);
      var path := if q.compartmentId in paths then paths[q.compartmentId] else [];
      edgeIds := [];
      if path != [] {
        var edgeId := CreateEdge(path[|path| - 1].nodeId, nodeId, relation);
        edgeIds := edgeIds + [edgeId];
      }
    }

    method RecordCapabilityRequest(q: Request) returns (nodeId: nat)
      requires Valid()
      modifies this
      ensures Valid() && View() == Grow(old(View()), q)
      ensures nodeId == old(issued)
    {
      GrowSound(View(), q);
      var edgeIds;
      nodeId, edgeIds := AttachNode(q, CapabilityNode, TransitionedTo);
      var path := if q.compartmentId in paths then paths[q.compartmentId] else [];
      path := path + [PathEntry(nodeId, q.tool, q.risk)];
      paths := paths[q.compartmentId := path];
    }

    method RecordTransition(q: Request) returns (d: Decision, relatedNodes: seq<nat>, relatedEdges: seq<nat>)
      requires Valid()
      modifies this
      ensures Valid() && View() == G.RecordTransition(old(View()), q)
      ensures d == G.EvaluatePath(old(View()), q)
      ensures relatedNodes == [old(issued)]
      ensures relatedEdges == if PathOf(old(View()), q.compartmentId) == [] then [] else [old(issued) + 1]
    {
      RecordTransitionSound(View(), q);
      d := EvaluatePath(q);
      var nodeId;
      if d.action == Allow || d.action == ForceRotation {
        nodeId, relatedEdges := AttachNode(q, CapabilityNode, TransitionedTo);
        var path := if q.compartmentId in paths then paths[q.compartmentId] else [];
        path := path + [PathEntry(nodeId, q.tool, q.risk)];
        paths := paths[q.compartmentId := path];
      } else if d.action == RequireApproval {
        nodeId, relatedEdges := AttachNode(q, ApprovalNode, Approved);
      } else {
        nodeId, relatedEdges := AttachNode(q, RequestNode, Blocked);
      }
      relatedNodes := [nodeId];
    }

    method FindEnabledRule(fromTool: Tool, toTool: Tool) returns (r: Option<Rule>)
      ensures r == FindRule(transitionRules, fromTool, toTool)
    {
      var i := 0;
      while i < |transitionRules|
        invariant 0 <= i <= |transitionRules|
        invariant FindRule(transitionRules, fromTool, toTool) == FindRule(transitionRules[i..], fromTool, toTool)
      {
        var rule := transitionRules[i];
        if rule.enabled && rule.fromTool == fromTool && rule.toTool == toTool { return Some(rule); }
        assert transitionRules[i..][1..] == transitionRules[i + 1..];
        i := i + 1;
      }
      r := None;
    }

    method PathRankFrom(path: seq<PathEntry>, start: nat) returns (rank: nat)
      ensures rank == MaxRank(path, start)
    {
      rank := start;
      var i := 0;
      while i < |path|
        invariant 0 <= i <= |path|
        invariant rank == MaxRank(path[..i], start)
      {
        assert path[..i + 1][..i] == path[..i];
        if Rank(path[i].risk) > rank { rank := Rank(path[i].risk); }
        i := i + 1;
      }
      assert path[..i] == path;
    }

    /** Read-only: the ten rules in order. */
    method EvaluatePath(q: Request) returns (d: Decision)
      ensures d == G.EvaluatePath(View(), q)
    {
      var known := q.compartmentId in policyByCompartment && policyByCompartment[q.compartmentId] != "";
      if !known || policyByCompartment[q.compartmentId] !in isolationPolicies { return NO_POLICY; }
      var policy := isolationPolicies[policyByCompartment[q.compartmentId]];
      if !policy.enabled { return NO_POLICY; }
      var path := if q.compartmentId in paths then paths[q.compartmentId] else [];
      var rank := PathRankFrom(path, Rank(q.risk));
      var pathRisk := PathRiskForRank(rank);
      if |path| + 1 > policy.maxPathLength { return Decision(Block, BlockedPath, TooLong); }
      if |path| == 0 { return Decision(Allow, pathRisk, FirstCapability); }
      var previous := path[|path| - 1];
      if previous.tool == q.tool {
        if policy.blockOnHighRiskPath && pathRisk == HighPath { return Decision(Block, BlockedPath, HighRiskPath); }
        return Decision(Allow, pathRisk, SameTool);
      }
      var rule := FindEnabledRule(previous.tool, q.tool);
      if rule.None? { return Decision(Block, BlockedPath, NoRule); }
      if policy.blockOnHighRiskPath && pathRisk == HighPath { return Decision(Block, BlockedPath, HighRiskPath); }
      if Rank(q.risk) > PathRank(rule.value.maxAllowedRisk) {
        var action := rule.value.actionOnViolation;
        return Decision(action, if action == Block then BlockedPath else pathRisk, ExceedsRule);
      }
      if policy.forbidCrossToolEscalation && Rank(q.risk) > Rank(previous.risk) {
        return Decision(ForceRotation, pathRisk, Escalation);
      }
      if policy.requireApprovalOnToolChange { return Decision(RequireApproval, pathRisk, ApprovalOnChange); }
      d := Decision(Allow, pathRisk, Permitted);
    }

    method RegisterTransitionRule(rule: Rule) returns (r: Result<(), Error>)
      requires Valid()
      modifies this`transitionRules
      ensures Valid() && View() == RegisterRule(old(View()), rule)
      ensures r.Failure? <==> HasRule(old(transitionRules), rule.id)
    {
      var i := 0;
      while i < |transitionRules|
        invariant 0 <= i <= |transitionRules|
        invariant forall j :: 0 <= j < i ==> transitionRules[j].id != rule.id
      {
        if transitionRules[i].id == rule.id { return Failure(DuplicateRule(rule.id)); }
        i := i + 1;
      }
      transitionRules := transitionRules + [rule];
      r := Success(());
    }

    method RegisterIsolationPolicy(policy: Policy) returns (r: Result<(), Error>)
      requires Valid()
      modifies this`isolationPolicies, this`policyByCompartment
      ensures Valid() && View() == RegisterPolicy(old(View()), policy)
      ensures r.Failure? <==> policy.id in old(isolationPolicies) || policy.compartmentId in old(policyByCompartment)
    {
      if policy.id in isolationPolicies { return Failure(DuplicatePolicy(policy.id)); }
      if policy.compartmentId in policyByCompartment { return Failure(CompartmentHasPolicy(policy.compartmentId)); }
      isolationPolicies := isolationPolicies[policy.id := policy];
      policyByCompartment := policyByCompartment[policy.compartmentId := policy.id];
      r := Success(());
    }
  }

  /** No id the server takes for an execution is in use, and the capability it links from exists. */
  lemma ExecutionFits(s: State, q: Request)
    requires GraphSound(s)
    ensures var grown := Grow(s, q);
            var nodes := grown.nodes + [Node(grown.issued, ExecutionNode, q)];
            && !HasNode(grown.nodes, grown.issued)
            && HasNode(nodes, s.issued) && HasNode(nodes, grown.issued)
            && forall i :: 0 <= i < |grown.edges| ==> grown.edges[i].id < grown.issued
  {
    var grown := Grow(s, q);
    GrowSound(s, q);
    HasNodeAppend(grown.nodes, Node(grown.issued, ExecutionNode, q), s.issued);
    HasNodeAppend(grown.nodes, Node(grown.issued, ExecutionNode, q), grown.issued);
  }

  /** The server's steps after a successful execution: no id clashes, so all three succeed. */
  method RecordExecution(engine: Engine, q: Request)
    requires engine.Valid()
    modifies engine
    ensures engine.Valid() && engine.View() == G.RecordExecution(old(engine.View()), q)
  {
    ExecutionFits(engine.View(), q);
    RecordExecutionSound(engine.View(), q);
    var capability := engine.RecordCapabilityRequest(q);
    var execution := Node(engine.issued, ExecutionNode, q);
    var added := engine.AddNode(execution);
    assert added.Success?;
    assert engine.View() == AddNodeOf(Grow(old(engine.View()), q), ExecutionNode, q);
    var linked := engine.AddEdge(Edge(engine.issued, capability, execution.id, Executed));
    assert linked.Success?;
  }
}
