/**
 Capability policies, read in two ways: compiled to an ordered rule list of which
 the first match decides (apps/grl-server/src/runtime-factory.ts and
 packages/policy-engine/src/index.ts), and looked up directly
 (packages/core/src/policy-engine). When the two agree, and when not.
 */
module Firewall {
  import opened Capabilities
  import opened Wrappers

  datatype Transport = Direct | Tor | Proxy

  datatype Policy = Policy(
    agentId: string,
    compartmentId: string,
    allowedTools: seq<Tool>,
    maxRisk: Risk,
    confirmAbove: Option<Risk>)

  /** A tool or risk level outside the known vocabulary reads as `None`. */
  datatype Request = Request(
    agentId: string,
    compartmentId: string,
    tool: Option<Tool>,
    risk: Option<Risk>,
    transport: Option<Transport>)

  datatype Effect = AllowEffect | DenyEffect
  datatype Rule = Rule(
    effect: Effect,
    agentId: string,
    compartment: string,
    tool: Tool,
    exactRisk: Option<Risk>,
    maxRisk: Option<Risk>,
    transport: Option<Transport>,
    requiresConfirmation: bool)

  datatype Reason =
    | NoMatch | ExplicitDeny | TransportMismatch | AllowedByRule
    | Malformed | UnknownTool | InvalidRisk | NoPolicy | ToolNotPermitted | RiskTooHigh
    | InputRejected | AllowedByPolicy

  datatype Decision = Decision(allowed: bool, requiresConfirmation: bool, transport: Option<Transport>, reason: Reason)

  function Rank(r: Risk): nat {
    match r case Low => 0 case Medium => 1 case High => 2
  }

  // ---- First match over rules -------------------------------------------------

  /** Comparing an unknown risk level is never true. */
  predicate RiskMatches(rule: Rule, risk: Option<Risk>) {
    if rule.exactRisk.Some? then rule.exactRisk == risk
    else if rule.maxRisk.Some? then risk.Some? && Rank(risk.value) <= Rank(rule.maxRisk.value)
    else true
  }

  predicate RuleMatches(rule: Rule, q: Request) {
    && rule.agentId == q.agentId && rule.compartment == q.compartmentId
    && Some(rule.tool) == q.tool && RiskMatches(rule, q.risk)
  }

  function FirstMatch(rules: seq<Rule>, q: Request): (r: Option<Rule>)
    ensures r.Some? ==> RuleMatches(r.value, q)
  {
    if rules == [] then None else if RuleMatches(rules[0], q) then Some(rules[0]) else FirstMatch(rules[1..], q)
  }

  function EvaluateRules(rules: seq<Rule>, q: Request): Decision {
    match FirstMatch(rules, q)
    case None => Decision(false, false, None, NoMatch)
    case Some(rule) =>
      var transport := if rule.transport.Some? then rule.transport.value else Direct;
      if rule.effect == DenyEffect then Decision(false, false, Some(transport), ExplicitDeny)
      else if q.transport.Some? && q.transport.value != transport then
        Decision(false, false, Some(transport), TransportMismatch)
      else Decision(true, rule.requiresConfirmation, Some(transport), AllowedByRule)
  }

  /** The rule that decides: the first to match. */
  predicate DecidedBy(rules: seq<Rule>, q: Request, i: nat) {
    i < |rules| && RuleMatches(rules[i], q) && forall j :: 0 <= j < i ==> !RuleMatches(rules[j], q)
  }

  lemma {:induction false} FirstMatchIsFirst(rules: seq<Rule>, q: Request)
    ensures (forall i :: 0 <= i < |rules| ==> !RuleMatches(rules[i], q)) ==> FirstMatch(rules, q).None?
    ensures forall i: nat :: DecidedBy(rules, q, i) ==> FirstMatch(rules, q) == Some(rules[i])
  {
    if rules == [] {
    } else {
      FirstMatchIsFirst(rules[1..], q);
      forall i: nat | DecidedBy(rules, q, i) ensures FirstMatch(rules, q) == Some(rules[i]) {
        if i > 0 { assert DecidedBy(rules[1..], q, i - 1); }
      }
    }
  }

  /** A rule names the agent, the compartment and the tool, and one risk level, a highest one or any. */
  lemma MatchExactly(rule: Rule, q: Request)
    ensures RuleMatches(rule, q)
            <==> rule.agentId == q.agentId && rule.compartment == q.compartmentId && q.tool == Some(rule.tool)
                 && (rule.exactRisk.Some? ==> q.risk == rule.exactRisk)
                 && (rule.exactRisk.None? && rule.maxRisk.Some? ==>
                       q.risk.Some? && (q.risk == rule.maxRisk || q.risk == Some(Low) || rule.maxRisk == Some(High)))
  {
  }

  /**
   The verdict of any list of rules: without a match it is a refusal with no
   transport; else the first match decides, and allows exactly if it is no denial
   and the request asserts no transport but the rule's own, direct if it names none.
   */
  lemma RulesVerdict(rules: seq<Rule>, q: Request, i: nat)
    ensures (forall j :: 0 <= j < |rules| ==> !RuleMatches(rules[j], q)) ==>
              EvaluateRules(rules, q) == Decision(false, false, None, NoMatch)
    ensures DecidedBy(rules, q, i) ==>
              var d, rule := EvaluateRules(rules, q), rules[i];
              && d.transport == (if rule.transport.Some? then rule.transport else Some(Direct))
              && (d.allowed <==> rule.effect == AllowEffect && (q.transport.None? || q.transport == d.transport))
              && (d.requiresConfirmation <==> d.allowed && rule.requiresConfirmation)
              && (d.reason == ExplicitDeny <==> rule.effect == DenyEffect)
              && (d.reason == TransportMismatch <==> rule.effect == AllowEffect && !d.allowed)
              && (d.reason == AllowedByRule <==> d.allowed)
  {
    FirstMatchIsFirst(rules, q);
  }

  // ---- Compilation ------------------------------------------------------------

  function RuleFor(p: Policy, tool: Tool): Rule {
    Rule(AllowEffect, p.agentId, p.compartmentId, tool, None, Some(p.maxRisk), Some(Direct), p.confirmAbove.Some?)
  }

  function RulesFor(p: Policy, tools: seq<Tool>): seq<Rule> {
    if tools == [] then [] else RulesFor(p, tools[..|tools| - 1]) + [RuleFor(p, tools[|tools| - 1])]
  }

  function Compile(policies: seq<Policy>): seq<Rule> {
    if policies == [] then []
    else
      var last := policies[|policies| - 1];
      Compile(policies[..|policies| - 1]) + RulesFor(last, last.allowedTools)
  }

  /** The policy covers the agent, the compartment, the tool and the risk of a request. */
  predicate Covers(p: Policy, q: Request) {
    && p.agentId == q.agentId && p.compartmentId == q.compartmentId
    && q.tool.Some? && q.tool.value in p.allowedTools
    && q.risk.Some? && Rank(q.risk.value) <= Rank(p.maxRisk)
  }

  predicate Covered(policies: seq<Policy>, q: Request) {
    exists i :: 0 <= i < |policies| && Covers(policies[i], q)
  }

  /** The first policy to cover a request. */
  predicate FirstCovering(policies: seq<Policy>, q: Request, i: nat) {
    i < |policies| && Covers(policies[i], q) && forall j :: 0 <= j < i ==> !Covers(policies[j], q)
  }

  lemma {:induction false} FirstMatchConcat(a: seq<Rule>, b: seq<Rule>, q: Request)
    ensures FirstMatch(a + b, q) == if FirstMatch(a, q).Some? then FirstMatch(a, q) else FirstMatch(b, q)
  {
    if a == [] {
      assert a + b == b;
    } else {
      assert (a + b)[1..] == a[1..] + b;
      FirstMatchConcat(a[1..], b, q);
    }
  }

  lemma {:induction false} FirstMatchOfPolicy(p: Policy, tools: seq<Tool>, q: Request)
    ensures FirstMatch(RulesFor(p, tools), q)
            == if Covers(p.(allowedTools := tools), q) then Some(RuleFor(p, q.tool.value)) else None
  {
    if tools == [] {
    } else {
      var init, last := tools[..|tools| - 1], tools[|tools| - 1];
      FirstMatchOfPolicy(p, init, q);
      FirstMatchConcat(RulesFor(p, init), [RuleFor(p, last)], q);
      assert forall t :: t in tools <==> t in init || t == last;
      assert [RuleFor(p, last)][1..] == [];
    }
  }

  lemma CoveredAppended(policies: seq<Policy>, p: Policy, q: Request)
    ensures Covered(policies + [p], q) <==> Covered(policies, q) || Covers(p, q)
  {
    var all := policies + [p];
    assert all[|policies|] == p;
    if Covered(policies, q) {
      var k :| 0 <= k < |policies| && Covers(policies[k], q);
      assert all[k] == policies[k];
    }
  }

  lemma FirstCoveringAppended(policies: seq<Policy>, p: Policy, q: Request, i: nat)
    requires FirstCovering(policies + [p], q, i)
    ensures if i < |policies| then FirstCovering(policies, q, i) else !Covered(policies, q) && Covers(p, q)
  {
    var all := policies + [p];
    assert forall k :: 0 <= k < |policies| ==> policies[k] == all[k];
  }

  /** The compiled list's first match is the rule of the first covering policy. */
  lemma {:induction false} FirstMatchOfCompiled(policies: seq<Policy>, q: Request)
    ensures FirstMatch(Compile(policies), q).Some? <==> Covered(policies, q)
    ensures forall i: nat :: FirstCovering(policies, q, i) ==>
              FirstMatch(Compile(policies), q) == Some(RuleFor(policies[i], q.tool.value))
  {
    if policies == [] {
    } else {
      var init, last := policies[..|policies| - 1], policies[|policies| - 1];
      assert policies == init + [last];
      FirstMatchOfCompiled(init, q);
      FirstMatchConcat(Compile(init), RulesFor(last, last.allowedTools), q);
      FirstMatchOfPolicy(last, last.allowedTools, q);
      CoveredAppended(init, last, q);
      forall i: nat | FirstCovering(policies, q, i)
        ensures FirstMatch(Compile(policies), q) == Some(RuleFor(policies[i], q.tool.value))
      {
        FirstCoveringAppended(init, last, q, i);
        if i < |init| { assert Covers(init[i], q); }
      }
    }
  }

  /**
   Compiled policies allow a request exactly when some policy covers it and it
   asserts no transport but the direct one; confirmation is asked for exactly
   when the first covering policy names a threshold, whatever the risk.
   */
  lemma CompiledVerdict(policies: seq<Policy>, q: Request)
    ensures var d := EvaluateRules(Compile(policies), q);
            && (d.allowed <==> Covered(policies, q) && (q.transport.None? || q.transport == Some(Direct)))
            && (forall i: nat :: FirstCovering(policies, q, i) && d.allowed ==>
                  (d.requiresConfirmation <==> policies[i].confirmAbove.Some?))
  {
    FirstMatchOfCompiled(policies, q);
    if Covered(policies, q) {
      var i := FirstCoveringIndex(policies, q);
    }
  }

  lemma {:induction false} FirstCoveringIndex(policies: seq<Policy>, q: Request) returns (i: nat)
    requires Covered(policies, q)
    ensures FirstCovering(policies, q, i)
  {
    if Covers(policies[0], q) {
      i := 0;
    } else {
      var k :| 0 <= k < |policies| && Covers(policies[k], q);
      assert Covers(policies[1..][k - 1], q);
      var rest := FirstCoveringIndex(policies[1..], q);
      i := rest + 1;
      forall j | 0 <= j < i ensures !Covers(policies[j], q) {
        if j > 0 { assert policies[j] == policies[1..][j - 1]; }
      }
    }
  }

  // ---- The direct evaluator ---------------------------------------------------

  type Key = (string, string)
  type Store = map<Key, Policy>

  function KeyOf(p: Policy): Key {
    (p.agentId, p.compartmentId)
  }

  /** Adding policies one by one stops at the first pair that is taken. */
  function StoreOf(policies: seq<Policy>): Result<Store, Key> {
    if policies == [] then Success(map[])
    else
      match StoreOf(policies[..|policies| - 1])
      case Failure(k) => Failure(k)
      case Success(store) =>
        var last := policies[|policies| - 1];
        if KeyOf(last) in store then Failure(KeyOf(last)) else Success(store[KeyOf(last) := last])
  }

  predicate OnePerPair(policies: seq<Policy>) {
    forall i, j :: 0 <= i < j < |policies| ==> KeyOf(policies[i]) != KeyOf(policies[j])
  }

  predicate Holds(store: Store, policies: seq<Policy>) {
    && (forall i :: 0 <= i < |policies| ==> KeyOf(policies[i]) in store && store[KeyOf(policies[i])] == policies[i])
    && (forall k :: k in store ==>
          exists i :: 0 <= i < |policies| && policies[i] == store[k] && KeyOf(policies[i]) == k)
  }

  lemma HoldsAdded(store: Store, policies: seq<Policy>, p: Policy)
    requires Holds(store, policies) && KeyOf(p) !in store
    ensures Holds(store[KeyOf(p) := p], policies + [p])
  {
    var store', policies' := store[KeyOf(p) := p], policies + [p];
    forall k | k in store'
      ensures exists i :: 0 <= i < |policies'| && policies'[i] == store'[k] && KeyOf(policies'[i]) == k
    {
      if k == KeyOf(p) {
        assert policies'[|policies|] == store'[k];
      } else {
        var i :| 0 <= i < |policies| && policies[i] == store[k] && KeyOf(policies[i]) == k;
        assert policies'[i] == store'[k];
      }
    }
  }

  lemma OnePerPairAdded(store: Store, policies: seq<Policy>, p: Policy)
    requires Holds(store, policies)
    ensures OnePerPair(policies + [p]) <==> OnePerPair(policies) && KeyOf(p) !in store
  {
    var policies' := policies + [p];
    if OnePerPair(policies') {
      forall i, j | 0 <= i < j < |policies| ensures KeyOf(policies[i]) != KeyOf(policies[j]) {
        assert KeyOf(policies'[i]) != KeyOf(policies'[j]);
      }
    }
    if KeyOf(p) in store {
      var i :| 0 <= i < |policies| && policies[i] == store[KeyOf(p)] && KeyOf(policies[i]) == KeyOf(p);
      assert KeyOf(policies'[i]) == KeyOf(policies'[|policies|]);
    }
  }

  lemma PrefixOnePerPair(policies: seq<Policy>, p: Policy)
    requires !OnePerPair(policies)
    ensures !OnePerPair(policies + [p])
  {
    var i, j :| 0 <= i < j < |policies| && KeyOf(policies[i]) == KeyOf(policies[j]);
    assert KeyOf((policies + [p])[i]) == KeyOf((policies + [p])[j]);
  }

  /** A store accepts a list of policies exactly when no pair has two, and then holds each. */
  lemma {:induction false} StoreAcceptsExactly(policies: seq<Policy>)
    ensures StoreOf(policies).Success? <==> OnePerPair(policies)
    ensures StoreOf(policies).Success? ==> Holds(StoreOf(policies).value, policies)
  {
    if policies == [] {
    } else {
      var init, last := policies[..|policies| - 1], policies[|policies| - 1];
      assert policies == init + [last];
      StoreAcceptsExactly(init);
      if StoreOf(init).Success? {
        OnePerPairAdded(StoreOf(init).value, init, last);
        if KeyOf(last) !in StoreOf(init).value { HoldsAdded(StoreOf(init).value, init, last); }
      } else {
        PrefixOnePerPair(init, last);
      }
    }
  }

  /** The characters String.prototype.trim removes. */
  predicate IsSpace(c: char) {
    var n := c as int;
    0x09 <= n <= 0x0D || n == 0x20 || n == 0xA0 || n == 0x1680 || 0x2000 <= n <= 0x200A
    || n == 0x2028 || n == 0x2029 || n == 0x202F || n == 0x205F || n == 0x3000 || n == 0xFEFF
  }

  predicate NonEmpty(s: string) {
    exists i :: 0 <= i < |s| && !IsSpace(s[i])
  }

  function Refuse(reason: Reason): Decision {
    Decision(false, false, None, reason)
  }

  /** `sanitized` is the answer of the input sanitizer, which is not part of this model. */
  function EvaluateDirect(store: Store, q: Request, sanitized: bool): Decision {
    if !NonEmpty(q.agentId) then Refuse(Malformed)
    else if !NonEmpty(q.compartmentId) then Refuse(Malformed)
    else if q.tool.None? then Refuse(UnknownTool)
    else if q.risk.None? then Refuse(InvalidRisk)
    else if (q.agentId, q.compartmentId) !in store then Refuse(NoPolicy)
    else
      var p := store[(q.agentId, q.compartmentId)];
      if q.tool.value !in p.allowedTools then Refuse(ToolNotPermitted)
      else if Rank(q.risk.value) > Rank(p.maxRisk) then Refuse(RiskTooHigh)
      else if !sanitized then Refuse(InputRejected)
      else
        var confirm := p.confirmAbove.Some? && Rank(q.risk.value) > Rank(p.confirmAbove.value);
        Decision(true, confirm, None, AllowedByPolicy)
  }

  predicate WellFormed(q: Request) {
    NonEmpty(q.agentId) && NonEmpty(q.compartmentId) && q.tool.Some? && q.risk.Some?
  }

  /** Exactly the strings of nothing but these code points are empty when trimmed. */
  lemma BlankExactly(s: string)
    ensures NonEmpty(s)
            <==> exists i :: 0 <= i < |s| && s[i] as int !in
                   {9, 10, 11, 12, 13, 32, 160, 5760, 8192, 8193, 8194, 8195, 8196, 8197, 8198, 8199, 8200, 8201,
                    8202, 8232, 8233, 8239, 8287, 12288, 65279}
  {
  }

  /** The policy of the pair a request names. */
  predicate IsPolicyFor(p: Policy, q: Request) {
    p.agentId == q.agentId && p.compartmentId == q.compartmentId
  }

  lemma LookupExactly(policies: seq<Policy>, q: Request)
    requires StoreOf(policies).Success?
    ensures var store, k := StoreOf(policies).value, (q.agentId, q.compartmentId);
            && (k in store <==> exists i :: 0 <= i < |policies| && IsPolicyFor(policies[i], q))
            && forall i :: 0 <= i < |policies| && IsPolicyFor(policies[i], q) ==> k in store && store[k] == policies[i]
  {
    StoreAcceptsExactly(policies);
    var store, k := StoreOf(policies).value, (q.agentId, q.compartmentId);
    assert forall p :: IsPolicyFor(p, q) <==> KeyOf(p) == k;
    if k in store {
      var i :| 0 <= i < |policies| && policies[i] == store[k] && KeyOf(policies[i]) == k;
      assert IsPolicyFor(policies[i], q);
    }
  }

  /**
   The direct verdict against the policy of the pair: each refusal exactly in its
   case, and confirmation exactly for an allowed request above the threshold.
   */
  lemma DirectReasonExactly(policies: seq<Policy>, q: Request, sanitized: bool, i: nat)
    requires StoreOf(policies).Success?
    ensures var d := EvaluateDirect(StoreOf(policies).value, q, sanitized);
            && d.transport.None?
            && (d.reason == Malformed <==> !NonEmpty(q.agentId) || !NonEmpty(q.compartmentId))
            && (d.reason == UnknownTool <==> NonEmpty(q.agentId) && NonEmpty(q.compartmentId) && q.tool.None?)
            && (d.reason == InvalidRisk <==>
                  NonEmpty(q.agentId) && NonEmpty(q.compartmentId) && q.tool.Some? && q.risk.None?)
            && (d.reason == NoPolicy <==>
                  WellFormed(q) && forall j :: 0 <= j < |policies| ==> !IsPolicyFor(policies[j], q))
    ensures WellFormed(q) && i < |policies| && IsPolicyFor(policies[i], q) ==>
              var d, p := EvaluateDirect(StoreOf(policies).value, q, sanitized), policies[i];
              && (d.reason == ToolNotPermitted <==> q.tool.value !in p.allowedTools)
              && (d.reason == RiskTooHigh <==> q.tool.value in p.allowedTools && !Covers(p, q))
              && (d.reason == InputRejected <==> Covers(p, q) && !sanitized)
              && (d.reason == AllowedByPolicy <==> d.allowed)
              && (d.allowed <==> Covers(p, q) && sanitized)
              && (d.requiresConfirmation <==>
                    d.allowed && p.confirmAbove.Some? && q.risk.value != p.confirmAbove.value
                    && (q.risk.value == High || p.confirmAbove.value == Low))
    ensures var d := EvaluateDirect(StoreOf(policies).value, q, sanitized);
            d.requiresConfirmation ==> d.allowed
  {
    LookupExactly(policies, q);
  }

  lemma DirectVerdict(policies: seq<Policy>, q: Request, sanitized: bool)
    requires StoreOf(policies).Success?
    ensures EvaluateDirect(StoreOf(policies).value, q, sanitized).allowed
            <==> WellFormed(q) && Covered(policies, q) && sanitized
  {
    LookupExactly(policies, q);
    if Covered(policies, q) {
      var i :| 0 <= i < |policies| && Covers(policies[i], q);
      assert IsPolicyFor(policies[i], q);
    }
  }

  /**
   With one policy per pair, no asserted transport and accepted input, the two
   evaluators give the same verdict exactly when the request is well formed or
   no policy covers it.
   */
  lemma VerdictsAgreeExactly(policies: seq<Policy>, q: Request)
    requires StoreOf(policies).Success? && q.transport.None?
    ensures EvaluateRules(Compile(policies), q).allowed == EvaluateDirect(StoreOf(policies).value, q, true).allowed
            <==> WellFormed(q) || !Covered(policies, q)
  {
    CompiledVerdict(policies, q);
    DirectVerdict(policies, q, true);
  }

  /**
   Confirmation is another matter: the compiled rule asks whenever a threshold is
   set, the direct evaluator only above it. They agree exactly when there is no
   threshold or the risk is above it.
   */
  lemma ConfirmationAgreesExactly(policies: seq<Policy>, q: Request, i: nat)
    requires StoreOf(policies).Success? && q.transport.None? && WellFormed(q)
    requires i < |policies| && Covers(policies[i], q)
    ensures EvaluateRules(Compile(policies), q).requiresConfirmation
            == EvaluateDirect(StoreOf(policies).value, q, true).requiresConfirmation
            <==> policies[i].confirmAbove.None? || Rank(q.risk.value) > Rank(policies[i].confirmAbove.value)
  {
    StoreAcceptsExactly(policies);
    CompiledVerdict(policies, q);
    assert FirstCovering(policies, q, i) by {
      forall j | 0 <= j < i ensures !Covers(policies[j], q) {
        assert KeyOf(policies[j]) != KeyOf(policies[i]);
      }
    }
    assert StoreOf(policies).value[KeyOf(policies[i])] == policies[i];
  }
}
