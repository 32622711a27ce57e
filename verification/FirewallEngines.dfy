/**
 The builder of apps/grl-server/src/runtime-factory.ts and the store of
 packages/core/src/policy-engine/policy-store.ts.
 */
module FirewallEngines {
  import opened Capabilities
  import opened Wrappers
  import opened Firewall

  method BuildFirewallFromConfig(policies: seq<Policy>) returns (rules: seq<Rule>)
    ensures rules == Compile(policies)
  {
    rules := [];
    var i := 0;
    while i < |policies|
      invariant 0 <= i <= |policies|
      invariant rules == Compile(policies[..i])
    {
      var policy := policies[i];
      assert policies[..i + 1][..i] == policies[..i];
      var requiresConfirmation := policy.confirmAbove.Some?;
      var j := 0;
      while j < |policy.allowedTools|
        invariant 0 <= j <= |policy.allowedTools|
        invariant rules == Compile(policies[..i]) + RulesFor(policy, policy.allowedTools[..j])
      {
        assert policy.allowedTools[..j + 1][..j] == policy.allowedTools[..j];
        rules := rules + [Rule(AllowEffect, policy.agentId, policy.compartmentId, policy.allowedTools[j],
                               None, Some(policy.maxRisk), Some(Direct), requiresConfirmation)];
        j := j + 1;
      }
      assert policy.allowedTools[..j] == policy.allowedTools;
      i := i + 1;
    }
    assert policies[..i] == policies;
  }

  class PolicyStore {
    var policies: Store

    /** Throws on the first collision; the result says which pair collided. */
    static method FromList(initial: seq<Policy>) returns (r: Result<PolicyStore, Key>)
      ensures r.Success? <==> StoreOf(initial).Success?
      ensures r.Success? ==> fresh(r.value) && r.value.policies == StoreOf(initial).value
      ensures r.Failure? ==> r.error == StoreOf(initial).error
    {
      var store := new PolicyStore();
      var i := 0;
      while i < |initial|
        invariant 0 <= i <= |initial|
        invariant StoreOf(initial[..i]) == Success(store.policies)
      {
        assert initial[..i + 1][..i] == initial[..i];
        var added := store.Add(initial[i]);
        if added.Failure? {
          CollisionStays(initial, i + 1);
          return Failure(added.error);
        }
        i := i + 1;
      }
      assert initial[..i] == initial;
      r := Success(store);
    }

    constructor ()
      ensures policies == map[]
    {
      policies := map[];
    }

    method Add(p: Policy) returns (r: Result<(), Key>)
      modifies this
      ensures r == if KeyOf(p) in old(policies) then Failure(KeyOf(p)) else Success(())
      ensures policies == if r.Failure? then old(policies) else old(policies)[KeyOf(p) := p]
    {
      if KeyOf(p) in policies { return Failure(KeyOf(p)); }
      policies := policies[KeyOf(p) := p];
      r := Success(());
    }

    /** Adds or replaces. */
    method Set(p: Policy)
      modifies this
      ensures policies == old(policies)[KeyOf(p) := p]
    {
      policies := policies[KeyOf(p) := p];
    }
  }

  lemma {:induction false} CollisionStays(policies: seq<Policy>, n: nat)
    requires n <= |policies| && StoreOf(policies[..n]).Failure?
    ensures StoreOf(policies) == StoreOf(policies[..n])
    decreases |policies| - n
  {
    if n == |policies| {
      assert policies[..n] == policies;
    } else {
      assert policies[..n + 1][..n] == policies[..n];
      CollisionStays(policies, n + 1);
    }
  }
}
