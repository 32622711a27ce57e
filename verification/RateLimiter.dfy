/** The limiter of packages/core/src/adaptive-defense/rate-limiter.ts, with its lists and its window map. */
module RateLimiter {
  import opened Numbers
  import opened Wrappers
  import opened RateLimit

  datatype Error = DuplicatePolicyId(id: string)

  class CapabilityRateLimiter {
    var policies: seq<Policy>
    var blocks: seq<Block>
    var windows: Windows

    ghost function View(): State
      reads this
    {
      State(policies, blocks, windows)
    }

    ghost predicate Valid()
      reads this
    {
      DistinctIds(policies)
    }

    constructor ()
      ensures Valid() && View() == EMPTY
    {
      policies, blocks, windows := [], [], map[];
    }

    method RegisterPolicy(policy: Policy) returns (r: Result<(), Error>)
      requires Valid()
      modifies this`policies
      ensures Valid() && View() == Step(old(View()), Op.RegisterPolicy(policy))
      ensures r.Failure? <==> HasPolicy(old(policies), policy.id)
    {
      var i := 0;
      while i < |policies|
        invariant 0 <= i <= |policies|
        invariant forall j :: 0 <= j < i ==> policies[j].id != policy.id
      {
        if policies[i].id == policy.id {
          return Failure(DuplicatePolicyId(policy.id));
        }
        i := i + 1;
      }
      policies := policies + [policy];
      r := Success(());
    }

    method ClearPolicies()
      modifies this`policies, this`windows
      ensures Valid() && View() == Step(old(View()), Op.ClearPolicies)
    {
      policies, windows := [], map[];
    }

    method ActiveBlockFor(input: Input) returns (b: Option<Block>)
      ensures b == FirstBlock(blocks, input)
    {
      var i := 0;
      while i < |blocks|
        invariant 0 <= i <= |blocks|
        invariant FirstBlock(blocks, input) == FirstBlock(blocks[i..], input)
      {
        if BlockApplies(blocks[i], input) {
          return Some(blocks[i]);
        }
        assert blocks[i..][1..] == blocks[i + 1..];
        i := i + 1;
      }
      b := None;
    }

    /** The part of a bucket at or after the window start. */
    static method Prune(bucket: seq<int>, start: int) returns (pruned: seq<int>)
      ensures pruned == Since(bucket, start)
    {
      pruned := [];
      var i := 0;
      while i < |bucket|
        invariant 0 <= i <= |bucket|
        invariant pruned == Since(bucket[..i], start)
      {
        assert bucket[..i + 1][..i] == bucket[..i];
        if bucket[i] >= start { pruned := pruned + [bucket[i]]; }
        i := i + 1;
      }
      assert bucket[..i] == bucket;
    }

    /** Records the request in the window of every policy that applies. */
    method RecordInWindows(input: Input) returns (evaluations: seq<Evaluation>)
      requires Valid()
      modifies this`windows
      ensures windows == RecordAll(policies, old(windows), input)
      ensures evaluations == Evaluations(policies, old(windows), input)
    {
      evaluations := [];
      var i := 0;
      while i < |policies|
        invariant 0 <= i <= |policies|
        invariant windows == RecordAll(policies[..i], old(windows), input)
        invariant evaluations == Evaluations(policies[..i], old(windows), input)
      {
        var policy := policies[i];
        assert policies[..i + 1][..i] == policies[..i];
        if policy.enabled {
          var scopeKey := ScopeKeyOf(policy.scope, input);
          if scopeKey.Some? {
            var key := Key(policy.id, scopeKey.value);
            RecordAllElsewhere(policies[..i], old(windows), input, key);
            var pruned := Prune(if key in windows then windows[key] else [], input.timestamp - policy.windowMs);
            pruned := pruned + [input.timestamp];
            windows := windows[key := pruned];
            var remaining := Max(0, policy.maxRequests - |pruned|);
            evaluations := evaluations + [Evaluation(policy, |pruned|, remaining, pruned[0] + policy.windowMs)];
          }
        }
        i := i + 1;
      }
      assert policies[..i] == policies;
    }

    static method FindTriggered(evaluations: seq<Evaluation>) returns (e: Option<Evaluation>)
      ensures e == FirstOver(evaluations)
    {
      var i := 0;
      while i < |evaluations|
        invariant 0 <= i <= |evaluations|
        invariant FirstOver(evaluations[..i]).None?
      {
        assert evaluations[..i + 1][..i] == evaluations[..i];
        if evaluations[i].count > evaluations[i].policy.maxRequests {
          FirstOverOfPrefix(evaluations, i + 1);
          return Some(evaluations[i]);
        }
        i := i + 1;
      }
      assert evaluations[..i] == evaluations;
      e := None;
    }

    method Evaluate(input: Input) returns (d: Decision)
      requires Valid()
      modifies this`windows
      ensures Valid() && View() == AfterEvaluate(old(View()), input)
      ensures d == Decide(old(View()), input)
    {
      var block := ActiveBlockFor(input);
      if block.Some? {
        return Decision(TemporaryBlock, 0, block.value.expiresAt,
                        Some(Max(0, block.value.expiresAt - input.timestamp)), LiveBlock(block.value.id));
      }
      var evaluations := RecordInWindows(input);
      var triggered := FindTriggered(evaluations);
      if triggered.Some? {
        var policy := triggered.value.policy;
        d := Decision(policy.action, 0, triggered.value.resetAt, None, Exceeded(policy.id));
        if policy.action == Cooldown || policy.action == TemporaryBlock {
          d := d.(retryAfterMs := Some(Max(0, triggered.value.resetAt - input.timestamp)));
        }
        return;
      }
      if |evaluations| == 0 {
        return Decision(Allow, UNCONSTRAINED_REMAINING, input.timestamp, None, NoPolicyApplies);
      }
      var tightest := evaluations[0];
      var i := 1;
      while i < |evaluations|
        invariant 1 <= i <= |evaluations|
        invariant tightest == Tightest(evaluations[..i])
      {
        assert evaluations[..i + 1][..i] == evaluations[..i];
        if evaluations[i].remaining < tightest.remaining { tightest := evaluations[i]; }
        i := i + 1;
      }
      assert evaluations[..i] == evaluations;
      d := Decision(Allow, tightest.remaining, tightest.resetAt, None, WithinLimits);
    }

    method RegisterTemporaryBlock(block: Block)
      requires Valid()
      modifies this`blocks
      ensures Valid() && View() == Step(old(View()), RegisterBlock(block))
    {
      blocks := blocks + [block];
    }

    /** Walks the list backwards and splices expired blocks out of it. */
    method ClearExpiredBlocks(now: int) returns (removed: nat)
      requires Valid()
      modifies this`blocks
      ensures Valid() && View() == Step(old(View()), ClearExpired(now))
      ensures removed == |old(blocks)| - |blocks|
    {
      removed := 0;
      ghost var all := blocks;
      var i := |blocks| - 1;
      while i >= 0
        invariant -1 <= i < |all| && i < |blocks|
        invariant blocks == all[..i + 1] + LiveBlocks(all[i + 1..], now)
        invariant removed == |all| - |blocks|
      {
        SpliceOne(all, i, now);
        if blocks[i].expiresAt <= now {
          blocks := blocks[..i] + blocks[i + 1..];
          removed := removed + 1;
        }
        i := i - 1;
      }
      assert all[0..] == all;
    }

    method ClearTemporaryBlocks()
      requires Valid()
      modifies this`blocks
      ensures Valid() && View() == Step(old(View()), Op.ClearBlocks)
    {
      blocks := [];
    }
  }

  /** One turn of the backward walk. */
  lemma SpliceOne(all: seq<Block>, i: nat, now: int)
    requires i < |all|
    ensures var before := all[..i + 1] + LiveBlocks(all[i + 1..], now);
            var after := all[..i] + LiveBlocks(all[i..], now);
            && before[i] == all[i]
            && after == if all[i].expiresAt <= now then before[..i] + before[i + 1..] else before
  {
    assert all[i..][1..] == all[i + 1..];
    assert all[..i + 1] == all[..i] + [all[i]];
  }

  lemma {:induction false} FirstOverOfPrefix(es: seq<Evaluation>, n: nat)
    requires n <= |es| && FirstOver(es[..n]).Some?
    ensures FirstOver(es) == FirstOver(es[..n])
    decreases |es| - n
  {
    if n == |es| {
      assert es[..n] == es;
    } else {
      assert es[..n + 1][..n] == es[..n];
      FirstOverOfPrefix(es, n + 1);
    }
  }
}
