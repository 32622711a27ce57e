/**
 The classes of packages/core/src/multi-agent that share one registry: the
 registry, the quota manager, the isolation engine and the lease manager.
 */
module AgentRuntime {
  import opened Numbers
  import opened Wrappers
  import M = MultiAgent
  import opened MultiAgent

  /** packages/core/src/multi-agent/registry.ts. */
  class AgentRegistry {
    var order: seq<string>
    var runtimes: map<string, Runtime>
    const defaultQuota: Quota

    ghost function View(): Registry
      reads this
    {
      Registry(order, runtimes)
    }

    /** Every agent is listed once. */
    ghost predicate Valid()
      reads this
    {
      Listed(View())
    }

    constructor (defaultQuota: Quota)
      ensures Valid() && this.defaultQuota == defaultQuota && View() == Registry([], map[])
    {
      this.defaultQuota := defaultQuota;
      order, runtimes := [], map[];
    }

    method RegisterAgent(a: string) returns (r: Runtime)
      requires Valid()
      modifies this
      ensures Valid() && View() == M.RegisterAgent(old(View()), a, defaultQuota)
      ensures a in runtimes && r == runtimes[a]
    {
      if a in runtimes { return runtimes[a]; }
      r := Runtime(Idle, [], INITIAL_TRUST, 0, 0, defaultQuota, None);
      order := order + [a];
      runtimes := runtimes[a := r];
    }

    method UpdateAgent(a: string, u: Updates) returns (r: Option<Runtime>)
      modifies this`runtimes
      ensures old(Valid()) ==> Valid()
      ensures View() == M.UpdateAgent(old(View()), a, u)
      ensures r == if a in runtimes then Some(runtimes[a]) else None
    {
      if a !in runtimes { return None; }
      var runtime := runtimes[a];
      if u.status.Some? { runtime := runtime.(status := u.status.value); }
      if u.compartments.Some? { runtime := runtime.(compartments := u.compartments.value); }
      if u.trust.Some? { runtime := runtime.(trust := Clamp(u.trust.value)); }
      if u.sessions.Some? { runtime := runtime.(sessions := Max(0, u.sessions.value)); }
      if u.executions.Some? { runtime := runtime.(executions := Max(0, u.executions.value)); }
      if u.lease.Some? { runtime := runtime.(lease := u.lease.value); }
      runtimes := runtimes[a := runtime];
      r := Some(runtime);
    }

    method EvictAgent(a: string)
      requires Valid()
      modifies this`runtimes
      ensures Valid() && View() == M.EvictAgent(old(View()), a)
    {
      if a !in runtimes { return; }
      var runtime := runtimes[a].(status := Evicted);
      runtime := runtime.(executions := 0, sessions := 0);
      runtime := runtime.(lease := None);
      runtimes := runtimes[a := runtime];
    }

    method RestrictAgent(a: string)
      requires Valid()
      modifies this`runtimes
      ensures Valid() && View() == BlockAgent(old(View()), a, Restricted)
    {
      if a !in runtimes || runtimes[a].status == Evicted { return; }
      runtimes := runtimes[a := runtimes[a].(status := Restricted)];
    }

    method QuarantineAgent(a: string)
      requires Valid()
      modifies this`runtimes
      ensures Valid() && View() == BlockAgent(old(View()), a, Quarantined)
    {
      if a !in runtimes || runtimes[a].status == Evicted { return; }
      runtimes := runtimes[a := runtimes[a].(status := Quarantined)];
    }

    method AddCompartment(a: string, c: string)
      requires Valid()
      modifies this`runtimes
      ensures Valid() && View() == M.AddCompartment(old(View()), a, c)
    {
      if a !in runtimes { return; }
      if c !in runtimes[a].compartments {
        runtimes := runtimes[a := runtimes[a].(compartments := runtimes[a].compartments + [c])];
      }
    }
  }

  /** packages/core/src/multi-agent/quotas.ts. */
  class AgentQuotaManager {
    const registry: AgentRegistry
    const violationsBeforeRestriction: int
    var violationCounts: map<string, int>

    constructor (registry: AgentRegistry, violationsBeforeRestriction: int)
      ensures this.registry == registry && this.violationsBeforeRestriction == violationsBeforeRestriction
      ensures violationCounts == map[]
    {
      this.registry, this.violationsBeforeRestriction := registry, violationsBeforeRestriction;
      violationCounts := map[];
    }

    method CanExecute(a: string) returns (can: bool)
      ensures can <==> M.CanExecute(registry.View(), a)
    {
      if a !in registry.runtimes { return false; }
      var runtime := registry.runtimes[a];
      if runtime.status == Evicted || runtime.status == Quarantined || runtime.status == Restricted { return false; }
      can := runtime.executions < runtime.quota.maxConcurrentExecutions;
    }

    method RecordExecutionStart(a: string)
      requires registry.Valid()
      modifies this, registry`runtimes
      ensures registry.Valid() && registry.View() == RecordStart(old(registry.View()), a)
      ensures violationCounts
              == if a in old(registry.runtimes) then old(violationCounts) - {a} else old(violationCounts)
    {
      if a !in registry.runtimes { return; }
      var runtime := registry.runtimes[a];
      var status := if runtime.status == Idle then Active else runtime.status;
      var _ := registry.UpdateAgent(a, NOTHING.(executions := Some(runtime.executions + 1), status := Some(status)));
      violationCounts := violationCounts - {a};
    }

    method RecordExecutionEnd(a: string)
      requires registry.Valid()
      modifies registry`runtimes
      ensures registry.Valid() && registry.View() == RecordEnd(old(registry.View()), a)
    {
      if a !in registry.runtimes { return; }
      var runtime := registry.runtimes[a];
      var left := Max(0, runtime.executions - 1);
      var status := if left == 0 && runtime.status == Active then Idle else runtime.status;
      var _ := registry.UpdateAgent(a, NOTHING.(executions := Some(left), status := Some(status)));
    }

    method RecordViolation(a: string) returns (restricted: bool)
      requires registry.Valid()
      modifies this, registry`runtimes
      ensures registry.Valid()
      ensures var count := (if a in old(violationCounts) then old(violationCounts)[a] else 0) + 1;
              restricted <==> count >= violationsBeforeRestriction
      ensures violationCounts == AfterViolation(old(violationCounts), a, violationsBeforeRestriction)
      ensures registry.View()
              == if restricted then BlockAgent(old(registry.View()), a, Restricted) else old(registry.View())
    {
      var count := (if a in violationCounts then violationCounts[a] else 0) + 1;
      violationCounts := violationCounts[a := count];
      if count >= violationsBeforeRestriction {
        registry.RestrictAgent(a);
        violationCounts := violationCounts - {a};
        return true;
      }
      restricted := false;
    }

    method CanCreateSession(a: string) returns (can: bool)
      ensures can <==> M.CanCreateSession(registry.View(), a)
    {
      if a !in registry.runtimes { return false; }
      var runtime := registry.runtimes[a];
      if runtime.status == Evicted || runtime.status == Quarantined || runtime.status == Restricted { return false; }
      can := runtime.sessions < runtime.quota.maxSessions;
    }

    method RecordSessionCreated(a: string)
      requires registry.Valid()
      modifies registry`runtimes
      ensures registry.Valid() && registry.View() == SessionCreated(old(registry.View()), a)
    {
      if a !in registry.runtimes { return; }
      var _ := registry.UpdateAgent(a, NOTHING.(sessions := Some(registry.runtimes[a].sessions + 1)));
    }

    method RecordSessionClosed(a: string)
      requires registry.Valid()
      modifies registry`runtimes
      ensures registry.Valid() && registry.View() == SessionClosed(old(registry.View()), a)
    {
      if a !in registry.runtimes { return; }
      var _ := registry.UpdateAgent(a, NOTHING.(sessions := Some(Max(0, registry.runtimes[a].sessions - 1))));
    }
  }

  /** packages/core/src/multi-agent/isolation.ts. */
  class IsolationEngine {
    const registry: AgentRegistry
    const quarantinedCompartmentThreshold: int

    constructor (registry: AgentRegistry, threshold: int)
      ensures this.registry == registry && quarantinedCompartmentThreshold == threshold
    {
      this.registry, quarantinedCompartmentThreshold := registry, threshold;
    }

    method CheckIsolation(a: string) returns (d: Isolation)
      requires registry.Valid()
      modifies registry`runtimes
      ensures registry.Valid() && registry.View() == M.CheckIsolation(old(registry.View()), a).0
      ensures d == M.CheckIsolation(old(registry.View()), a).1
    {
      if a !in registry.runtimes { return Isolation(false, false); }
      var runtime := registry.runtimes[a];
      if runtime.status == Evicted { return Isolation(false, false); }
      if runtime.status == Quarantined { return Isolation(false, false); }
      if runtime.status == Restricted { return Isolation(false, true); }
      if runtime.trust < QUARANTINED_BELOW {
        registry.QuarantineAgent(a);
        return Isolation(false, false);
      }
      if runtime.trust < RESTRICTED_BELOW {
        registry.RestrictAgent(a);
        return Isolation(false, true);
      }
      d := Isolation(true, false);
    }

    method PropagateCompartmentTrust(a: string, scores: map<string, real>)
      requires registry.Valid()
      modifies registry`runtimes
      ensures registry.Valid()
      ensures registry.View() == Propagate(old(registry.View()), a, scores, quarantinedCompartmentThreshold)
    {
      if a !in registry.runtimes || registry.runtimes[a].status == Evicted { return; }
      var runtime := registry.runtimes[a];
      var quarantinedCount, scoreSum, scoredCount := 0, 0.0, 0;
      var i := 0;
      while i < |runtime.compartments|
        invariant 0 <= i <= |runtime.compartments|
        invariant TallyOf(runtime.compartments[..i], scores) == Tally(scoreSum, scoredCount, quarantinedCount)
      {
        var c := runtime.compartments[i];
        assert runtime.compartments[..i + 1][..i] == runtime.compartments[..i];
        if c in scores {
          scoreSum := scoreSum + scores[c];
          scoredCount := scoredCount + 1;
          if scores[c] < QUARANTINED_BELOW { quarantinedCount := quarantinedCount + 1; }
        }
        i := i + 1;
      }
      assert runtime.compartments[..i] == runtime.compartments;
      var trust := if scoredCount > 0 then Round(scoreSum / (scoredCount as real)) as real else runtime.trust;
      var _ := registry.UpdateAgent(a, NOTHING.(trust := Some(trust)));
      if quarantinedCount >= quarantinedCompartmentThreshold {
        if runtime.status != Restricted && runtime.status != Quarantined { registry.RestrictAgent(a); }
      }
      if trust < QUARANTINED_BELOW { registry.QuarantineAgent(a); }
    }

    /** Returns the new score, or zero for an unknown agent. */
    method DegradeTrust(a: string, delta: real) returns (score: real)
      requires registry.Valid()
      modifies registry`runtimes
      ensures registry.Valid() && registry.View() == Degrade(old(registry.View()), a, delta)
      ensures score == if a !in old(registry.runtimes) then 0.0
                       else if old(registry.runtimes)[a].status == Evicted then old(registry.runtimes)[a].trust
                       else Degraded(old(registry.runtimes)[a], delta)
    {
      if a !in registry.runtimes { return 0.0; }
      var runtime := registry.runtimes[a];
      if runtime.status == Evicted { return runtime.trust; }
      score := runtime.trust - Abs(delta);
      if score < 0.0 { score := 0.0; }
      var _ := registry.UpdateAgent(a, NOTHING.(trust := Some(score)));
      if score < QUARANTINED_BELOW {
        registry.QuarantineAgent(a);
      } else if score < RESTRICTED_BELOW {
        if runtime.status != Quarantined { registry.RestrictAgent(a); }
      }
    }
  }

  /** `Expire` for the leases visited so far. */
  ghost function ExpireVisited(m: Leasing, seen: set<nat>, now: int): Leasing {
    var gone := VisitedHolders(m.leases, seen, now);
    Leasing(Detach(m.reg, gone), VisitedLeft(m.leases, seen, now), m.index - gone, m.issued)
  }

  ghost function VisitedHolders(leases: map<nat, Lease>, seen: set<nat>, now: int): set<string> {
    set id | id in leases && id in seen && leases[id].expiresAt <= now :: leases[id].holder
  }

  ghost function VisitedLeft(leases: map<nat, Lease>, seen: set<nat>, now: int): map<nat, Lease> {
    map id | id in leases && !(id in seen && leases[id].expiresAt <= now) :: leases[id]
  }

  lemma VisitedHoldersAdd(leases: map<nat, Lease>, seen: set<nat>, id: nat, now: int)
    requires id in leases
    ensures VisitedHolders(leases, seen + {id}, now)
            == VisitedHolders(leases, seen, now) + (if leases[id].expiresAt <= now then {leases[id].holder} else {})
  {
  }

  lemma VisitedLeftAdd(leases: map<nat, Lease>, seen: set<nat>, id: nat, now: int)
    requires id in leases
    ensures VisitedLeft(leases, seen + {id}, now)
            == if leases[id].expiresAt <= now then VisitedLeft(leases, seen, now) - {id}
               else VisitedLeft(leases, seen, now)
  {
  }

  lemma DetachOne(reg: Registry, gone: set<string>, a: string)
    ensures Detach(reg, gone + {a}) == M.UpdateAgent(Detach(reg, gone), a, NOTHING.(lease := Some(None)))
  {
  }

  lemma VisitOne(m: Leasing, seen: set<nat>, id: nat, now: int)
    requires id in m.leases
    ensures var before, after := ExpireVisited(m, seen, now), ExpireVisited(m, seen + {id}, now);
            var holder := m.leases[id].holder;
            after == if m.leases[id].expiresAt <= now
                     then Leasing(M.UpdateAgent(before.reg, holder, NOTHING.(lease := Some(None))),
                                  before.leases - {id}, before.index - {holder}, before.issued)
                     else before
  {
    VisitedHoldersAdd(m.leases, seen, id, now);
    VisitedLeftAdd(m.leases, seen, id, now);
    if m.leases[id].expiresAt <= now {
      var gone := VisitedHolders(m.leases, seen, now);
      DetachOne(m.reg, gone, m.leases[id].holder);
      assert m.index - (gone + {m.leases[id].holder}) == (m.index - gone) - {m.leases[id].holder};
    }
  }

  lemma NothingVisited(m: Leasing, now: int)
    ensures ExpireVisited(m, {}, now) == m
  {
    assert VisitedHolders(m.leases, {}, now) == {};
    assert Detach(m.reg, {}).runtimes == m.reg.runtimes;
    assert VisitedLeft(m.leases, {}, now) == m.leases;
    assert m.index - {} == m.index;
  }

  lemma AllVisited(m: Leasing, now: int)
    ensures ExpireVisited(m, m.leases.Keys, now) == Expire(m, now)
  {
    assert VisitedHolders(m.leases, m.leases.Keys, now) == ExpiredHolders(m.leases, now);
    assert VisitedLeft(m.leases, m.leases.Keys, now) == Expire(m, now).leases;
    assert m.index - ExpiredHolders(m.leases, now) == Expire(m, now).index;
  }

  /** packages/core/src/multi-agent/leases.ts; lease ids come from a counter. */
  class RuntimeLeaseManager {
    const registry: AgentRegistry
    const leaseTtlMs: int
    const renewable: bool
    var leases: map<nat, Lease>
    var agentLeaseIndex: map<string, nat>
    var issued: nat

    ghost function View(): Leasing
      reads this, registry
    {
      Leasing(registry.View(), leases, agentLeaseIndex, issued)
    }

    /** Table and index are inverse, and the registry shows only live leases. */
    ghost predicate Valid()
      reads this, registry
    {
      LeasesSound(View())
    }

    constructor (registry: AgentRegistry, leaseTtlMs: int, renewable: bool)
      ensures this.registry == registry && this.leaseTtlMs == leaseTtlMs && this.renewable == renewable
      ensures View() == Leasing(registry.View(), map[], map[], 0)
    {
      this.registry, this.leaseTtlMs, this.renewable := registry, leaseTtlMs, renewable;
      leases, agentLeaseIndex, issued := map[], map[], 0;
    }

    /** Visits the leases one by one, in any order, and drops the expired ones. */
    method DropExpired(now: int)
      modifies this`leases, this`agentLeaseIndex, registry`runtimes
      ensures View() == Expire(old(View()), now)
    {
      ghost var m := View();
      ghost var seen: set<nat> := {};
      var left := leases.Keys;
      NothingVisited(m, now);
      while left != {}
        invariant left <= m.leases.Keys && left !! seen && left + seen == m.leases.Keys
        invariant View() == ExpireVisited(m, seen, now)
        decreases left
      {
        var id :| id in left;
        assert id in leases && leases[id] == m.leases[id];
        var lease := leases[id];
        VisitOne(m, seen, id, now);
        if lease.expiresAt <= now {
          leases := leases - {id};
          agentLeaseIndex := agentLeaseIndex - {lease.holder};
          var _ := registry.UpdateAgent(lease.holder, NOTHING.(lease := Some(None)));
        }
        left, seen := left - {id}, seen + {id};
      }
      assert seen == m.leases.Keys;
      AllVisited(m, now);
    }

    method ExpireLeases(now: int)
      requires Valid()
      modifies this`leases, this`agentLeaseIndex, registry`runtimes
      ensures Valid() && View() == Expire(old(View()), now)
    {
      ExpireSound(View(), now);
      DropExpired(now);
    }

    /** Replaces the agent's lease, once expired ones are gone. */
    method GrantLease(a: string, at: int) returns (lease: Lease)
      modifies this`leases, this`agentLeaseIndex, this`issued, registry`runtimes
      ensures View() == Grant(old(View()), a, at, leaseTtlMs, renewable)
      ensures lease == Lease(old(issued), at, at + leaseTtlMs, renewable, a)
    {
      if a in agentLeaseIndex { leases := leases - {agentLeaseIndex[a]}; }
      lease := Lease(issued, at, at + leaseTtlMs, renewable, a);
      issued := issued + 1;
      leases := leases[lease.id := lease];
      agentLeaseIndex := agentLeaseIndex[a := lease.id];
      var _ := registry.UpdateAgent(a, NOTHING.(lease := Some(Some(lease))));
    }

    method AcquireLease(a: string, now: int, at: int) returns (lease: Lease)
      requires Valid()
      modifies this`leases, this`agentLeaseIndex, this`issued, registry`runtimes
      ensures Valid() && View() == Acquire(old(View()), a, now, at, leaseTtlMs, renewable)
      ensures lease == Lease(old(issued), at, at + leaseTtlMs, renewable, a)
    {
      AcquireSound(View(), a, now, at, leaseTtlMs, renewable);
      DropExpired(now);
      lease := GrantLease(a, at);
    }

    method ReleaseLease(id: nat)
      requires Valid()
      modifies this`leases, this`agentLeaseIndex, registry`runtimes
      ensures Valid() && View() == Release(old(View()), id)
    {
      ReleaseSound(View(), id);
      if id !in leases { return; }
      var holder := leases[id].holder;
      leases := leases - {id};
      agentLeaseIndex := agentLeaseIndex - {holder};
      var _ := registry.UpdateAgent(holder, NOTHING.(lease := Some(None)));
    }

    method GetAgentLease(a: string, now: int) returns (lease: Option<Lease>)
      requires Valid()
      modifies this`leases, this`agentLeaseIndex, registry`runtimes
      ensures Valid() && View() == Expire(old(View()), now)
      ensures lease == AgentLease(old(View()), a, now)
    {
      ExpireLeases(now);
      if a !in agentLeaseIndex { return None; }
      lease := if agentLeaseIndex[a] in leases then Some(leases[agentLeaseIndex[a]]) else None;
    }
  }
}
