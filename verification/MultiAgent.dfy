/**
 The multi-agent runtime (packages/core/src/multi-agent): one registry of agent
 runtimes shared by quotas, scheduler, leases and isolation. State, operations,
 and what every run keeps. Trust scores are reals, rounded half up as by Math.round.
 */
module MultiAgent {
  import opened Numbers
  import opened Wrappers

  datatype Status = Active | Idle | Restricted | Quarantined | Evicted
  datatype Quota = Quota(maxConcurrentExecutions: int, maxSessions: int)
  datatype Lease = Lease(id: nat, acquiredAt: int, expiresAt: int, renewable: bool, holder: string)

  datatype Runtime = Runtime(
    status: Status,
    compartments: seq<string>,
    trust: real,
    sessions: int,
    executions: int,
    quota: Quota,
    lease: Option<Lease>)

  /** `order` is the insertion order of the map. */
  datatype Registry = Registry(order: seq<string>, runtimes: map<string, Runtime>)

  const INITIAL_TRUST := 70.0
  const RESTRICTED_BELOW := 40.0
  const QUARANTINED_BELOW := 20.0

  predicate IsBlocked(s: Status) {
    s == Restricted || s == Quarantined || s == Evicted
  }

  function Clamp(t: real): real {
    if t < 0.0 then 0.0 else if t > 100.0 then 100.0 else t
  }

  // ---- The registry -----------------------------------------------------------

  function Fresh(quota: Quota): Runtime {
    Runtime(Idle, [], INITIAL_TRUST, 0, 0, quota, None)
  }

  function RegisterAgent(reg: Registry, a: string, quota: Quota): Registry {
    if a in reg.runtimes then reg else Registry(reg.order + [a], reg.runtimes[a := Fresh(quota)])
  }

  /** Silently ignored for an unknown agent. */
  function Put(reg: Registry, a: string, r: Runtime): Registry {
    if a in reg.runtimes then reg.(runtimes := reg.runtimes[a := r]) else reg
  }

  /** The fields a partial update carries; `lease: Some(None)` detaches the lease. */
  datatype Updates = Updates(
    status: Option<Status>,
    compartments: Option<seq<string>>,
    trust: Option<real>,
    sessions: Option<int>,
    executions: Option<int>,
    lease: Option<Option<Lease>>)

  const NOTHING := Updates(None, None, None, None, None, None)

  function Apply(r: Runtime, u: Updates): Runtime {
    Runtime(if u.status.Some? then u.status.value else r.status,
            if u.compartments.Some? then u.compartments.value else r.compartments,
            if u.trust.Some? then Clamp(u.trust.value) else r.trust,
            if u.sessions.Some? then Max(0, u.sessions.value) else r.sessions,
            if u.executions.Some? then Max(0, u.executions.value) else r.executions,
            r.quota,
            if u.lease.Some? then u.lease.value else r.lease)
  }

  function UpdateAgent(reg: Registry, a: string, u: Updates): Registry {
    if a in reg.runtimes then Put(reg, a, Apply(reg.runtimes[a], u)) else reg
  }

  function EvictAgent(reg: Registry, a: string): Registry {
    if a in reg.runtimes then
      Put(reg, a, reg.runtimes[a].(status := Evicted, executions := 0, sessions := 0, lease := None))
    else reg
  }

  function BlockAgent(reg: Registry, a: string, status: Status): Registry {
    if a in reg.runtimes && reg.runtimes[a].status != Evicted then
      Put(reg, a, reg.runtimes[a].(status := status))
    else reg
  }

  function AddCompartment(reg: Registry, a: string, c: string): Registry {
    if a in reg.runtimes && c !in reg.runtimes[a].compartments then
      Put(reg, a, reg.runtimes[a].(compartments := reg.runtimes[a].compartments + [c]))
    else reg
  }

  // ---- Quotas -----------------------------------------------------------------

  predicate CanExecute(reg: Registry, a: string) {
    && a in reg.runtimes
    && !IsBlocked(reg.runtimes[a].status)
    && reg.runtimes[a].executions < reg.runtimes[a].quota.maxConcurrentExecutions
  }

  function RecordStart(reg: Registry, a: string): Registry {
    if a !in reg.runtimes then reg
    else
      var r := reg.runtimes[a];
      UpdateAgent(reg, a, NOTHING.(executions := Some(r.executions + 1),
                                   status := Some(if r.status == Idle then Active else r.status)))
  }

  function RecordEnd(reg: Registry, a: string): Registry {
    if a !in reg.runtimes then reg
    else
      var r := reg.runtimes[a];
      var left := Max(0, r.executions - 1);
      UpdateAgent(reg, a, NOTHING.(executions := Some(left),
                                   status := Some(if left == 0 && r.status == Active then Idle else r.status)))
  }

  predicate CanCreateSession(reg: Registry, a: string) {
    && a in reg.runtimes
    && !IsBlocked(reg.runtimes[a].status)
    && reg.runtimes[a].sessions < reg.runtimes[a].quota.maxSessions
  }

  function SessionCreated(reg: Registry, a: string): Registry {
    if a !in reg.runtimes then reg else UpdateAgent(reg, a, NOTHING.(sessions := Some(reg.runtimes[a].sessions + 1)))
  }

  function SessionClosed(reg: Registry, a: string): Registry {
    if a !in reg.runtimes then reg
    else UpdateAgent(reg, a, NOTHING.(sessions := Some(Max(0, reg.runtimes[a].sessions - 1))))
  }

  // ---- The scheduler ----------------------------------------------------------

  datatype Refusal =
    | Unregistered | IsEvicted | IsQuarantined | IsRestricted
    | QuotaReached | CeilingReached | Monopolising
  datatype Scheduling = Admitted | Refused(reason: Refusal, agentsAhead: Option<nat>)

  function TotalOver(order: seq<string>, runtimes: map<string, Runtime>): int {
    if order == [] then 0
    else
      var last := order[|order| - 1];
      TotalOver(order[..|order| - 1], runtimes) + (if last in runtimes then runtimes[last].executions else 0)
  }

  function Total(reg: Registry): int {
    TotalOver(reg.order, reg.runtimes)
  }

  predicate Ready(r: Runtime) {
    r.status == Active || r.status == Idle
  }

  /** Other active or idle agents, by whether they are executing. */
  function Others(order: seq<string>, runtimes: map<string, Runtime>, a: string, busy: bool): nat {
    if order == [] then 0
    else
      var last := order[|order| - 1];
      Others(order[..|order| - 1], runtimes, a, busy)
      + (if last in runtimes && last != a && Ready(runtimes[last])
            && (if busy then runtimes[last].executions > 0 else runtimes[last].executions == 0)
         then 1 else 0)
  }

  function Schedule(reg: Registry, a: string, ceiling: int): Scheduling {
    if a !in reg.runtimes then Refused(Unregistered, None)
    else
      var r := reg.runtimes[a];
      if r.status == Evicted then Refused(IsEvicted, None)
      else if r.status == Quarantined then Refused(IsQuarantined, None)
      else if r.status == Restricted then Refused(IsRestricted, None)
      else if r.executions >= r.quota.maxConcurrentExecutions then Refused(QuotaReached, None)
      else if Total(reg) >= ceiling then Refused(CeilingReached, Some(Others(reg.order, reg.runtimes, a, true)))
      else
        var starved := Others(reg.order, reg.runtimes, a, false);
        if starved > 0 && r.executions >= ceiling / 2 then Refused(Monopolising, Some(starved)) else Admitted
  }

  // ---- Isolation --------------------------------------------------------------

  datatype Isolation = Isolation(allowed: bool, requiresRestriction: bool)

  function CheckIsolation(reg: Registry, a: string): (Registry, Isolation) {
    if a !in reg.runtimes then (reg, Isolation(false, false))
    else
      var r := reg.runtimes[a];
      if r.status == Evicted || r.status == Quarantined then (reg, Isolation(false, false))
      else if r.status == Restricted then (reg, Isolation(false, true))
      else if r.trust < QUARANTINED_BELOW then (BlockAgent(reg, a, Quarantined), Isolation(false, false))
      else if r.trust < RESTRICTED_BELOW then (BlockAgent(reg, a, Restricted), Isolation(false, true))
      else (reg, Isolation(true, false))
  }

  datatype Tally = Tally(sum: real, scored: nat, low: nat)

  function TallyOf(compartments: seq<string>, scores: map<string, real>): Tally {
    if compartments == [] then Tally(0.0, 0, 0)
    else
      var t := TallyOf(compartments[..|compartments| - 1], scores);
      var c := compartments[|compartments| - 1];
      if c in scores then
        Tally(t.sum + scores[c], t.scored + 1, t.low + (if scores[c] < QUARANTINED_BELOW then 1 else 0))
      else t
  }

  function DerivedTrust(r: Runtime, scores: map<string, real>): real {
    var t := TallyOf(r.compartments, scores);
    if t.scored > 0 then Round(t.sum / (t.scored as real)) as real else r.trust
  }

  function Propagate(reg: Registry, a: string, scores: map<string, real>, threshold: int): Registry {
    if a !in reg.runtimes || reg.runtimes[a].status == Evicted then reg
    else
      var r := reg.runtimes[a];
      var trust := DerivedTrust(r, scores);
      var reg1 := UpdateAgent(reg, a, NOTHING.(trust := Some(trust)));
      var tooLow := TallyOf(r.compartments, scores).low >= threshold;
      var atLarge := r.status != Restricted && r.status != Quarantined;
      var reg2 := if tooLow && atLarge then BlockAgent(reg1, a, Restricted) else reg1;
      if trust < QUARANTINED_BELOW then BlockAgent(reg2, a, Quarantined) else reg2
  }

  function Degraded(r: Runtime, delta: real): real {
    if r.trust - Abs(delta) < 0.0 then 0.0 else r.trust - Abs(delta)
  }

  function Degrade(reg: Registry, a: string, delta: real): Registry {
    if a !in reg.runtimes || reg.runtimes[a].status == Evicted then reg
    else
      var r := reg.runtimes[a];
      var trust := Degraded(r, delta);
      var reg1 := UpdateAgent(reg, a, NOTHING.(trust := Some(trust)));
      if trust < QUARANTINED_BELOW then BlockAgent(reg1, a, Quarantined)
      else if trust < RESTRICTED_BELOW && r.status != Quarantined then BlockAgent(reg1, a, Restricted)
      else reg1
  }

  // ---- Leases -----------------------------------------------------------------

  /** The lease manager's two maps, with the registry it mirrors into. */
  datatype Leasing = Leasing(reg: Registry, leases: map<nat, Lease>, index: map<string, nat>, issued: nat)

  function ExpiredHolders(leases: map<nat, Lease>, now: int): set<string> {
    set id | id in leases && leases[id].expiresAt <= now :: leases[id].holder
  }

  function Detach(reg: Registry, holders: set<string>): Registry {
    reg.(runtimes := map a | a in reg.runtimes ::
      if a in holders then reg.runtimes[a].(lease := None) else reg.runtimes[a])
  }

  function Expire(m: Leasing, now: int): Leasing {
    var gone := ExpiredHolders(m.leases, now);
    Leasing(Detach(m.reg, gone),
            map id | id in m.leases && m.leases[id].expiresAt > now :: m.leases[id],
            map a | a in m.index && a !in gone :: m.index[a],
            m.issued)
  }

  function Grant(m: Leasing, a: string, at: int, ttl: int, renewable: bool): Leasing {
    var lease := Lease(m.issued, at, at + ttl, renewable, a);
    var kept := if a in m.index then m.leases - {m.index[a]} else m.leases;
    Leasing(UpdateAgent(m.reg, a, NOTHING.(lease := Some(Some(lease)))),
            kept[m.issued := lease], m.index[a := m.issued], m.issued + 1)
  }

  /** The first clock reading expires stale leases, the second stamps the new one. */
  function Acquire(m: Leasing, a: string, now: int, at: int, ttl: int, renewable: bool): Leasing {
    Grant(Expire(m, now), a, at, ttl, renewable)
  }

  function Release(m: Leasing, id: nat): Leasing {
    if id !in m.leases then m
    else
      var holder := m.leases[id].holder;
      Leasing(UpdateAgent(m.reg, holder, NOTHING.(lease := Some(None))), m.leases - {id}, m.index - {holder}, m.issued)
  }

  /** A lookup expires stale leases first. */
  function AgentLease(m: Leasing, a: string, now: int): Option<Lease> {
    var m1 := Expire(m, now);
    if a in m1.index && m1.index[a] in m1.leases then Some(m1.leases[m1.index[a]]) else None
  }

  // ---- Runs -------------------------------------------------------------------

  datatype Config = Config(
    quota: Quota,
    ceiling: int,
    compartmentThreshold: int,
    violationLimit: int,
    ttl: int,
    renewable: bool)

  datatype State = State(leasing: Leasing, violations: map<string, int>)

  datatype Op =
    | Register(agent: string)
    | ScheduledStart(agent: string)
    | UncheckedStart(agent: string)
    | End(agent: string)
    | Violation(agent: string)
    | GatedSession(agent: string)
    | UngatedSession(agent: string)
    | CloseSession(agent: string)
    | Evict(agent: string)
    | Restrict(agent: string)
    | Quarantine(agent: string)
    | Join(agent: string, compartment: string)
    | Check(agent: string)
    | PropagateTrust(agent: string, scores: map<string, real>)
    | DegradeTrust(agent: string, delta: real)
    | AcquireLease(agent: string, now: int, at: int)
    | ReleaseLease(id: nat)
    | ExpireLeases(now: int)
    | DirectWrite(agent: string, updates: Updates)

  function Violations(s: State, a: string): int {
    if a in s.violations then s.violations[a] else 0
  }

  /** What an operation does to the registry alone. */
  function RegistryStep(cfg: Config, s: State, op: Op): Registry {
    var reg := s.leasing.reg;
    match op
    case Register(a) => RegisterAgent(reg, a, cfg.quota)
    case ScheduledStart(a) => if Schedule(reg, a, cfg.ceiling).Admitted? then RecordStart(reg, a) else reg
    case UncheckedStart(a) => RecordStart(reg, a)
    case End(a) => RecordEnd(reg, a)
    case Violation(a) => if Violations(s, a) + 1 >= cfg.violationLimit then BlockAgent(reg, a, Restricted) else reg
    case GatedSession(a) => if CanCreateSession(reg, a) then SessionCreated(reg, a) else reg
    case UngatedSession(a) => SessionCreated(reg, a)
    case CloseSession(a) => SessionClosed(reg, a)
    case Evict(a) => EvictAgent(reg, a)
    case Restrict(a) => BlockAgent(reg, a, Restricted)
    case Quarantine(a) => BlockAgent(reg, a, Quarantined)
    case Join(a, c) => AddCompartment(reg, a, c)
    case Check(a) => CheckIsolation(reg, a).0
    case PropagateTrust(a, scores) => Propagate(reg, a, scores, cfg.compartmentThreshold)
    case DegradeTrust(a, delta) => Degrade(reg, a, delta)
    case AcquireLease(a, now, at) => Acquire(s.leasing, a, now, at, cfg.ttl, cfg.renewable).reg
    case ReleaseLease(id) => Release(s.leasing, id).reg
    case ExpireLeases(now) => Expire(s.leasing, now).reg
    case DirectWrite(a, u) => UpdateAgent(reg, a, u)
  }

  function LeasingStep(cfg: Config, s: State, op: Op): Leasing {
    match op
    case AcquireLease(a, now, at) => Acquire(s.leasing, a, now, at, cfg.ttl, cfg.renewable)
    case ReleaseLease(id) => Release(s.leasing, id)
    case ExpireLeases(now) => Expire(s.leasing, now)
    case _ => s.leasing.(reg := RegistryStep(cfg, s, op))
  }

  function AfterViolation(violations: map<string, int>, a: string, limit: int): map<string, int> {
    var count := (if a in violations then violations[a] else 0) + 1;
    if count >= limit then violations - {a} else violations[a := count]
  }

  function ViolationsStep(cfg: Config, s: State, op: Op): map<string, int> {
    match op
    case ScheduledStart(a) =>
      if Schedule(s.leasing.reg, a, cfg.ceiling).Admitted? then s.violations - {a} else s.violations
    case UncheckedStart(a) => if a in s.leasing.reg.runtimes then s.violations - {a} else s.violations
    case Violation(a) => AfterViolation(s.violations, a, cfg.violationLimit)
    case _ => s.violations
  }

  function Step(cfg: Config, s: State, op: Op): State {
    State(LeasingStep(cfg, s, op), ViolationsStep(cfg, s, op))
  }

  const EMPTY := State(Leasing(Registry([], map[]), map[], map[], 0), map[])

  function Run(cfg: Config, s: State, ops: seq<Op>): State
    decreases |ops|
  {
    if ops == [] then s else Step(cfg, Run(cfg, s, ops[..|ops| - 1]), ops[|ops| - 1])
  }

  lemma RegistryOfStep(cfg: Config, s: State, op: Op)
    ensures Step(cfg, s, op).leasing.reg == RegistryStep(cfg, s, op)
  {
  }

  // ---- How one step changes each agent -----------------------------------------

  /** The registry lists each agent once. */
  predicate Listed(reg: Registry) {
    && (forall i :: 0 <= i < |reg.order| ==> reg.order[i] in reg.runtimes)
    && (forall i, j :: 0 <= i < j < |reg.order| ==> reg.order[i] != reg.order[j])
  }

  /** The agent an operation acts on; lease operations act on leases only. */
  predicate Targets(op: Op, a: string) {
    match op
    case ReleaseLease(_) => false
    case ExpireLeases(_) => false
    case _ => op.agent == a
  }

  predicate SameButLease(r: Runtime, t: Runtime) {
    r.(lease := None) == t.(lease := None)
  }

  lemma AcquireKeeps(m: Leasing, b: string, now: int, at: int, ttl: int, renewable: bool, a: string)
    requires a in m.reg.runtimes
    ensures var reg := Acquire(m, b, now, at, ttl, renewable).reg;
            a in reg.runtimes && SameButLease(reg.runtimes[a], m.reg.runtimes[a])
  {
  }

  /** An operation changes at most its own agent, apart from leases. */
  lemma OthersKeep(cfg: Config, s: State, op: Op, a: string)
    requires a in s.leasing.reg.runtimes
    requires !Targets(op, a) || op.AcquireLease?
    ensures a in RegistryStep(cfg, s, op).runtimes
    ensures SameButLease(RegistryStep(cfg, s, op).runtimes[a], s.leasing.reg.runtimes[a])
  {
    if op.AcquireLease? { AcquireKeeps(s.leasing, op.agent, op.now, op.at, cfg.ttl, cfg.renewable, a); }
  }

  lemma StepKeepsKeys(cfg: Config, s: State, op: Op)
    requires !op.Register?
    ensures RegistryStep(cfg, s, op).order == s.leasing.reg.order
    ensures RegistryStep(cfg, s, op).runtimes.Keys == s.leasing.reg.runtimes.Keys
  {
  }

  lemma StepKeepsAgents(cfg: Config, s: State, op: Op)
    ensures forall a :: a in s.leasing.reg.runtimes ==> a in RegistryStep(cfg, s, op).runtimes
    ensures Listed(s.leasing.reg) ==> Listed(RegistryStep(cfg, s, op))
    ensures !op.Register? ==> RegistryStep(cfg, s, op).order == s.leasing.reg.order
                              && RegistryStep(cfg, s, op).runtimes.Keys == s.leasing.reg.runtimes.Keys
  {
    if op.Register? {
      assert RegistryStep(cfg, s, op) == RegisterAgent(s.leasing.reg, op.agent, cfg.quota);
    } else {
      StepKeepsKeys(cfg, s, op);
    }
  }

  /** Clamping takes the nearest value of 0..100. */
  lemma ClampIsNearest(t: real, x: real)
    requires 0.0 <= x <= 100.0
    ensures 0.0 <= Clamp(t) <= 100.0 && Abs(Clamp(t) - t) <= Abs(x - t)
  {
  }

  /** A newcomer is idle, trusted with 70, runs nothing and is listed last; a known agent registers without change. */
  lemma NewcomerExactly(reg: Registry, a: string, b: string, quota: Quota)
    ensures var t := RegisterAgent(reg, a, quota);
            && (a in reg.runtimes ==> t == reg)
            && (a !in reg.runtimes ==>
                  && t.order == reg.order + [a] && t.runtimes.Keys == reg.runtimes.Keys + {a}
                  && t.runtimes[a] == Runtime(Idle, [], 70.0, 0, 0, quota, None))
            && (b in reg.runtimes ==> t.runtimes[b] == reg.runtimes[b])
  {
  }

  /** A write changes the fields it carries, each within its range, and no other field or agent. */
  lemma DirectWriteExactly(reg: Registry, a: string, b: string, u: Updates)
    requires a in reg.runtimes && b in reg.runtimes
    ensures var r, t := reg.runtimes[a], UpdateAgent(reg, a, u).runtimes[a];
            && Some(t.status) == (if u.status.None? then Some(r.status) else u.status)
            && Some(t.compartments) == (if u.compartments.None? then Some(r.compartments) else u.compartments)
            && Some(t.lease) == (if u.lease.None? then Some(r.lease) else u.lease)
            && (u.trust.None? ==> t.trust == r.trust)
            && (u.trust.Some? ==>
                  0.0 <= t.trust <= 100.0 && (0.0 <= u.trust.value <= 100.0 ==> Some(t.trust) == u.trust))
            && (u.sessions.None? ==> t.sessions == r.sessions)
            && (u.sessions.Some? ==> t.sessions >= 0 && (u.sessions.value >= 0 ==> Some(t.sessions) == u.sessions))
            && (u.executions.None? ==> t.executions == r.executions)
            && (u.executions.Some? ==>
                  t.executions >= 0 && (u.executions.value >= 0 ==> Some(t.executions) == u.executions))
            && t.quota == r.quota
    ensures a != b ==> UpdateAgent(reg, a, u).runtimes[b] == reg.runtimes[b]
  {
  }

  /**
   An order to restrict or quarantine sets that status unless the agent is evicted,
   so restricting lifts a quarantine.
   */
  lemma OrdersExactly(cfg: Config, s: State, a: string)
    requires a in s.leasing.reg.runtimes
    ensures var r, evicted := s.leasing.reg.runtimes[a], s.leasing.reg.runtimes[a].status == Evicted;
            && RegistryStep(cfg, s, Restrict(a)).runtimes[a] == r.(status := if evicted then Evicted else Restricted)
            && RegistryStep(cfg, s, Quarantine(a)).runtimes[a] == r.(status := if evicted then Evicted else Quarantined)
            && RegistryStep(cfg, s, Evict(a)).runtimes[a].status == Evicted
  {
  }

  /** A gated session is opened exactly when the agent is ready and below its maximum, an ungated one always. */
  lemma SessionsOpenExactly(cfg: Config, s: State, a: string)
    requires a in s.leasing.reg.runtimes && s.leasing.reg.runtimes[a].sessions >= 0
    ensures var r := s.leasing.reg.runtimes[a];
            && RegistryStep(cfg, s, GatedSession(a)).runtimes[a]
               == r.(sessions := if Ready(r) && r.sessions < r.quota.maxSessions then r.sessions + 1 else r.sessions)
            && RegistryStep(cfg, s, UngatedSession(a)).runtimes[a] == r.(sessions := r.sessions + 1)
  {
  }

  /** Eviction frees everything the agent holds in the registry, and nothing of any other. */
  lemma EvictionFreesExactly(reg: Registry, a: string, b: string)
    requires a in reg.runtimes && b in reg.runtimes
    ensures var r := EvictAgent(reg, a).runtimes[a];
            && r.status == Evicted && r.executions == 0 && r.sessions == 0 && r.lease.None?
            && r.compartments == reg.runtimes[a].compartments && r.trust == reg.runtimes[a].trust
            && r.quota == reg.runtimes[a].quota
    ensures a != b ==> EvictAgent(reg, a).runtimes[b] == reg.runtimes[b]
    ensures EvictAgent(EvictAgent(reg, a), a) == EvictAgent(reg, a)
  {
    assert EvictAgent(EvictAgent(reg, a), a).runtimes == EvictAgent(reg, a).runtimes;
  }

  // ---- Compartments ---------------------------------------------------------------

  predicate WritesCompartments(op: Op) {
    op.DirectWrite? && op.updates.compartments.Some?
  }

  /** The agent joined the compartment at some point of the run, being registered. */
  predicate Joined(cfg: Config, ops: seq<Op>, a: string, c: string)
    decreases |ops|
  {
    ops != [] &&
      var before := ops[..|ops| - 1];
      || Joined(cfg, before, a, c)
      || (ops[|ops| - 1] == Join(a, c) && a in Run(cfg, EMPTY, before).leasing.reg.runtimes)
  }

  predicate Distinct(s: seq<string>) {
    forall i, j :: 0 <= i < j < |s| ==> s[i] != s[j]
  }

  lemma CompartmentsAfter(cfg: Config, s: State, op: Op, a: string)
    requires a in RegistryStep(cfg, s, op).runtimes && !WritesCompartments(op)
    ensures var was := if a in s.leasing.reg.runtimes then s.leasing.reg.runtimes[a].compartments else [];
            RegistryStep(cfg, s, op).runtimes[a].compartments
            == if op.Join? && op.agent == a && op.compartment !in was then was + [op.compartment] else was
  {
    if a in s.leasing.reg.runtimes && (!Targets(op, a) || op.AcquireLease?) { OthersKeep(cfg, s, op, a); }
  }

  lemma KeysAfter(cfg: Config, s: State, op: Op, a: string)
    requires a in RegistryStep(cfg, s, op).runtimes && a !in s.leasing.reg.runtimes
    ensures op == Register(a)
  {
  }

  lemma {:induction false} OnlyRegisteredJoin(cfg: Config, ops: seq<Op>, a: string, c: string)
    requires Joined(cfg, ops, a, c)
    ensures a in Run(cfg, EMPTY, ops).leasing.reg.runtimes
    decreases |ops|
  {
    var before := ops[..|ops| - 1];
    if Joined(cfg, before, a, c) { OnlyRegisteredJoin(cfg, before, a, c); }
    RegistryOfStep(cfg, Run(cfg, EMPTY, before), ops[|ops| - 1]);
    StepKeepsAgents(cfg, Run(cfg, EMPTY, before), ops[|ops| - 1]);
  }

  /**
   In every run without direct writes of compartments, an agent is in exactly the
   compartments it joined once registered, in each of them once, whatever else
   happens to it.
   */
  lemma {:induction false} MembershipIsJoining(cfg: Config, ops: seq<Op>, a: string, c: string)
    requires forall i :: 0 <= i < |ops| ==> !WritesCompartments(ops[i])
    requires a in Run(cfg, EMPTY, ops).leasing.reg.runtimes
    ensures c in Run(cfg, EMPTY, ops).leasing.reg.runtimes[a].compartments <==> Joined(cfg, ops, a, c)
    ensures Distinct(Run(cfg, EMPTY, ops).leasing.reg.runtimes[a].compartments)
    decreases |ops|
  {
    if ops == [] {
    } else {
      var before, op := ops[..|ops| - 1], ops[|ops| - 1];
      var s := Run(cfg, EMPTY, before);
      RegistryOfStep(cfg, s, op);
      CompartmentsAfter(cfg, s, op, a);
      if a in s.leasing.reg.runtimes {
        MembershipIsJoining(cfg, before, a, c);
      } else {
        KeysAfter(cfg, s, op, a);
        if Joined(cfg, before, a, c) { OnlyRegisteredJoin(cfg, before, a, c); }
      }
    }
  }

  // ---- Isolation by trust ---------------------------------------------------------

  /** The gate opens exactly for a ready agent trusted with 40 or more, and blocks the others for good. */
  lemma CheckExactly(reg: Registry, a: string)
    ensures var (after, gate) := CheckIsolation(reg, a);
            && (gate.allowed <==> a in reg.runtimes && Ready(reg.runtimes[a]) && reg.runtimes[a].trust >= 40.0)
            && (gate.allowed || a !in reg.runtimes ==> after == reg)
            && (a in reg.runtimes ==>
                  var r, t := reg.runtimes[a], after.runtimes[a];
                  && (t.status == Quarantined <==> r.status == Quarantined || (Ready(r) && r.trust < 20.0))
                  && (t.status == Restricted <==> r.status == Restricted || (Ready(r) && 20.0 <= r.trust < 40.0))
                  && (gate.requiresRestriction <==> t.status == Restricted)
                  && t == r.(status := t.status))
            && (a !in reg.runtimes ==> !gate.requiresRestriction)
  {
  }

  /** Degrading takes |delta| off, down to nothing, and blocks by the new value. */
  lemma DegradeExactly(reg: Registry, a: string, delta: real)
    requires a in reg.runtimes && TrustInRange(reg.runtimes[a])
    ensures var r, t := reg.runtimes[a], Degrade(reg, a, delta).runtimes[a];
            if r.status == Evicted then Degrade(reg, a, delta) == reg
            else
              && t.trust <= r.trust && (t.trust > 0.0 ==> r.trust - t.trust == Abs(delta))
              && (t.trust == 0.0 <==> r.trust <= Abs(delta))
              && (t.status == Quarantined <==> r.status == Quarantined || t.trust < 20.0)
              && (t.status == Restricted <==>
                    t.status != Quarantined && (r.status == Restricted || t.trust < 40.0))
              && t == r.(status := t.status, trust := t.trust)
              && (Ready(t) ==> t.status == r.status)
  {
  }

  /** The tally of compartments adds up: none counts nothing, and each scored one counts once. */
  lemma {:induction false} TallyIsAdditive(left: seq<string>, right: seq<string>, c: string, scores: map<string, real>)
    ensures var x, y := TallyOf(left, scores), TallyOf(right, scores);
            TallyOf(left + right, scores) == Tally(x.sum + y.sum, x.scored + y.scored, x.low + y.low)
    ensures c !in scores ==> TallyOf([c], scores) == Tally(0.0, 0, 0)
    ensures c in scores && scores[c] >= 20.0 ==> TallyOf([c], scores) == Tally(scores[c], 1, 0)
    ensures c in scores && scores[c] < 20.0 ==> TallyOf([c], scores) == Tally(scores[c], 1, 1)
    decreases |right|
  {
    assert [c][..0] == [];
    if right == [] {
      assert left + right == left;
    } else {
      var n := |right| - 1;
      TallyIsAdditive(left, right[..n], c, scores);
      assert (left + right)[..|left + right| - 1] == left + right[..n];
    }
  }

  lemma {:induction false} TallyWithin(compartments: seq<string>, scores: map<string, real>, lo: real, hi: real)
    requires forall c :: c in compartments && c in scores ==> lo <= scores[c] <= hi
    ensures var t := TallyOf(compartments, scores);
            lo * t.scored as real <= t.sum <= hi * t.scored as real
  {
    if compartments == [] {
    } else {
      var init := compartments[..|compartments| - 1];
      TallyWithin(init, scores, lo, hi);
      var n := TallyOf(init, scores).scored as real;
      OneMore(lo, n);
      OneMore(hi, n);
    }
  }

  lemma OneMore(x: real, n: real)
    ensures x * (n + 1.0) == x * n + x
  {
  }

  lemma RoundedQuotient(sum: real, n: real)
    requires n > 0.0
    ensures var d := Round(sum / n) as real; (d - 0.5) * n <= sum < (d + 0.5) * n
  {
    var q := sum / n;
    var d := Round(q) as real;
    var low, high := d - 0.5, d + 0.5;
    assert q * n == sum;
    assert low <= q < high;
    Ordered(low, q, n);
    Ordered(q, high, n);
    calc {
      sum;
      q * n;
    < high * n;
    }
  }

  lemma RoundedWithin(sum: real, n: real, lo: int, hi: int)
    requires n > 0.0 && lo as real * n <= sum <= hi as real * n
    ensures lo <= Round(sum / n) <= hi
  {
    var q := sum / n;
    var low, high := lo as real, hi as real;
    assert q * n == sum;
    Ordered(q, low, n);
    Ordered(high, q, n);
    assert low <= q <= high;
    RoundBetween(q, lo, hi);
  }

  lemma RoundBetween(q: real, lo: int, hi: int)
    requires lo as real <= q <= hi as real
    ensures lo <= Round(q) <= hi
  {
  }

  lemma Ordered(x: real, y: real, n: real)
    requires n > 0.0
    ensures x <= y ==> x * n <= y * n
    ensures x < y ==> x * n < y * n
  {
    if x < y { assert (y - x) * n > 0.0; }
  }

  /** The derived trust is the integer nearest the mean score; without scores it is what it was. */
  lemma DerivedTrustIsMean(r: Runtime, scores: map<string, real>)
    ensures var t, d := TallyOf(r.compartments, scores), DerivedTrust(r, scores);
            if t.scored == 0 then d == r.trust
            else (d - 0.5) * t.scored as real <= t.sum < (d + 0.5) * t.scored as real && d == d.Floor as real
  {
    var t := TallyOf(r.compartments, scores);
    if t.scored > 0 { RoundedQuotient(t.sum, t.scored as real); }
  }

  /** So it stays between the bounds of the scores. */
  lemma DerivedTrustWithin(r: Runtime, scores: map<string, real>, lo: int, hi: int)
    requires forall c :: c in r.compartments && c in scores ==> lo as real <= scores[c] <= hi as real
    requires lo as real <= r.trust <= hi as real
    ensures lo as real <= DerivedTrust(r, scores) <= hi as real
  {
    var t := TallyOf(r.compartments, scores);
    TallyWithin(r.compartments, scores, lo as real, hi as real);
    if t.scored > 0 { RoundedWithin(t.sum, t.scored as real, lo, hi); }
  }

  /**
   Propagation sets the derived trust, quarantines below 20, and restricts for the
   given number of compartments scored below 20, never an agent it quarantines.
   */
  lemma PropagateExactly(reg: Registry, a: string, scores: map<string, real>, threshold: int)
    requires a in reg.runtimes
    ensures var r, t := reg.runtimes[a], Propagate(reg, a, scores, threshold).runtimes[a];
            var d := DerivedTrust(r, scores);
            if r.status == Evicted then Propagate(reg, a, scores, threshold) == reg
            else
              && t.trust == Clamp(d)
              && (t.status == Quarantined <==> r.status == Quarantined || d < 20.0)
              && (t.status == Restricted <==>
                    t.status != Quarantined
                    && (r.status == Restricted || TallyOf(r.compartments, scores).low >= threshold))
              && (Ready(t) ==> t.status == r.status)
              && t == r.(status := t.status, trust := t.trust)
  {
  }

  // ---- Violations -----------------------------------------------------------------

  predicate AllViolationsOf(ops: seq<Op>, a: string) {
    forall i :: 0 <= i < |ops| ==> ops[i] == Violation(a)
  }

  /** Counting up to a limit, and then from nothing again. */
  function Counted(n: nat, limit: int): nat {
    if n == 0 || Counted(n - 1, limit) + 1 >= limit then 0 else Counted(n - 1, limit) + 1
  }

  lemma {:induction false} CountedIsRemainder(n: nat, limit: int)
    requires limit >= 1
    ensures Counted(n, limit) == n % limit
  {
    if n == 0 {
    } else {
      CountedIsRemainder(n - 1, limit);
      var q, r := (n - 1) / limit, (n - 1) % limit;
      assert n - 1 == q * limit + r;
      if r + 1 == limit {
        assert n == (q + 1) * limit;
        ProductHasNoRemainder(q + 1, 0, limit);
      } else {
        ProductHasNoRemainder(q, r + 1, limit);
      }
    }
  }

  lemma ProductHasNoRemainder(q: nat, r: nat, limit: nat)
    requires r < limit
    ensures (q * limit + r) % limit == r
  {
    var x := q * limit + r;
    SmallMultiple(x / limit - q, limit);
  }

  lemma SmallMultiple(d: int, limit: int)
    requires -limit < d * limit < limit
    ensures d == 0
  {
  }

  /** A start ends the streak of its agent and of no other; a refused one ends none. */
  lemma StartEndsStreak(cfg: Config, s: State, a: string, b: string)
    ensures Violations(Step(cfg, s, ScheduledStart(a)), b)
            == (if a == b && Schedule(s.leasing.reg, a, cfg.ceiling).Admitted? then 0 else Violations(s, b))
    ensures Violations(Step(cfg, s, UncheckedStart(a)), b)
            == (if a == b && a in s.leasing.reg.runtimes then 0 else Violations(s, b))
  {
  }

  lemma ViolationAfter(cfg: Config, s: State, a: string)
    requires cfg.violationLimit >= 1 && a in s.leasing.reg.runtimes && s.leasing.reg.runtimes[a].status != Evicted
    ensures var n, t, was := Violations(s, a) + 1, Step(cfg, s, Violation(a)), s.leasing.reg.runtimes[a];
            && Violations(t, a) == (if n >= cfg.violationLimit then 0 else n)
            && a in t.leasing.reg.runtimes
            && t.leasing.reg.runtimes[a] == (if n >= cfg.violationLimit then was.(status := Restricted) else was)
  {
  }

  lemma {:induction false} StreakCounts(cfg: Config, s: State, ops: seq<Op>, a: string)
    requires cfg.violationLimit >= 1 && Violations(s, a) == 0 && AllViolationsOf(ops, a)
    requires a in s.leasing.reg.runtimes && s.leasing.reg.runtimes[a].status != Evicted
    ensures Violations(Run(cfg, s, ops), a) == Counted(|ops|, cfg.violationLimit)
    ensures var was, r := s.leasing.reg.runtimes[a], Run(cfg, s, ops).leasing.reg.runtimes;
            a in r && r[a] == was.(status := if |ops| >= cfg.violationLimit then Restricted else was.status)
    ensures |ops| < cfg.violationLimit ==> Counted(|ops|, cfg.violationLimit) == |ops|
    decreases |ops|
  {
    if ops == [] {
    } else {
      var before := ops[..|ops| - 1];
      StreakCounts(cfg, s, before, a);
      assert Run(cfg, s, ops) == Step(cfg, Run(cfg, s, before), Violation(a));
      ViolationAfter(cfg, Run(cfg, s, before), a);
    }
  }

  /**
   A streak of violations restricts the agent exactly once it reaches the limit,
   and counts on from nothing after each restriction.
   */
  lemma ViolationStreak(cfg: Config, s: State, ops: seq<Op>, a: string)
    requires cfg.violationLimit >= 1 && Violations(s, a) == 0 && AllViolationsOf(ops, a)
    requires a in s.leasing.reg.runtimes && s.leasing.reg.runtimes[a].status != Evicted
    ensures Violations(Run(cfg, s, ops), a) == |ops| % cfg.violationLimit
    ensures var was, r := s.leasing.reg.runtimes[a], Run(cfg, s, ops).leasing.reg.runtimes;
            a in r && r[a] == was.(status := if |ops| >= cfg.violationLimit then Restricted else was.status)
  {
    StreakCounts(cfg, s, ops, a);
    CountedIsRemainder(|ops|, cfg.violationLimit);
  }

  // ---- The absorbing statuses ---------------------------------------------------

  predicate WritesStatus(op: Op) {
    op.DirectWrite? && op.updates.status.Some?
  }

  lemma StepKeepsBlocked(cfg: Config, s: State, op: Op, a: string)
    requires a in s.leasing.reg.runtimes && IsBlocked(s.leasing.reg.runtimes[a].status) && !WritesStatus(op)
    ensures a in RegistryStep(cfg, s, op).runtimes
    ensures IsBlocked(RegistryStep(cfg, s, op).runtimes[a].status)
    ensures s.leasing.reg.runtimes[a].status == Evicted ==> RegistryStep(cfg, s, op).runtimes[a].status == Evicted
  {
    if !Targets(op, a) || op.AcquireLease? { OthersKeep(cfg, s, op, a); }
  }

  predicate NoStatusWrites(ops: seq<Op>) {
    forall i :: 0 <= i < |ops| ==> !WritesStatus(ops[i])
  }

  /**
   Restricted, quarantined and evicted form an absorbing set: from such a status
   on, in every run without a direct status write, nothing is ever executed
   again, and an evicted agent stays evicted.
   */
  lemma {:induction false} BlockedForEver(cfg: Config, s: State, ops: seq<Op>, a: string)
    requires a in s.leasing.reg.runtimes && IsBlocked(s.leasing.reg.runtimes[a].status) && NoStatusWrites(ops)
    ensures var reg := Run(cfg, s, ops).leasing.reg;
            && a in reg.runtimes && IsBlocked(reg.runtimes[a].status)
            && (s.leasing.reg.runtimes[a].status == Evicted ==> reg.runtimes[a].status == Evicted)
            && !CanExecute(reg, a) && !CanCreateSession(reg, a)
            && Schedule(reg, a, cfg.ceiling).Refused?
            && !CheckIsolation(reg, a).1.allowed
    decreases |ops|
  {
    if ops == [] {
    } else {
      var before := ops[..|ops| - 1];
      BlockedForEver(cfg, s, before, a);
      StepKeepsBlocked(cfg, Run(cfg, s, before), ops[|ops| - 1], a);
      RegistryOfStep(cfg, Run(cfg, s, before), ops[|ops| - 1]);
    }
  }

  /** Evicted is the only status that no operation but a direct write can leave. */
  lemma OnlyEvictedIsTerminal(cfg: Config, s: State, a: string)
    requires a in s.leasing.reg.runtimes
    ensures (forall op :: !WritesStatus(op) ==>
               a in RegistryStep(cfg, s, op).runtimes
               && RegistryStep(cfg, s, op).runtimes[a].status == s.leasing.reg.runtimes[a].status)
            <==> s.leasing.reg.runtimes[a].status == Evicted
  {
    if s.leasing.reg.runtimes[a].status == Evicted {
      forall op | !WritesStatus(op)
        ensures a in RegistryStep(cfg, s, op).runtimes && RegistryStep(cfg, s, op).runtimes[a].status == Evicted
      {
        StepKeepsBlocked(cfg, s, op, a);
      }
    } else {
      assert !WritesStatus(Evict(a));
      assert RegistryStep(cfg, s, Evict(a)).runtimes[a].status == Evicted;
    }
  }

  predicate TrustInRange(r: Runtime) {
    0.0 <= r.trust <= 100.0
  }

  lemma StepKeepsTrustInRange(cfg: Config, s: State, op: Op, a: string)
    requires a in RegistryStep(cfg, s, op).runtimes
    requires a in s.leasing.reg.runtimes ==> TrustInRange(s.leasing.reg.runtimes[a])
    ensures TrustInRange(RegistryStep(cfg, s, op).runtimes[a])
  {
    if a in s.leasing.reg.runtimes && (!Targets(op, a) || op.AcquireLease?) { OthersKeep(cfg, s, op, a); }
  }

  /** Trust stays within 0..100 in every run, direct writes of anything included. */
  lemma {:induction false} TrustStaysInRange(cfg: Config, ops: seq<Op>, a: string)
    requires a in Run(cfg, EMPTY, ops).leasing.reg.runtimes
    ensures TrustInRange(Run(cfg, EMPTY, ops).leasing.reg.runtimes[a])
    decreases |ops|
  {
    if ops == [] {
    } else {
      var before := ops[..|ops| - 1];
      if a in Run(cfg, EMPTY, before).leasing.reg.runtimes { TrustStaysInRange(cfg, before, a); }
      RegistryOfStep(cfg, Run(cfg, EMPTY, before), ops[|ops| - 1]);
      StepKeepsTrustInRange(cfg, Run(cfg, EMPTY, before), ops[|ops| - 1], a);
    }
  }

  /** Trust below 20 comes with a blocked status. */
  predicate Enforced(r: Runtime) {
    r.trust < QUARANTINED_BELOW ==> IsBlocked(r.status)
  }

  /** Direct writes skip the isolation engine; this one leaves nobody distrusted at large. */
  predicate WriteEnforces(r: Runtime, u: Updates) {
    var trust := if u.trust.Some? then Clamp(u.trust.value) else r.trust;
    var status := if u.status.Some? then u.status.value else r.status;
    trust >= QUARANTINED_BELOW || IsBlocked(status)
  }

  lemma StepKeepsEnforced(cfg: Config, s: State, op: Op, a: string)
    requires a in RegistryStep(cfg, s, op).runtimes
    requires a in s.leasing.reg.runtimes ==> Enforced(s.leasing.reg.runtimes[a])
    requires op.DirectWrite? && op.agent == a ==> WriteEnforces(s.leasing.reg.runtimes[a], op.updates)
    ensures Enforced(RegistryStep(cfg, s, op).runtimes[a])
  {
    if a in s.leasing.reg.runtimes && (!Targets(op, a) || op.AcquireLease?) { OthersKeep(cfg, s, op, a); }
  }

  /** Each direct write to the agent passes the guard when it is made. */
  predicate WritesEnforce(cfg: Config, ops: seq<Op>, a: string)
    decreases |ops|
  {
    ops != [] ==>
      var before, op := ops[..|ops| - 1], ops[|ops| - 1];
      var runtimes := Run(cfg, EMPTY, before).leasing.reg.runtimes;
      && WritesEnforce(cfg, before, a)
      && (op.DirectWrite? && op.agent == a && a in runtimes ==> WriteEnforces(runtimes[a], op.updates))
  }

  /** In every run whose direct writes pass the guard, an agent trusted below 20 is blocked. */
  lemma {:induction false} LowTrustIsBlocked(cfg: Config, ops: seq<Op>, a: string)
    requires WritesEnforce(cfg, ops, a) && a in Run(cfg, EMPTY, ops).leasing.reg.runtimes
    ensures Enforced(Run(cfg, EMPTY, ops).leasing.reg.runtimes[a])
    decreases |ops|
  {
    if ops == [] {
    } else {
      var before := ops[..|ops| - 1];
      if a in Run(cfg, EMPTY, before).leasing.reg.runtimes { LowTrustIsBlocked(cfg, before, a); }
      RegistryOfStep(cfg, Run(cfg, EMPTY, before), ops[|ops| - 1]);
      StepKeepsEnforced(cfg, Run(cfg, EMPTY, before), ops[|ops| - 1], a);
    }
  }

  /**
   A direct trust write keeps low trust blocked exactly when the value is at least
   20 or the agent is blocked already; a direct status write exactly when the
   status blocks or the trust is at least 20.
   */
  lemma DirectWriteEnforcesExactly(cfg: Config, s: State, a: string, trust: real, status: Status)
    requires a in s.leasing.reg.runtimes
    ensures var r := s.leasing.reg.runtimes[a];
            && (Enforced(RegistryStep(cfg, s, DirectWrite(a, NOTHING.(trust := Some(trust)))).runtimes[a])
                <==> trust >= QUARANTINED_BELOW || IsBlocked(r.status))
            && (Enforced(RegistryStep(cfg, s, DirectWrite(a, NOTHING.(status := Some(status)))).runtimes[a])
                <==> IsBlocked(status) || r.trust >= QUARANTINED_BELOW)
  {
  }

  /** So a direct trust write below 20 leaves a newly registered agent idle with that trust. */
  lemma UnguardedWriteEscapes(cfg: Config, a: string, trust: real)
    requires trust < QUARANTINED_BELOW
    ensures var reg := Run(cfg, EMPTY, [Register(a), DirectWrite(a, NOTHING.(trust := Some(trust)))]).leasing.reg;
            a in reg.runtimes && reg.runtimes[a].status == Idle && reg.runtimes[a].trust == Clamp(trust)
            && !Enforced(reg.runtimes[a])
  {
    var ops := [Register(a), DirectWrite(a, NOTHING.(trust := Some(trust)))];
    assert ops[..1] == [Register(a)] && ops[..1][..0] == [];
    assert Run(cfg, EMPTY, ops[..1]) == Step(cfg, EMPTY, Register(a));
    assert Run(cfg, EMPTY, ops) == Step(cfg, Run(cfg, EMPTY, ops[..1]), ops[1]);
  }

  // ---- The ceilings on executions -------------------------------------------------

  lemma {:induction false} TotalUpdate(order: seq<string>, runtimes: map<string, Runtime>, a: string, r: Runtime)
    requires forall i, j :: 0 <= i < j < |order| ==> order[i] != order[j]
    requires a in runtimes
    ensures TotalOver(order, runtimes[a := r])
            == TotalOver(order, runtimes) + (if a in order then r.executions - runtimes[a].executions else 0)
  {
    if order == [] {
    } else {
      var init := order[..|order| - 1];
      TotalUpdate(init, runtimes, a, r);
      assert a in order <==> a in init || a == order[|order| - 1];
      if a == order[|order| - 1] && a in init {
        assert false;
      }
    }
  }

  lemma {:induction false} TotalSame(order: seq<string>, m: map<string, Runtime>, n: map<string, Runtime>)
    requires m.Keys == n.Keys && forall a :: a in m ==> m[a].executions == n[a].executions
    ensures TotalOver(order, m) == TotalOver(order, n)
  {
    if order == [] {
    } else {
      TotalSame(order[..|order| - 1], m, n);
    }
  }

  lemma {:induction false} TotalOfNewcomer(order: seq<string>, m: map<string, Runtime>, a: string, r: Runtime)
    requires forall i :: 0 <= i < |order| ==> order[i] in m
    requires a !in m
    ensures TotalOver(order, m[a := r]) == TotalOver(order, m)
  {
    if order == [] {
    } else {
      TotalOfNewcomer(order[..|order| - 1], m, a, r);
    }
  }

  predicate WithinQuota(r: Runtime) {
    0 <= r.executions <= Max(0, r.quota.maxConcurrentExecutions)
  }

  predicate WithinCeilings(reg: Registry, ceiling: int) {
    && Total(reg) <= Max(0, ceiling)
    && forall a :: a in reg.runtimes ==> WithinQuota(reg.runtimes[a])
  }

  /** Every start is one the scheduler admitted. */
  predicate Scheduled(op: Op) {
    !op.UncheckedStart? && !(op.DirectWrite? && op.updates.executions.Some?)
  }

  /** Only a scheduled start raises an agent's count, by one and within its quota. */
  lemma StepExecutions(cfg: Config, s: State, op: Op, a: string)
    requires a in s.leasing.reg.runtimes && WithinQuota(s.leasing.reg.runtimes[a]) && Scheduled(op)
    ensures a in RegistryStep(cfg, s, op).runtimes
    ensures var r, t := s.leasing.reg.runtimes[a], RegistryStep(cfg, s, op).runtimes[a];
            && WithinQuota(t)
            && (if op == ScheduledStart(a) && Schedule(s.leasing.reg, a, cfg.ceiling).Admitted?
                then t.executions == r.executions + 1 else t.executions <= r.executions)
            && (!Targets(op, a) ==> t.executions == r.executions)
  {
    if !Targets(op, a) || op.AcquireLease? { OthersKeep(cfg, s, op, a); }
  }

  lemma TotalAfter(cfg: Config, s: State, op: Op, a: string)
    requires Listed(s.leasing.reg) && Targets(op, a) && !op.Register? && a in s.leasing.reg.runtimes
    requires WithinCeilings(s.leasing.reg, cfg.ceiling) && Scheduled(op)
    ensures a in RegistryStep(cfg, s, op).runtimes
    ensures var r, t := s.leasing.reg.runtimes[a], RegistryStep(cfg, s, op).runtimes[a];
            Total(RegistryStep(cfg, s, op))
            == Total(s.leasing.reg) + (if a in s.leasing.reg.order then t.executions - r.executions else 0)
  {
    var reg, reg' := s.leasing.reg, RegistryStep(cfg, s, op);
    StepKeepsAgents(cfg, s, op);
    TotalUpdate(reg.order, reg.runtimes, a, reg'.runtimes[a]);
    forall b | b in reg.runtimes && b != a ensures reg'.runtimes[b].executions == reg.runtimes[b].executions {
      OthersKeep(cfg, s, op, b);
    }
    TotalSame(reg.order, reg.runtimes[a := reg'.runtimes[a]], reg'.runtimes);
  }

  lemma TotalUntouched(cfg: Config, s: State, op: Op)
    requires !op.Register? && forall a :: a in s.leasing.reg.runtimes ==> !Targets(op, a)
    ensures Total(RegistryStep(cfg, s, op)) == Total(s.leasing.reg)
  {
    var reg, reg' := s.leasing.reg, RegistryStep(cfg, s, op);
    StepKeepsAgents(cfg, s, op);
    forall b | b in reg.runtimes ensures reg'.runtimes[b].executions == reg.runtimes[b].executions {
      OthersKeep(cfg, s, op, b);
    }
    TotalSame(reg.order, reg.runtimes, reg'.runtimes);
  }

  lemma StepKeepsQuotas(cfg: Config, s: State, op: Op)
    requires WithinCeilings(s.leasing.reg, cfg.ceiling) && Scheduled(op)
    ensures forall a :: a in RegistryStep(cfg, s, op).runtimes ==> WithinQuota(RegistryStep(cfg, s, op).runtimes[a])
  {
    StepKeepsAgents(cfg, s, op);
    forall a | a in RegistryStep(cfg, s, op).runtimes ensures WithinQuota(RegistryStep(cfg, s, op).runtimes[a]) {
      if a in s.leasing.reg.runtimes { StepExecutions(cfg, s, op, a); }
    }
  }

  lemma StepKeepsTotal(cfg: Config, s: State, op: Op)
    requires Listed(s.leasing.reg) && WithinCeilings(s.leasing.reg, cfg.ceiling) && Scheduled(op)
    ensures Total(RegistryStep(cfg, s, op)) <= Max(0, cfg.ceiling)
  {
    var reg := s.leasing.reg;
    if op.Register? {
      if op.agent !in reg.runtimes {
        TotalOfNewcomer(reg.order, reg.runtimes, op.agent, Fresh(cfg.quota));
        assert (reg.order + [op.agent])[..|reg.order|] == reg.order;
      }
    } else if op.ReleaseLease? || op.ExpireLeases? || op.agent !in reg.runtimes {
      TotalUntouched(cfg, s, op);
    } else {
      TotalAfter(cfg, s, op, op.agent);
      StepExecutions(cfg, s, op, op.agent);
    }
  }

  /**
   If every start follows an allowed scheduling decision, then in every run,
   evictions and surplus ends included, the executions of all agents together
   stay within the global ceiling and each agent stays within its quota.
   */
  lemma {:induction false} CeilingsHold(cfg: Config, ops: seq<Op>)
    requires forall i :: 0 <= i < |ops| ==> Scheduled(ops[i])
    ensures Listed(Run(cfg, EMPTY, ops).leasing.reg)
    ensures WithinCeilings(Run(cfg, EMPTY, ops).leasing.reg, cfg.ceiling)
    decreases |ops|
  {
    if ops == [] {
    } else {
      var before := ops[..|ops| - 1];
      var s := Run(cfg, EMPTY, before);
      var op := ops[|ops| - 1];
      CeilingsHold(cfg, before);
      RegistryOfStep(cfg, s, op);
      StepKeepsAgents(cfg, s, op);
      StepKeepsQuotas(cfg, s, op);
      StepKeepsTotal(cfg, s, op);
    }
  }

  predicate WithinSessions(r: Runtime) {
    0 <= r.sessions <= Max(0, r.quota.maxSessions)
  }

  /** No session is counted that `canCreateSession` was not asked about. */
  predicate Gated(op: Op) {
    !op.UngatedSession? && !(op.DirectWrite? && op.updates.sessions.Some?)
  }

  lemma StepKeepsSessions(cfg: Config, s: State, op: Op, a: string)
    requires a in RegistryStep(cfg, s, op).runtimes && Gated(op)
    requires a in s.leasing.reg.runtimes ==> WithinSessions(s.leasing.reg.runtimes[a])
    ensures WithinSessions(RegistryStep(cfg, s, op).runtimes[a])
  {
    if a in s.leasing.reg.runtimes && (!Targets(op, a) || op.AcquireLease?) { OthersKeep(cfg, s, op, a); }
  }

  /**
   If every session is created after an allowed check, then in every run,
   evictions and surplus closings included, each agent stays within its maximum.
   */
  lemma {:induction false} SessionsStayWithinQuota(cfg: Config, ops: seq<Op>, a: string)
    requires forall i :: 0 <= i < |ops| ==> Gated(ops[i])
    requires a in Run(cfg, EMPTY, ops).leasing.reg.runtimes
    ensures WithinSessions(Run(cfg, EMPTY, ops).leasing.reg.runtimes[a])
    decreases |ops|
  {
    if ops == [] {
    } else {
      var before := ops[..|ops| - 1];
      if a in Run(cfg, EMPTY, before).leasing.reg.runtimes { SessionsStayWithinQuota(cfg, before, a); }
      RegistryOfStep(cfg, Run(cfg, EMPTY, before), ops[|ops| - 1]);
      StepKeepsSessions(cfg, Run(cfg, EMPTY, before), ops[|ops| - 1], a);
    }
  }

  /**
   One more session keeps an agent that is not blocked within its maximum exactly
   when the check allows it; closing what was opened restores the count, but for
   an agent at zero closing changes nothing, so a surplus closing is not undone.
   */
  lemma SessionGateIsExact(reg: Registry, a: string)
    requires a in reg.runtimes && WithinSessions(reg.runtimes[a]) && !IsBlocked(reg.runtimes[a].status)
    ensures WithinSessions(SessionCreated(reg, a).runtimes[a]) <==> CanCreateSession(reg, a)
    ensures SessionClosed(SessionCreated(reg, a), a) == reg
    ensures SessionCreated(SessionClosed(reg, a), a) == reg <==> reg.runtimes[a].sessions > 0
  {
    assert SessionClosed(SessionCreated(reg, a), a).runtimes == reg.runtimes;
    if reg.runtimes[a].sessions > 0 {
      assert SessionCreated(SessionClosed(reg, a), a).runtimes == reg.runtimes;
    } else {
      assert SessionCreated(SessionClosed(reg, a), a).runtimes[a].sessions == 1;
    }
  }

  /** Active means something is running, idle that nothing is. */
  predicate StatusTells(r: Runtime) {
    && r.executions >= 0
    && (r.status == Active ==> r.executions > 0)
    && (r.status == Idle ==> r.executions == 0)
  }

  lemma StepKeepsStatusTelling(cfg: Config, s: State, op: Op, a: string)
    requires a in RegistryStep(cfg, s, op).runtimes && !op.DirectWrite?
    requires a in s.leasing.reg.runtimes ==> StatusTells(s.leasing.reg.runtimes[a])
    ensures StatusTells(RegistryStep(cfg, s, op).runtimes[a])
  {
    if a in s.leasing.reg.runtimes && (!Targets(op, a) || op.AcquireLease?) { OthersKeep(cfg, s, op, a); }
  }

  /** In every run without direct writes an agent is active only while something runs, idle only while nothing does. */
  lemma {:induction false} StatusTellsInRuns(cfg: Config, ops: seq<Op>, a: string)
    requires forall i :: 0 <= i < |ops| ==> !ops[i].DirectWrite?
    requires a in Run(cfg, EMPTY, ops).leasing.reg.runtimes
    ensures StatusTells(Run(cfg, EMPTY, ops).leasing.reg.runtimes[a])
    decreases |ops|
  {
    if ops == [] {
    } else {
      var before := ops[..|ops| - 1];
      if a in Run(cfg, EMPTY, before).leasing.reg.runtimes { StatusTellsInRuns(cfg, before, a); }
      RegistryOfStep(cfg, Run(cfg, EMPTY, before), ops[|ops| - 1]);
      StepKeepsStatusTelling(cfg, Run(cfg, EMPTY, before), ops[|ops| - 1], a);
    }
  }

  /**
   A start counts one execution more and an end one less, down to none; an end
   undoes a start exactly if the status told whether something was running, as it
   does in runs.
   */
  lemma EndUndoesStart(reg: Registry, a: string)
    requires a in reg.runtimes && reg.runtimes[a].executions >= 0
    ensures var r, started, ended := reg.runtimes[a], RecordStart(reg, a).runtimes[a], RecordEnd(reg, a).runtimes[a];
            && started.executions == r.executions + 1
            && (r.executions > 0 ==> ended.executions == r.executions - 1)
            && (r.executions == 0 ==> ended.executions == 0)
    ensures RecordEnd(RecordStart(reg, a), a) == reg <==> StatusTells(reg.runtimes[a])
  {
    var r, again := reg.runtimes[a], RecordEnd(RecordStart(reg, a), a);
    if StatusTells(r) {
      assert again.runtimes[a] == r;
      assert again.runtimes == reg.runtimes;
    } else {
      assert again.runtimes[a].status != r.status;
    }
  }

  /** Another agent is ready and has nothing running. */
  predicate IsWaiting(reg: Registry, b: string, a: string) {
    b in reg.runtimes && b != a && Ready(reg.runtimes[b]) && reg.runtimes[b].executions == 0
  }

  predicate SomeoneWaits(reg: Registry, a: string) {
    exists i :: 0 <= i < |reg.order| && IsWaiting(reg, reg.order[i], a)
  }

  lemma {:induction false} OthersCountWaiting(reg: Registry, n: nat, a: string)
    requires n <= |reg.order|
    ensures Others(reg.order[..n], reg.runtimes, a, false) > 0
            <==> exists i :: 0 <= i < n && IsWaiting(reg, reg.order[i], a)
  {
    if n == 0 {
    } else {
      OthersCountWaiting(reg, n - 1, a);
      assert reg.order[..n][..n - 1] == reg.order[..n - 1];
    }
  }

  /**
   An execution is admitted exactly when the agent's quota allows it, the global
   ceiling leaves room, and it would not take the agent beyond half the ceiling
   while another agent waits with nothing.
   */
  lemma AdmittedExactly(reg: Registry, a: string, ceiling: int)
    ensures Schedule(reg, a, ceiling).Admitted?
            <==> CanExecute(reg, a) && Total(reg) < ceiling
                 && (SomeoneWaits(reg, a) ==> reg.runtimes[a].executions + 1 <= ceiling / 2)
  {
    OthersCountWaiting(reg, |reg.order|, a);
    assert reg.order[..|reg.order|] == reg.order;
  }

  predicate IsAhead(runtimes: map<string, Runtime>, b: string, a: string, busy: bool) {
    b in runtimes && b != a && Ready(runtimes[b]) && (busy <==> runtimes[b].executions > 0)
  }

  /** The other ready agents, those that are executing or those that are not. */
  function Ahead(order: seq<string>, runtimes: map<string, Runtime>, a: string, busy: bool): set<string> {
    set b | b in order && IsAhead(runtimes, b, a, busy)
  }

  lemma AheadAppended(order: seq<string>, last: string, runtimes: map<string, Runtime>, a: string, busy: bool)
    requires last !in order
    ensures |Ahead(order + [last], runtimes, a, busy)|
            == |Ahead(order, runtimes, a, busy)| + if IsAhead(runtimes, last, a, busy) then 1 else 0
  {
    var before, after := Ahead(order, runtimes, a, busy), Ahead(order + [last], runtimes, a, busy);
    assert after == if IsAhead(runtimes, last, a, busy) then before + {last} else before;
  }

  lemma {:induction false} OthersCountExactly(order: seq<string>, runtimes: map<string, Runtime>, a: string, busy: bool)
    requires Distinct(order) && forall b :: b in runtimes ==> runtimes[b].executions >= 0
    ensures Others(order, runtimes, a, busy) == |Ahead(order, runtimes, a, busy)|
  {
    if order == [] {
    } else {
      var init, last := order[..|order| - 1], order[|order| - 1];
      OthersCountExactly(init, runtimes, a, busy);
      AheadAppended(init, last, runtimes, a, busy);
      assert order == init + [last];
    }
  }

  /**
   Each refusal exactly in its case, and how many agents it says are ahead: those
   executing at the ceiling, those with nothing where the agent would monopolise.
   */
  lemma RefusalExactly(reg: Registry, a: string, ceiling: int)
    requires Listed(reg) && forall b :: b in reg.runtimes ==> reg.runtimes[b].executions >= 0
    ensures var d := Schedule(reg, a, ceiling);
            var busy, idle := Ahead(reg.order, reg.runtimes, a, true), Ahead(reg.order, reg.runtimes, a, false);
            if a !in reg.runtimes then d == Refused(Unregistered, None)
            else
              var r := reg.runtimes[a];
              var room := Ready(r) && r.executions < r.quota.maxConcurrentExecutions;
              && (d == Refused(IsEvicted, None) <==> r.status == Evicted)
              && (d == Refused(IsQuarantined, None) <==> r.status == Quarantined)
              && (d == Refused(IsRestricted, None) <==> r.status == Restricted)
              && (d == Refused(QuotaReached, None) <==> Ready(r) && !room)
              && (d == Refused(CeilingReached, Some(|busy|)) <==> room && Total(reg) >= ceiling)
              && (d == Refused(Monopolising, Some(|idle|)) <==>
                    room && Total(reg) < ceiling && !d.Admitted?)
  {
    OthersCountExactly(reg.order, reg.runtimes, a, true);
    OthersCountExactly(reg.order, reg.runtimes, a, false);
  }

  /**
   Below the ceiling, a waiting agent with room in its quota is admitted exactly
   when the ceiling is at least two or nobody else is waiting.
   */
  lemma WaitingAgentAdmittedExactly(reg: Registry, a: string, ceiling: int)
    requires a in reg.runtimes && Ready(reg.runtimes[a]) && reg.runtimes[a].executions == 0
    requires reg.runtimes[a].quota.maxConcurrentExecutions >= 1 && Total(reg) < ceiling
    ensures Schedule(reg, a, ceiling).Admitted? <==> ceiling >= 2 || !SomeoneWaits(reg, a)
  {
    AdmittedExactly(reg, a, ceiling);
  }

  /** With a ceiling of one, two idle agents keep everybody out, though nothing may be running. */
  lemma CeilingOfOneDeadlocks(reg: Registry, i: nat, j: nat, c: string)
    requires i < j < |reg.order| && reg.order[i] != reg.order[j]
    requires IsWaiting(reg, reg.order[i], reg.order[j]) && IsWaiting(reg, reg.order[j], reg.order[i])
    requires c in reg.runtimes && reg.runtimes[c].executions >= 0
    ensures Schedule(reg, c, 1).Refused?
  {
    AdmittedExactly(reg, c, 1);
    assert IsWaiting(reg, reg.order[if c == reg.order[i] then j else i], c);
  }

  // ---- Leases ---------------------------------------------------------------------

  /** Table and index are inverse to each other: one lease per agent, one agent per lease. */
  predicate Inverse(leases: map<nat, Lease>, index: map<string, nat>) {
    && (forall id :: id in leases ==>
          leases[id].id == id && leases[id].holder in index && index[leases[id].holder] == id)
    && (forall a :: a in index ==> index[a] in leases && leases[index[a]].holder == a)
  }

  /** A lease shown in the registry is the manager's entry for that agent. */
  predicate Mirrored(m: Leasing) {
    forall a :: a in m.reg.runtimes && m.reg.runtimes[a].lease.Some? ==>
      && a in m.index && m.index[a] in m.leases
      && m.leases[m.index[a]] == m.reg.runtimes[a].lease.value
  }

  predicate LeasesSound(m: Leasing) {
    && Inverse(m.leases, m.index)
    && Mirrored(m)
    && (forall id :: id in m.leases ==> id < m.issued)
  }

  lemma ExpireSound(m: Leasing, now: int)
    requires LeasesSound(m)
    ensures LeasesSound(Expire(m, now))
    ensures forall id :: id in Expire(m, now).leases ==> m.leases[id].expiresAt > now
  {
  }

  lemma AcquireSound(m: Leasing, a: string, now: int, at: int, ttl: int, renewable: bool)
    requires LeasesSound(m)
    ensures LeasesSound(Acquire(m, a, now, at, ttl, renewable))
  {
    ExpireSound(m, now);
  }

  lemma ReleaseSound(m: Leasing, id: nat)
    requires LeasesSound(m)
    ensures LeasesSound(Release(m, id))
  {
  }

  /** Expiry takes exactly the leases whose time has come, from both maps and from their holders' runtimes. */
  lemma ExpiryExactly(m: Leasing, now: int, id: nat, a: string)
    requires LeasesSound(m)
    ensures var t := Expire(m, now);
            && (id in t.leases <==> id in m.leases && m.leases[id].expiresAt > now)
            && (id in t.leases ==> t.leases[id] == m.leases[id])
            && (a in t.index <==> a in m.index && m.leases[m.index[a]].expiresAt > now)
            && t.reg.order == m.reg.order && (a in t.reg.runtimes <==> a in m.reg.runtimes)
            && (a in m.reg.runtimes ==>
                  t.reg.runtimes[a] == if a in m.index && m.leases[m.index[a]].expiresAt <= now
                                       then m.reg.runtimes[a].(lease := None) else m.reg.runtimes[a])
  {
    if a in m.index {
      assert m.leases[m.index[a]].holder == a;
      assert a in ExpiredHolders(m.leases, now) <==> m.leases[m.index[a]].expiresAt <= now;
    }
  }

  /** Releasing a lease undoes acquiring it for an agent that held none, and only the holder's lease is touched. */
  lemma ReleaseUndoesAcquire(m: Leasing, a: string, now: int, ttl: int, renewable: bool)
    requires LeasesSound(m) && a !in m.index && forall id :: id in m.leases ==> m.leases[id].expiresAt > now
    ensures var t := Release(Acquire(m, a, now, now, ttl, renewable), m.issued);
            t.leases == m.leases && t.index == m.index && t.reg == m.reg
  {
    assert a in m.reg.runtimes ==> m.reg.runtimes[a].lease.None?;
    assert Expire(m, now).leases == m.leases && Expire(m, now).index == m.index;
    assert Expire(m, now).reg.runtimes == m.reg.runtimes;
    var t := Release(Grant(Expire(m, now), a, now, ttl, renewable), m.issued);
    assert t.leases == m.leases && t.index == m.index && t.reg.runtimes == m.reg.runtimes;
  }

  predicate WritesLease(op: Op) {
    op.DirectWrite? && op.updates.lease.Some?
  }

  /** An operation that is not a lease operation shows no lease it did not show before. */
  lemma RegistryKeepsLeases(cfg: Config, s: State, op: Op, a: string)
    requires !op.AcquireLease? && !op.ReleaseLease? && !op.ExpireLeases? && !WritesLease(op)
    requires a in RegistryStep(cfg, s, op).runtimes && RegistryStep(cfg, s, op).runtimes[a].lease.Some?
    ensures a in s.leasing.reg.runtimes
    ensures s.leasing.reg.runtimes[a].lease == RegistryStep(cfg, s, op).runtimes[a].lease
  {
  }

  lemma StepKeepsLeases(cfg: Config, s: State, op: Op)
    requires LeasesSound(s.leasing) && !WritesLease(op)
    ensures LeasesSound(LeasingStep(cfg, s, op))
  {
    match op {
      case AcquireLease(a, now, at) => AcquireSound(s.leasing, a, now, at, cfg.ttl, cfg.renewable);
      case ReleaseLease(id) => ReleaseSound(s.leasing, id);
      case ExpireLeases(now) => ExpireSound(s.leasing, now);
      case _ =>
        forall a | a in RegistryStep(cfg, s, op).runtimes && RegistryStep(cfg, s, op).runtimes[a].lease.Some?
          ensures a in s.leasing.reg.runtimes
          ensures s.leasing.reg.runtimes[a].lease == RegistryStep(cfg, s, op).runtimes[a].lease
        {
          RegistryKeepsLeases(cfg, s, op, a);
        }
    }
  }

  /** In every run the lease table and the agent index stay inverse, and the registry shows only live entries. */
  lemma {:induction false} LeasesStaySound(cfg: Config, ops: seq<Op>)
    requires forall i :: 0 <= i < |ops| ==> !WritesLease(ops[i])
    ensures LeasesSound(Run(cfg, EMPTY, ops).leasing)
    decreases |ops|
  {
    if ops == [] {
    } else {
      LeasesStaySound(cfg, ops[..|ops| - 1]);
      StepKeepsLeases(cfg, Run(cfg, EMPTY, ops[..|ops| - 1]), ops[|ops| - 1]);
    }
  }

  /** A lookup returns exactly the agent's unexpired lease, if there is one. */
  lemma LookupIsLive(m: Leasing, a: string, now: int, lease: Lease)
    requires LeasesSound(m)
    ensures AgentLease(m, a, now) == Some(lease)
            <==> lease.id in m.leases && m.leases[lease.id] == lease && lease.holder == a && lease.expiresAt > now
  {
    ExpireSound(m, now);
  }

  /** After acquiring, the agent's one lease is the new one; any earlier one is gone. */
  lemma AcquireReplaces(m: Leasing, a: string, now: int, at: int, ttl: int, renewable: bool)
    requires LeasesSound(m)
    ensures var m' := Acquire(m, a, now, at, ttl, renewable);
            && (forall id :: id in m'.leases && m'.leases[id].holder == a <==> id == m.issued)
            && (forall id :: id in m.leases && m.leases[id].holder != a && m.leases[id].expiresAt > now ==>
                  id in m'.leases && m'.leases[id] == m.leases[id])
  {
    AcquireSound(m, a, now, at, ttl, renewable);
  }

  /** The registry promises that an evicted agent acquires no lease; the manager grants it one. */
  lemma EvictedAgentGetsLease(m: Leasing, a: string, now: int, at: int, ttl: int, renewable: bool)
    requires a in m.reg.runtimes && m.reg.runtimes[a].status == Evicted
    ensures var r := Acquire(m, a, now, at, ttl, renewable).reg.runtimes[a];
            r.status == Evicted && r.lease == Some(Lease(m.issued, at, at + ttl, renewable, a))
  {
  }
}
