/**
 Logical routes per compartment (packages/core/src/network-isolation/engine.ts):
 assignment, rotation and pruning as a state machine, and what every run keeps.
 Route ids are the values of the route counter; the source pads them with zeros.
 */
module NetworkIsolation {
  import opened Numbers
  import opened Wrappers

  datatype Level = Shared | Isolated | Strict
  datatype Profile = Profile(id: string, enabled: bool, level: Level)

  datatype Route = Route(
    id: nat,
    profileId: string,
    compartmentId: string,
    personaId: Option<string>,
    fragmentId: Option<string>,
    assignedAt: int,
    active: bool)

  datatype Binding = Binding(routeId: nat, level: Level, createdAt: int)
  datatype RotationPolicy = RotationPolicy(
    enabled: bool,
    onPersona: bool,
    onCategory: bool,
    onCritical: bool,
    maxAssignments: int)

  datatype Context = Context(
    compartmentId: string,
    personaId: Option<string>,
    fragmentId: Option<string>,
    categoryChanged: bool,
    personaRotated: bool,
    criticalRisk: bool,
    transportEnabled: bool,
    quarantined: bool,
    level: Option<Level>)

  datatype State = State(
    profiles: seq<Profile>,
    routes: seq<Route>,
    bindings: map<string, Binding>,
    counts: map<string, nat>,
    counter: nat,
    policy: RotationPolicy,
    maxRoutes: nat)

  datatype Assignment = Assignment(
    routeId: nat,
    profileId: string,
    compartmentId: string,
    level: Level,
    assignmentCount: nat,
    assignedAt: int,
    rotated: bool)

  datatype RotationCause = PersonaRotation | CategoryChange | CriticalRisk | AssignmentCeiling
  datatype Reason = Quarantined | TransportDisabled | NoRelay | Assigned | Rotated(cause: RotationCause) | Reused
  datatype Decision =
    | Denied(reason: Reason)
    | Allowed(profileId: string, routeId: nat, level: Level, shouldRotate: bool, reason: Reason)

  const DEFAULT_MAX_ROUTES := 500
  const DEFAULT_PROFILE := Profile("local-default", true, Isolated)
  const DEFAULT_POLICY := RotationPolicy(true, true, true, true, 50)

  // ---- Lookups ----------------------------------------------------------------

  function FirstEnabled(ps: seq<Profile>): Option<Profile> {
    if ps == [] then None else if ps[0].enabled then Some(ps[0]) else FirstEnabled(ps[1..])
  }

  lemma {:induction false} FirstEnabledStays(ps: seq<Profile>, p: Profile)
    requires FirstEnabled(ps).Some?
    ensures FirstEnabled(ps + [p]) == FirstEnabled(ps)
  {
    if ps[0].enabled {
    } else {
      assert (ps + [p])[1..] == ps[1..] + [p];
      FirstEnabledStays(ps[1..], p);
    }
  }

  function RouteById(routes: seq<Route>, id: nat): (r: Option<Route>)
    ensures r.Some? ==> r.value.id == id
  {
    if routes == [] then None else if routes[0].id == id then Some(routes[0]) else RouteById(routes[1..], id)
  }

  /** The active route bound to a compartment. */
  function Resolve(s: State, compartmentId: string): Option<Route> {
    if compartmentId !in s.bindings then None
    else
      var r := RouteById(s.routes, s.bindings[compartmentId].routeId);
      if r.Some? && r.value.active then r else None
  }

  function CountOf(s: State, compartmentId: string): nat {
    if compartmentId in s.counts then s.counts[compartmentId] else 0
  }

  // ---- Assignment -------------------------------------------------------------

  function Deactivate(routes: seq<Route>, compartmentId: string): seq<Route> {
    seq(|routes|, i requires 0 <= i < |routes| =>
      if routes[i].compartmentId == compartmentId then routes[i].(active := false) else routes[i])
  }

  /** Drops the first `excess` inactive routes, or all of them if there are fewer. */
  function DropInactive(routes: seq<Route>, excess: nat): seq<Route> {
    if routes == [] || excess == 0 then routes
    else if routes[0].active then [routes[0]] + DropInactive(routes[1..], excess)
    else DropInactive(routes[1..], excess - 1)
  }

  function Prune(routes: seq<Route>, maxRoutes: nat): seq<Route> {
    if |routes| <= maxRoutes then routes else DropInactive(routes, |routes| - maxRoutes)
  }

  function NewRoute(s: State, ctx: Context, now: int, profile: Profile): Route {
    Route(s.counter + 1, profile.id, ctx.compartmentId, ctx.personaId, ctx.fragmentId, now, true)
  }

  function LevelFor(ctx: Context, profile: Profile): Level {
    if ctx.level.Some? then ctx.level.value else profile.level
  }

  function Assign(s: State, ctx: Context, now: int, profile: Profile): State {
    var c := ctx.compartmentId;
    s.(counter := s.counter + 1,
       routes := Prune(Deactivate(s.routes, c) + [NewRoute(s, ctx, now, profile)], s.maxRoutes),
       bindings := s.bindings[c := Binding(s.counter + 1, LevelFor(ctx, profile), now)],
       counts := s.counts[c := CountOf(s, c) + 1])
  }

  function AssignmentMade(s: State, ctx: Context, now: int, profile: Profile): Assignment {
    var count := CountOf(s, ctx.compartmentId) + 1;
    Assignment(s.counter + 1, profile.id, ctx.compartmentId, LevelFor(ctx, profile), count, now, count > 1)
  }

  // ---- The decision -----------------------------------------------------------

  predicate ShouldRotate(s: State, ctx: Context) {
    var p := s.policy;
    && p.enabled
    && (|| (p.onPersona && ctx.personaRotated)
        || (p.onCategory && ctx.categoryChanged)
        || (p.onCritical && ctx.criticalRisk)
        || ((p.onPersona || p.onCategory) && ScopeChanged(s, ctx))
        || CountOf(s, ctx.compartmentId) >= p.maxAssignments)
  }

  /** The incoming persona differs from that of the bound route. */
  predicate ScopeChanged(s: State, ctx: Context) {
    && ctx.compartmentId in s.bindings
    && var r := RouteById(s.routes, s.bindings[ctx.compartmentId].routeId);
       r.Some? && r.value.personaId != ctx.personaId
  }

  function CauseOf(ctx: Context): RotationCause {
    if ctx.personaRotated then PersonaRotation
    else if ctx.categoryChanged then CategoryChange
    else if ctx.criticalRisk then CriticalRisk
    else AssignmentCeiling
  }

  function Evaluate(s: State, ctx: Context, now: int): (State, Decision) {
    if ctx.quarantined then (s, Denied(Quarantined))
    else if !ctx.transportEnabled then (s, Denied(TransportDisabled))
    else
      match FirstEnabled(s.profiles)
      case None => (s, Denied(NoRelay))
      case Some(profile) =>
        var existing := Resolve(s, ctx.compartmentId);
        var level := LevelFor(ctx, profile);
        if existing.None? then
          (Assign(s, ctx, now, profile), Allowed(profile.id, s.counter + 1, level, false, Assigned))
        else if ShouldRotate(s, ctx) then
          (Assign(s, ctx, now, profile), Allowed(profile.id, s.counter + 1, level, true, Rotated(CauseOf(ctx))))
        else
          (s, Allowed(profile.id, existing.value.id, s.bindings[ctx.compartmentId].level, false, Reused))
  }

  // ---- Coherence --------------------------------------------------------------

  predicate Ordered(routes: seq<Route>, counter: nat) {
    && (forall i, j :: 0 <= i < j < |routes| ==> routes[i].id < routes[j].id)
    && (forall i :: 0 <= i < |routes| ==> routes[i].id <= counter)
  }

  predicate Names(routes: seq<Route>, id: nat, c: string) {
    var r := RouteById(routes, id);
    r.Some? && r.value.active && r.value.compartmentId == c
  }

  predicate BoundTo(bindings: map<string, Binding>, r: Route) {
    r.compartmentId in bindings && bindings[r.compartmentId].routeId == r.id
  }

  /** Every binding names an active route of its own compartment. */
  predicate BindingsNameActive(routes: seq<Route>, bindings: map<string, Binding>) {
    forall c :: c in bindings ==> Names(routes, bindings[c].routeId, c)
  }

  /** Every active route is the one its compartment is bound to. */
  predicate ActiveAreBound(routes: seq<Route>, bindings: map<string, Binding>) {
    forall i :: 0 <= i < |routes| && routes[i].active ==> BoundTo(bindings, routes[i])
  }

  predicate OneProfile(routes: seq<Route>, profileId: string) {
    forall i :: 0 <= i < |routes| ==> routes[i].profileId == profileId
  }

  predicate Counted(counts: map<string, nat>, bindings: map<string, Binding>) {
    counts.Keys == bindings.Keys && forall c :: c in counts ==> counts[c] >= 1
  }

  predicate Coherent(s: State) {
    && Ordered(s.routes, s.counter)
    && BindingsNameActive(s.routes, s.bindings)
    && ActiveAreBound(s.routes, s.bindings)
    && Counted(s.counts, s.bindings)
    && |s.routes| <= Max(s.maxRoutes, |s.bindings|)
    && (s.routes != [] ==> FirstEnabled(s.profiles).Some? && OneProfile(s.routes, FirstEnabled(s.profiles).value.id))
  }

  lemma {:induction false} ByIdAppend(routes: seq<Route>, r: Route, id: nat)
    ensures RouteById(routes + [r], id)
            == if RouteById(routes, id).Some? then RouteById(routes, id) else if r.id == id then Some(r) else None
  {
    if routes == [] {
      assert routes + [r] == [r];
    } else {
      assert (routes + [r])[1..] == routes[1..] + [r];
      ByIdAppend(routes[1..], r, id);
    }
  }

  lemma {:induction false} ByIdDeactivate(routes: seq<Route>, c: string, id: nat)
    ensures var before := RouteById(routes, id);
            var after := RouteById(Deactivate(routes, c), id);
            && after.Some? == before.Some?
            && (before.Some? ==>
                  after.value == if before.value.compartmentId == c then before.value.(active := false)
                                 else before.value)
  {
    if routes == [] {
    } else {
      assert Deactivate(routes, c)[1..] == Deactivate(routes[1..], c);
      ByIdDeactivate(routes[1..], c, id);
    }
  }

  lemma {:induction false} ByIdBound(routes: seq<Route>, counter: nat, id: nat)
    requires Ordered(routes, counter) && id > counter
    ensures RouteById(routes, id).None?
  {
    if routes == [] {
    } else {
      ByIdBound(routes[1..], counter, id);
    }
  }

  /** Dropping keeps the order and the active routes, and invents none. */
  lemma {:induction false} ByIdDrop(routes: seq<Route>, excess: nat, counter: nat, id: nat)
    requires Ordered(routes, counter)
    ensures var before := RouteById(routes, id);
            var after := RouteById(DropInactive(routes, excess), id);
            && (before.Some? && before.value.active ==> after == before)
            && (after.Some? ==> after == before)
  {
    if routes == [] || excess == 0 {
    } else {
      ByIdDrop(routes[1..], if routes[0].active then excess else excess - 1, counter, id);
      if !routes[0].active && routes[0].id == id {
        NoSuchIdLater(routes, counter);
      }
    }
  }

  lemma {:induction false} IndexOfId(routes: seq<Route>, id: nat) returns (i: nat)
    requires RouteById(routes, id).Some?
    ensures i < |routes| && routes[i] == RouteById(routes, id).value
  {
    if routes[0].id == id {
      i := 0;
    } else {
      var k := IndexOfId(routes[1..], id);
      i := k + 1;
    }
  }

  lemma NoSuchIdLater(routes: seq<Route>, counter: nat)
    requires Ordered(routes, counter) && routes != []
    ensures RouteById(routes[1..], routes[0].id).None?
  {
    if RouteById(routes[1..], routes[0].id).Some? {
      var i := IndexOfId(routes[1..], routes[0].id);
    }
  }

  predicate Above(routes: seq<Route>, low: nat) {
    forall i :: 0 <= i < |routes| ==> low < routes[i].id
  }

  lemma {:induction false} DropAbove(routes: seq<Route>, excess: nat, low: nat)
    requires Above(routes, low)
    ensures Above(DropInactive(routes, excess), low)
  {
    if routes == [] || excess == 0 {
    } else {
      DropAbove(routes[1..], if routes[0].active then excess else excess - 1, low);
    }
  }

  lemma {:induction false} DropKeeps(routes: seq<Route>, excess: nat, counter: nat, bindings: map<string, Binding>,
          profileId: string)
    requires Ordered(routes, counter) && ActiveAreBound(routes, bindings) && OneProfile(routes, profileId)
    ensures var left := DropInactive(routes, excess);
            Ordered(left, counter) && ActiveAreBound(left, bindings) && OneProfile(left, profileId)
  {
    if routes == [] || excess == 0 {
    } else {
      var excess' := if routes[0].active then excess else excess - 1;
      DropKeeps(routes[1..], excess', counter, bindings, profileId);
      DropAbove(routes[1..], excess', routes[0].id);
    }
  }

  function ActiveOf(routes: seq<Route>): seq<Route> {
    if routes == [] then []
    else (if routes[0].active then [routes[0]] else []) + ActiveOf(routes[1..])
  }

  /**
   Pruning drops the oldest inactive routes and nothing else: up to some point
   only the active routes remain, and from there on every route does.
   */
  lemma {:induction false} PruningIsFifo(routes: seq<Route>, excess: nat) returns (cut: nat)
    ensures cut <= |routes|
    ensures DropInactive(routes, excess) == ActiveOf(routes[..cut]) + routes[cut..]
  {
    if routes == [] || excess == 0 {
      cut := 0;
    } else {
      var rest := PruningIsFifo(routes[1..], if routes[0].active then excess else excess - 1);
      cut := rest + 1;
      assert routes[..cut] == [routes[0]] + routes[1..][..rest];
      assert routes[cut..] == routes[1..][rest..];
    }
  }

  /** It stops as soon as enough are gone, or when no inactive route is left. */
  lemma {:induction false} PruningLength(routes: seq<Route>, excess: nat)
    ensures |DropInactive(routes, excess)| == Max(|routes| - excess, |ActiveOf(routes)|)
  {
    ActiveOfLength(routes);
    if routes == [] || excess == 0 {
    } else {
      PruningLength(routes[1..], if routes[0].active then excess else excess - 1);
    }
  }

  lemma {:induction false} ActiveOfLength(routes: seq<Route>)
    ensures |ActiveOf(routes)| <= |routes|
  {
    if routes == [] {
    } else {
      ActiveOfLength(routes[1..]);
    }
  }

  function ActiveCompartments(routes: seq<Route>): set<string> {
    if routes == [] then {}
    else (if routes[0].active then {routes[0].compartmentId} else {}) + ActiveCompartments(routes[1..])
  }

  lemma {:induction false} CompartmentHasRoute(routes: seq<Route>, c: string) returns (i: nat)
    requires c in ActiveCompartments(routes)
    ensures i < |routes| && routes[i].active && routes[i].compartmentId == c
  {
    if routes[0].active && routes[0].compartmentId == c {
      i := 0;
    } else {
      var k := CompartmentHasRoute(routes[1..], c);
      i := k + 1;
    }
  }

  lemma {:induction false} ActiveAreDistinct(routes: seq<Route>, bindings: map<string, Binding>, counter: nat)
    requires Ordered(routes, counter) && ActiveAreBound(routes, bindings)
    ensures |ActiveCompartments(routes)| == |ActiveOf(routes)|
  {
    if routes == [] {
    } else {
      ActiveAreDistinct(routes[1..], bindings, counter);
      if routes[0].active && routes[0].compartmentId in ActiveCompartments(routes[1..]) {
        var i := CompartmentHasRoute(routes[1..], routes[0].compartmentId);
        assert false;
      }
    }
  }

  lemma {:induction false} SubsetSize<T>(a: set<T>, b: set<T>)
    requires a <= b
    ensures |a| <= |b|
  {
    if a == {} {
    } else {
      var x :| x in a;
      SubsetSize(a - {x}, b - {x});
    }
  }

  /** The active routes are no more than the bound compartments. */
  lemma ActiveAtMostBound(routes: seq<Route>, bindings: map<string, Binding>, counter: nat)
    requires Ordered(routes, counter) && ActiveAreBound(routes, bindings)
    ensures |ActiveOf(routes)| <= |bindings|
  {
    ActiveAreDistinct(routes, bindings, counter);
    forall c | c in ActiveCompartments(routes) ensures c in bindings.Keys {
      var i := CompartmentHasRoute(routes, c);
    }
    SubsetSize(ActiveCompartments(routes), bindings.Keys);
  }

  /** The routes of a state after deactivating and adding, before pruning. */
  function Grown(routes: seq<Route>, added: Route): seq<Route> {
    Deactivate(routes, added.compartmentId) + [added]
  }

  lemma GrownOrdered(routes: seq<Route>, counter: nat, added: Route)
    requires Ordered(routes, counter) && added.id == counter + 1
    ensures Ordered(Grown(routes, added), counter + 1)
  {
  }

  lemma GrownByIndex(routes: seq<Route>, bindings: map<string, Binding>, counter: nat, added: Route, b: Binding)
    requires Ordered(routes, counter) && ActiveAreBound(routes, bindings)
    requires added.id == counter + 1 == b.routeId && added.active
    ensures Ordered(Grown(routes, added), counter + 1)
    ensures ActiveAreBound(Grown(routes, added), bindings[added.compartmentId := b])
  {
  }

  lemma GrownById(routes: seq<Route>, counter: nat, added: Route, id: nat)
    requires Ordered(routes, counter) && added.id == counter + 1
    ensures var before := RouteById(routes, id);
            var after := RouteById(Grown(routes, added), id);
            && (id == added.id ==> after == Some(added))
            && (id != added.id ==> after.Some? == before.Some?)
            && (id != added.id && before.Some? ==>
                  after.value
                  == if before.value.compartmentId == added.compartmentId then before.value.(active := false)
                     else before.value)
  {
    ByIdDeactivate(routes, added.compartmentId, id);
    ByIdAppend(Deactivate(routes, added.compartmentId), added, id);
    if id > counter { ByIdBound(routes, counter, id); }
    if RouteById(routes, id).Some? {
      assert id <= counter;
    }
  }

  lemma GrownNames(routes: seq<Route>, bindings: map<string, Binding>, counter: nat, added: Route, b: Binding)
    requires Ordered(routes, counter) && BindingsNameActive(routes, bindings)
    requires added.id == counter + 1 == b.routeId && added.active
    ensures BindingsNameActive(Grown(routes, added), bindings[added.compartmentId := b])
  {
    var bindings' := bindings[added.compartmentId := b];
    forall c | c in bindings' ensures Names(Grown(routes, added), bindings'[c].routeId, c) {
      GrownById(routes, counter, added, bindings'[c].routeId);
      if c != added.compartmentId {
        assert Names(routes, bindings[c].routeId, c);
        if bindings[c].routeId > counter { ByIdBound(routes, counter, bindings[c].routeId); }
      }
    }
  }

  lemma PruneKeeps(routes: seq<Route>, maxRoutes: nat, bindings: map<string, Binding>, counter: nat, profileId: string)
    requires Ordered(routes, counter) && ActiveAreBound(routes, bindings) && OneProfile(routes, profileId)
    requires BindingsNameActive(routes, bindings)
    ensures var left := Prune(routes, maxRoutes);
            && Ordered(left, counter) && ActiveAreBound(left, bindings) && OneProfile(left, profileId)
            && BindingsNameActive(left, bindings)
            && |left| <= Max(maxRoutes, |bindings|)
  {
    if |routes| > maxRoutes {
      var excess := |routes| - maxRoutes;
      DropKeeps(routes, excess, counter, bindings, profileId);
      PruningLength(routes, excess);
      ActiveAtMostBound(routes, bindings, counter);
      forall c | c in bindings ensures Names(DropInactive(routes, excess), bindings[c].routeId, c) {
        assert Names(routes, bindings[c].routeId, c);
        ByIdDrop(routes, excess, counter, bindings[c].routeId);
      }
    }
  }

  /** Assigning keeps the one-to-one correspondence and the bound on kept routes. */
  lemma AssignKeepsCoherent(s: State, ctx: Context, now: int)
    requires Coherent(s) && FirstEnabled(s.profiles).Some?
    ensures Coherent(Assign(s, ctx, now, FirstEnabled(s.profiles).value))
  {
    var profile := FirstEnabled(s.profiles).value;
    var t := Assign(s, ctx, now, profile);
    var added := NewRoute(s, ctx, now, profile);
    var b := t.bindings[ctx.compartmentId];
    GrownByIndex(s.routes, s.bindings, s.counter, added, b);
    GrownNames(s.routes, s.bindings, s.counter, added, b);
    assert OneProfile(Grown(s.routes, added), profile.id);
    PruneKeeps(Grown(s.routes, added), s.maxRoutes, t.bindings, t.counter, profile.id);
    CountedAfter(s.counts, s.bindings, ctx.compartmentId, CountOf(s, ctx.compartmentId) + 1, b);
  }

  lemma CountedAfter(counts: map<string, nat>, bindings: map<string, Binding>, c: string, n: nat, b: Binding)
    requires Counted(counts, bindings) && n >= 1
    ensures Counted(counts[c := n], bindings[c := b])
  {
    assert counts[c := n].Keys == counts.Keys + {c};
    assert bindings[c := b].Keys == bindings.Keys + {c};
  }

  /** In a coherent state a compartment resolves to a route exactly when it is bound. */
  lemma ResolveWhenBound(s: State, c: string)
    requires BindingsNameActive(s.routes, s.bindings)
    ensures Resolve(s, c).Some? <==> c in s.bindings
    ensures c in s.bindings ==> Resolve(s, c) == RouteById(s.routes, s.bindings[c].routeId)
    ensures c in s.bindings ==>
              Resolve(s, c).value.id == s.bindings[c].routeId && Resolve(s, c).value.compartmentId == c
  {
    if c in s.bindings { assert Names(s.routes, s.bindings[c].routeId, c); }
  }

  /** What one assignment does to any route, found by id. */
  lemma AssignById(s: State, ctx: Context, now: int, profile: Profile, id: nat)
    requires Ordered(s.routes, s.counter)
    ensures var before := RouteById(s.routes, id);
            var after := RouteById(Assign(s, ctx, now, profile).routes, id);
            && (id == s.counter + 1 ==> after == Some(NewRoute(s, ctx, now, profile)))
            && (id != s.counter + 1 && after.Some? ==>
                  before.Some? && after.value.(active := true) == before.value.(active := true))
  {
    var added := NewRoute(s, ctx, now, profile);
    GrownById(s.routes, s.counter, added, id);
    var grown := Grown(s.routes, added);
    if |grown| > s.maxRoutes {
      GrownOrdered(s.routes, s.counter, added);
      ByIdDrop(grown, |grown| - s.maxRoutes, s.counter + 1, id);
    }
  }

  // ---- Runs -------------------------------------------------------------------

  datatype Op =
    | RegisterProfile(profile: Profile)
    | EvaluateOp(ctx: Context, now: int)
    | AssignOp(ctx: Context, now: int)
    | SetPolicy(policy: RotationPolicy)

  predicate HasProfile(ps: seq<Profile>, id: string) {
    exists i :: 0 <= i < |ps| && ps[i].id == id
  }

  /** A duplicate profile, and an assignment without an enabled profile, throw. */
  function Step(s: State, op: Op): State {
    match op
    case RegisterProfile(p) => if HasProfile(s.profiles, p.id) then s else s.(profiles := s.profiles + [p])
    case EvaluateOp(ctx, now) => Evaluate(s, ctx, now).0
    case AssignOp(ctx, now) =>
      if FirstEnabled(s.profiles).None? then s else Assign(s, ctx, now, FirstEnabled(s.profiles).value)
    case SetPolicy(p) => s.(policy := p)
  }

  function Initial(profiles: seq<Profile>, policy: RotationPolicy, maxRoutes: nat): State {
    State(profiles, [], map[], map[], 0, policy, maxRoutes)
  }

  function Run(s: State, ops: seq<Op>): State
    decreases |ops|
  {
    if ops == [] then s else Step(Run(s, ops[..|ops| - 1]), ops[|ops| - 1])
  }

  lemma StepKeepsCoherent(s: State, op: Op)
    requires Coherent(s)
    ensures Coherent(Step(s, op))
  {
    match op
    case RegisterProfile(p) =>
      if FirstEnabled(s.profiles).Some? { FirstEnabledStays(s.profiles, p); }
    case EvaluateOp(ctx, now) =>
      if FirstEnabled(s.profiles).Some? { AssignKeepsCoherent(s, ctx, now); }
    case AssignOp(ctx, now) =>
      if FirstEnabled(s.profiles).Some? { AssignKeepsCoherent(s, ctx, now); }
    case SetPolicy(_) =>
  }

  lemma {:induction false} RunKeepsCoherent(s: State, ops: seq<Op>)
    requires Coherent(s)
    ensures Coherent(Run(s, ops))
    decreases |ops|
  {
    if ops == [] {
    } else {
      RunKeepsCoherent(s, ops[..|ops| - 1]);
      StepKeepsCoherent(Run(s, ops[..|ops| - 1]), ops[|ops| - 1]);
    }
  }

  /**
   In every reachable state bindings and active routes are in one-to-one
   correspondence, and the routes kept are at most the larger of the limit and
   the number of bound compartments.
   */
  lemma RunsAreCoherent(profiles: seq<Profile>, policy: RotationPolicy, maxRoutes: nat, ops: seq<Op>)
    ensures Coherent(Run(Initial(profiles, policy, maxRoutes), ops))
  {
    RunKeepsCoherent(Initial(profiles, policy, maxRoutes), ops);
  }

  /**
   `shouldRotate` is reported exactly when an active route was replaced by
   another, and a decision that reuses or denies leaves the state alone.
   */
  lemma RotationIsReplacement(s: State, ctx: Context, now: int)
    requires Coherent(s)
    ensures var (t, d) := Evaluate(s, ctx, now);
            var c := ctx.compartmentId;
            && ((d.Allowed? && d.shouldRotate) <==>
                (Resolve(s, c).Some? && Resolve(t, c).Some? && Resolve(t, c).value.id != Resolve(s, c).value.id))
            && (d.Allowed? ==> Resolve(t, c).Some? && Resolve(t, c).value.id == d.routeId)
            && (d.Denied? || d.reason == Reused ==> t == s)
  {
    var (t, d) := Evaluate(s, ctx, now);
    var c := ctx.compartmentId;
    ResolveWhenBound(s, c);
    if d.Allowed? && d.reason != Reused {
      AssignById(s, ctx, now, FirstEnabled(s.profiles).value, s.counter + 1);
      assert Resolve(t, c) == Some(NewRoute(s, ctx, now, FirstEnabled(s.profiles).value));
      if c in s.bindings && s.bindings[c].routeId > s.counter {
        ByIdBound(s.routes, s.counter, s.bindings[c].routeId);
      }
    }
  }

  /** An assignment reports `rotated` exactly when the compartment had an active route. */
  lemma RotatedMeansReplaced(s: State, ctx: Context, now: int, profile: Profile)
    requires Coherent(s)
    ensures AssignmentMade(s, ctx, now, profile).rotated <==> Resolve(s, ctx.compartmentId).Some?
  {
    ResolveWhenBound(s, ctx.compartmentId);
  }

  // ---- One route, one identity ------------------------------------------------

  datatype Entry = Entry(ctx: Context, decision: Decision)

  function NewEntries(s: State, op: Op): seq<Entry> {
    if op.EvaluateOp? && Evaluate(s, op.ctx, op.now).1.Allowed?
    then [Entry(op.ctx, Evaluate(s, op.ctx, op.now).1)] else []
  }

  /** The allowed decisions of a run, in order. */
  function Log(s: State, ops: seq<Op>): seq<Entry>
    decreases |ops|
  {
    if ops == [] then []
    else Log(s, ops[..|ops| - 1]) + NewEntries(Run(s, ops[..|ops| - 1]), ops[|ops| - 1])
  }

  predicate FixedPolicy(ops: seq<Op>) {
    forall i :: 0 <= i < |ops| ==> !ops[i].SetPolicy?
  }

  predicate SameIdentity(a: Entry, b: Entry, persona: bool)
    requires a.decision.Allowed? && b.decision.Allowed?
  {
    a.decision.routeId == b.decision.routeId ==>
      && a.ctx.compartmentId == b.ctx.compartmentId
      && a.decision.profileId == b.decision.profileId
      && (persona ==> a.ctx.personaId == b.ctx.personaId)
  }

  /** A logged decision still says what its route, if kept, is. */
  predicate Faithful(s: State, e: Entry, persona: bool) {
    && e.decision.Allowed? && e.decision.routeId <= s.counter
    && var r := RouteById(s.routes, e.decision.routeId);
       r.Some? ==> && r.value.compartmentId == e.ctx.compartmentId
                   && r.value.profileId == e.decision.profileId
                   && (persona ==> r.value.personaId == e.ctx.personaId)
  }

  predicate Identified(s: State, log: seq<Entry>, persona: bool) {
    && (forall e :: e in log ==> Faithful(s, e, persona))
    && (forall a, b :: a in log && b in log ==> SameIdentity(a, b, persona))
  }

  /** Exactly the rotation policies under which a route never changes persona. */
  predicate SeparatesPersonas(p: RotationPolicy) {
    p.enabled && (p.onPersona || p.onCategory || p.maxAssignments <= 1)
  }

  lemma AssignKeepsFaithful(s: State, ctx: Context, now: int, profile: Profile, e: Entry, persona: bool)
    requires Ordered(s.routes, s.counter) && Faithful(s, e, persona)
    ensures Faithful(Assign(s, ctx, now, profile), e, persona)
  {
    AssignById(s, ctx, now, profile, e.decision.routeId);
  }

  lemma StepKeepsFaithful(s: State, op: Op, e: Entry, persona: bool)
    requires Ordered(s.routes, s.counter) && Faithful(s, e, persona)
    ensures Faithful(Step(s, op), e, persona)
  {
    if (op.EvaluateOp? || op.AssignOp?) && FirstEnabled(s.profiles).Some? {
      AssignKeepsFaithful(s, op.ctx, op.now, FirstEnabled(s.profiles).value, e, persona);
    }
  }

  lemma NewEntryFaithful(s: State, ctx: Context, now: int, persona: bool)
    requires Coherent(s) && Evaluate(s, ctx, now).1.Allowed?
    requires persona ==> SeparatesPersonas(s.policy)
    ensures Faithful(Evaluate(s, ctx, now).0, Entry(ctx, Evaluate(s, ctx, now).1), persona)
  {
    var c := ctx.compartmentId;
    ResolveWhenBound(s, c);
    if Evaluate(s, ctx, now).1.reason == Reused {
      var r := Resolve(s, c).value;
      assert s.counts[c] >= 1;
      if r.id > s.counter { ByIdBound(s.routes, s.counter, r.id); }
      var i := IndexOfId(s.routes, r.id);
    } else {
      AssignById(s, ctx, now, FirstEnabled(s.profiles).value, s.counter + 1);
    }
  }

  lemma OldAndNewAgree(s: State, ctx: Context, now: int, e: Entry, persona: bool)
    requires Coherent(s) && Evaluate(s, ctx, now).1.Allowed? && Faithful(s, e, persona)
    requires persona ==> SeparatesPersonas(s.policy)
    ensures SameIdentity(e, Entry(ctx, Evaluate(s, ctx, now).1), persona)
    ensures SameIdentity(Entry(ctx, Evaluate(s, ctx, now).1), e, persona)
  {
    ResolveWhenBound(s, ctx.compartmentId);
    if Evaluate(s, ctx, now).1.reason == Reused {
      NewEntryFaithful(s, ctx, now, persona);
    }
  }

  lemma IdentifiedAfter(s: State, op: Op, log: seq<Entry>, persona: bool)
    requires Coherent(s) && Identified(s, log, persona)
    requires persona ==> SeparatesPersonas(s.policy)
    ensures Identified(Step(s, op), log + NewEntries(s, op), persona)
  {
    forall e | e in log ensures Faithful(Step(s, op), e, persona) {
      StepKeepsFaithful(s, op, e, persona);
    }
    if NewEntries(s, op) != [] {
      var added := NewEntries(s, op)[0];
      NewEntryFaithful(s, op.ctx, op.now, persona);
      forall e | e in log ensures SameIdentity(e, added, persona) && SameIdentity(added, e, persona) {
        OldAndNewAgree(s, op.ctx, op.now, e, persona);
      }
    }
  }

  lemma StepKeepsPolicy(s: State, op: Op)
    requires !op.SetPolicy?
    ensures Step(s, op).policy == s.policy
  {
  }

  lemma {:induction false} PolicyStays(s: State, ops: seq<Op>)
    requires FixedPolicy(ops)
    ensures Run(s, ops).policy == s.policy
    decreases |ops|
  {
    if ops == [] {
    } else {
      PolicyStays(s, ops[..|ops| - 1]);
      StepKeepsPolicy(Run(s, ops[..|ops| - 1]), ops[|ops| - 1]);
    }
  }

  lemma {:induction false} RunIdentified(s: State, ops: seq<Op>, persona: bool)
    requires Coherent(s)
    requires persona ==> SeparatesPersonas(s.policy) && FixedPolicy(ops)
    ensures Identified(Run(s, ops), Log(s, ops), persona)
    decreases |ops|
  {
    if ops == [] {
    } else {
      var before := ops[..|ops| - 1];
      RunIdentified(s, before, persona);
      RunKeepsCoherent(s, before);
      if persona { PolicyStays(s, before); }
      IdentifiedAfter(Run(s, before), ops[|ops| - 1], Log(s, before), persona);
    }
  }

  /** Over any run, policy changes included, a route id means one compartment and one relay profile. */
  lemma RouteMeansOneCompartment(profiles: seq<Profile>, policy: RotationPolicy, maxRoutes: nat, ops: seq<Op>,
          a: Entry, b: Entry)
    requires var log := Log(Initial(profiles, policy, maxRoutes), ops); a in log && b in log
    ensures a.decision.Allowed? && b.decision.Allowed? && SameIdentity(a, b, false)
  {
    RunIdentified(Initial(profiles, policy, maxRoutes), ops, false);
  }

  predicate PersonasSeparate(s: State, ops: seq<Op>) {
    forall a, b :: (a in Log(s, ops) && b in Log(s, ops) && a.decision.Allowed? && b.decision.Allowed?
                    && a.decision.routeId == b.decision.routeId) ==> a.ctx.personaId == b.ctx.personaId
  }

  lemma SeparatedRun(s: State, ops: seq<Op>)
    requires Coherent(s) && SeparatesPersonas(s.policy) && FixedPolicy(ops)
    ensures PersonasSeparate(s, ops)
  {
    RunIdentified(s, ops, true);
    forall a, b | a in Log(s, ops) && b in Log(s, ops) && a.decision.Allowed? && b.decision.Allowed?
                  && a.decision.routeId == b.decision.routeId
      ensures a.ctx.personaId == b.ctx.personaId
    {
      assert SameIdentity(a, b, true);
    }
  }

  /**
   A route id carries one persona in all runs of a rotation policy exactly when
   the policy is enabled and rotates on persona or category, or at every request.
   The default policy does.
   */
  lemma RouteMeansOnePersonaExactly(policy: RotationPolicy, maxRoutes: nat)
    ensures SeparatesPersonas(DEFAULT_POLICY)
    ensures (forall ops :: FixedPolicy(ops) ==> PersonasSeparate(Initial([DEFAULT_PROFILE], policy, maxRoutes), ops))
            <==> SeparatesPersonas(policy)
  {
    var s := Initial([DEFAULT_PROFILE], policy, maxRoutes);
    if SeparatesPersonas(policy) {
      forall ops | FixedPolicy(ops) ensures PersonasSeparate(s, ops) {
        SeparatedRun(s, ops);
      }
    } else {
      var ops := SharedRoute(policy, maxRoutes);
      assert FixedPolicy(ops);
    }
  }

  const FIRST := Context("c", Some("finance"), None, false, false, false, true, false, None)
  const SECOND := FIRST.(personaId := Some("health"))

  /** Without separation, two requests of different personas share a route. */
  lemma SharedRoute(policy: RotationPolicy, maxRoutes: nat) returns (ops: seq<Op>)
    requires !SeparatesPersonas(policy)
    ensures FixedPolicy(ops) && !PersonasSeparate(Initial([DEFAULT_PROFILE], policy, maxRoutes), ops)
  {
    var s := Initial([DEFAULT_PROFILE], policy, maxRoutes);
    var one := [EvaluateOp(FIRST, 0)];
    ops := one + [EvaluateOp(SECOND, 0)];
    assert one[..0] == [] && ops[..1] == one;
    var (t, d) := Evaluate(s, FIRST, 0);
    assert Run(s, one) == t && Log(s, one) == [Entry(FIRST, d)];
    AssignById(s, FIRST, 0, DEFAULT_PROFILE, 1);
    assert Resolve(t, "c").Some? && CountOf(t, "c") == 1;
    var (u, e) := Evaluate(t, SECOND, 0);
    assert d.routeId == e.routeId == 1;
    var log := Log(s, ops);
    assert log == [Entry(FIRST, d), Entry(SECOND, e)];
    assert log[0] in log && log[1] in log;
    assert FIRST.personaId.value[0] != SECOND.personaId.value[0];
  }

  // ---- The assignment ceiling never resets ------------------------------------

  lemma {:induction false} CountNeverFalls(s: State, ops: seq<Op>, c: string)
    ensures CountOf(Run(s, ops), c) >= CountOf(s, c)
    decreases |ops|
  {
    if ops == [] {
    } else {
      CountNeverFalls(s, ops[..|ops| - 1], c);
    }
  }

  /**
   The assignment counter belongs to the compartment and is never reset: once it
   has reached the ceiling, every later allowed request gets a new route.
   */
  lemma RotatesForEver(s: State, ops: seq<Op>, ctx: Context, now: int)
    requires Coherent(s) && FixedPolicy(ops) && s.policy.enabled
    requires ctx.compartmentId in s.bindings && CountOf(s, ctx.compartmentId) >= s.policy.maxAssignments
    ensures var d := Evaluate(Run(s, ops), ctx, now).1; d.Allowed? ==> d.shouldRotate
  {
    RunKeepsCoherent(s, ops);
    PolicyStays(s, ops);
    CountNeverFalls(s, ops, ctx.compartmentId);
    BindingsStay(s, ops, ctx.compartmentId);
    ResolveWhenBound(Run(s, ops), ctx.compartmentId);
  }

  lemma {:induction false} BindingsStay(s: State, ops: seq<Op>, c: string)
    requires c in s.bindings
    ensures c in Run(s, ops).bindings
    decreases |ops|
  {
    if ops == [] {
    } else {
      BindingsStay(s, ops[..|ops| - 1], c);
    }
  }

  // ---- What a decision remembers ----------------------------------------------

  predicate FirstEnabledAt(ps: seq<Profile>, i: nat) {
    i < |ps| && ps[i].enabled && forall j :: 0 <= j < i ==> !ps[j].enabled
  }

  lemma {:induction false} FirstEnabledIsFirst(ps: seq<Profile>)
    ensures FirstEnabled(ps).None? <==> forall i :: 0 <= i < |ps| ==> !ps[i].enabled
    ensures forall i: nat :: FirstEnabledAt(ps, i) ==> FirstEnabled(ps) == Some(ps[i])
  {
    if ps == [] {
    } else {
      FirstEnabledIsFirst(ps[1..]);
      assert forall i :: 1 <= i < |ps| ==> ps[i] == ps[1..][i - 1];
      assert forall i :: 0 <= i < |ps[1..]| ==> ps[1..][i] == ps[i + 1];
      forall i: nat | FirstEnabledAt(ps, i) ensures FirstEnabled(ps) == Some(ps[i]) {
        if i > 0 { assert FirstEnabledAt(ps[1..], i - 1); }
      }
    }
  }

  /** Exactly when a request is denied: a quarantined compartment, no transport, or no enabled profile. */
  lemma DeniedExactly(s: State, ctx: Context, now: int)
    ensures Evaluate(s, ctx, now).1.Denied?
            <==> ctx.quarantined || !ctx.transportEnabled
                 || forall i :: 0 <= i < |s.profiles| ==> !s.profiles[i].enabled
  {
    FirstEnabledIsFirst(s.profiles);
  }

  datatype Given = Given(routeId: nat, personaId: Option<string>, level: Level)

  /** What one operation newly gives to a compartment, as its answer says. */
  function GivenBy(s: State, op: Op, c: string): Option<Given> {
    match op
    case EvaluateOp(ctx, now) =>
      var d := Evaluate(s, ctx, now).1;
      if ctx.compartmentId == c && d.Allowed? && d.reason != Reused then Some(Given(d.routeId, ctx.personaId, d.level))
      else None
    case AssignOp(ctx, now) =>
      if ctx.compartmentId == c && FirstEnabled(s.profiles).Some? then
        var a := AssignmentMade(s, ctx, now, FirstEnabled(s.profiles).value);
        Some(Given(a.routeId, ctx.personaId, a.level))
      else None
    case _ => None
  }

  /** The last route a compartment was newly given in a run, and how often it was given one. */
  function LastGiven(s: State, ops: seq<Op>, c: string): Option<Given>
    decreases |ops|
  {
    if ops == [] then None
    else
      var given := GivenBy(Run(s, ops[..|ops| - 1]), ops[|ops| - 1], c);
      if given.Some? then given else LastGiven(s, ops[..|ops| - 1], c)
  }

  function TimesGiven(s: State, ops: seq<Op>, c: string): nat
    decreases |ops|
  {
    if ops == [] then 0
    else
      TimesGiven(s, ops[..|ops| - 1], c)
      + (if GivenBy(Run(s, ops[..|ops| - 1]), ops[|ops| - 1], c).Some? then 1 else 0)
  }

  predicate Remembers(s: State, c: string, given: Option<Given>, times: nat) {
    && CountOf(s, c) == times
    && (given.None? <==> Resolve(s, c).None?)
    && (given.Some? ==>
          && Resolve(s, c).value.id == given.value.routeId <= s.counter
          && Resolve(s, c).value.personaId == given.value.personaId
          && c in s.bindings && s.bindings[c].level == given.value.level)
  }

  lemma AssignRemembers(s: State, ctx: Context, now: int, profile: Profile, c: string, given: Option<Given>, times: nat)
    requires Coherent(s) && FirstEnabled(s.profiles) == Some(profile) && Remembers(s, c, given, times)
    ensures var t := Assign(s, ctx, now, profile);
            if c == ctx.compartmentId
            then Remembers(t, c, Some(Given(s.counter + 1, ctx.personaId, LevelFor(ctx, profile))), times + 1)
            else Remembers(t, c, given, times)
  {
    var t := Assign(s, ctx, now, profile);
    AssignKeepsCoherent(s, ctx, now);
    ResolveWhenBound(s, c);
    ResolveWhenBound(t, c);
    if c in t.bindings { AssignById(s, ctx, now, profile, t.bindings[c].routeId); }
  }

  lemma StepRemembers(s: State, op: Op, c: string, given: Option<Given>, times: nat)
    requires Coherent(s) && Remembers(s, c, given, times)
    ensures var newly := GivenBy(s, op, c);
            Remembers(Step(s, op), c, if newly.Some? then newly else given, times + (if newly.Some? then 1 else 0))
  {
    if (op.EvaluateOp? || op.AssignOp?) && FirstEnabled(s.profiles).Some? {
      AssignRemembers(s, op.ctx, op.now, FirstEnabled(s.profiles).value, c, given, times);
    }
  }

  /** In every run a compartment's route, its persona, its level and its count are those last given. */
  lemma {:induction false} RunRemembers(s: State, ops: seq<Op>, c: string)
    requires Coherent(s) && Remembers(s, c, None, 0)
    ensures Coherent(Run(s, ops)) && Remembers(Run(s, ops), c, LastGiven(s, ops, c), TimesGiven(s, ops, c))
    decreases |ops|
  {
    if ops == [] {
    } else {
      var before := ops[..|ops| - 1];
      RunRemembers(s, before, c);
      StepKeepsCoherent(Run(s, before), ops[|ops| - 1]);
      StepRemembers(Run(s, before), ops[|ops| - 1], c, LastGiven(s, before, c), TimesGiven(s, before, c));
    }
  }

  /** What calls for another route, from the request and from what the run gave its compartment before. */
  predicate CallsForRotation(p: RotationPolicy, ctx: Context, given: Given, times: nat) {
    && p.enabled
    && (|| (ctx.personaRotated && p.onPersona)
        || (ctx.categoryChanged && p.onCategory)
        || (ctx.criticalRisk && p.onCritical)
        || (given.personaId != ctx.personaId && (p.onPersona || p.onCategory))
        || times >= p.maxAssignments)
  }

  /** The level asked for, or else that of the first enabled profile. */
  predicate IsLevelFor(level: Level, s: State, ctx: Context) {
    if ctx.level.Some? then level == ctx.level.value
    else exists i :: 0 <= i < |s.profiles| && FirstEnabledAt(s.profiles, i) && level == s.profiles[i].level
  }

  /**
   Every allowed decision of every run, from what the run gave out before: a
   compartment with a route rotates exactly when something calls for it, and
   otherwise gets its last route and level again; a new route has an id of its
   own and the level asked for.
   */
  lemma DecisionExactly(profiles: seq<Profile>, policy: RotationPolicy, maxRoutes: nat, ops: seq<Op>, ctx: Context,
          now: int)
    ensures var start := Initial(profiles, policy, maxRoutes);
            var s, d := Run(start, ops), Evaluate(Run(start, ops), ctx, now).1;
            var given, times := LastGiven(start, ops, ctx.compartmentId), TimesGiven(start, ops, ctx.compartmentId);
            d.Allowed? ==>
              && (exists i :: 0 <= i < |s.profiles| && FirstEnabledAt(s.profiles, i) && d.profileId == s.profiles[i].id)
              && (d.shouldRotate <==> given.Some? && CallsForRotation(s.policy, ctx, given.value, times))
              && (if given.Some? && !d.shouldRotate
                  then d.routeId == given.value.routeId && d.level == given.value.level
                  else d.routeId == s.counter + 1 && IsLevelFor(d.level, s, ctx))
  {
    var start := Initial(profiles, policy, maxRoutes);
    var c := ctx.compartmentId;
    RunRemembers(start, ops, c);
    var s := Run(start, ops);
    ResolveWhenBound(s, c);
    FirstEnabledIsFirst(s.profiles);
    if FirstEnabled(s.profiles).Some? {
      var i := LeastEnabled(s.profiles);
    }
  }

  /**
   Under the default policy a compartment's route stays for its persona until the
   persona or the category changes, the risk is critical, or it was given fifty times.
   */
  lemma DefaultRotatesExactly(profiles: seq<Profile>, maxRoutes: nat, ops: seq<Op>, ctx: Context, now: int)
    requires FixedPolicy(ops)
    ensures var start := Initial(profiles, DEFAULT_POLICY, maxRoutes);
            var d, given := Evaluate(Run(start, ops), ctx, now).1, LastGiven(start, ops, ctx.compartmentId);
            d.Allowed? && given.Some? ==>
              (d.shouldRotate <==>
                 || ctx.personaRotated || ctx.categoryChanged || ctx.criticalRisk
                 || ctx.personaId != given.value.personaId || TimesGiven(start, ops, ctx.compartmentId) >= 50)
  {
    DecisionExactly(profiles, DEFAULT_POLICY, maxRoutes, ops, ctx, now);
    PolicyStays(Initial(profiles, DEFAULT_POLICY, maxRoutes), ops);
  }

  lemma {:induction false} LeastEnabled(ps: seq<Profile>) returns (i: nat)
    requires FirstEnabled(ps).Some?
    ensures FirstEnabledAt(ps, i)
  {
    if ps[0].enabled {
      i := 0;
    } else {
      var rest := LeastEnabled(ps[1..]);
      i := rest + 1;
      assert forall j :: 1 <= j < |ps| ==> ps[j] == ps[1..][j - 1];
    }
  }

  // ---- Routes that nobody had before ------------------------------------------

  /** The route ids a run has handed out, by decisions and by assignments. */
  function HandedOut(s: State, ops: seq<Op>): seq<nat>
    decreases |ops|
  {
    if ops == [] then []
    else
      var before, op := ops[..|ops| - 1], ops[|ops| - 1];
      var t, earlier := Run(s, before), HandedOut(s, before);
      match op
      case EvaluateOp(ctx, now) =>
        var d := Evaluate(t, ctx, now).1;
        if d.Allowed? then earlier + [d.routeId] else earlier
      case AssignOp(ctx, now) =>
        if FirstEnabled(t.profiles).Some?
        then earlier + [AssignmentMade(t, ctx, now, FirstEnabled(t.profiles).value).routeId] else earlier
      case _ => earlier
  }

  lemma {:induction false} HandedOutBelow(s: State, ops: seq<Op>)
    requires Coherent(s)
    ensures forall id :: id in HandedOut(s, ops) ==> id <= Run(s, ops).counter
    decreases |ops|
  {
    if ops == [] {
    } else {
      var before := ops[..|ops| - 1];
      HandedOutBelow(s, before);
      RunKeepsCoherent(s, before);
      var t := Run(s, before);
      if ops[|ops| - 1].EvaluateOp? {
        var c := ops[|ops| - 1].ctx.compartmentId;
        ResolveWhenBound(t, c);
        if Resolve(t, c).Some? && Resolve(t, c).value.id > t.counter {
          ByIdBound(t.routes, t.counter, Resolve(t, c).value.id);
        }
      }
    }
  }

  datatype Trigger = PersonaRotated | CategoryChanged | AtCriticalRisk

  predicate Fires(trigger: Trigger, ctx: Context) {
    match trigger
    case PersonaRotated => ctx.personaRotated
    case CategoryChanged => ctx.categoryChanged
    case AtCriticalRisk => ctx.criticalRisk
  }

  predicate RotatesOn(p: RotationPolicy, trigger: Trigger) {
    match trigger
    case PersonaRotated => p.onPersona
    case CategoryChanged => p.onCategory
    case AtCriticalRisk => p.onCritical
  }

  /** After these operations a request is denied or gets a route id that nobody had before. */
  predicate GetsNewRoute(s: State, ops: seq<Op>, ctx: Context, now: int) {
    var d := Evaluate(Run(s, ops), ctx, now).1;
    d.Allowed? ==> d.routeId !in HandedOut(s, ops)
  }

  /** In all runs of this rotation policy, a request at which the trigger fires gets a route nobody had. */
  ghost predicate AlwaysNew(s: State, trigger: Trigger) {
    forall ops, ctx, now :: FixedPolicy(ops) && Fires(trigger, ctx) ==> GetsNewRoute(s, ops, ctx, now)
  }

  /**
   A request at critical risk, of a rotated persona or of a changed category never
   gets a route id handed out earlier in the run, for all runs of a rotation
   policy, exactly when the policy is enabled and rotates on that or at every
   request.
   */
  lemma NewRouteExactly(profiles: seq<Profile>, policy: RotationPolicy, maxRoutes: nat, trigger: Trigger)
    requires exists i :: 0 <= i < |profiles| && profiles[i].enabled
    ensures AlwaysNew(Initial(profiles, policy, maxRoutes), trigger)
            <==> policy.enabled && (RotatesOn(policy, trigger) || policy.maxAssignments <= 1)
  {
    var s := Initial(profiles, policy, maxRoutes);
    if policy.enabled && (RotatesOn(policy, trigger) || policy.maxAssignments <= 1) {
      forall ops, ctx, now | FixedPolicy(ops) && Fires(trigger, ctx) ensures GetsNewRoute(s, ops, ctx, now) {
        TriggeredIsNew(profiles, policy, maxRoutes, trigger, ops, ctx, now);
      }
    } else {
      ReusedAtTrigger(profiles, policy, maxRoutes, trigger);
    }
  }

  lemma {:induction false} GivenMeansCounted(s: State, ops: seq<Op>, c: string)
    ensures LastGiven(s, ops, c).Some? <==> TimesGiven(s, ops, c) >= 1
    decreases |ops|
  {
    if ops == [] {
    } else {
      GivenMeansCounted(s, ops[..|ops| - 1], c);
    }
  }

  lemma TriggeredIsNew(profiles: seq<Profile>, policy: RotationPolicy, maxRoutes: nat, trigger: Trigger, ops: seq<Op>,
          ctx: Context, now: int)
    requires policy.enabled && (RotatesOn(policy, trigger) || policy.maxAssignments <= 1)
    requires FixedPolicy(ops) && Fires(trigger, ctx)
    ensures GetsNewRoute(Initial(profiles, policy, maxRoutes), ops, ctx, now)
  {
    var s := Initial(profiles, policy, maxRoutes);
    DecisionExactly(profiles, policy, maxRoutes, ops, ctx, now);
    GivenMeansCounted(s, ops, ctx.compartmentId);
    PolicyStays(s, ops);
    HandedOutBelow(s, ops);
  }

  /** A request at which just this trigger fires, from the persona of `FIRST`. */
  function Triggered(trigger: Trigger): Context {
    match trigger
    case PersonaRotated => FIRST.(personaRotated := true)
    case CategoryChanged => FIRST.(categoryChanged := true)
    case AtCriticalRisk => FIRST.(criticalRisk := true)
  }

  lemma ReusedAtTrigger(profiles: seq<Profile>, policy: RotationPolicy, maxRoutes: nat, trigger: Trigger)
    requires exists i :: 0 <= i < |profiles| && profiles[i].enabled
    requires !(policy.enabled && (RotatesOn(policy, trigger) || policy.maxAssignments <= 1))
    ensures !AlwaysNew(Initial(profiles, policy, maxRoutes), trigger)
  {
    var s, ops := Initial(profiles, policy, maxRoutes), [EvaluateOp(FIRST, 0)];
    assert ops[..0] == [];
    FirstEnabledIsFirst(profiles);
    DecisionExactly(profiles, policy, maxRoutes, [], FIRST, 0);
    DecisionExactly(profiles, policy, maxRoutes, ops, Triggered(trigger), 0);
    var d := Evaluate(s, FIRST, 0).1;
    assert LastGiven(s, ops, "c") == Some(Given(d.routeId, FIRST.personaId, d.level));
    assert HandedOut(s, ops) == [d.routeId];
    assert Evaluate(Run(s, ops), Triggered(trigger), 0).1.routeId == d.routeId;
    assert !GetsNewRoute(s, ops, Triggered(trigger), 0);
  }

  // ---- Configuration and numbering over runs ------------------------------------

  /** The profiles registered: each id once, as first registered. */
  function Registered(profiles: seq<Profile>, ops: seq<Op>): seq<Profile>
    decreases |ops|
  {
    if ops == [] then profiles
    else
      var before, op := Registered(profiles, ops[..|ops| - 1]), ops[|ops| - 1];
      if op.RegisterProfile? && forall p :: p in before ==> p.id != op.profile.id then before + [op.profile] else before
  }

  function LastPolicy(policy: RotationPolicy, ops: seq<Op>): RotationPolicy
    decreases |ops|
  {
    if ops == [] then policy
    else if ops[|ops| - 1].SetPolicy? then ops[|ops| - 1].policy
    else LastPolicy(policy, ops[..|ops| - 1])
  }

  /** How many routes a run has newly given, to any compartment. */
  function RoutesGiven(s: State, ops: seq<Op>): nat
    decreases |ops|
  {
    if ops == [] then 0
    else
      var before, op := ops[..|ops| - 1], ops[|ops| - 1];
      RoutesGiven(s, before)
      + (if (op.EvaluateOp? || op.AssignOp?) && GivenBy(Run(s, before), op, op.ctx.compartmentId).Some? then 1 else 0)
  }

  /** Runs keep what was registered and set, and number their routes one by one. */
  lemma {:induction false} RunsKeepConfiguration(profiles: seq<Profile>, policy: RotationPolicy, maxRoutes: nat,
          ops: seq<Op>)
    ensures var start := Initial(profiles, policy, maxRoutes);
            var s := Run(start, ops);
            && s.profiles == Registered(profiles, ops) && s.policy == LastPolicy(policy, ops)
            && s.maxRoutes == maxRoutes && s.counter == RoutesGiven(start, ops)
    decreases |ops|
  {
    if ops == [] {
    } else {
      var start, before := Initial(profiles, policy, maxRoutes), ops[..|ops| - 1];
      RunsKeepConfiguration(profiles, policy, maxRoutes, before);
      StepKeepsConfiguration(Run(start, before), ops[|ops| - 1]);
    }
  }

  lemma StepKeepsConfiguration(s: State, op: Op)
    ensures var t := Step(s, op);
            && t.maxRoutes == s.maxRoutes
            && t.policy == (if op.SetPolicy? then op.policy else s.policy)
            && t.profiles == (if op.RegisterProfile? && forall p :: p in s.profiles ==> p.id != op.profile.id
                              then s.profiles + [op.profile] else s.profiles)
            && t.counter == s.counter + (if (op.EvaluateOp? || op.AssignOp?)
                                            && GivenBy(s, op, op.ctx.compartmentId).Some? then 1 else 0)
  {
  }

  /** Which denial is reported, and which cause of a rotation: the first that holds, in this order. */
  lemma ReasonExactly(s: State, ctx: Context, now: int)
    ensures var d := Evaluate(s, ctx, now).1;
            && (d.reason == Quarantined <==> ctx.quarantined)
            && (d.reason == TransportDisabled <==> !ctx.quarantined && !ctx.transportEnabled)
            && (d.Denied? ==> d.reason in {Quarantined, TransportDisabled, NoRelay})
            && (d.Allowed? && d.shouldRotate ==>
                  && (d.reason == Rotated(PersonaRotation) <==> ctx.personaRotated)
                  && (d.reason == Rotated(CategoryChange) <==> ctx.categoryChanged && !ctx.personaRotated)
                  && (d.reason == Rotated(CriticalRisk)
                      <==> ctx.criticalRisk && !ctx.categoryChanged && !ctx.personaRotated)
                  && d.reason.Rotated?)
  {
  }
}
