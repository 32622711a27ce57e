/** The engine of packages/core/src/network-isolation/engine.ts, with its maps and its counter. */
module NetworkIsolationEngine {
  import opened Numbers
  import opened Wrappers
  import N = NetworkIsolation
  import opened NetworkIsolation

  datatype Error = DuplicateProfile(id: string) | NoEnabledProfile

  class Engine {
    var profiles: seq<Profile>
    var routes: seq<Route>
    var bindings: map<string, Binding>
    var assignmentCounts: map<string, nat>
    var routeCounter: nat
    var rotationPolicy: RotationPolicy
    const maxRoutes: nat

    ghost function View(): State
      reads this
    {
      State(profiles, routes, bindings, assignmentCounts, routeCounter, rotationPolicy, maxRoutes)
    }

    /** Active routes and bindings correspond, and pruning has kept up. */
    ghost predicate Valid()
      reads this
    {
      Coherent(View())
    }

    /** The default profile is seeded unless the caller says otherwise. */
    constructor (requested: Option<real>, policy: RotationPolicy, seedDefault: bool)
      ensures Valid() && maxRoutes >= 1 && (requested.None? ==> maxRoutes == 500)
      ensures View() == Initial(if seedDefault then [DEFAULT_PROFILE] else [], policy,
                                Capacity(requested, DEFAULT_MAX_ROUTES))
    {
      maxRoutes := if requested.None? then DEFAULT_MAX_ROUTES else Max(1, requested.value.Floor);
      rotationPolicy := policy;
      profiles := if seedDefault then [DEFAULT_PROFILE] else [];
      routes, bindings, assignmentCounts, routeCounter := [], map[], map[], 0;
    }

    method RegisterRelayProfile(profile: Profile) returns (r: Result<(), Error>)
      requires Valid()
      modifies this`profiles
      ensures Valid() && View() == Step(old(View()), RegisterProfile(profile))
      ensures r.Failure? <==> HasProfile(old(profiles), profile.id)
    {
      StepKeepsCoherent(View(), RegisterProfile(profile));
      var i := 0;
      while i < |profiles|
        invariant 0 <= i <= |profiles|
        invariant forall j :: 0 <= j < i ==> profiles[j].id != profile.id
      {
        if profiles[i].id == profile.id { return Failure(DuplicateProfile(profile.id)); }
        i := i + 1;
      }
      profiles := profiles + [profile];
      r := Success(());
    }

    method SetRotationPolicy(policy: RotationPolicy)
      requires Valid()
      modifies this`rotationPolicy
      ensures Valid() && View() == Step(old(View()), SetPolicy(policy))
    {
      rotationPolicy := policy;
    }

    method FirstEnabledProfile() returns (p: Option<Profile>)
      ensures p == FirstEnabled(profiles)
    {
      var i := 0;
      while i < |profiles|
        invariant 0 <= i <= |profiles|
        invariant FirstEnabled(profiles) == FirstEnabled(profiles[i..])
      {
        if profiles[i].enabled { return Some(profiles[i]); }
        assert profiles[i..][1..] == profiles[i + 1..];
        i := i + 1;
      }
      p := None;
    }

    /** Switches off the compartment's active route, in place. */
    method DeactivateRoutes(compartmentId: string)
      modifies this`routes
      ensures routes == Deactivate(old(routes), compartmentId)
    {
      var i := 0;
      while i < |routes|
        invariant 0 <= i <= |routes| == |old(routes)|
        invariant forall j :: 0 <= j < i ==> routes[j] == Deactivate(old(routes), compartmentId)[j]
        invariant forall j :: i <= j < |routes| ==> routes[j] == old(routes)[j]
      {
        if routes[i].compartmentId == compartmentId && routes[i].active {
          routes := routes[i := routes[i].(active := false)];
        }
        i := i + 1;
      }
    }

    /** Deletes inactive routes from the oldest on until the limit is met. */
    method PruneRoutes()
      modifies this`routes
      ensures routes == Prune(old(routes), maxRoutes)
    {
      if |routes| <= maxRoutes { return; }
      var i := 0;
      ghost var seen := 0;
      while i < |routes|
        invariant 0 <= i <= |routes| && 0 <= seen <= |old(routes)|
        invariant |routes| >= maxRoutes
        invariant routes[i..] == old(routes)[seen..]
        invariant Prune(old(routes), maxRoutes)
                  == routes[..i] + DropInactive(old(routes)[seen..], |routes| - maxRoutes)
        decreases |old(routes)| - seen
      {
        ghost var rest := old(routes)[seen..];
        assert rest[1..] == old(routes)[seen + 1..];
        if |routes| <= maxRoutes {
          assert routes[..i] + rest == routes;
          return;
        }
        if !routes[i].active {
          routes := routes[..i] + routes[i + 1..];
        } else {
          assert routes[..i + 1] == routes[..i] + [rest[0]];
          i := i + 1;
        }
        seen := seen + 1;
      }
      assert routes[..i] + [] == routes;
    }

    /** Assigning, once the profile is chosen. */
    method InstallRoute(ctx: Context, now: int, profile: Profile) returns (assignment: Assignment)
      modifies this`routes, this`bindings, this`assignmentCounts, this`routeCounter
      ensures View() == Assign(old(View()), ctx, now, profile)
      ensures assignment == AssignmentMade(old(View()), ctx, now, profile)
    {
      DeactivateRoutes(ctx.compartmentId);
      var level := if ctx.level.Some? then ctx.level.value else profile.level;
      routeCounter := routeCounter + 1;
      routes := routes
        + [Route(routeCounter, profile.id, ctx.compartmentId, ctx.personaId, ctx.fragmentId, now, true)];
      bindings := bindings[ctx.compartmentId := Binding(routeCounter, level, now)];
      var count := (if ctx.compartmentId in assignmentCounts then assignmentCounts[ctx.compartmentId] else 0) + 1;
      assignmentCounts := assignmentCounts[ctx.compartmentId := count];
      PruneRoutes();
      assignment := Assignment(routeCounter, profile.id, ctx.compartmentId, level, count, now, count > 1);
    }

    method AssignRoute(ctx: Context, now: int) returns (r: Result<Assignment, Error>)
      requires Valid()
      modifies this
      ensures Valid() && View() == Step(old(View()), AssignOp(ctx, now))
      ensures var profile := FirstEnabled(old(profiles));
              r == if profile.None? then Failure(NoEnabledProfile)
                   else Success(AssignmentMade(old(View()), ctx, now, profile.value))
    {
      StepKeepsCoherent(View(), AssignOp(ctx, now));
      var first := FirstEnabledProfile();
      if first.None? { return Failure(NoEnabledProfile); }
      var assignment := InstallRoute(ctx, now, first.value);
      r := Success(assignment);
    }

    method FindRoute(id: nat) returns (r: Option<Route>)
      ensures r == RouteById(routes, id)
    {
      var i := 0;
      while i < |routes|
        invariant 0 <= i <= |routes|
        invariant RouteById(routes, id) == RouteById(routes[i..], id)
      {
        if routes[i].id == id { return Some(routes[i]); }
        assert routes[i..][1..] == routes[i + 1..];
        i := i + 1;
      }
      r := None;
    }

    method ResolveRoute(compartmentId: string) returns (r: Option<Route>)
      ensures r == Resolve(View(), compartmentId)
    {
      if compartmentId !in bindings { return None; }
      r := FindRoute(bindings[compartmentId].routeId);
      if r.Some? && !r.value.active { r := None; }
    }

    method MustRotate(ctx: Context) returns (rotate: bool)
      ensures rotate == ShouldRotate(View(), ctx)
    {
      var p := rotationPolicy;
      if !p.enabled { return false; }
      if p.onPersona && ctx.personaRotated { return true; }
      if p.onCategory && ctx.categoryChanged { return true; }
      if p.onCritical && ctx.criticalRisk { return true; }
      if p.onPersona || p.onCategory {
        if ctx.compartmentId in bindings {
          var route := FindRoute(bindings[ctx.compartmentId].routeId);
          if route.Some? && route.value.personaId != ctx.personaId { return true; }
        }
      }
      var count := if ctx.compartmentId in assignmentCounts then assignmentCounts[ctx.compartmentId] else 0;
      rotate := count >= p.maxAssignments;
    }

    method EvaluateIsolation(ctx: Context, now: int) returns (d: Decision)
      requires Valid()
      modifies this
      ensures Valid() && View() == N.Evaluate(old(View()), ctx, now).0
      ensures d == N.Evaluate(old(View()), ctx, now).1
    {
      if ctx.quarantined { return Denied(Quarantined); }
      if !ctx.transportEnabled { return Denied(TransportDisabled); }
      var first := FirstEnabledProfile();
      if first.None? { return Denied(NoRelay); }
      var profile := first.value;
      var existing := ResolveRoute(ctx.compartmentId);
      if existing.None? {
        var assignment := AssignRoute(ctx, now);
        return Allowed(profile.id, assignment.value.routeId, assignment.value.level, false, Assigned);
      }
      var rotate := MustRotate(ctx);
      if rotate {
        var assignment := AssignRoute(ctx, now);
        d := Allowed(profile.id, assignment.value.routeId, assignment.value.level, true, Rotated(CauseOf(ctx)));
      } else {
        d := Allowed(profile.id, existing.value.id, bindings[ctx.compartmentId].level, false, Reused);
      }
    }
  }
}
