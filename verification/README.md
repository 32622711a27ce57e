# A model of the local gateway's in-memory engines

The repository is a local gateway that decides, in small deterministic in-memory
engines, which requests of research agents go out and how. This project models
those engines and proves what they keep over whole runs.

| files | what they model |
|---|---|
| `Socks5.dfy`, `Socks5Client.dfy` | the client side of the SOCKS5 handshake: a byte stream read chunk by chunk, and the messages it prints |
| `CapabilityGraph.dfy`, `CapabilityGraphEngine.dfy` | execution paths per compartment, the ten-rule path decision, the node and edge graph, and the server's evaluate, await, record protocol |
| `NetworkIsolation.dfy`, `NetworkIsolationEngine.dfy` | logical routes: assignment, rotation, bindings and pruning |
| `RateLimit.dfy`, `RateLimiter.dfy` | sliding-window rate limits and temporary blocks |
| `MultiAgent.dfy`, `AgentRuntime.dfy` | the agent registry with quotas, scheduler, leases and trust isolation |
| `Behavior.dfy`, `BehavioralPrivacy.dfy` | burst detection, behaviour scores and the decisions taken from them |
| `Fragments.dfy`, `FragmentManager.dfy` | identity fragments and their request limits |
| `Persona.dfy`, `PersonaEngine.dfy` | search personas, their rotation, risk and fragment bindings |
| `Jitter.dfy` | the hash, the base jitter and the scaled delay |
| `Audit.dfy`, `AuditLog.dfy` | the bounded audit log and its queries |
| `Firewall.dfy`, `FirewallEngines.dfy` | policies compiled to first-match rules, and the direct evaluator beside them |
| `Common.dfy` | bounds and rounding, and the tools and risk levels several engines name |
| `Wrappers.dfy` | optional values and results |

Each engine appears twice. One file gives its state as a value and each operation
as a function on it, and proves the laws. The other gives the class with the
source's own fields and loops, each method proved to take the state to what the
function says; a class whose state has an invariant carries it as `Valid()`. Runs are lists of operations applied from the empty state; a law
over runs holds for every such list.

Time is an explicit argument wherever the source reads its clock, and no order of
readings is assumed unless a lemma says so. Ids that the source draws at random
come from a counter, which is what their freshness amounts to. A JavaScript `Map`
whose iteration order matters is a sequence (or a map with its insertion order),
one whose order does not is a `map`; keys joined from strings are pairs. Records
held in a `Map` are values that methods replace: the source hands out copies only,
so no alias can tell the difference. Text enters the handshake as the bytes it
encodes to, and the jitter's hash as its UTF-16 code units.

## What the code does that its documentation does not say

The laws follow the code. Where the code does something its comments or documents
do not say, or a law needs a condition, a lemma states it:

- **Rate limits.** A policy whose own action is `allow`, once exceeded, hides every
  ceiling registered after it: for one request exactly when it is the first policy
  exceeded (`AllowedOverCeilingExactly`), and over runs for all limits, windows and
  scopes (`EarlierAllowPolicyLiftsCeiling`). Whatever limits are set, a ceiling holds
  exactly when no enabled `allow` policy is registered before it
  (`CeilingHoldsExactly`). Clearing the policies forgets every window
  (`CeilingOncePerClearing`). A client that waits exactly `retryAfterMs` is still
  over the limit, because the window is closed at both ends and refused requests
  count too (`RetryAtResetIsStillOver`).
- **Routes.** The assignment counter belongs to the compartment and never resets;
  once at its ceiling, every later request rotates (`RotatesForEver`). A route keeps
  one persona only under some rotation policies (`RouteMeansOnePersonaExactly`).
- **Scheduler.** With a global ceiling of one, two idle agents keep everybody out
  (`CeilingOfOneDeadlocks`).
- **Trust.** A direct write to the registry skips the isolation engine: trust below 20
  can be written to an agent that stays idle (`UnguardedWriteEscapes`,
  `DirectWriteEnforcesExactly`). An order to restrict replaces a quarantine
  (`OrdersExactly`).
- **Leases.** An evicted agent, which the registry says can acquire no lease, is
  granted one (`EvictedAgentGetsLease`).
- **Capability paths.** Requests that overlap are recorded without a second check:
  the length limit can be passed by exactly the overlap less one
  (`OverlapBoundIsReached`), licensing and high-risk blocking fail from two requests
  at a time on (`LicensingSurvivesExactly`, `HighRiskBlockingSurvivesExactly`), and
  the path rules together hold exactly without overlap (`SafeExactlyWithoutOverlap`).
- **Behaviour.** The two accesses each request records count as a burst, so any agent
  is denied for good from its 17th request on (`DeniedForGood`,
  `SpacedAgentDecidedExactly`); decay passes do not help.
- **Personas.** They are looked up by category, so two switches of the segmentation
  policy, rotation on category change and isolation of sensitive categories, never
  have any effect (`SwitchesChangeNothing`).
- **Fragments and personas.** Request and search limits hold exactly for usable
  policies in pipeline runs (`RequestLimitHoldsExactly`, `SearchLimitHoldsExactly`); a
  search recorded by itself passes the limit of a used-up persona
  (`LoneSearchWithinLimitExactly`).
- **Jitter.** The base jitter leaves its range exactly when twice the width reaches
  2^31 - 1 (`BaseInRangeExactly`); one point of score shortens a delay when the risk
  is given apart from it, exactly for risks above low (`FirstPointShortensExactly`),
  which the engine, classifying the risk from the score, never does
  (`EngineDelayMonotone`).
- **Firewall.** Compiled rules ask for confirmation whenever a threshold is set, the
  direct evaluator only above it (`ConfirmationAgreesExactly`); compiled rules also
  allow covered requests that the direct evaluator calls malformed
  (`VerdictsAgreeExactly`).
- **SOCKS5.** Credentials longer than 255 bytes are sent with a truncated length
  (`AuthRoundTrip`). A proxy that selects authentication without being offered it is
  sent credentials all the same, with an empty username (`MessagesExactly`). A wrong
  reply header is noticed only when four bytes are there (`CanStillConnect`). An
  unusable destination throws inside the data listener instead of rejecting the
  promise (the outcome `Threw`).

## Model

| member | source | states |
|---|---|---|
| Socks5Client.BuildSocks5ConnectRequest | packages/transport-router/src/index.ts:58-67 | the bytes written are the request for this host and port, a proxy decodes exactly them from it, and too long a host or a port out of range is an error |
| Socks5.ConnectRoundTrip | packages/transport-router/src/index.ts:58-67 | decoding a request by section 4 of RFC 1928, with anything behind it, gives back host, port and the rest |
| Socks5.ConnectPrefixFree | packages/transport-router/src/index.ts:58-67 | no request is a prefix of another, so a proxy can tell where one ends |
| Socks5.AuthRoundTrip | packages/transport-router/src/index.ts:123-133 | the username and password message decodes to the same credentials if and only if both fit in 255 bytes |
| Socks5.UnbuildableExactly | packages/transport-router/src/index.ts:58-66 | which destinations cannot be asked for, and which error says so |
| Socks5.GreetingExactly | packages/transport-router/src/index.ts:87-189 | whatever arrives and whatever goes wrong, the first message, decoded by section 3 of RFC 1928, offers exactly one method: username and password if and only if the caller gave a non-empty username |
| Socks5.MessagesExactly | packages/transport-router/src/index.ts:117-153 | on every stream, however cut: after the greeting an authentication message if and only if the proxy selects that method, carrying the username and the password or else the username again, each cut off at its length byte; then one CONNECT if and only if the stream gets that far |
| Socks5.CredentialsSentExactly | packages/transport-router/src/index.ts:87-189 | with a proxy that selects the method it was offered, credentials are written if and only if there is a username |
| Socks5Client.Handshake.constructor | packages/transport-router/src/index.ts:87-90 | a handshake starts waiting for the method, nothing settled, with the greeting out that offers authentication if and only if there is a username |
| Socks5Client.Handshake.Fail | packages/transport-router/src/index.ts:101-111 | rejects the promise if it is open and changes nothing otherwise |
| Socks5Client.Handshake.SendConnect | packages/transport-router/src/index.ts:113-115 | writes the request and moves to the reply, or throws and moves nowhere |
| Socks5Client.Handshake.Process | packages/transport-router/src/index.ts:117-153 | the recursive reader updating stage and buffer takes the state where the state machine says |
| Socks5Client.Handshake.ProcessReply | packages/transport-router/src/index.ts:155-178 | the reply branch consumes a reply of any address type, hands over the leftover, and reports each malformed field |
| Socks5Client.Handshake.OnData | packages/transport-router/src/index.ts:180-183 | a chunk is appended and read while the handshake is open, and ignored afterwards |
| Socks5.ProcessIsIncremental | packages/transport-router/src/index.ts:117-183 | reading some bytes and then more is reading all of them at once; once settled, extra bytes only follow the leftover |
| Socks5.ChunkingIsIrrelevant | packages/transport-router/src/index.ts:101-183 | for every stream and every cutting into chunks: same messages, same outcome as one reading by position, and on success leftover plus unread chunks are exactly what follows the reply |
| Socks5.ConnectsExactlyOnScripts | packages/transport-router/src/index.ts:117-178 | the handshake connects on a stream if and only if it starts with a well-formed successful conversation, encoded field by field, and consumes exactly that |
| Socks5.FailureIsFinal | packages/transport-router/src/index.ts:117-171 | no further byte changes a failure |
| Socks5.CanStillConnect | packages/transport-router/src/index.ts:117-173 | some continuation of a stream connects if and only if it has connected or waits without holding a wrong fragment |
| Socks5.SettlesAndConnectsOnce | packages/transport-router/src/index.ts:101-183 | over any interleaving of chunks, errors, closing and timeout the promise settles at most once, CONNECT is written at most once, and before any success |
| Socks5.EndIsFinal | packages/transport-router/src/index.ts:94-107 | once settled or thrown, no event changes anything |
| Socks5.FaultRejectsForGood | packages/transport-router/src/index.ts:92-111 | a socket error, closing or the timeout rejects an open handshake with that error, whatever follows |
| CapabilityGraph.ActionExactly | packages/core/src/capability-graph/engine.ts:275-386 | for every state, request and action, when that action is taken: with room on the path and a change of tool, the first enabled rule for the pair gives its own action if the risk exceeds its maximum, else rotation if and only if it forbids escalation and the risk rises above the last entry, else approval if and only if the policy asks for it, else leave; anything else is allowed or refused as named |
| CapabilityGraph.RiskExactly | packages/core/src/capability-graph/engine.ts:286-298 | a refusal has blocked risk; any other decision is high or medium if and only if the request or some entry is, and low otherwise |
| CapabilityGraph.ReasonExactly | packages/core/src/capability-graph/engine.ts:294-386 | which of the ten rules is reported: the first that applies, in their order |
| CapabilityGraph.FindRuleIsFirst | packages/core/src/capability-graph/engine.ts:482-492 | the rule found is the one no enabled rule for the same pair precedes |
| CapabilityGraph.AdmitsExactly | packages/core/src/capability-graph/engine.ts:275-386 | a capability is admitted if and only if there is an enabled policy, room on the path, no high risk where blocked, and a rule that lets a change of tool through |
| CapabilityGraph.PolicyIsTheAccepted | packages/core/src/capability-graph/engine.ts:443-475 | in every run the policy that governs a compartment is the one accepted for it, the first with its id and compartment |
| CapabilityGraph.RulesAreTheAccepted | packages/core/src/capability-graph/engine.ts:431-436 | in every run the rules are the first of each id, in the order of registration |
| CapabilityGraph.TransitionRecordsExactly | packages/core/src/capability-graph/engine.ts:191-253 | a transition adds one node, of the kind and with the edge its action calls for, and one path entry if and only if it proceeds |
| CapabilityGraph.PathsTellWhatProceeded | packages/core/src/capability-graph/engine.ts:161-253 | in every run a path is exactly the tools and risks of the requests that proceeded in its compartment, in order |
| CapabilityGraph.TransitionRunsAreSafe | packages/core/src/capability-graph/engine.ts:191-253 | in every run of recorded transitions each path keeps its limit, changes tool only by an enabled rule, and with two or more entries has none of high risk under blocking |
| CapabilityGraph.HighRiskOpeningEndsPath | packages/core/src/capability-graph/engine.ts:300-341 | a path opened by a high-risk capability never grows under high-risk blocking |
| CapabilityGraph.RecordTransitionSound | packages/core/src/capability-graph/engine.ts:191-253 | recording a transition keeps edges forward, ends existing, paths disjoint, and transition edges equal to the consecutive pairs |
| CapabilityGraph.TransitionRunsAreSound | packages/core/src/capability-graph/engine.ts:161-253 | in every run of transitions the transition edges are exactly the consecutive pairs of the paths, each once, and paths share no node |
| CapabilityGraph.AddEdgeSound | packages/core/src/capability-graph/engine.ts:138-151 | an added edge keeps the graph sound when it runs from an earlier node to a later one |
| CapabilityGraph.RecordExecutionSound | apps/grl-server/src/local-api.ts:4947-4970 | the server's capability node, execution node and edge between them keep the graph sound |
| CapabilityGraph.ExecutionRecordsExactly | apps/grl-server/src/local-api.ts:4947-4970 | a success adds a capability node and an execution node, linked in this order and from the end of the path |
| CapabilityGraph.ServerPathsTellWhatSucceeded | apps/grl-server/src/local-api.ts:4947-4954 | however requests overlap, a path is exactly the requests that succeeded in its compartment, in the order they ended |
| CapabilityGraph.ServerNodesAreCounted | apps/grl-server/src/local-api.ts:4241-4298 | in every run of the server the graph holds one node per refusal and two per success |
| CapabilityGraph.ServerGraphIsSound | apps/grl-server/src/local-api.ts:4231-4298 | the graph stays sound over every run of the server's protocol, however requests overlap |
| CapabilityGraph.GraphIsAcyclic | packages/core/src/capability-graph/engine.ts:495-517 | no walk along edges returns to its start, and insertion order is a topological order |
| CapabilityGraph.OverlapBoundsPath | apps/grl-server/src/local-api.ts:4947-4954 | with at most k admitted requests of a compartment in flight its path never exceeds maxPathLength - 1 + k |
| CapabilityGraph.OverlapBoundIsReached | packages/core/src/capability-graph/engine.ts:161-182 | for every enabled policy and every k of at least one, some run with that overlap reaches the bound |
| CapabilityGraph.SerialServerIsSafe | apps/grl-server/src/local-api.ts:4873-4954 | while a compartment's requests do not overlap, the server's paths are as safe as recorded transitions |
| CapabilityGraph.SafeExactlyWithoutOverlap | apps/grl-server/src/local-api.ts:4231-4236 | over all runs with at most k requests of a compartment in flight, length limit, licensing and high-risk blocking all hold if and only if k is at most one or the policy opens no path |
| CapabilityGraph.LicensingSurvivesExactly | packages/core/src/capability-graph/engine.ts:331-337 | over all such runs every change of tool is licensed if and only if k is at most one, the policy opens no path, or every ordered pair of different tools is licensed |
| CapabilityGraph.HighRiskBlockingSurvivesExactly | packages/core/src/capability-graph/engine.ts:317-342 | over all such runs a blocking policy keeps a high-risk entry alone on its path if and only if k is at most one, the policy opens no path, or it blocks nothing |
| CapabilityGraphEngine.Engine.AddNode | packages/core/src/capability-graph/engine.ts:125-132 | a known id is refused without change, any other node is appended |
| CapabilityGraphEngine.Engine.AddEdge | packages/core/src/capability-graph/engine.ts:138-151 | succeeds if and only if the id is new and both ends exist |
| CapabilityGraphEngine.Engine.RecordCapabilityRequest | packages/core/src/capability-graph/engine.ts:161-182 | appends a node, links it from the last path entry if any, and advances the path |
| CapabilityGraphEngine.Engine.RecordTransition | packages/core/src/capability-graph/engine.ts:191-253 | evaluates, grows the path when admitted, else records a node and edge only, and returns the ids made |
| CapabilityGraphEngine.Engine.FindEnabledRule | packages/core/src/capability-graph/engine.ts:482-492 | the first enabled rule for the two tools |
| CapabilityGraphEngine.Engine.EvaluatePath | packages/core/src/capability-graph/engine.ts:275-386 | reads the maps without changing them and decides by the ten rules in order |
| CapabilityGraphEngine.Engine.RegisterTransitionRule | packages/core/src/capability-graph/engine.ts:431-436 | fails without change if and only if the id is known |
| CapabilityGraphEngine.Engine.RegisterIsolationPolicy | packages/core/src/capability-graph/engine.ts:443-454 | fails without change if and only if the id or the compartment is taken |
| CapabilityGraphEngine.RecordExecution | apps/grl-server/src/local-api.ts:4947-4970 | on a sound engine the server's three calls all succeed and leave it sound |
| NetworkIsolation.AssignKeepsCoherent | packages/core/src/network-isolation/engine.ts:124-179 | assigning keeps active routes and bindings in one-to-one correspondence and the kept routes within the larger of limit and bound compartments |
| NetworkIsolation.RunsAreCoherent | packages/core/src/network-isolation/engine.ts:124-259 | every reachable state is coherent, with profiles and policies changed at any time |
| NetworkIsolation.PruningIsFifo | packages/core/src/network-isolation/engine.ts:312-318 | pruning keeps every active route and drops inactive ones oldest first: up to some point only active routes remain, after it all do |
| NetworkIsolation.PruningLength | packages/core/src/network-isolation/engine.ts:312-318 | pruning stops at the limit or when no inactive route is left |
| NetworkIsolation.ResolveWhenBound | packages/core/src/network-isolation/engine.ts:174-179 | a compartment resolves to a route if and only if it is bound, and then to its own |
| NetworkIsolation.RotationIsReplacement | packages/core/src/network-isolation/engine.ts:216-259 | rotation is reported if and only if an active route was replaced; the returned route is the one bound afterwards; reuse and denial change nothing |
| NetworkIsolation.RotatedMeansReplaced | packages/core/src/network-isolation/engine.ts:156-170 | an assignment counts as a rotation if and only if the compartment had an active route |
| NetworkIsolation.RouteMeansOneCompartment | packages/core/src/network-isolation/engine.ts:216-259 | over any run, decisions with the same route id have the same compartment and relay profile |
| NetworkIsolation.RouteMeansOnePersonaExactly | packages/core/src/network-isolation/engine.ts:279-302 | they have the same persona in all runs if and only if the rotation policy is enabled and rotates on persona or category, or at every request; the default does |
| NetworkIsolation.RotatesForEver | packages/core/src/network-isolation/engine.ts:299-301 | once a compartment's assignment count is at the ceiling, every later allowed request rotates |
| NetworkIsolation.NewRouteExactly | packages/core/src/network-isolation/engine.ts:279-302 | a request at critical risk, of a rotated persona or of a changed category never gets a route id handed out earlier, for all runs of a rotation policy, if and only if the policy is enabled and rotates on that or at every request |
| NetworkIsolation.DeniedExactly | packages/core/src/network-isolation/engine.ts:216-235 | a request is denied if and only if its compartment is quarantined, transport is disabled or no registered profile is enabled |
| NetworkIsolation.DecisionExactly | packages/core/src/network-isolation/engine.ts:216-302 | every allowed decision of every run, from what the run gave out before: rotation if and only if something calls for it, else the last route and level again; a new route has its own id, the first enabled profile and the level asked for |
| NetworkIsolation.DefaultRotatesExactly | packages/core/src/network-isolation/engine.ts:279-302 | under the default policy a compartment's route is replaced if and only if the persona or category changed, the risk is critical, the persona is another, or it was given fifty times |
| NetworkIsolation.RunRemembers | packages/core/src/network-isolation/engine.ts:124-171 | in every run the route, persona, level and count kept for a compartment are those last given |
| NetworkIsolation.RunsKeepConfiguration | packages/core/src/network-isolation/engine.ts:89-122 | in every run the profiles are the first of each id, the policy is the last set, and the counter is the number of routes given |
| NetworkIsolation.ReasonExactly | packages/core/src/network-isolation/engine.ts:216-302 | which denial and which cause of a rotation is reported: the first that holds |
| NetworkIsolationEngine.Engine.constructor | packages/core/src/network-isolation/engine.ts:66-84 | the route limit is whole and at least one, or 500 if absent or not finite; the default profile is seeded unless declined; the start is coherent |
| NetworkIsolationEngine.Engine.RegisterRelayProfile | packages/core/src/network-isolation/engine.ts:89-94 | fails without change if and only if the id is known |
| NetworkIsolationEngine.Engine.DeactivateRoutes | packages/core/src/network-isolation/engine.ts:129-134 | the loop switches off exactly the compartment's routes, in place |
| NetworkIsolationEngine.Engine.PruneRoutes | packages/core/src/network-isolation/engine.ts:312-318 | the deleting loop leaves exactly the pruned list |
| NetworkIsolationEngine.Engine.AssignRoute | packages/core/src/network-isolation/engine.ts:124-171 | one assignment on the four fields, with its metadata, or an error without an enabled profile |
| NetworkIsolationEngine.Engine.ResolveRoute | packages/core/src/network-isolation/engine.ts:174-179 | the bound route if it is active |
| NetworkIsolationEngine.Engine.MustRotate | packages/core/src/network-isolation/engine.ts:279-302 | the rotation test on policy, flags, scope and count |
| NetworkIsolationEngine.Engine.EvaluateIsolation | packages/core/src/network-isolation/engine.ts:216-259 | the decision and the new state, denials first |
| RateLimit.BucketIsSurvivingHistory | packages/core/src/adaptive-defense/rate-limiter.ts:128-147 | in every run and for any clock, a bucket is exactly the part of the full history that no later window has excluded |
| RateLimit.BucketIsWindow | packages/core/src/adaptive-defense/rate-limiter.ts:135-140 | in every run with a non-decreasing clock a bucket is exactly the part of the full history inside the window of its latest request |
| RateLimit.AppliesExactly | packages/core/src/adaptive-defense/rate-limiter.ts:250-268 | a policy applies if and only if it is enabled and, for session scope, the request carries a non-empty session id |
| RateLimit.SharesBucketExactly | packages/core/src/adaptive-defense/rate-limiter.ts:250-268 | two requests a policy applies to share its bucket if and only if they agree in the agent, compartment, session or tool that its scope names |
| RateLimit.PoliciesAreRegistered | packages/core/src/adaptive-defense/rate-limiter.ts:83-99 | in every run the policies are the first of each id since the last clearing, in order |
| RateLimit.WithinLimitsAllowed | packages/core/src/adaptive-defense/rate-limiter.ts:172-189 | an unblocked request that exceeds nothing is allowed, with the least that any applying policy leaves, or the greatest safe integer if none applies |
| RateLimit.FirstExceededActs | packages/core/src/adaptive-defense/rate-limiter.ts:149-169 | the first exceeded policy gives action, reset and, for cooldown and temporary block only, how long to wait |
| RateLimit.RemainingExactly | packages/core/src/adaptive-defense/rate-limiter.ts:136-146 | what is reported as remaining is how many more simultaneous requests stay within the ceiling |
| RateLimit.ResetExactly | packages/core/src/adaptive-defense/rate-limiter.ts:136-146 | nothing recorded leaves the window if and only if the advertised reset has not passed |
| RateLimit.AllowMeansWithin | packages/core/src/adaptive-defense/rate-limiter.ts:149-189 | an allowed request is unblocked and within every applying ceiling that no allow policy precedes |
| RateLimit.AllowedOverCeilingExactly | packages/core/src/adaptive-defense/rate-limiter.ts:149-169 | an unblocked request that takes a policy of another action over its ceiling is allowed if and only if some exceeded policy with action allow has no exceeded policy before it |
| RateLimit.CeilingHolds | packages/core/src/adaptive-defense/rate-limiter.ts:114-189 | in any run with a non-decreasing clock, counted from the last clearing of policies, at most maxRequests requests that name one agent, compartment, session or tool, as the scope says, are allowed in any closed interval of window length, for a policy no allow policy precedes |
| RateLimit.EarlierAllowPolicyLiftsCeiling | packages/core/src/adaptive-defense/rate-limiter.ts:149-169 | for all limits, windows and scopes, an allow policy registered before another lets some run with a non-decreasing clock break the other's ceiling, unless a policy before it can refuse a burst |
| RateLimit.CeilingHoldsExactly | packages/core/src/adaptive-defense/rate-limiter.ts:114-189 | whatever limits are set, the ceiling of a policy holds in all such runs if and only if no enabled allow policy is registered before it |
| RateLimit.CeilingOncePerClearing | packages/core/src/adaptive-defense/rate-limiter.ts:96-99 | counted over the whole run, each clearing of the policies hands the ceiling out once more and no more than that |
| RateLimit.TightestIsFirstLeast | packages/core/src/adaptive-defense/rate-limiter.ts:180-188 | an allowed request reports the first of the evaluations with the least remaining |
| RateLimit.BlockedExactly | packages/core/src/adaptive-defense/rate-limiter.ts:229-246 | a request is stopped if and only if some live block names it; the first such block says until when, and nothing is recorded |
| RateLimit.StoppedExactly | packages/core/src/adaptive-defense/rate-limiter.ts:192-246 | in every run a request is stopped if and only if some block registered since blocks were last cleared altogether is live and names it |
| RateLimit.RetryAtResetIsStillOver | packages/core/src/adaptive-defense/rate-limiter.ts:136-167 | a retry exactly at the advertised time is over the limit again |
| RateLimit.ClearingKeepsDecisions | packages/core/src/adaptive-defense/rate-limiter.ts:208-246 | clearing expired blocks changes no later block match |
| RateLimit.ClearingKeepsLiveOnes | packages/core/src/adaptive-defense/rate-limiter.ts:208-217 | clearing keeps each unexpired block as often as it was there, and no other |
| RateLimit.ClearedRunHoldsLiveOnes | packages/core/src/adaptive-defense/rate-limiter.ts:208-217 | a run that ends with clearing holds exactly the blocks it held before that are still live |
| RateLimiter.CapabilityRateLimiter.RegisterPolicy | packages/core/src/adaptive-defense/rate-limiter.ts:83-88 | fails without change if and only if the id is known |
| RateLimiter.CapabilityRateLimiter.ClearPolicies | packages/core/src/adaptive-defense/rate-limiter.ts:96-99 | drops policies and windows and keeps blocks |
| RateLimiter.CapabilityRateLimiter.ActiveBlockFor | packages/core/src/adaptive-defense/rate-limiter.ts:229-246 | the first live matching block |
| RateLimiter.CapabilityRateLimiter.RecordInWindows | packages/core/src/adaptive-defense/rate-limiter.ts:128-147 | the loop rewrites exactly the buckets of applying policies and reports one evaluation for each |
| RateLimiter.CapabilityRateLimiter.Evaluate | packages/core/src/adaptive-defense/rate-limiter.ts:114-189 | decision and new windows of one request; a live block records nothing |
| RateLimiter.CapabilityRateLimiter.ClearExpiredBlocks | packages/core/src/adaptive-defense/rate-limiter.ts:208-217 | the backward splicing loop leaves exactly the live blocks and counts the others |
| MultiAgent.BlockedForEver | packages/core/src/multi-agent/registry.ts:184-208 | from a restricted, quarantined or evicted status on, without a direct status write, the agent stays blocked and quota, sessions, scheduler and isolation refuse it for ever; evicted stays evicted |
| MultiAgent.OnlyEvictedIsTerminal | packages/core/src/multi-agent/registry.ts:166-208 | no operation but a direct write changes a status if and only if it is evicted |
| MultiAgent.OrdersExactly | packages/core/src/multi-agent/registry.ts:166-208 | restricting and quarantining set exactly that status on any agent that is not evicted, so restricting lifts a quarantine |
| MultiAgent.NewcomerExactly | packages/core/src/multi-agent/registry.ts:78-98 | a newcomer is idle, trusted with 70, with nothing running and listed last; registering a known agent changes nothing |
| MultiAgent.DirectWriteExactly | packages/core/src/multi-agent/registry.ts:122-157 | a write changes exactly the fields it carries, each within its range, of that agent |
| MultiAgent.TrustStaysInRange | packages/core/src/multi-agent/registry.ts:143-145 | in every run, direct writes of anything included, trust stays within 0 to 100 |
| MultiAgent.LowTrustIsBlocked | packages/core/src/multi-agent/isolation.ts:116-188 | in every run whose direct writes leave nobody distrusted at large, an agent trusted below 20 is blocked |
| MultiAgent.DirectWriteEnforcesExactly | packages/core/src/multi-agent/registry.ts:137-145 | a direct trust write keeps low trust blocked if and only if the value is at least 20 or the agent is blocked, a direct status write if and only if the status blocks or the trust is at least 20 |
| MultiAgent.UnguardedWriteEscapes | packages/core/src/multi-agent/registry.ts:122-157 | any trust below 20 written to a newly registered agent leaves it idle with that trust |
| MultiAgent.ClampIsNearest | packages/core/src/multi-agent/registry.ts:143-145 | clamping gives the nearest value of 0 to 100 |
| MultiAgent.CheckExactly | packages/core/src/multi-agent/isolation.ts:62-104 | the gate opens if and only if the agent is ready and trusted with 40 or more; below 20 it quarantines, from 20 to 40 it restricts, and it changes nothing else |
| MultiAgent.DegradeExactly | packages/core/src/multi-agent/isolation.ts:171-188 | the amount comes off down to zero; quarantined or restricted afterwards if and only if it was or the new value is below 20 or 40 |
| MultiAgent.TallyIsAdditive | packages/core/src/multi-agent/isolation.ts:124-138 | the tally of two lists of compartments is the sum of their tallies, and each scored compartment counts once |
| MultiAgent.DerivedTrustIsMean | packages/core/src/multi-agent/isolation.ts:141-144 | the derived trust is the integer nearest the mean score, half up, or the old trust without scores |
| MultiAgent.DerivedTrustWithin | packages/core/src/multi-agent/isolation.ts:141-144 | the derived trust never leaves integer bounds that all scores and the old trust keep |
| MultiAgent.PropagateExactly | packages/core/src/multi-agent/isolation.ts:116-163 | quarantined afterwards if and only if it was or the derived trust is below 20; restricted if and only if not quarantined and it was or enough compartments score below 20 |
| MultiAgent.EvictionFreesExactly | packages/core/src/multi-agent/registry.ts:166-176 | eviction clears counts and lease of that agent only, keeps the rest, and a second one changes nothing |
| MultiAgent.MembershipIsJoining | packages/core/src/multi-agent/registry.ts:215-224 | in every run without direct compartment writes an agent is in exactly the compartments it joined once registered, each listed once |
| MultiAgent.CeilingsHold | packages/core/src/multi-agent/scheduler.ts:65-135 | if every start was scheduled, in every run the executions of all agents stay within the global ceiling and each agent within its quota |
| MultiAgent.AdmittedExactly | packages/core/src/multi-agent/scheduler.ts:65-135 | admitted if and only if the quota allows it, the ceiling leaves room, and it does not pass half the ceiling while another agent waits with nothing |
| MultiAgent.WaitingAgentAdmittedExactly | packages/core/src/multi-agent/scheduler.ts:110-134 | below the ceiling a waiting agent with quota is admitted if and only if the ceiling is at least two or nobody else waits |
| MultiAgent.CeilingOfOneDeadlocks | packages/core/src/multi-agent/scheduler.ts:121-131 | with a ceiling of one and two waiting agents nobody is admitted |
| MultiAgent.RefusalExactly | packages/core/src/multi-agent/scheduler.ts:65-135 | each refusal in exactly its case, with as many agents ahead as other ready agents are executing, or have nothing |
| MultiAgent.EndUndoesStart | packages/core/src/multi-agent/quotas.ts:72-102 | a start counts one up, an end lowers every positive count by one; an end undoes a start if and only if the status told whether something was running |
| MultiAgent.StatusTellsInRuns | packages/core/src/multi-agent/quotas.ts:72-102 | in every run without direct writes an agent is active only while something runs, and idle only while nothing does |
| MultiAgent.ViolationStreak | packages/core/src/multi-agent/quotas.ts:112-122 | for any number of violations in a row: restricted if and only if they reach the limit, and the count left is their remainder by it |
| MultiAgent.StartEndsStreak | packages/core/src/multi-agent/quotas.ts:72-83 | a recorded start clears the violations of its agent and of no other; a refused one clears none |
| MultiAgent.LeasesStaySound | packages/core/src/multi-agent/leases.ts:71-130 | in every run lease table and agent index are inverse and a lease shown in the registry is the live entry of that agent |
| MultiAgent.LookupIsLive | packages/core/src/multi-agent/leases.ts:146-152 | a lookup returns a lease if and only if it is the agent's stored, unexpired one |
| MultiAgent.AcquireReplaces | packages/core/src/multi-agent/leases.ts:71-96 | after acquiring, the new lease is the agent's only one and other agents keep theirs if unexpired |
| MultiAgent.ExpiryExactly | packages/core/src/multi-agent/leases.ts:121-130 | expiry removes a lease from table, index and runtime if and only if its time has come, and touches nothing else |
| MultiAgent.ReleaseUndoesAcquire | packages/core/src/multi-agent/leases.ts:71-113 | releasing the lease just acquired restores table, index and registry, if the agent held none and none had expired |
| MultiAgent.EvictedAgentGetsLease | packages/core/src/multi-agent/leases.ts:92-93 | an evicted agent is granted a lease and shows it |
| AgentRuntime.AgentRegistry.RegisterAgent | packages/core/src/multi-agent/registry.ts:78-98 | a known agent is returned as it is, evicted or not; a new one starts idle |
| AgentRuntime.AgentRegistry.UpdateAgent | packages/core/src/multi-agent/registry.ts:122-157 | writes the given fields, clamped, and ignores unknown agents |
| AgentRuntime.AgentRegistry.EvictAgent | packages/core/src/multi-agent/registry.ts:166-176 | evicts and clears counts and lease |
| AgentRuntime.AgentRegistry.RestrictAgent | packages/core/src/multi-agent/registry.ts:184-192 | restricts any agent that is not evicted |
| AgentRuntime.AgentRegistry.QuarantineAgent | packages/core/src/multi-agent/registry.ts:200-208 | quarantines any agent that is not evicted |
| AgentRuntime.AgentRegistry.AddCompartment | packages/core/src/multi-agent/registry.ts:215-224 | adds a compartment once |
| AgentRuntime.AgentQuotaManager.CanExecute | packages/core/src/multi-agent/quotas.ts:53-64 | true if and only if the agent is known, not blocked and below its quota |
| AgentRuntime.AgentQuotaManager.RecordExecutionStart | packages/core/src/multi-agent/quotas.ts:72-83 | counts up, wakes an idle agent, forgets its violations |
| AgentRuntime.AgentQuotaManager.RecordExecutionEnd | packages/core/src/multi-agent/quotas.ts:91-102 | counts down to zero at least and idles an active agent at zero |
| AgentRuntime.AgentQuotaManager.RecordViolation | packages/core/src/multi-agent/quotas.ts:112-122 | restricts at the limit and starts counting again, else only counts |
| AgentRuntime.AgentQuotaManager.CanCreateSession | packages/core/src/multi-agent/quotas.ts:130-141 | true if and only if the agent is known, not blocked and below its session maximum |
| MultiAgent.SessionsStayWithinQuota | packages/core/src/multi-agent/quotas.ts:130-167 | if every session is created after an allowed check, in every run, evictions and surplus closings included, each agent stays within its session maximum |
| MultiAgent.SessionGateIsExact | packages/core/src/multi-agent/quotas.ts:130-167 | one more session keeps an unblocked agent within its maximum if and only if the check allows it; closing undoes creating, and creating undoes closing if and only if a session was open |
| MultiAgent.SessionsOpenExactly | packages/core/src/multi-agent/quotas.ts:130-154 | behind the gate a session is opened if and only if the agent is active or idle and below its maximum |
| AgentRuntime.IsolationEngine.CheckIsolation | packages/core/src/multi-agent/isolation.ts:62-104 | refuses blocked agents, and blocks and refuses agents of low trust |
| AgentRuntime.IsolationEngine.PropagateCompartmentTrust | packages/core/src/multi-agent/isolation.ts:116-163 | the tallying loop sets trust to the rounded mean and restricts or quarantines |
| AgentRuntime.IsolationEngine.DegradeTrust | packages/core/src/multi-agent/isolation.ts:171-188 | lowers trust by the amount's size and blocks below the thresholds |
| AgentRuntime.RuntimeLeaseManager.ExpireLeases | packages/core/src/multi-agent/leases.ts:121-130 | visiting the leases in any order removes exactly the expired ones from table, index and registry |
| AgentRuntime.RuntimeLeaseManager.AcquireLease | packages/core/src/multi-agent/leases.ts:71-96 | expires, replaces and mirrors, at two clock readings |
| AgentRuntime.RuntimeLeaseManager.ReleaseLease | packages/core/src/multi-agent/leases.ts:104-113 | removes a known lease everywhere |
| AgentRuntime.RuntimeLeaseManager.GetAgentLease | packages/core/src/multi-agent/leases.ts:146-152 | expires, then looks up |
| Behavior.PatternsGrowWithRequests | packages/core/src/behavioral-privacy/correlation.ts:64-91 | whatever lies between requests and despite the cap, the k-th request is evaluated with at least min(k - 1, 49) patterns |
| Behavior.DeniedForGood | packages/core/src/behavioral-privacy/engine.ts:99-147 | from the 17th request on, with decay passes anywhere, an agent is denied if and only if the policy lets scores reach 80; the default does |
| Behavior.SpacedAgentDecidedExactly | apps/grl-server/src/local-api.ts:2495-2566 | an agent with requests well apart is delayed if and only if at least five went before, fragmented and rotated if and only if at least ten, denied if and only if at least sixteen |
| Behavior.DecisionFromScoreExactly | packages/core/src/behavioral-privacy/engine.ts:99-148 | for every state: delay if and only if the score is at least 25, fragmentation and transport rotation if and only if at least 50, denial if and only if at least 80 |
| Behavior.ScoreExactly | packages/core/src/behavioral-privacy/correlation.ts:72-111 | the score is ten for each topic at the threshold and five for each access less than 100 ms after the one before, up to the maximum; five and one hundred by default |
| Behavior.BucketIsLastHundred | packages/core/src/behavioral-privacy/correlation.ts:64-70 | in every run a bucket is the last hundred accesses of its agent |
| Behavior.TopicsCountObservations | packages/core/src/behavioral-privacy/correlation.ts:45-61 | each label is listed once, with the number of times it was observed |
| Behavior.ObservationsAreRemembered | packages/core/src/behavioral-privacy/engine.ts:84-93 | after any observations: the last hundred access times, every topic observed, an empty one counting as none, and the score they give |
| Behavior.ProfilesAgree | packages/core/src/behavioral-privacy/engine.ts:159-223 | in every run, decay passes included, a profile's stored score, risk and pattern count agree with each other and with the accesses |
| Behavior.DecayExactly | packages/core/src/behavioral-privacy/correlation.ts:132-136 | a decay pass lowers every profile by the amount, to zero at least, and forgets no access |
| Behavior.DisabledHoldsNobodyUp | packages/core/src/behavioral-privacy/correlation.ts:45-111 | under a disabled policy nothing is remembered in any run and every request is allowed at once |
| BehavioralPrivacy.CorrelationEngine.RecordAccess | packages/core/src/behavioral-privacy/correlation.ts:64-70 | appends to the agent's bucket and drops the oldest beyond one hundred |
| BehavioralPrivacy.CorrelationEngine.RecordTopic | packages/core/src/behavioral-privacy/correlation.ts:45-61 | counts a listed topic up in place or lists it |
| BehavioralPrivacy.CorrelationEngine.RepeatedTopicCount | packages/core/src/behavioral-privacy/correlation.ts:73-78 | how many topics reach the threshold |
| BehavioralPrivacy.CorrelationEngine.TemporalPatternCount | packages/core/src/behavioral-privacy/correlation.ts:81-91 | the loop counts neighbouring accesses less than 100 ms apart |
| BehavioralPrivacy.CorrelationEngine.UpdateBehaviorScore | packages/core/src/behavioral-privacy/correlation.ts:103-111 | stores and returns the capped weighted sum |
| BehavioralPrivacy.BehavioralPrivacyEngine.RecordBehavior | packages/core/src/behavioral-privacy/engine.ts:84-93 | records access and topic, then syncs the profile |
| BehavioralPrivacy.BehavioralPrivacyEngine.EvaluateRequest | packages/core/src/behavioral-privacy/engine.ts:99-148 | records the access first, decides fragmentation, delay and transport rotation from the risk it leads to, and recommends the jitter for that profile when a delay is required |
| BehavioralPrivacy.DelayGrowsWithScore | packages/core/src/behavioral-privacy/engine.ts:108-144 | a request is delayed if and only if its score is at least 25; the delay lies between the least and twice the greatest, and more score never shortens it |
| BehavioralPrivacy.BehavioralPrivacyEngine.SyncProfile | packages/core/src/behavioral-privacy/engine.ts:213-223 | score, risk and pattern count recomputed from the buckets |
| BehavioralPrivacy.BehavioralPrivacyEngine.ApplyTemporalDecay | packages/core/src/behavioral-privacy/engine.ts:159-174 | the loop over profiles lowers every profile's score once and leaves buckets alone |
| BehavioralPrivacy.HandleRequest | apps/grl-server/src/local-api.ts:2495-2566 | the pipeline's calls in order are one step of the model |
| Fragments.AtMostOneUsable | packages/core/src/behavioral-privacy/fragmentation.ts:40-121 | under a non-decreasing clock an agent has at most one usable fragment at any time from the last operation on |
| Fragments.ActiveFragmentIsTheUsableOne | packages/core/src/behavioral-privacy/fragmentation.ts:62-86 | a fragment is usable after fetching if and only if it is the one fetched |
| Fragments.ExhaustedFragmentStaysFlagged | packages/core/src/behavioral-privacy/fragmentation.ts:78-85 | fetching after exhaustion leaves two fragments flagged active |
| Fragments.RequestLimitHoldsExactly | apps/grl-server/src/local-api.ts:2540-2565 | in all pipeline runs no fragment passes its limit, if and only if the limit is at least one, or zero when disabled |
| Fragments.RequestsAreCounted | packages/core/src/behavioral-privacy/fragmentation.ts:102-106 | in every run of an enabled manager the counts of an agent's fragments add up to its requests |
| Fragments.NewFragmentServesExactly | packages/core/src/behavioral-privacy/fragmentation.ts:62-86 | a new fragment is fetched again later if and only if its lifetime lasts and the limit is above zero |
| Fragments.RotationLeavesOneActive | packages/core/src/behavioral-privacy/fragmentation.ts:92-99 | after rotating exactly the new fragment is flagged |
| Fragments.ExpiringIsHousekeeping | packages/core/src/behavioral-privacy/fragmentation.ts:109-121 | expiring leaves nothing expired flagged and changes neither counts nor which fragments are usable from then on |
| FragmentManager.IdentityFragmentManager.CreateFragment | packages/core/src/behavioral-privacy/fragmentation.ts:40-56 | appends a new active fragment with its expiry |
| FragmentManager.IdentityFragmentManager.GetActiveFragment | packages/core/src/behavioral-privacy/fragmentation.ts:62-86 | the first usable fragment, or a new one, or the pseudo fragment when disabled |
| FragmentManager.IdentityFragmentManager.RotateFragment | packages/core/src/behavioral-privacy/fragmentation.ts:92-99 | switches all fragments off in place and creates one |
| FragmentManager.IdentityFragmentManager.RecordRequest | packages/core/src/behavioral-privacy/fragmentation.ts:102-106 | counts on the named fragment only |
| FragmentManager.IdentityFragmentManager.ExpireFragments | packages/core/src/behavioral-privacy/fragmentation.ts:109-121 | switches off exactly the expired active fragments of all agents |
| FragmentManager.IdentityFragmentManager.ActiveCount | packages/core/src/behavioral-privacy/fragmentation.ts:138-143 | the number of flagged, unexpired fragments |
| Persona.RiskRisesToCritical | packages/core/src/persona-isolation/personas.ts:131-143 | more searches never look less risky, and the risk is critical if and only if the maximum is reached |
| Persona.RiskExactly | packages/core/src/persona-isolation/personas.ts:131-143 | the four levels as inequalities between whole numbers of searches, for sensitive and other categories |
| Persona.SegmentExactly | packages/core/src/persona-isolation/segmentation.ts:49-117 | for any persona and policy, each flag and each reason if and only if its condition holds |
| Persona.IsolationDecisionExactly | packages/core/src/persona-isolation/routing.ts:15-59 | every part of the read-only decision from the active persona, its searches and the category alone |
| Persona.SwitchesChangeNothing | packages/core/src/persona-isolation/segmentation.ts:88-107 | rotation on category change and isolation of sensitive categories, switched either way, change no run and no decision |
| Persona.RequestBinds | apps/grl-server/src/local-api.ts:2597-2657 | after a request the active persona of its pair has the fragment of the request bound |
| Persona.BindingsMirrorPersonas | packages/core/src/persona-isolation/fragments.ts:25-55 | in every run a persona lists exactly the fragments bound to it, once, and its bindings are active if and only if it is |
| Persona.GetOrCreateSound | packages/core/src/persona-isolation/engine.ts:65-80 | the pick is the one active persona of the pair, and the stores stay sound |
| Persona.RunsAreSound | packages/core/src/persona-isolation/engine.ts:65-145 | in every run at most one persona per agent and category is active, active bindings belong to active personas, and each risk is derived from its count |
| Persona.SearchLimitHoldsExactly | packages/core/src/persona-isolation/segmentation.ts:49-117 | in all pipeline runs searchCount stays within the maximum, if and only if the policy is enabled with a maximum of at least one |
| Persona.LoneSearchWithinLimitExactly | packages/core/src/persona-isolation/engine.ts:114-130 | a search recorded outside a pipeline request stays within the maximum if and only if the active persona has one left |
| Persona.NewFragmentMeansNewPersona | apps/grl-server/src/local-api.ts:2597-2598 | the read-only decision requires a new fragment if and only if the pick after it is a persona not there before |
| Persona.EscalationMeansUsedUp | packages/core/src/persona-isolation/routing.ts:15-38 | escalation is required if and only if the active persona has used up its searches, and then comes with a new fragment |
| PersonaEngine.PersonaFragmentManager.Bind | packages/core/src/persona-isolation/fragments.ts:25-40 | one active binding per pair |
| PersonaEngine.PersonaFragmentManager.DeactivateForPersona | packages/core/src/persona-isolation/fragments.ts:46-55 | switches the persona's bindings off in place and counts those that were on |
| PersonaEngine.PersonaStore.FindActive | packages/core/src/persona-isolation/personas.ts:44-49 | the first active persona of agent and category |
| PersonaEngine.PersonaStore.Deactivate | packages/core/src/persona-isolation/personas.ts:58-64 | switches off the persona of that id only |
| PersonaEngine.PersonaStore.BindFragment | packages/core/src/persona-isolation/personas.ts:76-84 | lists a fragment id once |
| PersonaEngine.PersonaStore.RecordSearch | packages/core/src/persona-isolation/personas.ts:67-73 | counts on the persona of that id only |
| PersonaEngine.PersonaStore.SetRisk | packages/core/src/persona-isolation/personas.ts:98-108 | sets the risk of the persona of that id only |
| PersonaEngine.Engine.GetOrCreatePersona | packages/core/src/persona-isolation/engine.ts:65-80 | reuses, or retires with its bindings and creates |
| PersonaEngine.Engine.EvaluatePersonaIsolation | packages/core/src/persona-isolation/engine.ts:92-106 | the decision, without changing anything |
| PersonaEngine.Engine.RecordPersonaSearch | packages/core/src/persona-isolation/engine.ts:114-130 | counts on the active persona, created if missing, and re-derives its risk |
| PersonaEngine.Engine.RotatePersona | packages/core/src/persona-isolation/engine.ts:138-145 | retires the active persona, if any, and creates one |
| PersonaEngine.HandleRequest | apps/grl-server/src/local-api.ts:2597-2657 | the pipeline's calls in order are one step of the model, with the decision taken on the state before |
| Jitter.HashLoop | packages/core/src/behavioral-privacy/jitter.ts:19-23 | for every text of UTF-16 code units the wrapping loop computes the unwrapped polynomial of base 31 wrapped once to 32 bits |
| Jitter.DeterministicJitter | packages/core/src/behavioral-privacy/jitter.ts:19-28 | the loop and the rounding give the base jitter of the seed |
| Jitter.ExtremeHash | packages/core/src/behavioral-privacy/jitter.ts:20-26 | a seed whose hash is -2^31 |
| Jitter.BaseInRangeExactly | packages/core/src/behavioral-privacy/jitter.ts:24-27 | the base jitter of every seed lies within the delays if and only if twice their distance is below 2^31 - 1 |
| Jitter.ComputeJitter | packages/core/src/behavioral-privacy/jitter.ts:30-59 | the delay for the base of agent id and second, with its reason |
| Jitter.SeedReads | packages/core/src/behavioral-privacy/jitter.ts:40 | the seed is the agent id in UTF-16, a colon and the second, rounded down, in decimal |
| Jitter.EvenDelays | packages/core/src/behavioral-privacy/jitter.ts:43-72 | an even base is given once, one and a half, two or three times by risk, with one base more at a score of one hundred, up to twice the greatest delay |
| Jitter.AdaptiveExactly | packages/core/src/behavioral-privacy/jitter.ts:35-58 | a delay is adaptive if and only if the policy is and there is a score; a disabled policy gives none |
| Jitter.DelayInRange | packages/core/src/behavioral-privacy/jitter.ts:30-59 | an enabled delay lies between the least and twice the greatest, for any score and risk |
| Jitter.DelayMonotone | packages/core/src/behavioral-privacy/jitter.ts:46-52 | for positive scores more score or more risk never shortens the delay |
| Jitter.EngineDelayMonotone | packages/core/src/behavioral-privacy/engine.ts:108-144 | with the risk classified from the score the delay is monotone from score zero on |
| Jitter.FirstPointShortensExactly | packages/core/src/behavioral-privacy/jitter.ts:46-52 | with the risk given apart, the first point of score shortens the delay if and only if the policy is enabled and adaptive, the risk is above low and the base is at least one |
| Jitter.FirstPointNeverShortensExactly | packages/core/src/behavioral-privacy/jitter.ts:46-52 | no base is ever shortened if and only if the risk is low, or the policy is disabled, not adaptive or without any delay to give |
| Audit.StoreHoldsTail | packages/core/src/audit/store.ts:82-139 | after any appends and clears the store holds the last events under consecutive numbers, and every event is stored, evicted or wiped |
| Audit.WithoutClearing | packages/core/src/audit/store.ts:93-112 | without clearing exactly the last min(n, maxEvents) of n events are held, and evicted plus size is n |
| Audit.ListIsExact | packages/core/src/audit/store.ts:118-128 | a query returns matching events only, each once, by time then insertion; what a limit cuts off comes after all it keeps |
| Audit.SortedIsUnique | packages/core/src/audit/store.ts:120-122 | there is one arrangement in that order, so any correct sort gives it |
| Audit.FilterIsExact | packages/core/src/audit/store.ts:148-177 | filtering keeps exactly the events that meet every constraint of the query |
| Audit.ReachableDistinct | packages/core/src/audit/store.ts:93-100 | reachable stores have distinct numbers, as the query law needs |
| AuditLog.AuditStore.constructor | packages/core/src/audit/store.ts:82-85 | a capacity of at least one, with the default for an unusable request |
| AuditLog.AuditStore.Append | packages/core/src/audit/store.ts:93-102 | appends, evicts the overflow from the front and counts it |
| AuditLog.AuditStore.Clear | packages/core/src/audit/store.ts:137-139 | empties the list and keeps both counters |
| AuditLog.AuditStore.List | packages/core/src/audit/store.ts:118-128 | filter, sort and cut give the exact result |
| AuditLog.AuditStore.GetById | packages/core/src/audit/store.ts:131-134 | the first event of that id, or none if there is none |
| Firewall.FirstMatchOfCompiled | apps/grl-server/src/runtime-factory.ts:50-70 | the compiled list's first match is the rule of the first covering policy |
| Firewall.MatchExactly | packages/policy-engine/src/index.ts:32-61 | a rule matches if and only if agent, compartment and tool are equal and the risk is the exact one, at most the highest one, or unconstrained |
| Firewall.RulesVerdict | packages/policy-engine/src/index.ts:54-102 | for any rules, denials and transports included: the first match decides, and allows if and only if it is no denial and no other transport than its own is asserted; confirmation comes with allowance only |
| Firewall.CompiledVerdict | packages/policy-engine/src/index.ts:54-102 | compiled policies allow if and only if some policy covers the request and it asserts no other transport than direct; confirmation follows the first covering policy |
| Firewall.StoreAcceptsExactly | packages/core/src/policy-engine/policy-store.ts:38-57 | the store accepts a list if and only if no pair has two policies, and then holds each |
| Firewall.DirectVerdict | packages/core/src/policy-engine/policy-engine.ts:54-106 | the direct evaluator allows if and only if the request is well formed, covered and its input accepted |
| Firewall.DirectReasonExactly | packages/core/src/policy-engine/policy-engine.ts:54-106 | each refusal of the direct evaluator if and only if its case holds for the one policy of the pair, and confirmation if and only if an allowed risk is above the threshold |
| Firewall.BlankExactly | packages/core/src/policy-engine/policy-engine.ts:40-42 | a name is missing if and only if it consists of the white space and line ends that trimming removes |
| Firewall.VerdictsAgreeExactly | packages/core/src/policy-engine/policy-engine.ts:54-106 | on accepted input the two evaluators agree if and only if the request is well formed or uncovered |
| Firewall.ConfirmationAgreesExactly | packages/core/src/policy-engine/policy-engine.ts:95-98 | their confirmations agree if and only if there is no threshold or the risk is above it |
| FirewallEngines.BuildFirewallFromConfig | apps/grl-server/src/runtime-factory.ts:50-70 | the nested loops produce the compiled list |
| FirewallEngines.PolicyStore.FromList | packages/core/src/policy-engine/policy-store.ts:27-31 | builds the store or reports the first collision |
| FirewallEngines.PolicyStore.Add | packages/core/src/policy-engine/policy-store.ts:38-45 | fails without change if and only if the pair is taken |

## Left out

- Sockets, timers, TLS, HTTP and the adapters behind them: the handshake is bytes in, messages out and an outcome.
- Express routing, views, audit emission and the other gates of the execute handlers: only the order of the engine calls is kept, and any other refusal is a request that ends without success.
- Engines whose decisions enter as arbitrary values: trust reputation, temporal obfuscation, fingerprints, the orchestrator, sessions, transport policy, privacy boundary and the input sanitizer.
- Approval queue, adaptive defense engine and risk escalation: their claims follow from one guard each.
- Creation and update stamps, display names, tags and reason texts: reasons are constructors that tell the branches apart.
- Topic listings (`recentTopics`), session ids of personas and isolated session lists: nothing decides on them.
- Floating-point rounding: scores, saturation and delays are exact rationals, rounded half up where the source rounds.
- A policy identifier or scope string that contains a separator: keys are pairs.
- Rebuilding the engines when a profile or configuration changes, which replaces their state; in the server runs of the capability graph rules and policies are those registered before.
- Fragment lists and persona lists across agents: personas of all agents are one list in the order they were added, of which each lookup names its agent.
