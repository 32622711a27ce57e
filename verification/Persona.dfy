/**
 Search personas (packages/core/src/persona-isolation): one active persona per
 agent and category, rotated when it has served its number of searches, and the
 fragments bound to it, as the request pipeline drives them
 (apps/grl-server/src/local-api.ts). Persona ids come from one counter.
 */
module Persona {
  import opened Correlations
  import opened Numbers
  import opened Wrappers

  datatype Category = General | Finance | Crypto | Security | Health | Politics | Development | Research | Unknown
  datatype Policy = Policy(enabled: bool, maxSearches: int, rotateOnCategoryChange: bool, isolateHighRisk: bool)

  /** `None` is the pseudo fragment of a disabled fragment manager. */
  type FragmentId = Option<nat>

  datatype Persona = Persona(
    id: nat,
    agentId: string,
    category: Category,
    active: bool,
    fragmentIds: seq<FragmentId>,
    searchCount: nat,
    risk: Risk)

  datatype Binding = Binding(personaId: nat, fragmentId: FragmentId, active: bool)
  datatype State = State(policy: Policy, personas: seq<Persona>, bindings: seq<Binding>, issued: nat)

  predicate HighRiskCategory(c: Category) {
    c == Crypto || c == Security || c == Health || c == Politics || c == Finance
  }

  /** Saturation is an exact quotient here. */
  function DeriveRisk(searchCount: nat, c: Category, maxSearches: int): Risk {
    var saturation := searchCount as real / (if maxSearches < 1 then 1 else maxSearches) as real;
    if saturation >= 1.0 then Critical
    else if saturation >= 0.75 || (HighRiskCategory(c) && saturation >= 0.5) then High
    else if saturation >= 0.4 || (HighRiskCategory(c) && saturation >= 0.2) then Medium
    else Low
  }

  function RiskRank(r: Risk): nat {
    match r case Low => 0 case Medium => 1 case High => 2 case Critical => 3
  }

  lemma QuotientMonotone(a: real, b: real, d: real)
    requires a <= b && d > 0.0
    ensures a / d <= b / d
  {
  }

  lemma QuotientReachesOne(a: real, d: real)
    requires d > 0.0
    ensures a / d >= 1.0 <==> a >= d
  {
    var q := a / d;
    assert q * d == a;
    if q >= 1.0 {
      assert (q - 1.0) * d >= 0.0;
    } else {
      assert (1.0 - q) * d > 0.0;
    }
  }

  /** More searches never look less risky, and the maximum is exactly critical. */
  lemma RiskRisesToCritical(m: nat, n: nat, c: Category, maxSearches: int)
    requires m <= n
    ensures RiskRank(DeriveRisk(m, c, maxSearches)) <= RiskRank(DeriveRisk(n, c, maxSearches))
    ensures maxSearches >= 1 ==> (DeriveRisk(n, c, maxSearches) == Critical <==> n >= maxSearches)
  {
    var d := (if maxSearches < 1 then 1 else maxSearches) as real;
    QuotientMonotone(m as real, n as real, d);
    QuotientReachesOne(n as real, d);
  }

  /**
   The four levels in whole numbers, where m searches are the maximum: critical
   from m on, high from three quarters and medium from two fifths of m, or from a
   half and a fifth for a sensitive category.
   */
  lemma RiskExactly(n: nat, c: Category, maxSearches: int)
    ensures var m, r := Max(1, maxSearches), DeriveRisk(n, c, maxSearches);
            var sensitive := c in {Crypto, Security, Health, Politics, Finance};
            && (r == Critical <==> n >= m)
            && (r == High <==> n < m && (4 * n >= 3 * m || (sensitive && 2 * n >= m)))
            && (r == Medium <==> 4 * n < 3 * m && (sensitive ==> 2 * n < m)
                                 && (5 * n >= 2 * m || (sensitive && 5 * n >= m)))
  {
    var m := Max(1, maxSearches);
    QuotientReaches(n, m, 1.0);
    QuotientReaches(n, m, 0.75);
    QuotientReaches(n, m, 0.5);
    QuotientReaches(n, m, 0.4);
    QuotientReaches(n, m, 0.2);
  }

  lemma QuotientReaches(n: nat, m: int, x: real)
    requires m >= 1
    ensures n as real / m as real >= x <==> n as real >= x * m as real
  {
    var d := m as real;
    var q := n as real / d;
    assert q * d == n as real;
    if q >= x {
      assert (q - x) * d >= 0.0;
    } else {
      assert (x - q) * d > 0.0;
    }
  }

  // ---- Segmentation -----------------------------------------------------------

  datatype Reason =
    | SegmentationDisabled | NoActivePersona | Saturated | CategoryChange | HighRiskIsolation | ReuseAllowed

  datatype Segmentation = Segmentation(
    categoryChanged: bool,
    isHighRisk: bool,
    isSaturated: bool,
    shouldRotate: bool,
    reason: Reason)

  function Segment(policy: Policy, persona: Option<Persona>, c: Category): Segmentation {
    if !policy.enabled then Segmentation(false, false, false, false, SegmentationDisabled)
    else
      var highRisk := HighRiskCategory(c);
      if persona.None? then Segmentation(false, highRisk, false, true, NoActivePersona)
      else
        var changed := persona.value.category != c;
        if persona.value.searchCount >= policy.maxSearches then Segmentation(changed, highRisk, true, true, Saturated)
        else if changed && policy.rotateOnCategoryChange then Segmentation(true, highRisk, false, true, CategoryChange)
        else if highRisk && policy.isolateHighRisk then Segmentation(changed, true, false, false, HighRiskIsolation)
        else Segmentation(changed, highRisk, false, false, ReuseAllowed)
  }

  /** When segmentation retires a persona, and what it reports, for any persona. */
  lemma SegmentExactly(policy: Policy, persona: Option<Persona>, c: Category)
    ensures var s := Segment(policy, persona, c);
            var sensitive := c in {Crypto, Security, Health, Politics, Finance};
            && (s.isHighRisk <==> policy.enabled && sensitive)
            && (s.categoryChanged <==> policy.enabled && persona.Some? && persona.value.category != c)
            && (s.isSaturated <==>
                  policy.enabled && persona.Some? && persona.value.searchCount >= policy.maxSearches)
            && (s.shouldRotate <==>
                  policy.enabled
                  && (persona.None? || s.isSaturated || (s.categoryChanged && policy.rotateOnCategoryChange)))
            && (s.reason == SegmentationDisabled <==> !policy.enabled)
            && (s.reason == NoActivePersona <==> policy.enabled && persona.None?)
            && (s.reason == Saturated <==> s.isSaturated)
            && (s.reason == CategoryChange <==> s.shouldRotate && persona.Some? && !s.isSaturated)
            && (s.reason == HighRiskIsolation <==> policy.enabled && persona.Some? && !s.shouldRotate
                                                   && sensitive && policy.isolateHighRisk)
  {
  }

  datatype Decision = Decision(
    personaId: Option<nat>,
    requiresNewFragment: bool,
    requiresSessionIsolation: bool,
    requiresTransportIsolation: bool,
    requiresBehavioralEscalation: bool)

  /** The read-only decision; an absent persona has only a pending id. */
  function EvaluateIsolation(s: State, a: string, c: Category): Decision {
    var i := ActiveIndex(s.personas, a, c);
    if i.None? then
      Decision(None, true, Segment(s.policy, None, c).isHighRisk, HighRiskCategory(c), false)
    else
      var p := s.personas[i.value];
      var seg := Segment(s.policy, Some(p), c);
      Decision(Some(p.id), seg.shouldRotate || seg.isSaturated, seg.shouldRotate || seg.isHighRisk,
               seg.isHighRisk, p.risk == Critical)
  }

  // ---- The stores -------------------------------------------------------------

  predicate ActiveFor(p: Persona, a: string, c: Category) {
    p.agentId == a && p.category == c && p.active
  }

  function ActiveIndex(personas: seq<Persona>, a: string, c: Category): (r: Option<nat>)
    ensures r.Some? ==> r.value < |personas| && ActiveFor(personas[r.value], a, c)
    ensures r.None? ==> forall i :: 0 <= i < |personas| ==> !ActiveFor(personas[i], a, c)
  {
    if personas == [] then None
    else if ActiveFor(personas[0], a, c) then Some(0)
    else
      var r := ActiveIndex(personas[1..], a, c);
      if r.Some? then Some(r.value + 1) else
      assert forall i :: 1 <= i < |personas| ==> personas[i] == personas[1..][i - 1];
      None
  }

  function IndexOf(personas: seq<Persona>, id: nat): (r: Option<nat>)
    ensures r.Some? ==> r.value < |personas| && personas[r.value].id == id
    ensures r.None? ==> forall i :: 0 <= i < |personas| ==> personas[i].id != id
  {
    if personas == [] then None
    else if personas[0].id == id then Some(0)
    else
      var r := IndexOf(personas[1..], id);
      if r.Some? then Some(r.value + 1) else
      assert forall i :: 1 <= i < |personas| ==> personas[i] == personas[1..][i - 1];
      None
  }

  function Deactivate(personas: seq<Persona>, id: nat): seq<Persona> {
    var i := IndexOf(personas, id);
    if i.None? then personas else personas[i.value := personas[i.value].(active := false)]
  }

  function DeactivateBindings(bindings: seq<Binding>, personaId: nat): seq<Binding> {
    seq(|bindings|, i requires 0 <= i < |bindings| =>
      if bindings[i].personaId == personaId then bindings[i].(active := false) else bindings[i])
  }

  function NewPersona(s: State, a: string, c: Category): Persona {
    Persona(s.issued, a, c, true, [], 0, Low)
  }

  function AddPersona(s: State, a: string, c: Category): State {
    s.(personas := s.personas + [NewPersona(s, a, c)], issued := s.issued + 1)
  }

  function Retire(s: State, id: nat): State {
    s.(personas := Deactivate(s.personas, id), bindings := DeactivateBindings(s.bindings, id))
  }

  /** The persona to use: the active one unless segmentation retires it. */
  function GetOrCreate(s: State, a: string, c: Category): (State, Persona) {
    var i := ActiveIndex(s.personas, a, c);
    if i.None? then (AddPersona(s, a, c), NewPersona(s, a, c))
    else
      var p := s.personas[i.value];
      if !Segment(s.policy, Some(p), c).shouldRotate then (s, p)
      else (AddPersona(Retire(s, p.id), a, c), NewPersona(s, a, c))
  }

  function Rotate(s: State, a: string, c: Category): State {
    var i := ActiveIndex(s.personas, a, c);
    AddPersona(if i.None? then s else Retire(s, s.personas[i.value].id), a, c)
  }

  predicate BindingFor(b: Binding, personaId: nat, fragmentId: FragmentId) {
    b.personaId == personaId && b.fragmentId == fragmentId && b.active
  }

  predicate HasBinding(bindings: seq<Binding>, personaId: nat, fragmentId: FragmentId) {
    exists i :: 0 <= i < |bindings| && BindingFor(bindings[i], personaId, fragmentId)
  }

  /** An active binding for the pair, once. */
  function Bind(bindings: seq<Binding>, personaId: nat, fragmentId: FragmentId): seq<Binding> {
    if HasBinding(bindings, personaId, fragmentId) then bindings else bindings + [Binding(personaId, fragmentId, true)]
  }

  function BindFragment(personas: seq<Persona>, id: nat, fragmentId: FragmentId): seq<Persona> {
    var i := IndexOf(personas, id);
    if i.None? || fragmentId in personas[i.value].fragmentIds then personas
    else personas[i.value := personas[i.value].(fragmentIds := personas[i.value].fragmentIds + [fragmentId])]
  }

  function Searched(p: Persona, maxSearches: int): Persona {
    p.(searchCount := p.searchCount + 1, risk := DeriveRisk(p.searchCount + 1, p.category, maxSearches))
  }

  function RecordSearch(s: State, a: string, c: Category): State {
    var s1 := if ActiveIndex(s.personas, a, c).None? then AddPersona(s, a, c) else s;
    var k := ActiveIndex(s1.personas, a, c);
    if k.None? then s1
    else
      var i := IndexOf(s1.personas, s1.personas[k.value].id);
      if i.None? then s1
      else s1.(personas := s1.personas[i.value := Searched(s1.personas[i.value], s.policy.maxSearches)])
  }

  /** Binding a fragment to a persona, in both stores. */
  function BindBoth(s: State, id: nat, fragmentId: FragmentId): State {
    s.(bindings := Bind(s.bindings, id, fragmentId), personas := BindFragment(s.personas, id, fragmentId))
  }

  /** One request of the pipeline: pick, bind, record. */
  function Serve(s: State, a: string, c: Category, fragmentId: FragmentId): State {
    var (s1, p) := GetOrCreate(s, a, c);
    RecordSearch(BindBoth(s1, p.id, fragmentId), a, c)
  }

  /** A whole pipeline request, or one public operation of the engine by itself. */
  datatype Op =
    | Request(agent: string, category: Category, fragmentId: FragmentId)
    | Pick(agent: string, category: Category)
    | Search(agent: string, category: Category)
    | ForceRotation(agent: string, category: Category)

  function Step(s: State, op: Op): State {
    match op
    case Request(a, c, f) => Serve(s, a, c, f)
    case Pick(a, c) => GetOrCreate(s, a, c).0
    case Search(a, c) => RecordSearch(s, a, c)
    case ForceRotation(a, c) => Rotate(s, a, c)
  }

  function Initial(policy: Policy): State {
    State(policy, [], [], 0)
  }

  function Run(policy: Policy, ops: seq<Op>): State
    decreases |ops|
  {
    if ops == [] then Initial(policy) else Step(Run(policy, ops[..|ops| - 1]), ops[|ops| - 1])
  }

  // ---- What runs keep ---------------------------------------------------------

  predicate DistinctIds(personas: seq<Persona>, issued: nat) {
    && (forall i, j :: 0 <= i < j < |personas| ==> personas[i].id != personas[j].id)
    && (forall i :: 0 <= i < |personas| ==> personas[i].id < issued)
  }

  /** At most one active persona per agent and category. */
  predicate OneActive(personas: seq<Persona>) {
    forall i, j :: 0 <= i < j < |personas| && personas[i].active && personas[j].active ==>
      !(personas[i].agentId == personas[j].agentId && personas[i].category == personas[j].category)
  }

  predicate IsActiveId(personas: seq<Persona>, id: nat) {
    exists i :: 0 <= i < |personas| && personas[i].id == id && personas[i].active
  }

  predicate BindingsActive(personas: seq<Persona>, bindings: seq<Binding>) {
    forall k :: 0 <= k < |bindings| && bindings[k].active ==> IsActiveId(personas, bindings[k].personaId)
  }

  /** The stored risk is the one derived from the stored count. */
  predicate RiskAgrees(personas: seq<Persona>, maxSearches: int) {
    forall i :: 0 <= i < |personas| ==>
      personas[i].risk == DeriveRisk(personas[i].searchCount, personas[i].category, maxSearches)
  }

  predicate Limited(personas: seq<Persona>, maxSearches: int) {
    forall i :: 0 <= i < |personas| ==> personas[i].searchCount <= maxSearches
  }

  predicate Sound(s: State) {
    && DistinctIds(s.personas, s.issued)
    && OneActive(s.personas)
    && BindingsActive(s.personas, s.bindings)
    && RiskAgrees(s.personas, s.policy.maxSearches)
  }

  lemma IndexOfIndex(personas: seq<Persona>, issued: nat, i: nat)
    requires DistinctIds(personas, issued) && i < |personas|
    ensures IndexOf(personas, personas[i].id) == Some(i)
  {
    var k := IndexOf(personas, personas[i].id);
    assert k.Some?;
  }

  lemma NoneActive(personas: seq<Persona>, i: nat, a: string, c: Category)
    requires OneActive(personas) && i < |personas| && ActiveFor(personas[i], a, c)
    ensures ActiveIndex(personas[i := personas[i].(active := false)], a, c).None?
  {
    var k := ActiveIndex(personas[i := personas[i].(active := false)], a, c);
  }

  lemma ActiveIdStays(personas: seq<Persona>, p: Persona, bindings: seq<Binding>)
    requires BindingsActive(personas, bindings)
    ensures BindingsActive(personas + [p], bindings)
  {
    forall k | 0 <= k < |bindings| && bindings[k].active ensures IsActiveId(personas + [p], bindings[k].personaId) {
      var i :| 0 <= i < |personas| && personas[i].id == bindings[k].personaId && personas[i].active;
      assert (personas + [p])[i] == personas[i];
    }
  }

  lemma NewcomerIsActive(personas: seq<Persona>, p: Persona, a: string, c: Category)
    requires ActiveIndex(personas, a, c).None? && ActiveFor(p, a, c)
    ensures ActiveIndex(personas + [p], a, c) == Some(|personas|)
  {
    var k := ActiveIndex(personas + [p], a, c);
    assert ActiveFor((personas + [p])[|personas|], a, c);
    assert forall i :: 0 <= i < |personas| ==> !ActiveFor((personas + [p])[i], a, c);
  }

  lemma NewcomerKeepsOneActive(personas: seq<Persona>, p: Persona)
    requires OneActive(personas) && ActiveIndex(personas, p.agentId, p.category).None?
    ensures OneActive(personas + [p])
  {
    forall i | 0 <= i < |personas| && personas[i].active
      ensures !(personas[i].agentId == p.agentId && personas[i].category == p.category)
    {
      assert !ActiveFor(personas[i], p.agentId, p.category);
    }
  }

  lemma NewcomerKeepsSound(s: State, a: string, c: Category)
    requires Sound(s) && ActiveIndex(s.personas, a, c).None?
    ensures Sound(AddPersona(s, a, c))
    ensures ActiveIndex(AddPersona(s, a, c).personas, a, c) == Some(|s.personas|)
  {
    var p := NewPersona(s, a, c);
    ActiveIdStays(s.personas, p, s.bindings);
    NewcomerIsActive(s.personas, p, a, c);
    NewcomerKeepsOneActive(s.personas, p);
    FreshIsLow(c, s.policy.maxSearches);
  }

  lemma FreshIsLow(c: Category, maxSearches: int)
    ensures DeriveRisk(0, c, maxSearches) == Low
  {
  }

  lemma RetireKeepsSound(s: State, i: nat, a: string, c: Category)
    requires Sound(s) && i < |s.personas| && ActiveFor(s.personas[i], a, c)
    ensures Sound(Retire(s, s.personas[i].id)) && ActiveIndex(Retire(s, s.personas[i].id).personas, a, c).None?
  {
    var id := s.personas[i].id;
    var t := Retire(s, id);
    IndexOfIndex(s.personas, s.issued, i);
    NoneActive(s.personas, i, a, c);
    forall k | 0 <= k < |t.bindings| && t.bindings[k].active ensures IsActiveId(t.personas, t.bindings[k].personaId) {
      assert s.bindings[k].active && s.bindings[k].personaId != id;
      var j :| 0 <= j < |s.personas| && s.personas[j].id == s.bindings[k].personaId && s.personas[j].active;
      assert t.personas[j] == s.personas[j];
    }
  }

  /** Picking a persona leaves exactly one active for the pair: the one picked. */
  lemma GetOrCreateSound(s: State, a: string, c: Category)
    requires Sound(s)
    ensures var (t, p) := GetOrCreate(s, a, c);
            && Sound(t) && t.policy == s.policy
            && ActiveIndex(t.personas, a, c).Some? && t.personas[ActiveIndex(t.personas, a, c).value] == p
  {
    var i := ActiveIndex(s.personas, a, c);
    if i.None? {
      NewcomerKeepsSound(s, a, c);
    } else if Segment(s.policy, Some(s.personas[i.value]), c).shouldRotate {
      RetireKeepsSound(s, i.value, a, c);
      NewcomerKeepsSound(Retire(s, s.personas[i.value].id), a, c);
    }
  }

  /** Changing one persona's counters or fragments touches no identity. */
  predicate SameIdentity(p: Persona, q: Persona) {
    p.id == q.id && p.agentId == q.agentId && p.category == q.category && p.active == q.active
  }

  lemma ReplaceKeepsSound(s: State, i: nat, q: Persona)
    requires Sound(s) && i < |s.personas| && SameIdentity(s.personas[i], q)
    requires q.risk == DeriveRisk(q.searchCount, q.category, s.policy.maxSearches)
    ensures Sound(s.(personas := s.personas[i := q]))
    ensures forall a, c :: ActiveFor(s.personas[i], a, c) ==> ActiveIndex(s.personas[i := q], a, c) == Some(i)
  {
    var personas := s.personas[i := q];
    forall k | 0 <= k < |s.bindings| && s.bindings[k].active ensures IsActiveId(personas, s.bindings[k].personaId) {
      var j :| 0 <= j < |s.personas| && s.personas[j].id == s.bindings[k].personaId && s.personas[j].active;
      assert personas[j].id == s.bindings[k].personaId && personas[j].active;
    }
    forall a, c | ActiveFor(s.personas[i], a, c) ensures ActiveIndex(personas, a, c) == Some(i) {
      assert ActiveFor(personas[i], a, c);
      var k := ActiveIndex(personas, a, c).value;
      assert ActiveFor(s.personas[k], a, c);
    }
  }

  lemma BindKeepsSound(s: State, i: nat, fragmentId: FragmentId)
    requires Sound(s) && i < |s.personas| && s.personas[i].active
    ensures Sound(s.(bindings := Bind(s.bindings, s.personas[i].id, fragmentId)))
  {
    var bindings := Bind(s.bindings, s.personas[i].id, fragmentId);
    forall k | 0 <= k < |bindings| && bindings[k].active ensures IsActiveId(s.personas, bindings[k].personaId) {
      if k < |s.bindings| { assert bindings[k] == s.bindings[k]; }
    }
  }

  /** Binding to an active persona changes nobody's identity or count. */
  lemma BindBothOutcome(s: State, i: nat, fragmentId: FragmentId)
    requires Sound(s) && i < |s.personas| && s.personas[i].active
    ensures var t := BindBoth(s, s.personas[i].id, fragmentId);
            && Sound(t) && |t.personas| == |s.personas|
            && SameIdentity(t.personas[i], s.personas[i]) && t.personas[i].searchCount == s.personas[i].searchCount
            && (forall j :: 0 <= j < |s.personas| && j != i ==> t.personas[j] == s.personas[j])
            && (forall a, c :: ActiveFor(s.personas[i], a, c) ==> ActiveIndex(t.personas, a, c) == Some(i))
  {
    var p := s.personas[i];
    var bound := s.(bindings := Bind(s.bindings, p.id, fragmentId));
    var q := if fragmentId in p.fragmentIds then p else p.(fragmentIds := p.fragmentIds + [fragmentId]);
    IndexOfIndex(s.personas, s.issued, i);
    BindKeepsSound(s, i, fragmentId);
    ReplaceKeepsSound(bound, i, q);
    assert BindFragment(s.personas, p.id, fragmentId) == s.personas[i := q];
  }

  /** A search counts on the active persona, which is created if there is none. */
  lemma SearchOutcome(s: State, a: string, c: Category)
    requires Sound(s)
    ensures var t := RecordSearch(s, a, c);
            var i := ActiveIndex(s.personas, a, c);
            var k := if i.Some? then i.value else |s.personas|;
            && Sound(t) && t.policy == s.policy && |t.personas| == Max(|s.personas|, k + 1)
            && t.personas[k].searchCount == (if i.Some? then s.personas[k].searchCount else 0) + 1
            && ActiveIndex(t.personas, a, c) == Some(k)
            && (forall j :: 0 <= j < |s.personas| && j != k ==> t.personas[j] == s.personas[j])
  {
    var i := ActiveIndex(s.personas, a, c);
    if i.None? { NewcomerKeepsSound(s, a, c); }
    var s1 := if i.None? then AddPersona(s, a, c) else s;
    var k := ActiveIndex(s1.personas, a, c).value;
    IndexOfIndex(s1.personas, s1.issued, k);
    ReplaceKeepsSound(s1, k, Searched(s1.personas[k], s.policy.maxSearches));
  }

  /** The state a request leaves, read off the persona it picked. */
  lemma ServeOutcome(s: State, a: string, c: Category, fragmentId: FragmentId)
    requires Sound(s)
    ensures var (s1, p) := GetOrCreate(s, a, c);
            var i := ActiveIndex(s1.personas, a, c);
            var t := Serve(s, a, c, fragmentId);
            && Sound(t) && t.policy == s.policy && i.Some? && |t.personas| == |s1.personas|
            && t.personas[i.value].searchCount == p.searchCount + 1
            && ActiveIndex(t.personas, a, c) == i
            && (forall j :: 0 <= j < |t.personas| && j != i.value ==> t.personas[j] == s1.personas[j])
  {
    var (s1, p) := GetOrCreate(s, a, c);
    GetOrCreateSound(s, a, c);
    var i := ActiveIndex(s1.personas, a, c).value;
    BindBothOutcome(s1, i, fragmentId);
    SearchOutcome(BindBoth(s1, p.id, fragmentId), a, c);
  }

  lemma RotateKeepsSound(s: State, a: string, c: Category)
    requires Sound(s)
    ensures Sound(Rotate(s, a, c)) && Rotate(s, a, c).policy == s.policy
    ensures Limited(s.personas, s.policy.maxSearches) && s.policy.maxSearches >= 0 ==>
              Limited(Rotate(s, a, c).personas, s.policy.maxSearches)
  {
    var i := ActiveIndex(s.personas, a, c);
    if i.Some? {
      RetireKeepsSound(s, i.value, a, c);
      NewcomerKeepsSound(Retire(s, s.personas[i.value].id), a, c);
    } else {
      NewcomerKeepsSound(s, a, c);
    }
  }

  /**
   In every run, with searches recorded and rotations forced at any time and under
   any policy: at most one active persona per agent and category, active bindings
   only of active personas, and each stored risk derived from its count.
   */
  lemma {:induction false} RunsAreSound(policy: Policy, ops: seq<Op>)
    ensures Sound(Run(policy, ops)) && Run(policy, ops).policy == policy
    decreases |ops|
  {
    if ops == [] {
    } else {
      RunsAreSound(policy, ops[..|ops| - 1]);
      var s := Run(policy, ops[..|ops| - 1]);
      match ops[|ops| - 1] {
        case Request(a, c, f) => ServeOutcome(s, a, c, f);
        case Pick(a, c) => GetOrCreateSound(s, a, c);
        case Search(a, c) => SearchOutcome(s, a, c);
        case ForceRotation(a, c) => RotateKeepsSound(s, a, c);
      }
    }
  }

  /** Exactly the policies that bound the searches of a persona. */
  predicate BoundsSearches(p: Policy) {
    p.enabled && p.maxSearches >= 1
  }

  lemma PickedIsBelowLimit(s: State, a: string, c: Category)
    requires Sound(s) && BoundsSearches(s.policy) && Limited(s.personas, s.policy.maxSearches)
    ensures var (t, p) := GetOrCreate(s, a, c);
            Limited(t.personas, s.policy.maxSearches) && p.searchCount < s.policy.maxSearches
  {
  }

  /** Searches are recorded only as part of a pipeline request. */
  predicate Piped(ops: seq<Op>) {
    forall i :: 0 <= i < |ops| ==> !ops[i].Search?
  }

  lemma {:induction false} RunsAreLimited(policy: Policy, ops: seq<Op>)
    requires BoundsSearches(policy) && Piped(ops)
    ensures Limited(Run(policy, ops).personas, policy.maxSearches)
    decreases |ops|
  {
    if ops == [] {
    } else {
      var before := ops[..|ops| - 1];
      RunsAreLimited(policy, before);
      RunsAreSound(policy, before);
      var s := Run(policy, before);
      match ops[|ops| - 1] {
        case Request(a, c, f) =>
          PickedIsBelowLimit(s, a, c);
          ServeOutcome(s, a, c, f);
        case Pick(a, c) => PickedIsBelowLimit(s, a, c);
        case ForceRotation(a, c) => RotateKeepsSound(s, a, c);
      }
    }
  }

  /** The searches of the active persona of a pair. */
  function ActiveSearches(personas: seq<Persona>, a: string, c: Category): nat {
    var i := ActiveIndex(personas, a, c);
    if i.Some? then personas[i.value].searchCount else 0
  }

  lemma DisabledServe(s: State, a: string, c: Category, f: FragmentId)
    requires Sound(s) && !s.policy.enabled
    ensures ActiveSearches(Serve(s, a, c, f).personas, a, c) == ActiveSearches(s.personas, a, c) + 1
  {
    ServeOutcome(s, a, c, f);
  }

  /** One request, over and over. */
  predicate Repeats(ops: seq<Op>, op: Op) {
    forall i :: 0 <= i < |ops| ==> ops[i] == op
  }

  /** Without segmentation nothing retires a persona, so its count follows the requests. */
  lemma {:induction false} DisabledNeverRetires(policy: Policy, ops: seq<Op>, a: string, c: Category, f: FragmentId)
    requires !policy.enabled && Repeats(ops, Request(a, c, f))
    ensures ActiveSearches(Run(policy, ops).personas, a, c) == |ops|
    decreases |ops|
  {
    if ops == [] {
    } else {
      var before := ops[..|ops| - 1];
      DisabledNeverRetires(policy, before, a, c, f);
      RunsAreSound(policy, before);
      DisabledServe(Run(policy, before), a, c, f);
      assert ops[|ops| - 1] == Request(a, c, f);
    }
  }

  predicate LimitedRun(policy: Policy, ops: seq<Op>) {
    Piped(ops) ==> Limited(Run(policy, ops).personas, policy.maxSearches)
  }

  /**
   In all runs of the pipeline searchCount stays within the maximum, exactly for an
   enabled policy with a maximum of at least one.
   */
  lemma SearchLimitHoldsExactly(policy: Policy, a: string, c: Category)
    ensures (forall ops :: LimitedRun(policy, ops)) <==> BoundsSearches(policy)
  {
    if BoundsSearches(policy) {
      forall ops ensures LimitedRun(policy, ops) {
        if Piped(ops) { RunsAreLimited(policy, ops); }
      }
    } else {
      var ops := OverusingRun(policy, a, c);
    }
  }

  lemma OverusingRun(policy: Policy, a: string, c: Category) returns (ops: seq<Op>)
    requires !BoundsSearches(policy)
    ensures !LimitedRun(policy, ops)
  {
    if policy.enabled {
      ops := [Request(a, c, None)];
      FirstRequestCounts(policy, a, c, ops);
    } else {
      var n := if policy.maxSearches < 0 then 1 else policy.maxSearches + 1;
      ops := seq(n, _ => Request(a, c, None));
      DisabledOveruses(policy, ops, a, c);
    }
  }

  lemma DisabledOveruses(policy: Policy, ops: seq<Op>, a: string, c: Category)
    requires !policy.enabled && Repeats(ops, Request(a, c, None)) && |ops| > 0 && |ops| > policy.maxSearches
    ensures !LimitedRun(policy, ops)
  {
    DisabledNeverRetires(policy, ops, a, c, None);
    var personas := Run(policy, ops).personas;
    var i := ActiveIndex(personas, a, c).value;
    assert personas[i].searchCount > policy.maxSearches;
  }

  lemma FirstRequestCounts(policy: Policy, a: string, c: Category, ops: seq<Op>)
    requires policy.maxSearches < 1 && ops == [Request(a, c, None)]
    ensures !LimitedRun(policy, ops)
  {
    var s := Initial(policy);
    assert ops[..0] == [] && Run(policy, ops) == Serve(s, a, c, None);
    ServeOutcome(s, a, c, None);
    var i := ActiveIndex(GetOrCreate(s, a, c).0.personas, a, c).value;
    assert Serve(s, a, c, None).personas[i].searchCount >= 1;
  }

  /** A search recorded by itself stays within the maximum exactly when the active persona has one left. */
  lemma LoneSearchWithinLimitExactly(s: State, a: string, c: Category)
    requires Sound(s) && Limited(s.personas, s.policy.maxSearches)
    ensures var i := ActiveIndex(s.personas, a, c);
            Limited(RecordSearch(s, a, c).personas, s.policy.maxSearches)
            <==> (if i.Some? then s.personas[i.value].searchCount else 0) < s.policy.maxSearches
  {
    SearchOutcome(s, a, c);
    var i := ActiveIndex(s.personas, a, c);
    var k := if i.Some? then i.value else |s.personas|;
    assert RecordSearch(s, a, c).personas[k].searchCount > 0;
  }

  /**
   The read-only decision asks for a new fragment exactly when the pick that
   follows it yields a persona that was not there before.
   */
  lemma NewFragmentMeansNewPersona(s: State, a: string, c: Category)
    requires Sound(s)
    ensures var p := GetOrCreate(s, a, c).1;
            EvaluateIsolation(s, a, c).requiresNewFragment <==> IndexOf(s.personas, p.id).None?
  {
    var i := ActiveIndex(s.personas, a, c);
    if i.Some? { IndexOfIndex(s.personas, s.issued, i.value); }
  }

  /**
   Behavioural escalation is asked for exactly when the active persona has used up
   its searches, which under an enabled policy also brings a new fragment.
   */
  lemma EscalationMeansUsedUp(s: State, a: string, c: Category)
    requires Sound(s) && s.policy.maxSearches >= 1
    ensures var i := ActiveIndex(s.personas, a, c);
            EvaluateIsolation(s, a, c).requiresBehavioralEscalation
            <==> i.Some? && s.personas[i.value].searchCount >= s.policy.maxSearches
    ensures s.policy.enabled && EvaluateIsolation(s, a, c).requiresBehavioralEscalation ==>
              EvaluateIsolation(s, a, c).requiresNewFragment && EvaluateIsolation(s, a, c).requiresSessionIsolation
  {
    var i := ActiveIndex(s.personas, a, c);
    if i.Some? {
      var n := s.personas[i.value].searchCount;
      RiskRisesToCritical(n, n, s.personas[i.value].category, s.policy.maxSearches);
    }
  }

  /**
   What the read-only decision asks for, whoever is active: the two switches of the
   policy, on category changes and on sensitive categories, do not enter into it.
   */
  lemma IsolationDecisionExactly(s: State, a: string, c: Category, i: nat)
    requires Sound(s)
    ensures var d, enabled := EvaluateIsolation(s, a, c), s.policy.enabled;
            var sensitive := c in {Crypto, Security, Health, Politics, Finance};
            && ((forall j :: 0 <= j < |s.personas| ==> !ActiveFor(s.personas[j], a, c)) ==>
                  d == Decision(None, true, enabled && sensitive, sensitive, false))
            && (i < |s.personas| && ActiveFor(s.personas[i], a, c) ==>
                  var p := s.personas[i];
                  var used := enabled && p.searchCount >= s.policy.maxSearches;
                  d == Decision(Some(p.id), used, used || (enabled && sensitive), enabled && sensitive,
                                p.risk == Critical))
  {
    if i < |s.personas| && ActiveFor(s.personas[i], a, c) {
      assert ActiveIndex(s.personas, a, c) == Some(i);
    }
  }

  /** The same state under a policy with the two switches set otherwise. */
  function Switched(s: State, onChange: bool, onHighRisk: bool): State {
    s.(policy := s.policy.(rotateOnCategoryChange := onChange, isolateHighRisk := onHighRisk))
  }

  lemma StepIgnoresSwitches(s: State, op: Op, x: bool, y: bool)
    ensures Step(Switched(s, x, y), op) == Switched(Step(s, op), x, y)
  {
    match op {
      case Request(a, c, f) => PickIgnoresSwitches(s, a, c, x, y);
      case Pick(a, c) => PickIgnoresSwitches(s, a, c, x, y);
      case Search(a, c) =>
      case ForceRotation(a, c) =>
    }
  }

  lemma DecisionIgnoresSwitches(s: State, a: string, c: Category, x: bool, y: bool)
    ensures EvaluateIsolation(Switched(s, x, y), a, c) == EvaluateIsolation(s, a, c)
  {
  }

  lemma PickIgnoresSwitches(s: State, a: string, c: Category, x: bool, y: bool)
    ensures GetOrCreate(Switched(s, x, y), a, c) == (Switched(GetOrCreate(s, a, c).0, x, y), GetOrCreate(s, a, c).1)
  {
  }

  /**
   Personas are looked up by category, so the one found never belongs to another:
   rotation on category change and isolation of sensitive categories can be
   switched on or off without a difference to any run or any decision.
   */
  lemma {:induction false} SwitchesChangeNothing(policy: Policy, ops: seq<Op>, x: bool, y: bool, a: string, c: Category)
    ensures var other := policy.(rotateOnCategoryChange := x, isolateHighRisk := y);
            && Run(other, ops) == Switched(Run(policy, ops), x, y)
            && EvaluateIsolation(Run(other, ops), a, c) == EvaluateIsolation(Run(policy, ops), a, c)
    decreases |ops|
  {
    DecisionIgnoresSwitches(Run(policy, ops), a, c, x, y);
    if ops == [] {
    } else {
      SwitchesChangeNothing(policy, ops[..|ops| - 1], x, y, a, c);
      StepIgnoresSwitches(Run(policy, ops[..|ops| - 1]), ops[|ops| - 1], x, y);
    }
  }

  // ---- Fragments bound --------------------------------------------------------

  predicate Bound(bindings: seq<Binding>, id: nat, fragmentId: FragmentId) {
    exists k :: 0 <= k < |bindings| && bindings[k].personaId == id && bindings[k].fragmentId == fragmentId
  }

  /** A persona lists exactly the fragments bound to it. */
  ghost predicate ListsBound(p: Persona, bindings: seq<Binding>) {
    && (forall f :: f in p.fragmentIds <==> Bound(bindings, p.id, f))
    && (forall i, j :: 0 <= i < j < |p.fragmentIds| ==> p.fragmentIds[i] != p.fragmentIds[j])
  }

  /** Its bindings are active exactly while it is. */
  predicate ActsAlike(p: Persona, bindings: seq<Binding>) {
    forall k :: 0 <= k < |bindings| && bindings[k].personaId == p.id ==> (bindings[k].active <==> p.active)
  }

  predicate EachOnce(bindings: seq<Binding>) {
    forall k, l :: 0 <= k < l < |bindings| ==>
      !(bindings[k].personaId == bindings[l].personaId && bindings[k].fragmentId == bindings[l].fragmentId)
  }

  ghost predicate Mirrors(s: State) {
    && (forall i :: 0 <= i < |s.personas| ==>
          ListsBound(s.personas[i], s.bindings) && ActsAlike(s.personas[i], s.bindings))
    && EachOnce(s.bindings)
    && (forall k :: 0 <= k < |s.bindings| ==> s.bindings[k].personaId < s.issued)
  }

  lemma NewcomerKeepsMirrors(s: State, a: string, c: Category)
    requires Mirrors(s)
    ensures Mirrors(AddPersona(s, a, c))
  {
  }

  lemma DeactivatedBound(bindings: seq<Binding>, id: nat, other: nat, f: FragmentId)
    ensures Bound(DeactivateBindings(bindings, id), other, f) <==> Bound(bindings, other, f)
  {
    var after := DeactivateBindings(bindings, id);
    if Bound(bindings, other, f) {
      var k :| 0 <= k < |bindings| && bindings[k].personaId == other && bindings[k].fragmentId == f;
      assert after[k].personaId == other && after[k].fragmentId == f;
    }
  }

  lemma RetireKeepsMirrors(s: State, i: nat)
    requires Sound(s) && Mirrors(s) && i < |s.personas|
    ensures Mirrors(Retire(s, s.personas[i].id))
  {
    var id := s.personas[i].id;
    var t := Retire(s, id);
    IndexOfIndex(s.personas, s.issued, i);
    forall j | 0 <= j < |t.personas|
      ensures ListsBound(t.personas[j], t.bindings) && ActsAlike(t.personas[j], t.bindings)
    {
      assert ListsBound(s.personas[j], s.bindings) && ActsAlike(s.personas[j], s.bindings);
      forall f ensures f in t.personas[j].fragmentIds <==> Bound(t.bindings, t.personas[j].id, f) {
        DeactivatedBound(s.bindings, id, s.personas[j].id, f);
      }
    }
  }

  lemma PickKeepsMirrors(s: State, a: string, c: Category)
    requires Sound(s) && Mirrors(s)
    ensures Mirrors(GetOrCreate(s, a, c).0) && Mirrors(Rotate(s, a, c))
  {
    var i := ActiveIndex(s.personas, a, c);
    if i.Some? {
      RetireKeepsMirrors(s, i.value);
      NewcomerKeepsMirrors(Retire(s, s.personas[i.value].id), a, c);
    } else {
      NewcomerKeepsMirrors(s, a, c);
    }
  }

  lemma BoundAdded(bindings: seq<Binding>, b: Binding, id: nat, f: FragmentId)
    ensures Bound(bindings + [b], id, f) <==> Bound(bindings, id, f) || (b.personaId == id && b.fragmentId == f)
  {
    var after := bindings + [b];
    assert after[|bindings|] == b;
    if Bound(bindings, id, f) {
      var k :| 0 <= k < |bindings| && bindings[k].personaId == id && bindings[k].fragmentId == f;
      assert after[k] == bindings[k];
    }
  }

  /** Binding a fragment to an active persona lists it there, and keeps the rest. */
  lemma BindBothMirrors(s: State, i: nat, f: FragmentId)
    requires Sound(s) && Mirrors(s) && i < |s.personas| && s.personas[i].active
    ensures var t := BindBoth(s, s.personas[i].id, f);
            Mirrors(t) && f in t.personas[i].fragmentIds
  {
    var p := s.personas[i];
    var t := BindBoth(s, p.id, f);
    IndexOfIndex(s.personas, s.issued, i);
    assert ListsBound(p, s.bindings) && ActsAlike(p, s.bindings);
    if f in p.fragmentIds {
      var k :| 0 <= k < |s.bindings| && s.bindings[k].personaId == p.id && s.bindings[k].fragmentId == f;
      assert BindingFor(s.bindings[k], p.id, f);
      assert t == s;
    } else {
      assert !Bound(s.bindings, p.id, f);
      var b := Binding(p.id, f, true);
      assert t.bindings == s.bindings + [b];
      forall j | 0 <= j < |t.personas|
        ensures ListsBound(t.personas[j], t.bindings) && ActsAlike(t.personas[j], t.bindings)
      {
        assert ListsBound(s.personas[j], s.bindings) && ActsAlike(s.personas[j], s.bindings);
        forall g ensures g in t.personas[j].fragmentIds <==> Bound(t.bindings, t.personas[j].id, g) {
          BoundAdded(s.bindings, b, s.personas[j].id, g);
        }
      }
    }
  }

  lemma CountingKeepsMirrors(s: State, i: nat, q: Persona)
    requires Mirrors(s) && i < |s.personas| && SameIdentity(s.personas[i], q)
    requires q.fragmentIds == s.personas[i].fragmentIds
    ensures Mirrors(s.(personas := s.personas[i := q]))
  {
    var p := s.personas[i];
    assert ListsBound(p, s.bindings) && ActsAlike(p, s.bindings);
    assert ListsBound(q, s.bindings) && ActsAlike(q, s.bindings);
  }

  lemma SearchKeepsMirrors(s: State, a: string, c: Category)
    requires Sound(s) && Mirrors(s)
    ensures var t := RecordSearch(s, a, c);
            && Mirrors(t) && |s.personas| <= |t.personas|
            && forall i :: 0 <= i < |s.personas| ==> t.personas[i].fragmentIds == s.personas[i].fragmentIds
  {
    var i := ActiveIndex(s.personas, a, c);
    if i.None? {
      NewcomerKeepsSound(s, a, c);
      NewcomerKeepsMirrors(s, a, c);
    }
    var s1 := if i.None? then AddPersona(s, a, c) else s;
    var k := ActiveIndex(s1.personas, a, c).value;
    IndexOfIndex(s1.personas, s1.issued, k);
    CountingKeepsMirrors(s1, k, Searched(s1.personas[k], s.policy.maxSearches));
  }

  /** The persona a request leaves active for its pair has the fragment of the request bound. */
  lemma RequestBinds(s: State, a: string, c: Category, f: FragmentId)
    requires Sound(s) && Mirrors(s)
    ensures var t := Serve(s, a, c, f);
            && Mirrors(t)
            && (forall i :: 0 <= i < |t.personas| && ActiveFor(t.personas[i], a, c) ==>
                  f in t.personas[i].fragmentIds)
  {
    var (s1, p) := GetOrCreate(s, a, c);
    GetOrCreateSound(s, a, c);
    PickKeepsMirrors(s, a, c);
    var i := ActiveIndex(s1.personas, a, c).value;
    BindBothOutcome(s1, i, f);
    BindBothMirrors(s1, i, f);
    SearchKeepsMirrors(BindBoth(s1, p.id, f), a, c);
    ServeOutcome(s, a, c, f);
  }

  /**
   In every run a persona lists each fragment bound to it once and no other, in
   both stores alike, and its bindings are active exactly while it is.
   */
  lemma {:induction false} BindingsMirrorPersonas(policy: Policy, ops: seq<Op>)
    ensures Mirrors(Run(policy, ops))
    decreases |ops|
  {
    if ops == [] {
    } else {
      BindingsMirrorPersonas(policy, ops[..|ops| - 1]);
      RunsAreSound(policy, ops[..|ops| - 1]);
      var s := Run(policy, ops[..|ops| - 1]);
      match ops[|ops| - 1] {
        case Request(a, c, f) => RequestBinds(s, a, c, f);
        case Pick(a, c) => PickKeepsMirrors(s, a, c);
        case Search(a, c) => SearchKeepsMirrors(s, a, c);
        case ForceRotation(a, c) => PickKeepsMirrors(s, a, c);
      }
    }
  }
}
