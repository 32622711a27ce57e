/**
 The stores and the engine of packages/core/src/persona-isolation: personas.ts,
 fragments.ts and engine.ts.
 */
module PersonaEngine {
  import opened Correlations
  import opened Wrappers
  import P = Persona
  import opened Persona

  class PersonaFragmentManager {
    var bindings: seq<Binding>

    constructor ()
      ensures bindings == []
    {
      bindings := [];
    }

    method Bind(personaId: nat, fragmentId: FragmentId)
      modifies this
      ensures bindings == P.Bind(old(bindings), personaId, fragmentId)
    {
      var i := 0;
      while i < |bindings|
        invariant 0 <= i <= |bindings|
        invariant forall j :: 0 <= j < i ==> !BindingFor(bindings[j], personaId, fragmentId)
      {
        var b := bindings[i];
        if b.personaId == personaId && b.fragmentId == fragmentId && b.active { return; }
        i := i + 1;
      }
      bindings := bindings + [Binding(personaId, fragmentId, true)];
    }

    /** Switches bindings off in place and counts those that were on. */
    method DeactivateForPersona(personaId: nat) returns (count: nat)
      modifies this
      ensures bindings == DeactivateBindings(old(bindings), personaId)
      ensures count == |ActiveOf(old(bindings), personaId)|
    {
      count := 0;
      var i := 0;
      while i < |bindings|
        invariant 0 <= i <= |bindings| == |old(bindings)|
        invariant forall j :: 0 <= j < i ==> bindings[j] == DeactivateBindings(old(bindings), personaId)[j]
        invariant forall j :: i <= j < |bindings| ==> bindings[j] == old(bindings)[j]
        invariant count == |ActiveOf(old(bindings)[..i], personaId)|
      {
        var b := bindings[i];
        assert ActiveOf(old(bindings)[..i + 1], personaId)
            == ActiveOf(old(bindings)[..i], personaId) + (if b.personaId == personaId && b.active then {i} else {});
        if b.personaId == personaId && b.active {
          bindings := bindings[i := b.(active := false)];
          count := count + 1;
        }
        i := i + 1;
      }
      assert old(bindings)[..i] == old(bindings);
    }
  }

  ghost function ActiveOf(bindings: seq<Binding>, personaId: nat): set<int> {
    set i | 0 <= i < |bindings| && bindings[i].personaId == personaId && bindings[i].active
  }

  lemma {:induction false} ActiveIndexAt(personas: seq<Persona>, a: string, c: Category, i: nat)
    requires i < |personas| && ActiveFor(personas[i], a, c)
    requires forall j :: 0 <= j < i ==> !ActiveFor(personas[j], a, c)
    ensures ActiveIndex(personas, a, c) == Some(i)
  {
    if i == 0 {
    } else {
      ActiveIndexAt(personas[1..], a, c, i - 1);
    }
  }

  lemma {:induction false} IndexOfAt(personas: seq<Persona>, id: nat, i: nat)
    requires i < |personas| && personas[i].id == id && forall j :: 0 <= j < i ==> personas[j].id != id
    ensures IndexOf(personas, id) == Some(i)
  {
    if i == 0 {
    } else {
      IndexOfAt(personas[1..], id, i - 1);
    }
  }

  /** The live records, in the order they were added. */
  class PersonaStore {
    var personas: seq<Persona>

    constructor ()
      ensures personas == []
    {
      personas := [];
    }

    method FindActive(a: string, c: Category) returns (r: Option<Persona>)
      ensures var i := ActiveIndex(personas, a, c);
              r == if i.Some? then Some(personas[i.value]) else None
    {
      var i := 0;
      while i < |personas|
        invariant 0 <= i <= |personas|
        invariant forall j :: 0 <= j < i ==> !ActiveFor(personas[j], a, c)
      {
        var p := personas[i];
        if p.agentId == a && p.category == c && p.active {
          ActiveIndexAt(personas, a, c, i);
          return Some(p);
        }
        i := i + 1;
      }
      r := None;
    }

    method FindById(id: nat) returns (r: Option<nat>)
      ensures r == IndexOf(personas, id)
    {
      var i := 0;
      while i < |personas|
        invariant 0 <= i <= |personas|
        invariant forall j :: 0 <= j < i ==> personas[j].id != id
      {
        if personas[i].id == id {
          IndexOfAt(personas, id, i);
          return Some(i);
        }
        i := i + 1;
      }
      r := None;
    }

    method Add(p: Persona)
      modifies this
      ensures personas == old(personas) + [p]
    {
      personas := personas + [p];
    }

    method Deactivate(id: nat)
      modifies this
      ensures personas == P.Deactivate(old(personas), id)
    {
      var i := FindById(id);
      if i.None? { return; }
      personas := personas[i.value := personas[i.value].(active := false)];
    }

    method BindFragment(id: nat, fragmentId: FragmentId)
      modifies this
      ensures personas == P.BindFragment(old(personas), id, fragmentId)
    {
      var i := FindById(id);
      if i.None? { return; }
      var p := personas[i.value];
      if fragmentId !in p.fragmentIds {
        personas := personas[i.value := p.(fragmentIds := p.fragmentIds + [fragmentId])];
      }
    }

    method RecordSearch(id: nat) returns (r: Option<Persona>)
      modifies this
      ensures var i := IndexOf(old(personas), id);
              if i.None? then r.None? && personas == old(personas)
              else r == Some(old(personas)[i.value].(searchCount := old(personas)[i.value].searchCount + 1))
                   && personas == old(personas)[i.value := r.value]
    {
      var i := FindById(id);
      if i.None? { return None; }
      var p := personas[i.value].(searchCount := personas[i.value].searchCount + 1);
      personas := personas[i.value := p];
      r := Some(p);
    }

    method SetRisk(id: nat, risk: Risk)
      modifies this
      ensures var i := IndexOf(old(personas), id);
              personas == if i.None? then old(personas)
                          else old(personas)[i.value := old(personas)[i.value].(risk := risk)]
    {
      var i := FindById(id);
      if i.None? { return; }
      personas := personas[i.value := personas[i.value].(risk := risk)];
    }
  }

  class Engine {
    const policy: Policy
    const store: PersonaStore
    const fragments: PersonaFragmentManager
    var issued: nat

    ghost function View(): State
      reads this, store, fragments
    {
      State(policy, store.personas, fragments.bindings, issued)
    }

    /** One active persona per pair, bindings only of active personas, risks that agree with the counts. */
    ghost predicate Valid()
      reads this, store, fragments
    {
      Sound(View())
    }

    constructor (policy: Policy)
      ensures Valid() && View() == Initial(policy) && fresh(store) && fresh(fragments)
    {
      this.policy := policy;
      store := new PersonaStore();
      fragments := new PersonaFragmentManager();
      issued := 0;
    }

    method CreateFreshPersona(a: string, c: Category) returns (p: Persona)
      modifies this, store
      ensures View() == AddPersona(old(View()), a, c)
      ensures p == NewPersona(old(View()), a, c)
    {
      p := Persona(issued, a, c, true, [], 0, Low);
      issued := issued + 1;
      store.Add(p);
    }

    method GetOrCreatePersona(a: string, c: Category) returns (p: Persona)
      requires Valid()
      modifies this, store, fragments
      ensures Valid() && View() == GetOrCreate(old(View()), a, c).0
      ensures p == GetOrCreate(old(View()), a, c).1
    {
      GetOrCreateSound(View(), a, c);
      var existing := store.FindActive(a, c);
      var segmentation := Segment(policy, existing, c);
      if !segmentation.shouldRotate && existing.Some? { return existing.value; }
      if existing.Some? {
        store.Deactivate(existing.value.id);
        var _ := fragments.DeactivateForPersona(existing.value.id);
      }
      p := CreateFreshPersona(a, c);
    }

    /** Read-only. */
    method EvaluatePersonaIsolation(a: string, c: Category) returns (d: Decision)
      ensures d == EvaluateIsolation(View(), a, c)
    {
      var existing := store.FindActive(a, c);
      var seg := Segment(policy, existing, c);
      if existing.None? { return Decision(None, true, seg.isHighRisk, HighRiskCategory(c), false); }
      var p := existing.value;
      d := Decision(Some(p.id), seg.shouldRotate || seg.isSaturated, seg.shouldRotate || seg.isHighRisk,
                    seg.isHighRisk, p.risk == Critical);
    }

    /** Counts on the active persona, created if missing, and sets the risk for the new count. */
    method CountSearch(a: string, c: Category)
      modifies this, store
      ensures View() == RecordSearch(old(View()), a, c)
    {
      var persona := store.FindActive(a, c);
      if persona.None? {
        NewcomerIsActive(store.personas, NewPersona(View(), a, c), a, c);
        var created := CreateFreshPersona(a, c);
        persona := Some(created);
      }
      ghost var before := store.personas;
      var updated := store.RecordSearch(persona.value.id);
      if updated.None? { return; }
      RecountedPersona(before, persona.value.id, policy.maxSearches);
      var newRisk := DeriveRisk(updated.value.searchCount, updated.value.category, policy.maxSearches);
      store.SetRisk(updated.value.id, newRisk);
    }

    method RecordPersonaSearch(a: string, c: Category)
      requires Valid()
      modifies this, store
      ensures Valid() && View() == RecordSearch(old(View()), a, c)
    {
      SearchOutcome(View(), a, c);
      CountSearch(a, c);
    }

    method RotatePersona(a: string, c: Category) returns (p: Persona)
      requires Valid()
      modifies this, store, fragments
      ensures Valid() && View() == Rotate(old(View()), a, c)
    {
      RotateKeepsSound(View(), a, c);
      var existing := store.FindActive(a, c);
      if existing.Some? {
        store.Deactivate(existing.value.id);
        var _ := fragments.DeactivateForPersona(existing.value.id);
      }
      p := CreateFreshPersona(a, c);
    }
  }

  lemma IndexSurvives(personas: seq<Persona>, id: nat, i: nat, q: Persona)
    requires IndexOf(personas, id) == Some(i) && q.id == id
    ensures IndexOf(personas[i := q], id) == Some(i)
  {
    forall j | 0 <= j < i ensures personas[j].id != id {
      FirstIndex(personas, id, i, j);
    }
    IndexOfAt(personas[i := q], id, i);
  }

  lemma {:induction false} FirstIndex(personas: seq<Persona>, id: nat, i: nat, j: nat)
    requires IndexOf(personas, id) == Some(i) && j < i
    ensures personas[j].id != id
  {
    if j == 0 {
    } else {
      FirstIndex(personas[1..], id, i - 1, j - 1);
    }
  }

  /** Counting and then setting the risk, both by id, is one replacement. */
  lemma RecountedPersona(personas: seq<Persona>, id: nat, maxSearches: int)
    requires IndexOf(personas, id).Some?
    ensures var i := IndexOf(personas, id).value;
            var counted := personas[i].(searchCount := personas[i].searchCount + 1);
            var risk := DeriveRisk(counted.searchCount, counted.category, maxSearches);
            && IndexOf(personas[i := counted], id) == Some(i)
            && personas[i := counted][i := counted.(risk := risk)]
               == personas[i := Searched(personas[i], maxSearches)]
  {
    var i := IndexOf(personas, id).value;
    IndexSurvives(personas, id, i, personas[i].(searchCount := personas[i].searchCount + 1));
  }

  /** The persona steps of one pipeline request. */
  method HandleRequest(engine: Engine, a: string, c: Category, fragmentId: FragmentId) returns (d: Decision, p: Persona)
    requires engine.Valid()
    modifies engine, engine.store, engine.fragments
    ensures engine.Valid() && engine.View() == Serve(old(engine.View()), a, c, fragmentId)
    ensures d == EvaluateIsolation(old(engine.View()), a, c)
  {
    d := engine.EvaluatePersonaIsolation(a, c);
    GetOrCreateSound(engine.View(), a, c);
    p := engine.GetOrCreatePersona(a, c);
    BindBothOutcome(engine.View(), ActiveIndex(engine.store.personas, a, c).value, fragmentId);
    engine.fragments.Bind(p.id, fragmentId);
    engine.store.BindFragment(p.id, fragmentId);
    engine.RecordPersonaSearch(a, c);
  }
}
