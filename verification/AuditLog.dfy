/** The store of packages/core/src/audit/store.ts. */
module AuditLog {
  import opened Numbers
  import opened Wrappers
  import A = Audit
  import opened Audit

  /** The event is at this index and at none before. */
  predicate FirstAt(events: seq<Stored>, i: nat, e: Event) {
    i < |events| && events[i].event == e && forall j :: 0 <= j < i ==> events[j].event.id != e.id
  }

  class AuditStore {
    var events: seq<Stored>
    var nextSeq: nat
    var evictedCount: nat
    const maxEvents: nat

    ghost function View(): State
      reads this
    {
      State(events, nextSeq, evictedCount, maxEvents)
    }

    /** A limit below one counts as one; an absent or infinite one falls back to the default. */
    constructor (requested: Option<real>)
      ensures View() == Initial(Capacity(requested, DEFAULT_MAX_AUDIT_EVENTS))
      ensures maxEvents >= 1 && (requested.None? ==> maxEvents == 50000)
    {
      maxEvents := if requested.None? then DEFAULT_MAX_AUDIT_EVENTS else Max(1, requested.value.Floor);
      events, nextSeq, evictedCount := [], 0, 0;
    }

    method Append(e: Event)
      modifies this
      ensures View() == A.Append(old(View()), e)
    {
      events := events + [Stored(e, nextSeq)];
      nextSeq := nextSeq + 1;
      if |events| > maxEvents {
        var overflow := |events| - maxEvents;
        events := events[overflow..];
        evictedCount := evictedCount + overflow;
      }
    }

    method Clear()
      modifies this`events
      ensures View() == A.Clear(old(View()))
    {
      events := [];
    }

    method List(q: Query) returns (r: seq<Event>)
      ensures r == EventsOf(ListStored(View(), q))
    {
      var matched: seq<Stored> := [];
      var i := 0;
      while i < |events|
        invariant 0 <= i <= |events|
        invariant matched == Filter(events[..i], q)
      {
        assert events[..i + 1][..i] == events[..i];
        if Matches(events[i].event, q) { matched := matched + [events[i]]; }
        i := i + 1;
      }
      assert events[..i] == events;
      matched := Sort(matched);
      r := EventsOf(matched);
      if q.limit.Some? {
        var end := if q.limit.value < 0 then 0 else q.limit.value;
        if end < |r| { r := r[..end]; }
      }
    }

    method GetById(id: string) returns (r: Option<Event>)
      ensures r.Some? <==> exists i :: 0 <= i < |events| && events[i].event.id == id
      ensures r.Some? ==> r.value.id == id && exists i :: FirstAt(events, i, r.value)
    {
      var i := 0;
      while i < |events|
        invariant 0 <= i <= |events|
        invariant forall j :: 0 <= j < i ==> events[j].event.id != id
      {
        if events[i].event.id == id {
          assert FirstAt(events, i, events[i].event);
          return Some(events[i].event);
        }
        i := i + 1;
      }
      r := None;
    }
  }
}
