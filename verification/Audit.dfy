/**
 The bounded audit log (packages/core/src/audit/store.ts): what the store holds
 after any sequence of operations and what a query returns from it.
 */
module Audit {
  import opened Numbers
  import opened Wrappers

  datatype Event = Event(
    id: string,
    timestamp: int,
    kind: string,
    severity: string,
    agentId: Option<string>,
    compartmentId: Option<string>,
    sessionId: Option<string>,
    requestId: Option<string>,
    executionId: Option<string>)

  datatype Query = Query(
    kind: Option<string>,
    severity: Option<string>,
    agentId: Option<string>,
    compartmentId: Option<string>,
    sessionId: Option<string>,
    requestId: Option<string>,
    executionId: Option<string>,
    since: Option<int>,
    until: Option<int>,
    limit: Option<int>)

  datatype Stored = Stored(event: Event, seqNo: nat)
  datatype State = State(events: seq<Stored>, nextSeq: nat, evicted: nat, maxEvents: nat)

  const DEFAULT_MAX_AUDIT_EVENTS := 50000

  // ---- Storing ----------------------------------------------------------------

  function Initial(maxEvents: nat): State {
    State([], 0, 0, maxEvents)
  }

  function Append(s: State, e: Event): State {
    var events := s.events + [Stored(e, s.nextSeq)];
    var overflow := if |events| > s.maxEvents then |events| - s.maxEvents else 0;
    State(events[overflow..], s.nextSeq + 1, s.evicted + overflow, s.maxEvents)
  }

  /** Neither the sequence numbers nor the eviction count start over. */
  function Clear(s: State): State {
    s.(events := [])
  }

  datatype Op = Store(event: Event) | Wipe

  function Step(s: State, op: Op): State {
    match op
    case Store(e) => Append(s, e)
    case Wipe => Clear(s)
  }

  function Run(maxEvents: nat, ops: seq<Op>): State
    decreases |ops|
  {
    if ops == [] then Initial(maxEvents) else Step(Run(maxEvents, ops[..|ops| - 1]), ops[|ops| - 1])
  }

  /** Every event ever appended, in order. */
  function Appended(ops: seq<Op>): seq<Event>
    decreases |ops|
  {
    if ops == [] then []
    else
      var before := Appended(ops[..|ops| - 1]);
      if ops[|ops| - 1].Store? then before + [ops[|ops| - 1].event] else before
  }

  /** How many events clearing has discarded. */
  function Wiped(maxEvents: nat, ops: seq<Op>): nat
    decreases |ops|
  {
    if ops == [] then 0
    else
      var before := ops[..|ops| - 1];
      Wiped(maxEvents, before) + (if ops[|ops| - 1].Wipe? then |Run(maxEvents, before).events| else 0)
  }

  /** The stored events are the last ones appended, under consecutive numbers. */
  predicate HoldsTail(s: State, appended: seq<Event>) {
    && s.nextSeq == |appended|
    && |s.events| <= Min(|appended|, s.maxEvents)
    && forall i :: 0 <= i < |s.events| ==>
         var k := |appended| - |s.events| + i;
         s.events[i] == Stored(appended[k], k)
  }

  lemma AppendHoldsTail(s: State, appended: seq<Event>, e: Event)
    requires HoldsTail(s, appended) && s.maxEvents >= 1
    ensures HoldsTail(Append(s, e), appended + [e])
    ensures |Append(s, e).events| == Min(|s.events| + 1, s.maxEvents)
    ensures Append(s, e).evicted + |Append(s, e).events| == s.evicted + |s.events| + 1
  {
  }

  /**
   After any operations the store holds the last events appended under
   consecutive numbers, and every event appended is stored, evicted or wiped.
   */
  lemma {:induction false} StoreHoldsTail(maxEvents: nat, ops: seq<Op>)
    requires maxEvents >= 1
    ensures var s := Run(maxEvents, ops);
            && s.maxEvents == maxEvents
            && HoldsTail(s, Appended(ops))
            && s.evicted + |s.events| + Wiped(maxEvents, ops) == |Appended(ops)|
    decreases |ops|
  {
    if ops == [] {
    } else {
      var before := ops[..|ops| - 1];
      StoreHoldsTail(maxEvents, before);
      if ops[|ops| - 1].Store? { AppendHoldsTail(Run(maxEvents, before), Appended(before), ops[|ops| - 1].event); }
    }
  }

  /** Without clearing, exactly the last min(n, maxEvents) of n events are held. */
  lemma {:induction false} WithoutClearing(maxEvents: nat, ops: seq<Op>)
    requires maxEvents >= 1 && forall i :: 0 <= i < |ops| ==> ops[i].Store?
    ensures var s := Run(maxEvents, ops);
            && HoldsTail(s, Appended(ops)) && |Appended(ops)| == |ops|
            && |s.events| == Min(|ops|, maxEvents)
            && s.evicted + |s.events| == |ops|
    decreases |ops|
  {
    if ops == [] {
    } else {
      var before := ops[..|ops| - 1];
      WithoutClearing(maxEvents, before);
      StoreHoldsTail(maxEvents, before);
      AppendHoldsTail(Run(maxEvents, before), Appended(before), ops[|ops| - 1].event);
    }
  }

  // ---- Querying ---------------------------------------------------------------

  predicate Wants<T(==)>(wanted: Option<T>, actual: Option<T>) {
    wanted.Some? ==> wanted == actual
  }

  predicate Matches(e: Event, q: Query) {
    && Wants(q.kind, Some(e.kind)) && Wants(q.severity, Some(e.severity))
    && Wants(q.agentId, e.agentId) && Wants(q.compartmentId, e.compartmentId)
    && Wants(q.sessionId, e.sessionId) && Wants(q.requestId, e.requestId) && Wants(q.executionId, e.executionId)
    && (q.since.Some? ==> q.since.value <= e.timestamp)
    && (q.until.Some? ==> e.timestamp <= q.until.value)
  }

  function Filter(events: seq<Stored>, q: Query): seq<Stored> {
    if events == [] then []
    else
      var before, last := Filter(events[..|events| - 1], q), events[|events| - 1];
      if Matches(last.event, q) then before + [last] else before
  }

  /** Timestamp first, insertion second. */
  predicate Before(a: Stored, b: Stored) {
    a.event.timestamp < b.event.timestamp || (a.event.timestamp == b.event.timestamp && a.seqNo < b.seqNo)
  }

  predicate Sorted(s: seq<Stored>) {
    forall i, j :: 0 <= i < j < |s| ==> Before(s[i], s[j])
  }

  function Insert(s: seq<Stored>, x: Stored): seq<Stored> {
    if s == [] || Before(s[|s| - 1], x) then s + [x] else Insert(s[..|s| - 1], x) + [s[|s| - 1]]
  }

  function Sort(s: seq<Stored>): seq<Stored> {
    if s == [] then [] else Insert(Sort(s[..|s| - 1]), s[|s| - 1])
  }

  predicate DistinctNumbers(s: seq<Stored>) {
    forall i, j :: 0 <= i < j < |s| ==> s[i].seqNo != s[j].seqNo
  }

  lemma {:induction false} InsertElements(s: seq<Stored>, x: Stored)
    ensures multiset(Insert(s, x)) == multiset(s) + multiset{x}
  {
    if s == [] || Before(s[|s| - 1], x) {
    } else {
      InsertElements(s[..|s| - 1], x);
      assert s == s[..|s| - 1] + [s[|s| - 1]];
    }
  }

  predicate AllBefore(s: seq<Stored>, x: Stored) {
    forall i :: 0 <= i < |s| ==> Before(s[i], x)
  }

  lemma {:induction false} InsertBelow(s: seq<Stored>, x: Stored, top: Stored)
    requires AllBefore(s, top) && Before(x, top)
    ensures AllBefore(Insert(s, x), top)
  {
    if s == [] || Before(s[|s| - 1], x) {
    } else {
      InsertBelow(s[..|s| - 1], x, top);
    }
  }

  lemma {:induction false} InsertSorts(s: seq<Stored>, x: Stored)
    requires Sorted(s) && forall i :: 0 <= i < |s| ==> s[i].seqNo != x.seqNo
    ensures Sorted(Insert(s, x))
  {
    if s == [] || Before(s[|s| - 1], x) {
    } else {
      InsertSorts(s[..|s| - 1], x);
      InsertBelow(s[..|s| - 1], x, s[|s| - 1]);
    }
  }

  lemma {:induction false} SortKeeps(s: seq<Stored>)
    requires DistinctNumbers(s)
    ensures Sorted(Sort(s)) && multiset(Sort(s)) == multiset(s)
  {
    if s == [] {
    } else {
      var init, last := s[..|s| - 1], s[|s| - 1];
      SortKeeps(init);
      assert s == init + [last];
      var r := Sort(init);
      forall i | 0 <= i < |r| ensures r[i].seqNo != last.seqNo {
        assert r[i] in multiset(init);
        var k :| 0 <= k < |init| && init[k] == r[i];
        assert s[k] == r[i];
      }
      InsertSorts(r, last);
      InsertElements(r, last);
    }
  }

  lemma BeforeLast(a: seq<Stored>, x: Stored)
    requires Sorted(a) && x in a
    ensures x == a[|a| - 1] || Before(x, a[|a| - 1])
  {
    var i :| 0 <= i < |a| && a[i] == x;
  }

  lemma LastsAgree(a: seq<Stored>, b: seq<Stored>)
    requires Sorted(a) && Sorted(b) && multiset(a) == multiset(b) && a != [] && b != []
    ensures a[|a| - 1] == b[|b| - 1]
  {
    var x, y := a[|a| - 1], b[|b| - 1];
    assert x in multiset(b) && y in multiset(a);
    BeforeLast(b, x);
    BeforeLast(a, y);
  }

  lemma WithoutLast(a: seq<Stored>)
    requires a != []
    ensures multiset(a[..|a| - 1]) == multiset(a) - multiset{a[|a| - 1]}
  {
    assert a == a[..|a| - 1] + [a[|a| - 1]];
  }

  /** There is only one sorted arrangement, so any sorting of the matches gives this one. */
  lemma {:induction false} SortedIsUnique(a: seq<Stored>, b: seq<Stored>)
    requires Sorted(a) && Sorted(b) && multiset(a) == multiset(b)
    ensures a == b
    decreases |a|
  {
    if a == [] || b == [] {
      assert |multiset(a)| == |a| && |multiset(b)| == |b|;
    } else {
      LastsAgree(a, b);
      WithoutLast(a);
      WithoutLast(b);
      SortedIsUnique(a[..|a| - 1], b[..|b| - 1]);
      assert a == a[..|a| - 1] + [b[|b| - 1]];
      assert b == b[..|b| - 1] + [b[|b| - 1]];
    }
  }

  /** A negative limit keeps nothing. */
  function Limit(s: seq<Stored>, limit: Option<int>): seq<Stored> {
    if limit.None? || limit.value >= |s| then s else if limit.value < 0 then [] else s[..limit.value]
  }

  function ListStored(s: State, q: Query): seq<Stored> {
    Limit(Sort(Filter(s.events, q)), q.limit)
  }

  function EventsOf(s: seq<Stored>): seq<Event> {
    seq(|s|, i requires 0 <= i < |s| => s[i].event)
  }

  /** The event is what each constraint of the query asks for, or the query does not ask. */
  predicate Meets(e: Event, q: Query) {
    && q.kind in {None, Some(e.kind)}
    && q.severity in {None, Some(e.severity)}
    && q.agentId in {None, e.agentId}
    && q.compartmentId in {None, e.compartmentId}
    && q.sessionId in {None, e.sessionId}
    && q.requestId in {None, e.requestId}
    && q.executionId in {None, e.executionId}
    && !(q.since.Some? && e.timestamp < q.since.value)
    && !(q.until.Some? && e.timestamp > q.until.value)
  }

  lemma WantsExactly<T>(wanted: Option<T>, actual: Option<T>)
    ensures Wants(wanted, actual) <==> wanted in {None, actual}
  {
    assert wanted == None || wanted == Some(wanted.value);
  }

  lemma MeetsExactly(e: Event, q: Query)
    ensures Matches(e, q) <==> Meets(e, q)
  {
    WantsExactly(q.kind, Some(e.kind));
    WantsExactly(q.severity, Some(e.severity));
    WantsExactly(q.agentId, e.agentId);
    WantsExactly(q.compartmentId, e.compartmentId);
    WantsExactly(q.sessionId, e.sessionId);
    WantsExactly(q.requestId, e.requestId);
    WantsExactly(q.executionId, e.executionId);
  }

  /** The positions of the events that meet a query. */
  ghost function Meeting(events: seq<Stored>, q: Query): set<int> {
    set i | 0 <= i < |events| && Meets(events[i].event, q)
  }

  lemma MeetingAppend(events: seq<Stored>, x: Stored, q: Query)
    ensures |Meeting(events + [x], q)| == |Meeting(events, q)| + (if Meets(x.event, q) then 1 else 0)
  {
    var added: set<int> := if Meets(x.event, q) then {|events|} else {};
    assert Meeting(events + [x], q) == Meeting(events, q) + added;
  }

  lemma {:induction false} FilterCounts(events: seq<Stored>, q: Query)
    ensures |Filter(events, q)| == |Meeting(events, q)|
  {
    if events == [] {
      assert Meeting(events, q) == {};
    } else {
      var init, last := events[..|events| - 1], events[|events| - 1];
      FilterCounts(init, q);
      MeetsExactly(last.event, q);
      MeetingAppend(init, last, q);
      assert init + [last] == events;
    }
  }

  lemma {:induction false} FilterIsExact(events: seq<Stored>, q: Query)
    requires DistinctNumbers(events)
    ensures forall x :: x in Filter(events, q) <==> x in events && Meets(x.event, q)
    ensures DistinctNumbers(Filter(events, q))
  {
    if events == [] {
    } else {
      var init, last := events[..|events| - 1], events[|events| - 1];
      FilterIsExact(init, q);
      MeetsExactly(last.event, q);
      assert forall x :: x in events <==> x in init || x == last;
      forall i | 0 <= i < |Filter(init, q)| ensures Filter(init, q)[i].seqNo != last.seqNo {
        assert Filter(init, q)[i] in init;
        var k :| 0 <= k < |init| && init[k] == Filter(init, q)[i];
        assert events[k] == init[k];
      }
    }
  }

  lemma SortedMatches(events: seq<Stored>, q: Query)
    requires DistinctNumbers(events)
    ensures var all := Sort(Filter(events, q));
            && Sorted(all) && |all| == |Filter(events, q)|
            && forall x :: x in all <==> x in events && Meets(x.event, q)
  {
    var matched := Filter(events, q);
    FilterIsExact(events, q);
    SortKeeps(matched);
    var all := Sort(matched);
    assert |multiset(all)| == |all| && |multiset(matched)| == |matched|;
    forall x ensures x in all <==> x in matched {
      assert x in multiset(all) <==> x in multiset(matched);
    }
  }

  lemma PrefixIsFirst(all: seq<Stored>, n: nat, x: Stored, y: Stored)
    requires Sorted(all) && n <= |all| && x in all[..n] && y in all && y !in all[..n]
    ensures Before(x, y)
  {
    var i :| 0 <= i < n && all[..n][i] == x;
    var j :| 0 <= j < |all| && all[j] == y;
    assert j >= n;
  }

  /** An earlier time, or at the same time an earlier insertion. */
  predicate Earlier(a: Stored, b: Stored) {
    b.event.timestamp > a.event.timestamp || (b.event.timestamp == a.event.timestamp && b.seqNo > a.seqNo)
  }

  /**
   A query on a store with distinct numbers returns the events that meet it in
   order of time and insertion, each once; a limit keeps the first of them, and
   whatever it cuts off comes after everything it keeps.
   */
  lemma ListIsExact(s: State, q: Query)
    requires DistinctNumbers(s.events)
    ensures var r, found := ListStored(s, q), |Meeting(s.events, q)|;
            && (forall i, j :: 0 <= i < j < |r| ==> Earlier(r[i], r[j]))
            && (forall x :: x in r ==> x in s.events && Meets(x.event, q))
            && (forall x, y :: x in r && y in s.events && Meets(y.event, q) && y !in r ==> Earlier(x, y))
            && |r| == if q.limit.None? || q.limit.value > found then found
                      else if q.limit.value < 0 then 0 else q.limit.value
  {
    SortedMatches(s.events, q);
    FilterCounts(s.events, q);
    var all := Sort(Filter(s.events, q));
    var r := ListStored(s, q);
    assert r == all[..|r|];
    forall x, y | x in r && y in all && y !in r ensures Before(x, y) {
      PrefixIsFirst(all, |r|, x, y);
    }
  }

  /** Every reachable store has distinct numbers, so every query on it is exact. */
  lemma ReachableDistinct(maxEvents: nat, ops: seq<Op>)
    requires maxEvents >= 1
    ensures DistinctNumbers(Run(maxEvents, ops).events)
  {
    StoreHoldsTail(maxEvents, ops);
  }
}
