/**
 Identity fragments (packages/core/src/behavioral-privacy/fragmentation.ts) and
 how the request pipeline uses them (apps/grl-server/src/local-api.ts).
 Fragment ids come from one counter.
 */
module Fragments {
  import opened Wrappers

  datatype Policy = Policy(enabled: bool, maxRequests: int, ttl: int)
  datatype Fragment = Fragment(id: nat, createdAt: int, expiresAt: int, active: bool, requestCount: nat)
  datatype State = State(policy: Policy, fragments: map<string, seq<Fragment>>, issued: nat)

  function List(s: State, a: string): seq<Fragment> {
    if a in s.fragments then s.fragments[a] else []
  }

  predicate Usable(f: Fragment, maxRequests: int, now: int) {
    f.active && f.expiresAt > now && f.requestCount < maxRequests
  }

  function FirstUsable(list: seq<Fragment>, maxRequests: int, now: int): (r: Option<nat>)
    ensures r.Some? ==> r.value < |list| && Usable(list[r.value], maxRequests, now)
    ensures r.None? ==> forall i :: 0 <= i < |list| ==> !Usable(list[i], maxRequests, now)
  {
    if list == [] then None
    else if Usable(list[0], maxRequests, now) then Some(0)
    else
      var r := FirstUsable(list[1..], maxRequests, now);
      if r.Some? then Some(r.value + 1) else
      assert forall i :: 1 <= i < |list| ==> list[i] == list[1..][i - 1];
      None
  }

  function NewFragment(s: State, now: int): Fragment {
    Fragment(s.issued, now, now + s.policy.ttl, true, 0)
  }

  function Create(s: State, a: string, now: int): State {
    s.(fragments := s.fragments[a := List(s, a) + [NewFragment(s, now)]], issued := s.issued + 1)
  }

  /** The id of the fragment in use, `None` standing for the source's 'disabled'. */
  function GetActive(s: State, a: string, now: int): (State, Option<nat>) {
    if !s.policy.enabled then (s, None)
    else
      var i := FirstUsable(List(s, a), s.policy.maxRequests, now);
      if i.Some? then (s, Some(List(s, a)[i.value].id)) else (Create(s, a, now), Some(s.issued))
  }

  function Deactivated(list: seq<Fragment>): seq<Fragment> {
    seq(|list|, i requires 0 <= i < |list| => list[i].(active := false))
  }

  function Rotate(s: State, a: string, now: int): State {
    Create(s.(fragments := s.fragments[a := Deactivated(List(s, a))]), a, now)
  }

  function IndexOf(list: seq<Fragment>, id: nat): (r: Option<nat>)
    ensures r.Some? ==> r.value < |list| && list[r.value].id == id
    ensures r.None? ==> forall i :: 0 <= i < |list| ==> list[i].id != id
  {
    if list == [] then None
    else if list[0].id == id then Some(0)
    else
      var r := IndexOf(list[1..], id);
      if r.Some? then Some(r.value + 1) else
      assert forall i :: 1 <= i < |list| ==> list[i] == list[1..][i - 1];
      None
  }

  function RecordRequest(s: State, a: string, id: Option<nat>): State {
    if id.None? then s
    else
      var i := IndexOf(List(s, a), id.value);
      if i.None? then s
      else
        var f := List(s, a)[i.value];
        s.(fragments := s.fragments[a := List(s, a)[i.value := f.(requestCount := f.requestCount + 1)]])
  }

  function ExpiredList(list: seq<Fragment>, now: int): seq<Fragment> {
    seq(|list|, i requires 0 <= i < |list| =>
      if list[i].active && list[i].expiresAt <= now then list[i].(active := false) else list[i])
  }

  function Expire(s: State, now: int): State {
    s.(fragments := map a | a in s.fragments :: ExpiredList(s.fragments[a], now))
  }

  // ---- The pipeline -----------------------------------------------------------

  /**
   A request under elevated risk rotates, any other uses the active fragment and
   counts itself on it; binding a persona only fetches the active fragment.
   */
  datatype Op =
    | RotateOp(agent: string, now: int)
    | Use(agent: string, now: int)
    | Fetch(agent: string, now: int)
    | ExpireOp(now: int)

  function Step(s: State, op: Op): State {
    match op
    case RotateOp(a, now) => Rotate(s, a, now)
    case Use(a, now) =>
      var (t, id) := GetActive(s, a, now);
      RecordRequest(t, a, id)
    case Fetch(a, now) => GetActive(s, a, now).0
    case ExpireOp(now) => Expire(s, now)
  }

  function Initial(policy: Policy): State {
    State(policy, map[], 0)
  }

  function Run(policy: Policy, ops: seq<Op>): State
    decreases |ops|
  {
    if ops == [] then Initial(policy) else Step(Run(policy, ops[..|ops| - 1]), ops[|ops| - 1])
  }

  predicate Monotone(ops: seq<Op>) {
    forall i, j :: 0 <= i <= j < |ops| ==> ops[i].now <= ops[j].now
  }

  predicate Distinct(list: seq<Fragment>, issued: nat) {
    && (forall i, j :: 0 <= i < j < |list| ==> list[i].id != list[j].id)
    && (forall i :: 0 <= i < |list| ==> list[i].id < issued)
  }

  /** No two fragments of a list are usable at one time. */
  predicate OneUsable(list: seq<Fragment>, maxRequests: int, now: int) {
    forall i, j :: 0 <= i < j < |list| ==> !(Usable(list[i], maxRequests, now) && Usable(list[j], maxRequests, now))
  }

  /** The ids of a list, which is all that distinctness depends on. */
  function Ids(list: seq<Fragment>): seq<nat> {
    seq(|list|, i requires 0 <= i < |list| => list[i].id)
  }

  lemma SameIdsDistinct(list: seq<Fragment>, list': seq<Fragment>, issued: nat)
    requires Distinct(list, issued) && Ids(list') == Ids(list)
    ensures Distinct(list', issued)
  {
    forall i | 0 <= i < |list'| ensures list'[i].id == list[i].id {
      assert Ids(list')[i] == Ids(list)[i];
    }
  }

  /** An operation keeps the ids of a list, or appends the next one. */
  lemma StepIds(s: State, op: Op, a: string)
    ensures var ids, ids' := Ids(List(s, a)), Ids(List(Step(s, op), a));
            || (ids' == ids && s.issued <= Step(s, op).issued)
            || (ids' == ids + [s.issued] && Step(s, op).issued == s.issued + 1)
    ensures Step(s, op).policy == s.policy
  {
    match op {
      case RotateOp(b, now) =>
        if a == b { assert Ids(Deactivated(List(s, a))) == Ids(List(s, a)); }
      case Use(b, now) =>
        var (t, id) := GetActive(s, b, now);
        assert Ids(List(RecordRequest(t, b, id), a)) == Ids(List(t, a));
      case Fetch(b, now) =>
      case ExpireOp(now) =>
        assert Ids(ExpiredList(List(s, a), now)) == Ids(List(s, a));
    }
  }

  lemma StepKeepsDistinct(s: State, op: Op, a: string)
    requires Distinct(List(s, a), s.issued)
    ensures Distinct(List(Step(s, op), a), Step(s, op).issued)
    ensures Step(s, op).policy == s.policy
  {
    StepIds(s, op, a);
    var list, list' := List(s, a), List(Step(s, op), a);
    if Ids(list') == Ids(list) {
      SameIdsDistinct(list, list', s.issued);
    } else {
      assert |Ids(list')| == |list| + 1;
      forall i | 0 <= i < |list'| ensures list'[i].id == if i < |list| then list[i].id else s.issued {
        assert Ids(list')[i] == (Ids(list) + [s.issued])[i];
      }
    }
  }

  lemma StepKeepsOneUsable(s: State, op: Op, a: string, before: int)
    requires before <= op.now && OneUsable(List(s, a), s.policy.maxRequests, before)
    ensures OneUsable(List(Step(s, op), a), s.policy.maxRequests, op.now)
  {
    var list := List(s, a);
    assert OneUsable(list, s.policy.maxRequests, op.now);
    match op {
      case ExpireOp(now) =>
      case RotateOp(b, now) =>
      case Fetch(b, now) =>
      case Use(b, now) => UseKeepsOneUsable(s, b, now, a);
    }
  }

  lemma UseKeepsOneUsable(s: State, b: string, now: int, a: string)
    requires OneUsable(List(s, a), s.policy.maxRequests, now)
    ensures OneUsable(List(Step(s, Use(b, now)), a), s.policy.maxRequests, now)
  {
    var (t, id) := GetActive(s, b, now);
    assert OneUsable(List(t, a), s.policy.maxRequests, now);
    var u := RecordRequest(t, b, id);
    assert |List(u, a)| == |List(t, a)|;
    forall i | 0 <= i < |List(u, a)| && Usable(List(u, a)[i], s.policy.maxRequests, now)
      ensures Usable(List(t, a)[i], s.policy.maxRequests, now)
    {
    }
  }

  /**
   Under a non-decreasing clock an agent has at most one usable fragment at any
   time from the last operation on.
   */
  lemma {:induction false} AtMostOneUsable(policy: Policy, ops: seq<Op>, a: string, now: int)
    requires Monotone(ops) && (ops != [] ==> ops[|ops| - 1].now <= now)
    ensures OneUsable(List(Run(policy, ops), a), policy.maxRequests, now)
    ensures Distinct(List(Run(policy, ops), a), Run(policy, ops).issued) && Run(policy, ops).policy == policy
    decreases |ops|
  {
    if ops == [] {
    } else {
      var before := ops[..|ops| - 1];
      var op := ops[|ops| - 1];
      AtMostOneUsable(policy, before, a, op.now);
      StepKeepsOneUsable(Run(policy, before), op, a, op.now);
      StepKeepsDistinct(Run(policy, before), op, a);
    }
  }

  /** The fragment handed out is usable at once, and the only usable one. */
  lemma ActiveFragmentIsTheUsableOne(policy: Policy, ops: seq<Op>, a: string, now: int, i: nat)
    requires Monotone(ops) && (ops != [] ==> ops[|ops| - 1].now <= now)
    requires policy.enabled && policy.maxRequests >= 1 && policy.ttl >= 1
    ensures var (t, id) := GetActive(Run(policy, ops), a, now);
            i < |List(t, a)| ==> (Usable(List(t, a)[i], policy.maxRequests, now) <==> Some(List(t, a)[i].id) == id)
  {
    AtMostOneUsable(policy, ops, a, now);
    var s := Run(policy, ops);
    var (t, id) := GetActive(s, a, now);
    var k := FirstUsable(List(s, a), policy.maxRequests, now);
    if k.Some? {
      assert List(t, a)[k.value].id == id.value;
    } else {
      assert List(t, a)[|List(s, a)|] == NewFragment(s, now);
    }
  }

  /** Being flagged active is not being usable: fetching after exhaustion leaves the old flag on. */
  lemma ExhaustedFragmentStaysFlagged(s: State, a: string, now: int, i: nat)
    requires s.policy.enabled && i < |List(s, a)| && List(s, a)[i].active
    requires OneUsable(List(s, a), s.policy.maxRequests, now)
    requires FirstUsable(List(s, a), s.policy.maxRequests, now).None?
    ensures var list := List(GetActive(s, a, now).0, a);
            exists j :: i < j < |list| && list[i].active && list[j].active
  {
    var list := List(GetActive(s, a, now).0, a);
    assert list[|List(s, a)|] == NewFragment(s, now);
  }

  // ---- Request counts ----------------------------------------------------------

  predicate Counted(list: seq<Fragment>, maxRequests: int) {
    forall i :: 0 <= i < |list| ==> list[i].requestCount <= maxRequests
  }

  /** Exactly the policies under which no fragment is overused. */
  predicate LimitsRequests(p: Policy) {
    p.maxRequests >= if p.enabled then 1 else 0
  }

  lemma StepKeepsCounted(s: State, op: Op, a: string)
    requires LimitsRequests(s.policy) && Counted(List(s, a), s.policy.maxRequests)
    requires Distinct(List(s, a), s.issued)
    ensures Counted(List(Step(s, op), a), s.policy.maxRequests)
  {
    if op.Use? && op.agent == a && s.policy.enabled {
      var (t, id) := GetActive(s, a, op.now);
      var k := FirstUsable(List(s, a), s.policy.maxRequests, op.now);
      var i := IndexOf(List(t, a), id.value);
      if k.Some? {
        assert List(s, a)[k.value].id == id.value;
        assert i == k;
      } else {
        assert List(t, a)[|List(s, a)|].id == s.issued;
        assert i == Some(|List(s, a)|);
      }
    }
  }

  predicate AllCounted(policy: Policy, ops: seq<Op>, a: string) {
    Counted(List(Run(policy, ops), a), policy.maxRequests)
  }

  lemma {:induction false} RunsAreCounted(policy: Policy, ops: seq<Op>, a: string)
    requires LimitsRequests(policy)
    ensures AllCounted(policy, ops, a)
    ensures Distinct(List(Run(policy, ops), a), Run(policy, ops).issued) && Run(policy, ops).policy == policy
    decreases |ops|
  {
    if ops == [] {
    } else {
      var before := ops[..|ops| - 1];
      RunsAreCounted(policy, before, a);
      StepKeepsDistinct(Run(policy, before), ops[|ops| - 1], a);
      StepKeepsCounted(Run(policy, before), ops[|ops| - 1], a);
    }
  }

  /** In all pipeline runs no fragment passes its limit, exactly when the limit is usable. */
  lemma RequestLimitHoldsExactly(policy: Policy, a: string)
    ensures (forall ops :: AllCounted(policy, ops, a)) <==> LimitsRequests(policy)
  {
    if LimitsRequests(policy) {
      forall ops ensures AllCounted(policy, ops, a) { RunsAreCounted(policy, ops, a); }
    } else {
      var op := if policy.enabled then Use(a, 0) else RotateOp(a, 0);
      FirstOverused(policy, a);
      assert [op][..0] == [] && Run(policy, [op]) == Step(Initial(policy), op);
      assert !AllCounted(policy, [op], a);
    }
  }

  lemma FirstOverused(policy: Policy, a: string)
    requires !LimitsRequests(policy)
    ensures var op := if policy.enabled then Use(a, 0) else RotateOp(a, 0);
            !Counted(List(Step(Initial(policy), op), a), policy.maxRequests)
  {
    var s := Initial(policy);
    var added := NewFragment(s, 0);
    assert List(Create(s, a, 0), a) == [added];
    if policy.enabled {
      var t := Create(s, a, 0);
      assert FirstUsable(List(s, a), policy.maxRequests, 0).None?;
      assert IndexOf([added], 0) == Some(0);
      assert List(RecordRequest(t, a, Some(0)), a)[0].requestCount == 1;
    } else {
      assert List(Rotate(s, a, 0), a)[0].requestCount == 0;
    }
  }

  /** Every request that used a fragment is counted on exactly one. */
  function TotalRequests(list: seq<Fragment>): nat {
    if list == [] then 0 else TotalRequests(list[..|list| - 1]) + list[|list| - 1].requestCount
  }

  function Uses(ops: seq<Op>, a: string): nat
    decreases |ops|
  {
    if ops == [] then 0
    else Uses(ops[..|ops| - 1], a) + (if ops[|ops| - 1].Use? && ops[|ops| - 1].agent == a then 1 else 0)
  }

  lemma {:induction false} TotalSame(list: seq<Fragment>, list': seq<Fragment>)
    requires |list| == |list'| && forall i :: 0 <= i < |list| ==> list[i].requestCount == list'[i].requestCount
    ensures TotalRequests(list) == TotalRequests(list')
  {
    if list == [] {
    } else {
      TotalSame(list[..|list| - 1], list'[..|list| - 1]);
    }
  }

  function OneMore(list: seq<Fragment>, i: nat): seq<Fragment>
    requires i < |list|
  {
    list[i := list[i].(requestCount := list[i].requestCount + 1)]
  }

  lemma {:induction false} TotalCounted(list: seq<Fragment>, i: nat)
    requires i < |list|
    ensures TotalRequests(OneMore(list, i)) == TotalRequests(list) + 1
  {
    var list' := OneMore(list, i);
    var n := |list| - 1;
    if i == n {
      assert list'[..n] == list[..n];
    } else {
      TotalCounted(list[..n], i);
      assert list'[..n] == OneMore(list[..n], i);
    }
  }

  lemma TotalAppended(list: seq<Fragment>, f: Fragment)
    ensures TotalRequests(list + [f]) == TotalRequests(list) + f.requestCount
  {
    assert (list + [f])[..|list|] == list;
  }

  /** The requests counted on the fragments of an agent. */
  function Total(s: State, a: string): nat {
    TotalRequests(List(s, a))
  }

  lemma RotateTotal(s: State, b: string, now: int, a: string)
    ensures Total(Rotate(s, b, now), a) == Total(s, a)
  {
    TotalSame(List(s, a), Deactivated(List(s, a)));
    TotalAppended(Deactivated(List(s, a)), NewFragment(s, now));
  }

  lemma FetchTotal(s: State, b: string, now: int, a: string)
    ensures Total(GetActive(s, b, now).0, a) == Total(s, a)
  {
    TotalAppended(List(s, a), NewFragment(s, now));
  }

  lemma RecordedList(s: State, b: string, id: nat, a: string)
    requires IndexOf(List(s, b), id).Some?
    ensures List(RecordRequest(s, b, Some(id)), a)
            == if a == b then OneMore(List(s, b), IndexOf(List(s, b), id).value) else List(s, a)
  {
  }

  lemma RecordTotal(s: State, b: string, id: nat, a: string)
    requires IndexOf(List(s, b), id).Some?
    ensures Total(RecordRequest(s, b, Some(id)), a) == Total(s, a) + (if a == b then 1 else 0)
  {
    RecordedList(s, b, id, a);
    TotalCounted(List(s, b), IndexOf(List(s, b), id).value);
  }

  lemma UseTotal(s: State, b: string, now: int, a: string)
    requires s.policy.enabled
    ensures Total(Step(s, Use(b, now)), a) == Total(s, a) + (if a == b then 1 else 0)
  {
    var (t, id) := GetActive(s, b, now);
    FetchTotal(s, b, now, a);
    UsedIsListed(s, b, now);
    RecordTotal(t, b, id.value, a);
  }

  lemma TotalAfter(s: State, op: Op, a: string)
    requires s.policy.enabled
    ensures Total(Step(s, op), a) == Total(s, a) + (if op.Use? && op.agent == a then 1 else 0)
  {
    match op {
      case RotateOp(b, now) => RotateTotal(s, b, now, a);
      case ExpireOp(now) => TotalSame(List(s, a), List(Step(s, op), a));
      case Fetch(b, now) => FetchTotal(s, b, now, a);
      case Use(b, now) => UseTotal(s, b, now, a);
    }
  }

  lemma UsedIsListed(s: State, a: string, now: int)
    requires s.policy.enabled
    ensures var (t, id) := GetActive(s, a, now); id.Some? && IndexOf(List(t, a), id.value).Some?
  {
    var (t, id) := GetActive(s, a, now);
    var k := FirstUsable(List(s, a), s.policy.maxRequests, now);
    assert List(t, a)[if k.Some? then k.value else |List(s, a)|].id == id.value;
  }

  /** In every run of an enabled manager the request counts add up to the requests made. */
  lemma {:induction false} RequestsAreCounted(policy: Policy, ops: seq<Op>, a: string)
    requires policy.enabled
    ensures Total(Run(policy, ops), a) == Uses(ops, a) && Run(policy, ops).policy == policy
    decreases |ops|
  {
    if ops == [] {
    } else {
      var before := ops[..|ops| - 1];
      RequestsAreCounted(policy, before, a);
      TotalAfter(Run(policy, before), ops[|ops| - 1], a);
      StepIds(Run(policy, before), ops[|ops| - 1], a);
    }
  }

  /** A fragment in use serves a later request exactly while its lifetime lasts and its limit is not reached. */
  lemma NewFragmentServesExactly(s: State, a: string, now: int, later: int)
    requires s.policy.enabled && FirstUsable(List(s, a), s.policy.maxRequests, now).None? && now <= later
    requires Distinct(List(s, a), s.issued)
    ensures var (t, id) := GetActive(s, a, now);
            GetActive(t, a, later).1 == id <==> s.policy.maxRequests > 0 && later - now < s.policy.ttl
  {
    var (t, id) := GetActive(s, a, now);
    var list := List(t, a);
    var k := FirstUsable(list, s.policy.maxRequests, later);
    assert list[|List(s, a)|] == NewFragment(s, now);
    if k.Some? && k.value < |List(s, a)| {
      assert Usable(List(s, a)[k.value], s.policy.maxRequests, now);
    }
  }

  /** Rotating leaves exactly the new fragment flagged active. */
  lemma RotationLeavesOneActive(s: State, a: string, now: int, i: nat)
    ensures var list := List(Rotate(s, a, now), a);
            && |list| == |List(s, a)| + 1
            && (i < |list| ==> (list[i].active <==> i == |List(s, a)|))
  {
  }

  /**
   Expiring is housekeeping: nothing expired stays flagged, for any agent, and from
   that time on nothing else changes: the same fragments are usable, with the same
   counts.
   */
  lemma ExpiringIsHousekeeping(s: State, now: int, a: string, i: nat, later: int)
    requires i < |List(s, a)| && now <= later
    ensures var list, after := List(s, a), List(Expire(s, now), a);
            && |after| == |list| && after[i] == list[i].(active := after[i].active)
            && (after[i].active <==> list[i].active && now < list[i].expiresAt)
            && (Usable(after[i], s.policy.maxRequests, later) <==> Usable(list[i], s.policy.maxRequests, later))
  {
  }
}
