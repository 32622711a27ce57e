/** The manager of packages/core/src/behavioral-privacy/fragmentation.ts. */
module FragmentManager {
  import opened Wrappers
  import F = Fragments
  import opened Fragments

  class IdentityFragmentManager {
    const policy: Policy
    var fragments: map<string, seq<Fragment>>
    var issued: nat

    ghost function View(): State
      reads this
    {
      State(policy, fragments, issued)
    }

    constructor (policy: Policy)
      ensures View() == Initial(policy)
    {
      this.policy := policy;
      fragments, issued := map[], 0;
    }

    method CreateFragment(a: string, now: int) returns (f: Fragment)
      modifies this
      ensures View() == Create(old(View()), a, now)
      ensures f == NewFragment(old(View()), now)
    {
      f := Fragment(issued, now, now + policy.ttl, true, 0);
      issued := issued + 1;
      var list := if a in fragments then fragments[a] else [];
      list := list + [f];
      fragments := fragments[a := list];
    }

    method GetActiveFragment(a: string, now: int) returns (id: Option<nat>)
      modifies this
      ensures View() == GetActive(old(View()), a, now).0
      ensures id == GetActive(old(View()), a, now).1
    {
      if !policy.enabled { return None; }
      var list := if a in fragments then fragments[a] else [];
      var i := 0;
      while i < |list|
        invariant 0 <= i <= |list|
        invariant forall j :: 0 <= j < i ==> !Usable(list[j], policy.maxRequests, now)
      {
        if list[i].active && list[i].expiresAt > now && list[i].requestCount < policy.maxRequests {
          FirstUsableAt(list, policy.maxRequests, now, i);
          return Some(list[i].id);
        }
        i := i + 1;
      }
      var f := CreateFragment(a, now);
      id := Some(f.id);
    }

    method RotateFragment(a: string, now: int) returns (f: Fragment)
      modifies this
      ensures View() == Rotate(old(View()), a, now)
      ensures f == NewFragment(old(View()), now)
    {
      var list := if a in fragments then fragments[a] else [];
      ghost var before := list;
      var i := 0;
      while i < |list|
        invariant 0 <= i <= |list| == |before|
        invariant forall j :: 0 <= j < i ==> list[j] == before[j].(active := false)
        invariant forall j :: i <= j < |list| ==> list[j] == before[j]
      {
        if list[i].active { list := list[i := list[i].(active := false)]; }
        i := i + 1;
      }
      assert list == Deactivated(before);
      fragments := fragments[a := list];
      f := CreateFragment(a, now);
    }

    method RecordRequest(a: string, id: Option<nat>)
      modifies this`fragments
      ensures View() == F.RecordRequest(old(View()), a, id)
    {
      if id.None? { return; }
      var list := if a in fragments then fragments[a] else [];
      var i := 0;
      while i < |list|
        invariant 0 <= i <= |list|
        invariant forall j :: 0 <= j < i ==> list[j].id != id.value
      {
        if list[i].id == id.value {
          IndexOfAt(list, id.value, i);
          fragments := fragments[a := list[i := list[i].(requestCount := list[i].requestCount + 1)]];
          return;
        }
        i := i + 1;
      }
    }

    static method ExpireList(list: seq<Fragment>, now: int) returns (r: seq<Fragment>)
      ensures r == ExpiredList(list, now)
    {
      r := list;
      var i := 0;
      while i < |r|
        invariant 0 <= i <= |r| == |list|
        invariant forall j :: 0 <= j < i ==> r[j] == ExpiredList(list, now)[j]
        invariant forall j :: i <= j < |r| ==> r[j] == list[j]
      {
        if r[i].active && r[i].expiresAt <= now { r := r[i := r[i].(active := false)]; }
        i := i + 1;
      }
    }

    /** Visits the lists of all agents. */
    method ExpireFragments(now: int)
      modifies this`fragments
      ensures View() == Expire(old(View()), now)
    {
      ghost var before := fragments;
      var left := fragments.Keys;
      while left != {}
        invariant left <= before.Keys
        invariant fragments == map a | a in before :: if a in left then before[a] else ExpiredList(before[a], now)
        decreases left
      {
        var a :| a in left;
        var list := ExpireList(fragments[a], now);
        fragments := fragments[a := list];
        left := left - {a};
      }
    }

    /** Fragments flagged active and unexpired, whether or not they have requests left. */
    method ActiveCount(a: string, now: int) returns (n: nat)
      ensures n == |Flagged(List(View(), a), now)|
    {
      var list := if a in fragments then fragments[a] else [];
      n := 0;
      var i := 0;
      while i < |list|
        invariant 0 <= i <= |list|
        invariant n == |Flagged(list[..i], now)|
      {
        assert Flagged(list[..i + 1], now)
            == Flagged(list[..i], now) + (if list[i].active && list[i].expiresAt > now then {i} else {});
        if list[i].active && list[i].expiresAt > now { n := n + 1; }
        i := i + 1;
      }
      assert list[..i] == list;
    }
  }

  ghost function Flagged(list: seq<Fragment>, now: int): set<int> {
    set i | 0 <= i < |list| && list[i].active && list[i].expiresAt > now
  }

  lemma {:induction false} FirstUsableAt(list: seq<Fragment>, maxRequests: int, now: int, i: nat)
    requires i < |list| && Usable(list[i], maxRequests, now)
    requires forall j :: 0 <= j < i ==> !Usable(list[j], maxRequests, now)
    ensures FirstUsable(list, maxRequests, now) == Some(i)
  {
    if i == 0 {
    } else {
      FirstUsableAt(list[1..], maxRequests, now, i - 1);
    }
  }

  lemma {:induction false} IndexOfAt(list: seq<Fragment>, id: nat, i: nat)
    requires i < |list| && list[i].id == id && forall j :: 0 <= j < i ==> list[j].id != id
    ensures IndexOf(list, id) == Some(i)
  {
    if i == 0 {
    } else {
      IndexOfAt(list[1..], id, i - 1);
    }
  }
}
