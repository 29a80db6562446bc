/** When targets are due, and how their rounds run side by side. Times are whole ticks of the scheduler's clock. */
module Schedulers {

  datatype Target = Target(tenant: string, id: string, domain: string, interval: int)

  type TargetKey = (string, string)
  type GroupKey = (string, string)
  type Plan = map<TargetKey, int>

  function KeyOf(t: Target): TargetKey {
    (t.tenant, t.id)
  }

  function GroupOf(t: Target): GroupKey {
    (t.tenant, t.domain)
  }

  // ---- What is due ----

  /** Targets seen for the first time are planned one interval ahead. */
  function Sighted(plan: Plan, targets: seq<Target>, now: int): (r: Plan)
    ensures forall k :: k in plan ==> k in r && r[k] == plan[k]
    ensures forall i :: 0 <= i < |targets| ==> KeyOf(targets[i]) in r
  {
    if targets == [] then plan
    else
      var n := |targets| - 1;
      var before := Sighted(plan, targets[..n], now);
      var k := KeyOf(targets[n]);
      assert targets == targets[..n] + [targets[n]];
      if k in before then before else before[k := now + targets[n].interval]
  }

  /** The targets whose planned time has come. */
  function Due(plan: Plan, targets: seq<Target>, now: int): seq<Target>
    requires forall i :: 0 <= i < |targets| ==> KeyOf(targets[i]) in plan
  {
    if targets == [] then []
    else
      var n := |targets| - 1;
      Due(plan, targets[..n], now) + if plan[KeyOf(targets[n])] <= now then [targets[n]] else []
  }

  lemma {:induction false} DueDependsOnTargets(p: Plan, q: Plan, targets: seq<Target>, now: int)
    requires forall i :: 0 <= i < |targets| ==>
               KeyOf(targets[i]) in p && KeyOf(targets[i]) in q && p[KeyOf(targets[i])] == q[KeyOf(targets[i])]
    ensures Due(p, targets, now) == Due(q, targets, now)
  {
    if targets != [] {
      DueDependsOnTargets(p, q, targets[..|targets| - 1], now);
    }
  }

  lemma {:induction false} DueMeans(plan: Plan, targets: seq<Target>, now: int)
    requires forall i :: 0 <= i < |targets| ==> KeyOf(targets[i]) in plan
    ensures forall t :: t in Due(plan, targets, now) <==> t in targets && plan[KeyOf(t)] <= now
  {
    if targets != [] {
      var n := |targets| - 1;
      DueMeans(plan, targets[..n], now);
      assert targets == targets[..n] + [targets[n]];
    }
  }

  /** The targets of one group, in order. */
  function Of(due: seq<Target>, key: GroupKey): (r: seq<Target>) {
    if due == [] then []
    else if GroupOf(due[|due| - 1]) == key then Of(due[..|due| - 1], key) + [due[|due| - 1]]
    else Of(due[..|due| - 1], key)
  }

  lemma {:induction false} OfMeans(due: seq<Target>, key: GroupKey)
    ensures forall t :: t in Of(due, key) <==> t in due && GroupOf(t) == key
  {
    if due != [] {
      var n := |due| - 1;
      OfMeans(due[..n], key);
      assert due == due[..n] + [due[n]];
    }
  }

  function GroupsIn(due: seq<Target>): (r: set<GroupKey>)
    ensures forall key :: key in r <==> Of(due, key) != []
  {
    if due == [] then {} else GroupsIn(due[..|due| - 1]) + {GroupOf(due[|due| - 1])}
  }

  /** Due targets by (tenant, domain), leaving out groups that are running. */
  function Grouped(due: seq<Target>, inFlight: set<GroupKey>): map<GroupKey, seq<Target>> {
    map key | key in GroupsIn(due) && key !in inFlight :: Of(due, key)
  }

  // ---- The scheduler's own steps ----

  class Scheduler {
    var nextRun: Plan
    var inFlight: set<GroupKey>

    constructor ()
      ensures nextRun == map[] && inFlight == {}
    {
      nextRun, inFlight := map[], {};
    }

    method DueTargets(now: int, targets: seq<Target>) returns (due: seq<Target>)
      modifies this`nextRun
      ensures nextRun == Sighted(old(nextRun), targets, now) && due == Due(nextRun, targets, now)
    {
      due := [];
      for i := 0 to |targets|
        invariant nextRun == Sighted(old(nextRun), targets[..i], now)
        invariant due == Due(nextRun, targets[..i], now)
      {
        var key := KeyOf(targets[i]);
        assert targets[..i + 1][..i] == targets[..i];
        ghost var before := nextRun;
        if key !in nextRun {
          nextRun := nextRun[key := now + targets[i].interval];
        }
        DueDependsOnTargets(before, nextRun, targets[..i], now);
        if nextRun[key] <= now {
          due := due + [targets[i]];
        }
      }
      assert targets[..|targets|] == targets;
    }

    method GroupDue(due: seq<Target>) returns (groups: map<GroupKey, seq<Target>>)
      ensures groups == Grouped(due, inFlight)
    {
      groups := map[];
      for i := 0 to |due|
        invariant groups == Grouped(due[..i], inFlight)
      {
        var key := GroupOf(due[i]);
        OneMoreDue(due, i, inFlight);
        if key !in inFlight {
          groups := groups[key := (if key in groups then groups[key] else []) + [due[i]]];
        }
      }
      assert due[..|due|] == due;
    }

    /** A group's turn at the semaphore: it enters unless the same group is already running. */
    method Enter(key: GroupKey) returns (entered: bool)
      modifies this`inFlight
      ensures entered <==> key !in old(inFlight)
      ensures inFlight == old(inFlight) + {key}
    {
      entered := key !in inFlight;
      inFlight := inFlight + {key};
    }

    /** The end of a round, whether it succeeded or failed: the group is free and its targets are planned anew. */
    method Leave(key: GroupKey, targets: seq<Target>, now: int, jitter: int -> int)
      modifies this
      ensures inFlight == old(inFlight) - {key} && nextRun == Replanned(old(nextRun), targets, now, jitter)
    {
      inFlight := inFlight - {key};
      for i := 0 to |targets|
        invariant inFlight == old(inFlight) - {key} && nextRun == Replanned(old(nextRun), targets[..i], now, jitter)
      {
        assert targets[..i + 1][..i] == targets[..i];
        nextRun := nextRun[KeyOf(targets[i]) := now + targets[i].interval + jitter(targets[i].interval)];
      }
      assert targets[..|targets|] == targets;
    }
  }

  lemma OneMoreDue(due: seq<Target>, i: nat, inFlight: set<GroupKey>)
    requires i < |due|
    ensures var before, key := Grouped(due[..i], inFlight), GroupOf(due[i]);
      Grouped(due[..i + 1], inFlight) ==
        if key in inFlight then before else before[key := (if key in before then before[key] else []) + [due[i]]]
  {
    var key, before := GroupOf(due[i]), Grouped(due[..i], inFlight);
    var expected := if key in inFlight then before else before[key := (if key in before then before[key] else []) + [due[i]]];
    forall k
      ensures k in Grouped(due[..i + 1], inFlight) <==> k in expected
      ensures k in expected ==> Grouped(due[..i + 1], inFlight)[k] == expected[k]
    {
      OneMoreInGroup(due, i, k);
    }
  }

  lemma OneMoreInGroup(due: seq<Target>, i: nat, k: GroupKey)
    requires i < |due|
    ensures Of(due[..i + 1], k) == if k == GroupOf(due[i]) then Of(due[..i], k) + [due[i]] else Of(due[..i], k)
  {
    assert due[..i + 1][..i] == due[..i];
  }

  function Replanned(plan: Plan, targets: seq<Target>, now: int, jitter: int -> int): Plan {
    if targets == [] then plan
    else
      var n := |targets| - 1;
      Replanned(plan, targets[..n], now, jitter)[KeyOf(targets[n]) := now + targets[n].interval + jitter(targets[n].interval)]
  }
}
