/** No target is passed over: each fires in the first tick at or after the time it may. */
module SchedulerTurns {
  import opened Schedulers
  import opened SchedulerRuns
  import opened SchedulerSpacing

  // ---- First sight ----

  /** Sighting plans exactly the targets that were not planned yet, one interval ahead. */
  lemma {:induction false} SightedPlans(plan: Plan, targets: seq<Target>, now: int, k: TargetKey)
    requires DistinctKeys(targets)
    ensures k in Sighted(plan, targets, now) <==> k in plan || Has(targets, k)
    ensures forall i :: 0 <= i < |targets| && KeyOf(targets[i]) == k && k !in plan ==>
              k in Sighted(plan, targets, now) && Sighted(plan, targets, now)[k] == now + targets[i].interval
  {
    if targets != [] {
      var n := |targets| - 1;
      SightedPlans(plan, targets[..n], now, k);
      assert forall i :: 0 <= i < n ==> targets[..n][i] == targets[i];
      if KeyOf(targets[n]) == k {
        assert Has(targets, k);
        assert !Has(targets[..n], k);
      }
      if Has(targets[..n], k) {
        var i :| 0 <= i < n && KeyOf(targets[..n][i]) == k;
        assert KeyOf(targets[i]) == k;
      }
    }
  }

  /** Event e is the tick that first lists the target, at place i. */
  predicate FirstListed(events: seq<Event>, h: seq<History>, e: nat, i: nat, k: TargetKey) {
    && e < |events| && e < |h| && events[e].Tick? && i < |events[e].targets|
    && KeyOf(events[e].targets[i]) == k && k !in h[e].first
  }

  /** A target's first planned time is one interval after the tick that first listed it. */
  lemma {:induction false} FirstPlanIsOneInterval(max: nat, jitter: int -> int, events: seq<Event>, h: seq<History>, n: nat, k: TargetKey)
    returns (e: nat, i: nat)
    requires IsHistory(max, jitter, events, h) && n <= |events| && k in h[n].first
    ensures e < n && FirstListed(events, h, e, i, k) && h[n].first[k] == events[e].now + events[e].targets[i].interval
  {
    var m: nat := n - 1;
    assert InTurn(max, h[m], events[m]) && h[n] == NextHistory(max, jitter, h[m], events[m]);
    if k in h[m].first {
      e, i := FirstPlanIsOneInterval(max, jitter, events, h, m, k);
    } else {
      e := m;
      SightedPlans(h[m].first, events[m].targets, events[m].now, k);
      i :| 0 <= i < |events[m].targets| && KeyOf(events[m].targets[i]) == k;
    }
  }

  // ---- Turns ----

  /** All tasks at hand are of the last tick, none both waits and runs, and a group is in flight only while it runs. */
  ghost predicate OneTick(s: State) {
    && (forall id :: id in s.waiting || id in s.running ==> id.tick + 1 == s.ticks)
    && (forall id :: id in s.waiting ==> id !in s.running)
    && NoneLeftBehind(s)
  }

  lemma NextIsOneTick(max: nat, jitter: int -> int, h: History, e: Event)
    requires InTurn(max, h, e) && OneTick(h.state) && Exclusive(max, h.state)
    ensures OneTick(Next(max, jitter, h.state, e))
  {
    NextLeavesNoneBehind(max, jitter, h.state, e);
  }

  lemma {:induction false} TurnsAreOneTick(max: nat, jitter: int -> int, events: seq<Event>, h: seq<History>, n: nat)
    requires IsHistory(max, jitter, events, h) && n <= |events|
    ensures OneTick(h[n].state) && Exclusive(max, h[n].state)
  {
    if n > 0 {
      var m: nat := n - 1;
      TurnsAreOneTick(max, jitter, events, h, m);
      NextIsOneTick(max, jitter, h[m], events[m]);
      NextIsExclusive(max, jitter, h[m].state, events[m]);
    }
  }

  /** Whoever gets the semaphore fires. */
  lemma WaitingTaskFires(s: State, id: TaskId)
    requires OneTick(s) && id in s.waiting
    ensures Fires(s, id)
  {
    forall other | other in s.running ensures other.group != id.group {
      assert other.tick == id.tick && other != id;
    }
    assert !Runs(s, id.group);
  }

  /** The target waits in the round of its own group. */
  predicate Waits(s: State, id: TaskId, t: Target, now: int) {
    id in s.waiting && t in s.waiting[id].targets && s.waiting[id].now == now
  }

  /** After a tick, exactly the listed targets wait whose planned time has come. */
  lemma TickQueues(s: State, now: int, targets: seq<Target>, t: Target)
    requires s.waiting == map[] && s.inFlight == {} && t in targets
    ensures KeyOf(t) in Sighted(s.plan, targets, now)
    ensures Waits(Ticked(s, now, targets), TaskId(s.ticks, GroupOf(t)), t, now) <==> Sighted(s.plan, targets, now)[KeyOf(t)] <= now
  {
    var plan := Sighted(s.plan, targets, now);
    var due := Due(plan, targets, now);
    DueMeans(plan, targets, now);
    OfMeans(due, GroupOf(t));
    assert t in Of(due, GroupOf(t)) <==> plan[KeyOf(t)] <= now;
  }

  /** After a tick, exactly the listed targets wait that may fire by now. */
  lemma PermittedTargetsWait(max: nat, jitter: int -> int, events: seq<Event>, h: seq<History>, n: nat, t: Target)
    requires IsHistory(max, jitter, events, h) && n < |events| && events[n].Tick? && t in events[n].targets
    ensures KeyOf(t) in h[n + 1].first
    ensures Waits(h[n + 1].state, TaskId(h[n].state.ticks, GroupOf(t)), t, events[n].now) <==>
            Floor(h[n].log, h[n + 1].first, KeyOf(t)) <= events[n].now
  {
    var s, now, targets := h[n].state, events[n].now, events[n].targets;
    TurnsAreOneTick(max, jitter, events, h, n);
    FiringsKeepTheirDistance(max, jitter, events, h, n);
    assert InTurn(max, h[n], events[n]) && h[n + 1] == NextHistory(max, jitter, h[n], events[n]);
    assert s.inFlight == {};
    TickQueues(s, now, targets, t);
    TickPlans(jitter, h[n], now, targets, KeyOf(t));
  }

  // ---- Everybody who waits fires ----

  lemma {:induction false} FiredHolds(log: seq<Firing>, targets: seq<Target>, now: int, jitter: int -> int)
    ensures log <= Fired(log, targets, now, jitter)
    ensures forall t :: t in targets ==> Firing(KeyOf(t), now, Gap(t, jitter)) in Fired(log, targets, now, jitter)[|log|..]
  {
    if targets != [] {
      var n := |targets| - 1;
      FiredHolds(log, targets[..n], now, jitter);
      var before, all := Fired(log, targets[..n], now, jitter), Fired(log, targets, now, jitter);
      var last := Firing(KeyOf(targets[n]), now, Gap(targets[n], jitter));
      assert all[|log|..] == before[|log|..] + [last];
      assert targets == targets[..n] + [targets[n]];
    }
  }

  /** The log has grown by this firing. */
  ghost predicate HasFired(before: seq<Firing>, log: seq<Firing>, f: Firing) {
    before <= log && f in log[|before|..]
  }

  lemma StillFired(before: seq<Firing>, log: seq<Firing>, later: seq<Firing>, f: Firing)
    requires HasFired(before, log, f) && log <= later
    ensures HasFired(before, later, f)
  {
    assert later[|before|..] == log[|before|..] + later[|log|..];
  }

  lemma LogGrows(max: nat, jitter: int -> int, h: History, e: Event)
    requires Enabled(max, h.state, e)
    ensures h.log <= NextHistory(max, jitter, h, e).log
  {
    if e.Enter? {
      FiredHolds(h.log, h.state.waiting[e.id].targets, h.state.waiting[e.id].now, jitter);
    }
  }

  /** The target waits, or its round has started. */
  ghost predicate WaitsOrFired(jitter: int -> int, before: seq<Firing>, h: History, id: TaskId, t: Target, now: int) {
    before <= h.log && (Waits(h.state, id, t, now) || HasFired(before, h.log, Firing(KeyOf(t), now, Gap(t, jitter))))
  }

  lemma StepWaitsOrFires(max: nat, jitter: int -> int, before: seq<Firing>, h: History, e: Event, id: TaskId, t: Target, now: int)
    requires InTurn(max, h, e) && !e.Tick? && OneTick(h.state) && WaitsOrFired(jitter, before, h, id, t, now)
    ensures WaitsOrFired(jitter, before, NextHistory(max, jitter, h, e), id, t, now)
  {
    var h', f := NextHistory(max, jitter, h, e), Firing(KeyOf(t), now, Gap(t, jitter));
    LogGrows(max, jitter, h, e);
    if HasFired(before, h.log, f) {
      StillFired(before, h.log, h'.log, f);
    } else if e == Enter(id) {
      WaitingTaskFires(h.state, id);
      FiredHolds(h.log, h.state.waiting[id].targets, now, jitter);
      assert h'.log[|before|..] == h.log[|before|..] + h'.log[|h.log|..];
    }
  }

  /** Between the tick and the next one. */
  predicate NoTick(events: seq<Event>, n: nat, m: nat) {
    forall k :: n < k < m && k < |events| ==> !events[k].Tick?
  }

  lemma {:induction false} StaysWaitingOrFired(max: nat, jitter: int -> int, events: seq<Event>, h: seq<History>, n: nat, m: nat,
                                               before: seq<Firing>, id: TaskId, t: Target, now: int)
    requires IsHistory(max, jitter, events, h) && n < m <= |events| && NoTick(events, n, m)
    requires WaitsOrFired(jitter, before, h[n + 1], id, t, now)
    ensures WaitsOrFired(jitter, before, h[m], id, t, now)
    decreases m
  {
    var p: nat := m - 1;
    if n < p {
      StaysWaitingOrFired(max, jitter, events, h, n, p, before, id, t, now);
      TurnsAreOneTick(max, jitter, events, h, p);
      assert InTurn(max, h[p], events[p]) && h[m] == NextHistory(max, jitter, h[p], events[p]);
      StepWaitsOrFires(max, jitter, before, h[p], events[p], id, t, now);
    }
  }

  /**
   * A target that a tick lists at or after its permitted time has fired, at that tick's time, once the tick's rounds have
   * all been let in: together with the distance law, it fires in the first such tick.
   */
  lemma PermittedTargetFires(max: nat, jitter: int -> int, events: seq<Event>, h: seq<History>, n: nat, m: nat, t: Target)
    requires IsHistory(max, jitter, events, h) && n < m <= |events| && events[n].Tick? && t in events[n].targets
    requires NoTick(events, n, m) && h[m].state.waiting == map[]
    requires KeyOf(t) in h[n + 1].first && Floor(h[n].log, h[n + 1].first, KeyOf(t)) <= events[n].now
    ensures HasFired(h[n].log, h[m].log, Firing(KeyOf(t), events[n].now, t.interval + jitter(t.interval)))
  {
    var id, now := TaskId(h[n].state.ticks, GroupOf(t)), events[n].now;
    PermittedTargetsWait(max, jitter, events, h, n, t);
    assert InTurn(max, h[n], events[n]) && h[n + 1] == NextHistory(max, jitter, h[n], events[n]);
    QueuedWaits(max, jitter, h[n], events[n], id, t, now);
    StaysWaitingOrFired(max, jitter, events, h, n, m, h[n].log, id, t, now);
    NoneWaits(jitter, h[n].log, h[m], id, t, now);
  }

  lemma QueuedWaits(max: nat, jitter: int -> int, h: History, e: Event, id: TaskId, t: Target, now: int)
    requires e.Tick? && Waits(NextHistory(max, jitter, h, e).state, id, t, now)
    ensures WaitsOrFired(jitter, h.log, NextHistory(max, jitter, h, e), id, t, now)
  {
  }

  lemma NoneWaits(jitter: int -> int, before: seq<Firing>, h: History, id: TaskId, t: Target, now: int)
    requires WaitsOrFired(jitter, before, h, id, t, now) && h.state.waiting == map[]
    ensures HasFired(before, h.log, Firing(KeyOf(t), now, t.interval + jitter(t.interval)))
  {
  }
}
