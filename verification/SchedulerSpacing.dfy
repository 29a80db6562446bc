/** How far apart the rounds of one target are when ticks follow one another. */
module SchedulerSpacing {
  import opened Schedulers
  import opened SchedulerRuns

  /** A round started for a target at a tick's time; `gap` is its interval plus jitter. */
  datatype Firing = Firing(key: TargetKey, at: int, gap: int)

  /** The earliest permitted time of the target's next firing: a gap after its last one, or its first planned time. */
  function Floor(log: seq<Firing>, first: Plan, k: TargetKey): int
    requires k in first
  {
    if log == [] then first[k]
    else
      var n := |log| - 1;
      if log[n].key == k then log[n].at + log[n].gap else Floor(log[..n], first, k)
  }

  /** No firing comes before the time permitted by those before it. */
  predicate WellSpaced(log: seq<Firing>, first: Plan) {
    log == [] ||
    var n := |log| - 1;
    WellSpaced(log[..n], first) && log[n].key in first && log[n].at >= Floor(log[..n], first, log[n].key)
  }

  predicate DistinctKeys(targets: seq<Target>) {
    forall i, j :: 0 <= i < j < |targets| ==> KeyOf(targets[i]) != KeyOf(targets[j])
  }

  predicate Has(targets: seq<Target>, k: TargetKey) {
    exists i :: 0 <= i < |targets| && KeyOf(targets[i]) == k
  }

  function Gap(t: Target, jitter: int -> int): int {
    t.interval + jitter(t.interval)
  }

  /** The log after all targets fire at `now`. */
  function Fired(log: seq<Firing>, targets: seq<Target>, now: int, jitter: int -> int): seq<Firing> {
    if targets == [] then log
    else
      var n := |targets| - 1;
      Fired(log, targets[..n], now, jitter) + [Firing(KeyOf(targets[n]), now, Gap(targets[n], jitter))]
  }

  lemma {:induction false} FloorOfOthers(log: seq<Firing>, first: Plan, targets: seq<Target>, now: int, jitter: int -> int, k: TargetKey)
    requires k in first && forall i :: 0 <= i < |targets| ==> KeyOf(targets[i]) != k
    ensures Floor(Fired(log, targets, now, jitter), first, k) == Floor(log, first, k)
  {
    if targets != [] {
      var n := |targets| - 1;
      FloorOfOthers(log, first, targets[..n], now, jitter, k);
      var all := Fired(log, targets, now, jitter);
      assert all[..|all| - 1] == Fired(log, targets[..n], now, jitter);
    }
  }

  lemma {:induction false} FloorOfFired(log: seq<Firing>, first: Plan, targets: seq<Target>, now: int, jitter: int -> int, i: nat)
    requires i < |targets| && DistinctKeys(targets) && KeyOf(targets[i]) in first
    ensures Floor(Fired(log, targets, now, jitter), first, KeyOf(targets[i])) == now + Gap(targets[i], jitter)
  {
    var n := |targets| - 1;
    var all := Fired(log, targets, now, jitter);
    assert all[..|all| - 1] == Fired(log, targets[..n], now, jitter);
    if i < n {
      FloorOfFired(log, first, targets[..n], now, jitter, i);
      assert KeyOf(targets[i]) != KeyOf(targets[n]);
    }
  }

  lemma {:induction false} FiringsAreWellSpaced(log: seq<Firing>, first: Plan, targets: seq<Target>, now: int, jitter: int -> int)
    requires WellSpaced(log, first) && DistinctKeys(targets)
    requires forall i :: 0 <= i < |targets| ==> KeyOf(targets[i]) in first && Floor(log, first, KeyOf(targets[i])) <= now
    ensures WellSpaced(Fired(log, targets, now, jitter), first)
  {
    if targets != [] {
      var n := |targets| - 1;
      FiringsAreWellSpaced(log, first, targets[..n], now, jitter);
      FloorOfOthers(log, first, targets[..n], now, jitter, KeyOf(targets[n]));
      var all := Fired(log, targets, now, jitter);
      assert all[..|all| - 1] == Fired(log, targets[..n], now, jitter);
    }
  }

  // ---- Replanning and sighting, key by key ----

  lemma {:induction false} ReplannedOthers(plan: Plan, targets: seq<Target>, now: int, jitter: int -> int, k: TargetKey)
    requires forall i :: 0 <= i < |targets| ==> KeyOf(targets[i]) != k
    ensures k in Replanned(plan, targets, now, jitter) <==> k in plan
    ensures k in plan ==> Replanned(plan, targets, now, jitter)[k] == plan[k]
  {
    if targets != [] {
      ReplannedOthers(plan, targets[..|targets| - 1], now, jitter, k);
    }
  }

  lemma {:induction false} ReplannedAt(plan: Plan, targets: seq<Target>, now: int, jitter: int -> int, i: nat)
    requires i < |targets| && DistinctKeys(targets)
    ensures KeyOf(targets[i]) in Replanned(plan, targets, now, jitter)
    ensures Replanned(plan, targets, now, jitter)[KeyOf(targets[i])] == now + Gap(targets[i], jitter)
  {
    var n := |targets| - 1;
    if i < n {
      ReplannedAt(plan, targets[..n], now, jitter, i);
      assert KeyOf(targets[i]) != KeyOf(targets[n]);
    }
  }

  lemma {:induction false} SightedAlike(p: Plan, q: Plan, targets: seq<Target>, now: int)
    requires p.Keys == q.Keys
    ensures Sighted(p, targets, now).Keys == Sighted(q, targets, now).Keys
    ensures forall k :: k in Sighted(p, targets, now) && k !in p ==> Sighted(p, targets, now)[k] == Sighted(q, targets, now)[k]
  {
    if targets != [] {
      SightedAlike(p, q, targets[..|targets| - 1], now);
    }
  }

  lemma {:induction false} FloorKeepsFirst(log: seq<Firing>, first: Plan, more: Plan, k: TargetKey)
    requires k in first && k in more && more[k] == first[k]
    ensures Floor(log, more, k) == Floor(log, first, k)
  {
    if log != [] {
      FloorKeepsFirst(log[..|log| - 1], first, more, k);
    }
  }

  lemma {:induction false} FloorOfUnfired(log: seq<Firing>, first: Plan, more: Plan, k: TargetKey)
    requires WellSpaced(log, first) && k !in first && k in more
    ensures Floor(log, more, k) == more[k]
  {
    if log != [] {
      FloorOfUnfired(log[..|log| - 1], first, more, k);
    }
  }

  lemma {:induction false} WellSpacedWithMore(log: seq<Firing>, first: Plan, more: Plan)
    requires WellSpaced(log, first) && forall k :: k in first ==> k in more && more[k] == first[k]
    ensures WellSpaced(log, more)
  {
    if log != [] {
      var n := |log| - 1;
      WellSpacedWithMore(log[..n], first, more);
      FloorKeepsFirst(log[..n], first, more, log[n].key);
    }
  }

  // ---- Histories ----

  /** The scheduler with its past: first planned times, all firings, and which task of the last tick covers a target. */
  datatype History = History(state: State, first: Plan, log: seq<Firing>, owner: map<TargetKey, TaskId>)

  const BEGINNING := History(IDLE, map[], [], map[])

  function Owners(targets: seq<Target>, tick: nat): map<TargetKey, TaskId> {
    if targets == [] then map[]
    else Owners(targets[..|targets| - 1], tick)[KeyOf(targets[|targets| - 1]) := TaskId(tick, GroupOf(targets[|targets| - 1]))]
  }

  lemma {:induction false} OwnersAt(targets: seq<Target>, tick: nat, i: nat)
    requires i < |targets| && DistinctKeys(targets)
    ensures KeyOf(targets[i]) in Owners(targets, tick)
    ensures Owners(targets, tick)[KeyOf(targets[i])] == TaskId(tick, GroupOf(targets[i]))
  {
    var n := |targets| - 1;
    if i < n {
      OwnersAt(targets[..n], tick, i);
      assert KeyOf(targets[i]) != KeyOf(targets[n]);
    }
  }

  /** A tick starts only after the rounds of the one before have ended; a listing names each target once. */
  predicate InTurn(max: nat, h: History, e: Event) {
    Enabled(max, h.state, e) && (e.Tick? ==> h.state.waiting == map[] && h.state.running == map[] && DistinctKeys(e.targets))
  }

  function NextHistory(max: nat, jitter: int -> int, h: History, e: Event): History
    requires Enabled(max, h.state, e)
  {
    var s := Next(max, jitter, h.state, e);
    match e
    case Tick(now, targets) => History(s, Sighted(h.first, targets, now), h.log, Owners(targets, h.state.ticks))
    case Enter(id) =>
      var task := h.state.waiting[id];
      h.(state := s, log := if Fires(h.state, id) then Fired(h.log, task.targets, task.now, jitter) else h.log)
    case Leave(_) => h.(state := s)
  }

  predicate Owns(h: History, id: TaskId, task: Task) {
    DistinctKeys(task.targets) && forall i :: 0 <= i < |task.targets| ==>
      var k := KeyOf(task.targets[i]); k in h.first && k in h.owner && h.owner[k] == id
  }

  /** A waiting task may fire all its targets. */
  predicate Ready(h: History, id: TaskId, task: Task) {
    Owns(h, id, task) && forall i :: 0 <= i < |task.targets| ==> Floor(h.log, h.first, KeyOf(task.targets[i])) <= task.now
  }

  /** A running task has fired all its targets. */
  predicate Active(jitter: int -> int, h: History, id: TaskId, task: Task) {
    Owns(h, id, task) && forall i :: 0 <= i < |task.targets| ==>
      Floor(h.log, h.first, KeyOf(task.targets[i])) == task.now + Gap(task.targets[i], jitter)
  }

  /** Between its rounds, a target is planned for exactly the earliest permitted time. */
  predicate Planned(h: History, k: TargetKey)
    requires k in h.state.plan && k in h.first
  {
    || h.state.plan[k] == Floor(h.log, h.first, k)
    || (k in h.owner && h.owner[k] in h.state.running && Has(h.state.running[h.owner[k]].targets, k))
  }

  predicate Spaced(jitter: int -> int, h: History) {
    && h.state.plan.Keys == h.first.Keys && WellSpaced(h.log, h.first)
    && (forall id :: id in h.state.waiting ==> Ready(h, id, h.state.waiting[id]))
    && (forall id :: id in h.state.running ==> Active(jitter, h, id, h.state.running[id]))
    && (forall k :: k in h.state.plan ==> Planned(h, k))
  }

  // ---- Entering ----

  /** Another task's targets are not among those that fire. */
  lemma OthersDoNotFire(h: History, id: TaskId, task: Task, other: TaskId, task': Task, i: nat)
    requires id != other && Owns(h, id, task) && Owns(h, other, task') && i < |task'.targets|
    ensures !Has(task.targets, KeyOf(task'.targets[i]))
  {
  }

  lemma EnterKeepsTask(jitter: int -> int, h: History, id: TaskId, other: TaskId, task': Task)
    requires id in h.state.waiting && Owns(h, id, h.state.waiting[id]) && id != other && Owns(h, other, task')
    ensures var task := h.state.waiting[id]; var log := Fired(h.log, task.targets, task.now, jitter);
      forall i :: 0 <= i < |task'.targets| ==>
        Floor(log, h.first, KeyOf(task'.targets[i])) == Floor(h.log, h.first, KeyOf(task'.targets[i]))
  {
    var task := h.state.waiting[id];
    forall i | 0 <= i < |task'.targets|
      ensures Floor(Fired(h.log, task.targets, task.now, jitter), h.first, KeyOf(task'.targets[i])) ==
              Floor(h.log, h.first, KeyOf(task'.targets[i]))
    {
      OthersDoNotFire(h, id, task, other, task', i);
      FloorOfOthers(h.log, h.first, task.targets, task.now, jitter, KeyOf(task'.targets[i]));
    }
  }

  lemma EnterActivates(jitter: int -> int, h: History, h': History, id: TaskId)
    requires id in h.state.waiting && Ready(h, id, h.state.waiting[id])
    requires h'.first == h.first && h'.owner == h.owner
    requires h'.log == Fired(h.log, h.state.waiting[id].targets, h.state.waiting[id].now, jitter)
    ensures Active(jitter, h', id, h.state.waiting[id])
  {
    var task := h.state.waiting[id];
    forall i | 0 <= i < |task.targets|
      ensures Floor(h'.log, h'.first, KeyOf(task.targets[i])) == task.now + Gap(task.targets[i], jitter)
    {
      FloorOfFired(h.log, h.first, task.targets, task.now, jitter, i);
    }
  }

  lemma EnterKeepsPlanned(jitter: int -> int, h: History, id: TaskId, k: TargetKey)
    requires Spaced(jitter, h) && Fires(h.state, id) && id !in h.state.running && k in h.state.plan
    ensures var task := h.state.waiting[id];
      Planned(h.(state := Entered(h.state, id), log := Fired(h.log, task.targets, task.now, jitter)), k)
  {
    var task := h.state.waiting[id];
    assert Ready(h, id, task) && Planned(h, k);
    if Has(task.targets, k) {
      assert h.owner[k] == id;
    } else {
      FloorOfOthers(h.log, h.first, task.targets, task.now, jitter, k);
    }
  }

  lemma EnterKeepsSpaced(max: nat, jitter: int -> int, h: History, id: TaskId)
    requires Spaced(jitter, h) && Enabled(max, h.state, Enter(id)) && Exclusive(max, h.state)
    ensures Spaced(jitter, NextHistory(max, jitter, h, Enter(id)))
  {
    var h', task := NextHistory(max, jitter, h, Enter(id)), h.state.waiting[id];
    assert Ready(h, id, task);
    if Fires(h.state, id) {
      FiringsAreWellSpaced(h.log, h.first, task.targets, task.now, jitter);
      EnterActivates(jitter, h, h', id);
      forall other | other in h'.state.waiting ensures Ready(h', other, h'.state.waiting[other]) {
        assert Ready(h, other, h.state.waiting[other]);
        EnterKeepsTask(jitter, h, id, other, h.state.waiting[other]);
      }
      forall other | other in h'.state.running && other != id ensures Active(jitter, h', other, h'.state.running[other]) {
        assert Active(jitter, h, other, h.state.running[other]);
        EnterKeepsTask(jitter, h, id, other, h.state.running[other]);
      }
      forall k | k in h'.state.plan ensures Planned(h', k) {
        EnterKeepsPlanned(jitter, h, id, k);
      }
    } else {
      UnfiredKeepsSpaced(jitter, h, h', id);
    }
  }

  lemma UnfiredKeepsSpaced(jitter: int -> int, h: History, h': History, id: TaskId)
    requires Spaced(jitter, h) && h' == h.(state := h.state.(waiting := h.state.waiting - {id}))
    ensures Spaced(jitter, h')
  {
    forall other | other in h'.state.waiting ensures Ready(h', other, h'.state.waiting[other]) {
      assert Ready(h, other, h.state.waiting[other]);
    }
    forall other | other in h'.state.running ensures Active(jitter, h', other, h'.state.running[other]) {
      assert Active(jitter, h, other, h.state.running[other]);
    }
    forall k | k in h'.state.plan ensures Planned(h', k) {
      assert Planned(h, k);
    }
  }

  // ---- Leaving ----

  lemma LeaveKeepsPlanned(jitter: int -> int, h: History, id: TaskId, k: TargetKey)
    requires Spaced(jitter, h) && id in h.state.running
    ensures k in Left(jitter, h.state, id).plan <==> k in h.state.plan
    ensures k in h.state.plan ==> Planned(h.(state := Left(jitter, h.state, id)), k)
  {
    var task := h.state.running[id];
    assert Active(jitter, h, id, task);
    if Has(task.targets, k) {
      var i :| 0 <= i < |task.targets| && KeyOf(task.targets[i]) == k;
      ReplannedAt(h.state.plan, task.targets, task.now, jitter, i);
    } else {
      ReplannedOthers(h.state.plan, task.targets, task.now, jitter, k);
      assert k in h.state.plan ==> Planned(h, k);
    }
  }

  lemma LeaveKeepsSpaced(max: nat, jitter: int -> int, h: History, id: TaskId)
    requires Spaced(jitter, h) && Enabled(max, h.state, Leave(id))
    ensures Spaced(jitter, NextHistory(max, jitter, h, Leave(id)))
  {
    var h' := NextHistory(max, jitter, h, Leave(id));
    forall k ensures k in h'.state.plan <==> k in h.state.plan {
      LeaveKeepsPlanned(jitter, h, id, k);
    }
    assert h'.state.plan.Keys == h.state.plan.Keys;
    forall other | other in h'.state.waiting ensures Ready(h', other, h'.state.waiting[other]) {
      assert Ready(h, other, h.state.waiting[other]);
    }
    forall other | other in h'.state.running ensures Active(jitter, h', other, h'.state.running[other]) {
      assert Active(jitter, h, other, h.state.running[other]);
    }
    forall k | k in h'.state.plan ensures Planned(h', k) {
      LeaveKeepsPlanned(jitter, h, id, k);
    }
  }

  // ---- Ticking ----

  lemma {:induction false} DueStaysDistinct(plan: Plan, targets: seq<Target>, now: int)
    requires DistinctKeys(targets) && forall i :: 0 <= i < |targets| ==> KeyOf(targets[i]) in plan
    ensures DistinctKeys(Due(plan, targets, now))
  {
    if targets != [] {
      var n := |targets| - 1;
      DueStaysDistinct(plan, targets[..n], now);
      var before := Due(plan, targets[..n], now);
      DueMeans(plan, targets[..n], now);
      forall i | 0 <= i < |before| ensures KeyOf(before[i]) != KeyOf(targets[n]) {
        assert before[i] in targets[..n];
        var j :| 0 <= j < n && targets[..n][j] == before[i];
        assert targets[j] == before[i];
      }
    }
  }

  lemma {:induction false} OfStaysDistinct(due: seq<Target>, key: GroupKey)
    requires DistinctKeys(due)
    ensures DistinctKeys(Of(due, key))
  {
    if due != [] {
      var n := |due| - 1;
      OfStaysDistinct(due[..n], key);
      var before := Of(due[..n], key);
      OfMeans(due[..n], key);
      forall i | 0 <= i < |before| ensures KeyOf(before[i]) != KeyOf(due[n]) {
        assert before[i] in due[..n];
        var j :| 0 <= j < n && due[..n][j] == before[i];
        assert due[j] == before[i];
      }
    }
  }

  lemma TickPlans(jitter: int -> int, h: History, now: int, targets: seq<Target>, k: TargetKey)
    requires Spaced(jitter, h) && h.state.running == map[] && k in Sighted(h.state.plan, targets, now)
    ensures k in Sighted(h.first, targets, now)
    ensures Sighted(h.state.plan, targets, now)[k] == Floor(h.log, Sighted(h.first, targets, now), k)
  {
    var first := Sighted(h.first, targets, now);
    SightedAlike(h.state.plan, h.first, targets, now);
    assert k in first;
    if k in h.state.plan {
      assert Planned(h, k);
      FloorKeepsFirst(h.log, h.first, first, k);
    } else {
      FloorOfUnfired(h.log, h.first, first, k);
    }
  }

  lemma TickReadies(jitter: int -> int, h: History, h': History, now: int, targets: seq<Target>, key: GroupKey)
    requires Spaced(jitter, h) && h.state.running == map[] && DistinctKeys(targets)
    requires h'.first == Sighted(h.first, targets, now) && h'.log == h.log && h'.owner == Owners(targets, h.state.ticks)
    ensures Ready(h', TaskId(h.state.ticks, key), Task(Of(Due(Sighted(h.state.plan, targets, now), targets, now), key), now))
  {
    var plan := Sighted(h.state.plan, targets, now);
    var due := Due(plan, targets, now);
    var mine := Of(due, key);
    DueMeans(plan, targets, now);
    OfMeans(due, key);
    DueStaysDistinct(plan, targets, now);
    OfStaysDistinct(due, key);
    forall i | 0 <= i < |mine|
      ensures var k := KeyOf(mine[i]); && k in h'.first && k in h'.owner && h'.owner[k] == TaskId(h.state.ticks, key)
                                       && Floor(h'.log, h'.first, k) <= now
    {
      assert mine[i] in mine;
      var j :| 0 <= j < |targets| && targets[j] == mine[i];
      OwnersAt(targets, h.state.ticks, j);
      TickPlans(jitter, h, now, targets, KeyOf(mine[i]));
    }
  }

  lemma TickKeepsSpaced(max: nat, jitter: int -> int, h: History, now: int, targets: seq<Target>)
    requires Spaced(jitter, h) && InTurn(max, h, Tick(now, targets))
    ensures Spaced(jitter, NextHistory(max, jitter, h, Tick(now, targets)))
  {
    var h' := NextHistory(max, jitter, h, Tick(now, targets));
    SightedAlike(h.state.plan, h.first, targets, now);
    WellSpacedWithMore(h.log, h.first, h'.first);
    forall k | k in h'.state.plan ensures Planned(h', k) {
      TickPlans(jitter, h, now, targets, k);
    }
    forall id | id in h'.state.waiting ensures Ready(h', id, h'.state.waiting[id]) {
      TickReadies(jitter, h, h', now, targets, id.group);
    }
  }

  // ---- Runs ----

  predicate IsHistory(max: nat, jitter: int -> int, events: seq<Event>, h: seq<History>) {
    && |h| == |events| + 1 && h[0] == BEGINNING
    && forall n :: 0 <= n < |events| ==> InTurn(max, h[n], events[n]) && h[n + 1] == NextHistory(max, jitter, h[n], events[n])
  }

  lemma NextKeepsSpaced(max: nat, jitter: int -> int, h: History, e: Event)
    requires Spaced(jitter, h) && Exclusive(max, h.state) && InTurn(max, h, e)
    ensures Spaced(jitter, NextHistory(max, jitter, h, e))
  {
    match e
    case Tick(now, targets) => TickKeepsSpaced(max, jitter, h, now, targets);
    case Enter(id) => EnterKeepsSpaced(max, jitter, h, id);
    case Leave(id) => LeaveKeepsSpaced(max, jitter, h, id);
  }

  /**
   * While ticks follow one another, every target first fires no earlier than one interval after first sight, and
   * again no earlier than interval plus jitter after its last firing, whether that round succeeded or failed.
   */
  lemma {:induction false} FiringsKeepTheirDistance(max: nat, jitter: int -> int, events: seq<Event>, h: seq<History>, n: nat)
    requires IsHistory(max, jitter, events, h) && n <= |events|
    ensures WellSpaced(h[n].log, h[n].first) && Spaced(jitter, h[n]) && Exclusive(max, h[n].state)
  {
    if n > 0 {
      FiringsKeepTheirDistance(max, jitter, events, h, n - 1);
      NextKeepsSpaced(max, jitter, h[n - 1], events[n - 1]);
      NextIsExclusive(max, jitter, h[n - 1].state, events[n - 1]);
    }
  }

  /** Read off a well-spaced log: two successive firings of a target are at least a gap apart. */
  lemma {:induction false} SuccessiveFirings(log: seq<Firing>, first: Plan, i: nat, j: nat)
    requires WellSpaced(log, first) && i < j < |log| && log[i].key == log[j].key
    requires forall m :: i < m < j ==> log[m].key != log[i].key
    ensures log[j].at >= log[i].at + log[i].gap
    decreases |log|
  {
    var n := |log| - 1;
    if j < n {
      SuccessiveFirings(log[..n], first, i, j);
    } else {
      LastFiringSetsFloor(log[..n], first, i);
    }
  }

  lemma {:induction false} LastFiringSetsFloor(log: seq<Firing>, first: Plan, i: nat)
    requires i < |log| && log[i].key in first && forall m :: i < m < |log| ==> log[m].key != log[i].key
    ensures Floor(log, first, log[i].key) == log[i].at + log[i].gap
    decreases |log|
  {
    var n := |log| - 1;
    if i < n {
      LastFiringSetsFloor(log[..n], first, i);
    }
  }
}
