/** Every interleaving of ticks and rounds: exclusion, the concurrency bound, and the spacing of a target's rounds. */
module SchedulerRuns {
  import opened Schedulers

  /** One group's round of one tick. */
  datatype Task = Task(targets: seq<Target>, now: int)

  /** The tick's number and the group. */
  datatype TaskId = TaskId(tick: nat, group: GroupKey)

  /** `waiting` tasks queue at the semaphore; `running` ones hold it. */
  datatype State = State(
    plan: Plan, inFlight: set<GroupKey>, waiting: map<TaskId, Task>, running: map<TaskId, Task>, ticks: nat)

  const IDLE := State(map[], {}, map[], map[], 0)

  datatype Event =
    | Tick(now: int, targets: seq<Target>)
    | Enter(id: TaskId)
    | Leave(id: TaskId)

  /** At most `max` rounds hold the semaphore. */
  predicate Enabled(max: nat, s: State, e: Event) {
    match e
    case Tick(_, _) => true
    case Enter(id) => id in s.waiting && |s.running| < max
    case Leave(id) => id in s.running
  }

  function TasksOf(n: nat, groups: map<GroupKey, seq<Target>>, now: int): map<TaskId, Task> {
    map key | key in groups :: TaskId(n, key) := Task(groups[key], now)
  }

  function Ticked(s: State, now: int, targets: seq<Target>): State {
    var plan := Sighted(s.plan, targets, now);
    var groups := Grouped(Due(plan, targets, now), s.inFlight);
    s.(plan := plan, waiting := s.waiting + TasksOf(s.ticks, groups, now), ticks := s.ticks + 1)
  }

  /** The task gets the semaphore; it finds its group free or gives up. */
  predicate Fires(s: State, id: TaskId) {
    id in s.waiting && id.group !in s.inFlight
  }

  function Entered(s: State, id: TaskId): State
    requires id in s.waiting
  {
    if Fires(s, id)
    then s.(waiting := s.waiting - {id}, running := s.running[id := s.waiting[id]], inFlight := s.inFlight + {id.group})
    else s.(waiting := s.waiting - {id})
  }

  function Left(jitter: int -> int, s: State, id: TaskId): State
    requires id in s.running
  {
    var task := s.running[id];
    s.(running := s.running - {id}, inFlight := s.inFlight - {id.group}, plan := Replanned(s.plan, task.targets, task.now, jitter))
  }

  function Next(max: nat, jitter: int -> int, s: State, e: Event): State
    requires Enabled(max, s, e)
  {
    match e
    case Tick(now, targets) => Ticked(s, now, targets)
    case Enter(id) => Entered(s, id)
    case Leave(id) => Left(jitter, s, id)
  }

  // ---- Exclusion, however ticks and rounds interleave ----

  /** Running rounds are in flight, in different groups, and within the bound. */
  predicate Exclusive(max: nat, s: State) {
    && |s.running| <= max
    && (forall id :: id in s.running ==> id.group in s.inFlight)
    && (forall id, id' :: id in s.running && id' in s.running && id.group == id'.group ==> id == id')
  }

  /** A group is in flight only while one of its rounds runs. */
  ghost predicate NoneLeftBehind(s: State) {
    forall key :: key in s.inFlight ==> Runs(s, key)
  }

  ghost predicate Runs(s: State, key: GroupKey) {
    exists id :: id in s.running && id.group == key
  }

  lemma NextIsExclusive(max: nat, jitter: int -> int, s: State, e: Event)
    requires Enabled(max, s, e) && Exclusive(max, s)
    ensures Exclusive(max, Next(max, jitter, s, e))
  {
    match e
    case Tick(_, _) =>
    case Enter(id) => EnterIsExclusive(max, s, id);
    case Leave(id) => LeaveIsExclusive(max, jitter, s, id);
  }

  lemma EnterIsExclusive(max: nat, s: State, id: TaskId)
    requires Enabled(max, s, Enter(id)) && Exclusive(max, s)
    ensures Exclusive(max, Entered(s, id))
  {
    OneMore(s.running, id, s.waiting[id]);
  }

  lemma LeaveIsExclusive(max: nat, jitter: int -> int, s: State, id: TaskId)
    requires Enabled(max, s, Leave(id)) && Exclusive(max, s)
    ensures Exclusive(max, Left(jitter, s, id))
  {
    OneLess(s.running, id);
  }

  lemma OneMore(m: map<TaskId, Task>, id: TaskId, task: Task)
    ensures |m[id := task]| <= |m| + 1
  {
    assert m[id := task].Keys == m.Keys + {id};
    assert |m[id := task].Keys| == |m[id := task]| && |m.Keys| == |m|;
  }

  lemma OneLess(m: map<TaskId, Task>, id: TaskId)
    requires id in m
    ensures |m - {id}| == |m| - 1
  {
    assert (m - {id}).Keys == m.Keys - {id};
    assert |(m - {id}).Keys| == |m - {id}| && |m.Keys| == |m|;
  }

  lemma NextLeavesNoneBehind(max: nat, jitter: int -> int, s: State, e: Event)
    requires Enabled(max, s, e) && Exclusive(max, s) && NoneLeftBehind(s)
    ensures NoneLeftBehind(Next(max, jitter, s, e))
  {
    var s' := Next(max, jitter, s, e);
    forall key | key in s'.inFlight ensures Runs(s', key) {
      if key in s.inFlight {
        assert Runs(s, key);
        var id :| id in s.running && id.group == key;
        assert id in s'.running;
      } else {
        assert e.id in s'.running;
      }
    }
  }

  /** States along a run from an idle scheduler. */
  predicate IsRun(max: nat, jitter: int -> int, events: seq<Event>, states: seq<State>) {
    && |states| == |events| + 1 && states[0] == IDLE
    && forall k :: 0 <= k < |events| ==> Enabled(max, states[k], events[k]) && states[k + 1] == Next(max, jitter, states[k], events[k])
  }

  /** At every moment, at most one running round per (tenant, domain) and at most `max` in all. */
  lemma {:induction false} EveryRunIsExclusive(max: nat, jitter: int -> int, events: seq<Event>, states: seq<State>, n: nat)
    requires IsRun(max, jitter, events, states) && n <= |events|
    ensures Exclusive(max, states[n]) && NoneLeftBehind(states[n])
  {
    if n > 0 {
      EveryRunIsExclusive(max, jitter, events, states, n - 1);
      NextIsExclusive(max, jitter, states[n - 1], events[n - 1]);
      NextLeavesNoneBehind(max, jitter, states[n - 1], events[n - 1]);
    }
  }
}
