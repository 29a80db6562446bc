/** The scheduler lease: one recorded holder with an expiry, in memory or in a table. Times are ticks of one clock. */
module Leases {

  datatype Lease = Lease(holder: string, expires: int)
  type Table = map<string, Lease>

  /** The two stores differ in when a lease may be taken over, and in what re-acquiring does. */
  datatype Form = Memory | Sql

  /** Still protected at the given time. */
  predicate Unexpired(form: Form, lease: Lease, now: int) {
    if form.Memory? then lease.expires > now else lease.expires >= now
  }

  datatype Reply = Reply(table: Table, ok: bool)

  function Acquired(form: Form, table: Table, name: string, holder: string, ttl: int, now: int): Reply {
    var granted := Lease(holder, now + ttl);
    if name !in table || !Unexpired(form, table[name], now) then Reply(table[name := granted], true)
    else if table[name].holder != holder then Reply(table, false)
    else if form.Memory? then Reply(table[name := granted], true)
    else Reply(table, true)
  }

  function Renewed(table: Table, name: string, holder: string, ttl: int, now: int): Reply {
    if name in table && table[name].holder == holder && table[name].expires > now
    then Reply(table[name := Lease(holder, now + ttl)], true)
    else Reply(table, false)
  }

  function Released(table: Table, name: string, holder: string): Table {
    if name in table && table[name].holder == holder then table - {name} else table
  }

  /** The in-memory store; `now` is read from the store's clock. */
  class LeaseStore {
    var leases: Table

    constructor ()
      ensures leases == map[]
    {
      leases := map[];
    }

    method TryAcquire(name: string, holder: string, ttl: int, now: int) returns (ok: bool)
      modifies this
      ensures Reply(leases, ok) == Acquired(Memory, old(leases), name, holder, ttl, now)
    {
      if name in leases && leases[name].expires > now && leases[name].holder != holder {
        return false;
      }
      leases := leases[name := Lease(holder, now + ttl)];
      ok := true;
    }

    method Renew(name: string, holder: string, ttl: int, now: int) returns (ok: bool)
      modifies this
      ensures Reply(leases, ok) == Renewed(old(leases), name, holder, ttl, now)
    {
      if name !in leases || leases[name].holder != holder || leases[name].expires <= now {
        return false;
      }
      leases := leases[name := leases[name].(expires := now + ttl)];
      ok := true;
    }

    method Release(name: string, holder: string)
      modifies this
      ensures leases == Released(old(leases), name, holder)
    {
      if name in leases && leases[name].holder == holder {
        leases := leases - {name};
      }
    }
  }

  // ---- Any interleaving of lease operations ----

  datatype Op =
    | Acquire(name: string, holder: string, ttl: int)
    | Renew(name: string, holder: string, ttl: int)
    | Release(name: string, holder: string)

  datatype Call = Call(op: Op, now: int)

  function Answer(form: Form, table: Table, c: Call): Reply {
    match c.op
    case Acquire(n, h, ttl) => Acquired(form, table, n, h, ttl, c.now)
    case Renew(n, h, ttl) => Renewed(table, n, h, ttl, c.now)
    case Release(n, h) => Reply(Released(table, n, h), true)
  }

  function After(form: Form, table: Table, calls: seq<Call>): Table {
    if calls == [] then table
    else Answer(form, After(form, table, calls[..|calls| - 1]), calls[|calls| - 1]).table
  }

  /** The call tries to obtain or extend the lease. */
  predicate Claims(c: Call, name: string) {
    !c.op.Release? && c.op.name == name
  }

  /** While a recorded lease is unexpired and its holder makes no call, it stands and nobody else's claim succeeds. */
  lemma {:induction false} UnexpiredLeaseStands(form: Form, table: Table, calls: seq<Call>, name: string)
    requires name in table
    requires forall k :: 0 <= k < |calls| ==> Unexpired(form, table[name], calls[k].now)
    requires forall k :: 0 <= k < |calls| && calls[k].op.name == name ==> calls[k].op.holder != table[name].holder
    ensures name in After(form, table, calls) && After(form, table, calls)[name] == table[name]
    ensures forall k :: 0 <= k < |calls| && Claims(calls[k], name) ==> !Answer(form, After(form, table, calls[..k]), calls[k]).ok
  {
    if calls != [] {
      var n := |calls| - 1;
      UnexpiredLeaseStands(form, table, calls[..n], name);
      forall k | 0 <= k < |calls| && Claims(calls[k], name)
        ensures !Answer(form, After(form, table, calls[..k]), calls[k]).ok
      {
        assert k < n ==> calls[..n][..k] == calls[..k] && calls[..n][k] == calls[k];
      }
    }
  }

  /** After a renewal in time, and nothing from the holder since, the lease stands and nobody else gets it for a full term. */
  lemma RenewedLeaseStands(form: Form, table: Table, name: string, holder: string, ttl: int, now: int, calls: seq<Call>)
    requires name in table && table[name].holder == holder && table[name].expires > now
    requires forall k :: 0 <= k < |calls| ==> calls[k].now < now + ttl
    requires forall k :: 0 <= k < |calls| && calls[k].op.name == name ==> calls[k].op.holder != holder
    ensures var renewed := Renewed(table, name, holder, ttl, now).table;
      && name in After(form, renewed, calls) && After(form, renewed, calls)[name] == Lease(holder, now + ttl)
      && forall k :: 0 <= k < |calls| && Claims(calls[k], name) ==> !Answer(form, After(form, renewed, calls[..k]), calls[k]).ok
  {
    UnexpiredLeaseStands(form, Renewed(table, name, holder, ttl, now).table, calls, name);
  }

  /** After the holder's release the next claim by anyone succeeds, at any time, and holds for its full term. */
  lemma ReleasedLeaseIsFree(form: Form, table: Table, name: string, holder: string, next: string, ttl: int, now: int)
    requires name in table && table[name].holder == holder
    ensures var r := Acquired(form, Released(table, name, holder), name, next, ttl, now);
      r.ok && r.table == table[name := Lease(next, now + ttl)]
  {
    var r := Acquired(form, Released(table, name, holder), name, next, ttl, now);
    assert r.table.Keys == table[name := Lease(next, now + ttl)].Keys;
  }

  // ---- Scheduler ticks under the lease ----

  const SCHEDULER_LEASE := "scheduler"

  /** A tick in progress: when it began, when the lease it runs under was last written, and the expiry then on record. */
  datatype Tick = Tick(began: int, written: int, deadline: int)

  /** `acting` are the replicas inside a tick; `written` is the time of the last write of the lease. */
  datatype World = World(table: Table, written: int, acting: map<string, Tick>, clock: int)

  datatype Event =
    | Begin(replica: string)  // a tick starts: acquire, and enter the body if that succeeds
    | Finish(replica: string) // the body ends: renew
    | Crash(replica: string)
    | GiveUp(replica: string) // a replica outside a tick releases the lease

  /** Acquiring would write the lease. */
  predicate Writes(form: Form, table: Table, now: int) {
    form.Memory? || SCHEDULER_LEASE !in table || !Unexpired(form, table[SCHEDULER_LEASE], now)
  }

  function Begun(form: Form, ttl: int, w: World, r: string, now: int): World {
    var reply := Acquired(form, w.table, SCHEDULER_LEASE, r, ttl, now);
    if !reply.ok then w.(clock := now)
    else
      var written := if Writes(form, w.table, now) then now else w.written;
      World(reply.table, written, w.acting[r := Tick(now, written, reply.table[SCHEDULER_LEASE].expires)], now)
  }

  function Finished(ttl: int, w: World, r: string, now: int): World {
    var reply := Renewed(w.table, SCHEDULER_LEASE, r, ttl, now);
    World(reply.table, if reply.ok then now else w.written, w.acting - {r}, now)
  }

  function Next(form: Form, ttl: int, w: World, e: Event, now: int): World {
    match e
    case Begin(r) => if r in w.acting then w.(clock := now) else Begun(form, ttl, w, r, now)
    case Finish(r) => if r in w.acting then Finished(ttl, w, r, now) else w.(clock := now)
    case Crash(r) => w.(acting := w.acting - {r}, clock := now)
    case GiveUp(r) =>
      if r in w.acting then w.(clock := now) else w.(table := Released(w.table, SCHEDULER_LEASE, r), clock := now)
  }

  datatype Timed = Timed(event: Event, now: int)

  const START := World(map[], 0, map[], 0)

  /** The world after the events; each replica's own events alternate, anything else may interleave. */
  function WorldAfter(form: Form, ttl: int, events: seq<Timed>): World {
    if events == [] then START
    else
      var e := events[|events| - 1];
      Next(form, ttl, WorldAfter(form, ttl, events[..|events| - 1]), e.event, e.now)
  }

  /** The clock never goes back. */
  predicate Monotone(events: seq<Timed>) {
    && (events != [] ==> events[0].now >= 0)
    && forall i, j :: 0 <= i < j < |events| ==> events[i].now <= events[j].now
  }

  /** The recorded expiry under which the tick began has not been reached. */
  predicate InTime(form: Form, t: Tick, now: int) {
    Unexpired(form, Lease("", t.deadline), now)
  }

  /** A tick in time is backed by the recorded lease; while its own lease is recorded, that expires at its deadline. */
  predicate Backed(form: Form, w: World, r: string)
    requires r in w.acting
  {
    var own := SCHEDULER_LEASE in w.table && w.table[SCHEDULER_LEASE].holder == r;
    && (InTime(form, w.acting[r], w.clock) ==> own)
    && (own ==> w.table[SCHEDULER_LEASE].expires == w.acting[r].deadline)
  }

  predicate Timely(form: Form, ttl: int, w: World, t: Tick) {
    && t.deadline == t.written + ttl && t.written <= t.began <= w.clock
    && (form.Memory? ==> t.written == t.began)
  }

  predicate Safe(form: Form, ttl: int, w: World) {
    && (SCHEDULER_LEASE in w.table ==> w.table[SCHEDULER_LEASE].expires == w.written + ttl && w.written <= w.clock)
    && (forall r :: r in w.acting ==> Backed(form, w, r) && Timely(form, ttl, w, w.acting[r]))
  }

  /** No other replica's tick in time survives the begin of a tick. */
  lemma BeginIsSafe(form: Form, ttl: int, w: World, r: string, now: int)
    requires Safe(form, ttl, w) && w.clock <= now && r !in w.acting
    ensures Safe(form, ttl, Begun(form, ttl, w, r, now))
  {
    var w' := Begun(form, ttl, w, r, now);
    forall q | q in w'.acting ensures Backed(form, w', q) && Timely(form, ttl, w', w'.acting[q]) {
      if q != r {
        assert Backed(form, w, q) && Timely(form, ttl, w, w.acting[q]);
      }
    }
  }

  lemma FinishIsSafe(form: Form, ttl: int, w: World, r: string, now: int)
    requires Safe(form, ttl, w) && w.clock <= now && r in w.acting
    ensures Safe(form, ttl, Finished(ttl, w, r, now))
  {
    var w' := Finished(ttl, w, r, now);
    forall q | q in w'.acting ensures Backed(form, w', q) && Timely(form, ttl, w', w'.acting[q]) {
      assert Backed(form, w, q) && Timely(form, ttl, w, w.acting[q]);
    }
  }

  lemma NextIsSafe(form: Form, ttl: int, w: World, e: Event, now: int)
    requires Safe(form, ttl, w) && w.clock <= now
    ensures Safe(form, ttl, Next(form, ttl, w, e, now)) && Next(form, ttl, w, e, now).clock == now
  {
    var r, w' := e.replica, Next(form, ttl, w, e, now);
    if e.Begin? && r !in w.acting {
      BeginIsSafe(form, ttl, w, r, now);
    } else if e.Finish? && r in w.acting {
      FinishIsSafe(form, ttl, w, r, now);
    } else {
      forall q | q in w'.acting ensures Backed(form, w', q) && Timely(form, ttl, w', w'.acting[q]) {
        assert Backed(form, w, q) && Timely(form, ttl, w, w.acting[q]);
      }
    }
  }

  lemma {:induction false} EveryRunIsSafe(form: Form, ttl: int, events: seq<Timed>)
    requires Monotone(events)
    ensures Safe(form, ttl, WorldAfter(form, ttl, events))
    ensures WorldAfter(form, ttl, events).clock == if events == [] then 0 else events[|events| - 1].now
  {
    if events != [] {
      var n := |events| - 1;
      EveryRunIsSafe(form, ttl, events[..n]);
      NextIsSafe(form, ttl, WorldAfter(form, ttl, events[..n]), events[n].event, events[n].now);
    }
  }

  /** Two replicas are inside their ticks together only if one of them has run past its recorded expiry. */
  lemma OverlapMeansOverrun(form: Form, ttl: int, events: seq<Timed>, r: string, q: string)
    requires Monotone(events) && r != q
    requires var w := WorldAfter(form, ttl, events); r in w.acting && q in w.acting
    ensures var w := WorldAfter(form, ttl, events);
      !InTime(form, w.acting[r], w.clock) || !InTime(form, w.acting[q], w.clock)
  {
    EveryRunIsSafe(form, ttl, events);
    var w := WorldAfter(form, ttl, events);
    assert Backed(form, w, r) && Backed(form, w, q);
  }

  /** In memory it is the tick's own length that counts, against the full ttl. */
  lemma MemoryOverlapMeansLongTick(ttl: int, events: seq<Timed>, r: string, q: string)
    requires Monotone(events) && r != q
    requires var w := WorldAfter(Memory, ttl, events); r in w.acting && q in w.acting
    ensures var w := WorldAfter(Memory, ttl, events);
      w.clock - w.acting[r].began >= ttl || w.clock - w.acting[q].began >= ttl
  {
    OverlapMeansOverrun(Memory, ttl, events, r, q);
    EveryRunIsSafe(Memory, ttl, events);
    var w := WorldAfter(Memory, ttl, events);
    assert Timely(Memory, ttl, w, w.acting[r]) && Timely(Memory, ttl, w, w.acting[q]);
  }

  /** Against the table, the time between the last write and the tick's begin counts as well. */
  lemma SqlOverlapMeansLongSinceWritten(ttl: int, events: seq<Timed>, r: string, q: string)
    requires Monotone(events) && r != q
    requires var w := WorldAfter(Sql, ttl, events); r in w.acting && q in w.acting
    ensures var w := WorldAfter(Sql, ttl, events);
      exists x :: (x == r || x == q) && (w.acting[x].began - w.acting[x].written) + (w.clock - w.acting[x].began) > ttl
  {
    OverlapMeansOverrun(Sql, ttl, events, r, q);
    EveryRunIsSafe(Sql, ttl, events);
    var w := WorldAfter(Sql, ttl, events);
    assert Timely(Sql, ttl, w, w.acting[r]) && Timely(Sql, ttl, w, w.acting[q]);
  }

  // ---- Exactly how long a tick is protected ----

  /** At this time q is inside a tick of its own that is in time, or would enter one. */
  predicate Rival(form: Form, ttl: int, w: World, r: string, now: int, q: string) {
    q != r && if q in w.acting then InTime(form, w.acting[q], now)
              else Acquired(form, w.table, SCHEDULER_LEASE, q, ttl, now).ok
  }

  /** A tick excludes every rival exactly as long as its recorded expiry is not reached. */
  lemma TickIsProtectedIff(form: Form, ttl: int, events: seq<Timed>, r: string, now: int)
    requires Monotone(events)
    requires var w := WorldAfter(form, ttl, events); r in w.acting && now >= w.clock
    ensures var w := WorldAfter(form, ttl, events);
      InTime(form, w.acting[r], now) <==> forall q :: !Rival(form, ttl, w, r, now, q)
  {
    EveryRunIsSafe(form, ttl, events);
    var w := WorldAfter(form, ttl, events);
    assert Backed(form, w, r);
    if InTime(form, w.acting[r], now) {
      forall q ensures !Rival(form, ttl, w, r, now, q) {
        assert q in w.acting ==> Backed(form, w, q);
      }
    } else {
      var q := SomeRival(form, ttl, w, r, now);
    }
  }

  /** Past the expiry there is a rival: the new holder, or any replica not seen before. */
  lemma SomeRival(form: Form, ttl: int, w: World, r: string, now: int) returns (q: string)
    requires Safe(form, ttl, w) && r in w.acting && !InTime(form, w.acting[r], now)
    ensures Rival(form, ttl, w, r, now, q)
  {
    assert Backed(form, w, r);
    if SCHEDULER_LEASE in w.table && Unexpired(form, w.table[SCHEDULER_LEASE], now) {
      q := w.table[SCHEDULER_LEASE].holder;
      assert q in w.acting ==> Backed(form, w, q);
    } else {
      q := FreshName(w.acting.Keys);
    }
  }

  lemma {:induction false} LengthBound(names: set<string>) returns (n: nat)
    ensures forall x :: x in names ==> |x| <= n
    decreases |names|
  {
    n := 0;
    if y :| y in names {
      n := LengthBound(names - {y});
      n := if |y| > n then |y| else n;
    }
  }

  lemma FreshName(names: set<string>) returns (q: string)
    ensures q !in names
  {
    var n := LengthBound(names);
    q := seq(n + 1, _ => 'a');
  }

  /** In memory: as long as the tick is shorter than the ttl. */
  lemma MemoryTickIsProtectedIff(ttl: int, events: seq<Timed>, r: string, now: int)
    requires Monotone(events)
    requires var w := WorldAfter(Memory, ttl, events); r in w.acting && now >= w.clock
    ensures var w := WorldAfter(Memory, ttl, events);
      now - w.acting[r].began < ttl <==> forall q :: !Rival(Memory, ttl, w, r, now, q)
  {
    TickIsProtectedIff(Memory, ttl, events, r, now);
    EveryRunIsSafe(Memory, ttl, events);
    var w := WorldAfter(Memory, ttl, events);
    assert Timely(Memory, ttl, w, w.acting[r]);
  }

  /** Against the table: as long as the time since the last write of the lease plus the tick's length is within the ttl. */
  lemma SqlTickIsProtectedIff(ttl: int, events: seq<Timed>, r: string, now: int)
    requires Monotone(events)
    requires var w := WorldAfter(Sql, ttl, events); r in w.acting && now >= w.clock
    ensures var w := WorldAfter(Sql, ttl, events);
      (w.acting[r].began - w.acting[r].written) + (now - w.acting[r].began) <= ttl <==>
      forall q :: !Rival(Sql, ttl, w, r, now, q)
  {
    TickIsProtectedIff(Sql, ttl, events, r, now);
    EveryRunIsSafe(Sql, ttl, events);
    var w := WorldAfter(Sql, ttl, events);
    assert Timely(Sql, ttl, w, w.acting[r]);
  }

  function LateReacquire(ttl: int): seq<Timed> {
    [Timed(Begin("a"), 0), Timed(Finish("a"), 0), Timed(Begin("a"), ttl), Timed(Begin("b"), ttl + 1)]
  }

  /** Short ticks alone are not enough against the table: for any ttl, two ticks at most one unit long can overlap. */
  lemma SqlShortTicksCanOverlap(ttl: int)
    requires ttl >= 1
    ensures Monotone(LateReacquire(ttl))
    ensures var w := WorldAfter(Sql, ttl, LateReacquire(ttl));
      "a" in w.acting && "b" in w.acting && w.clock - w.acting["a"].began == 1 && w.clock - w.acting["b"].began == 0
  {
    var run := LateReacquire(ttl);
    var w1 := Next(Sql, ttl, START, Begin("a"), 0);
    var w2 := Next(Sql, ttl, w1, Finish("a"), 0);
    var w3 := Next(Sql, ttl, w2, Begin("a"), ttl);
    assert run[..3][..2][..1][..0] == [];
    assert WorldAfter(Sql, ttl, run[..3][..2][..1]) == w1;
    assert WorldAfter(Sql, ttl, run[..3][..2]) == w2;
    assert WorldAfter(Sql, ttl, run[..3]) == w3;
  }
}
