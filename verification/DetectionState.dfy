/** How often each anomaly has appeared, and for how many rounds it has been missing. */
module DetectionState {
  import opened Anomalies
  import opened Outcomes

  /** `consecutive` counts appearances over all rounds; it is never reset. Times are ticks of the round clock. */
  datatype Row = Row(consecutive: int, miss: int, firstSeen: int, lastSeen: int)

  /** Rows are filed under (tenant, domain, anomaly key). */
  type Slot = (string, string, Key)
  type Rows = map<Slot, Row>

  /** What one appearance at time `now` makes of a row. */
  function Seen(rows: Rows, slot: Slot, now: int): Row {
    if slot in rows then Row(rows[slot].consecutive + 1, 0, rows[slot].firstSeen, now) else Row(1, 0, now, now)
  }

  function Missed(row: Row): Row {
    row.(miss := row.miss + 1)
  }

  predicate InDomain(slot: Slot, tenant: string, domain: string) {
    slot.0 == tenant && slot.1 == domain
  }

  function Swept(rows: Rows, tenant: string, domain: string, seen: set<Key>): Rows {
    map s | s in rows :: if InDomain(s, tenant, domain) && s.2 !in seen then Missed(rows[s]) else rows[s]
  }

  class DetectionStateStore {
    var rows: Rows

    constructor ()
      ensures rows == map[]
    {
      rows := map[];
    }

    method Get(tenant: string, domain: string, key: Key) returns (r: Result<Option<Row>>)
      ensures tenant == "" ==> r == TenantRequired
      ensures tenant != "" ==> r == Ok(if (tenant, domain, key) in rows then Some(rows[(tenant, domain, key)]) else None)
    {
      if tenant == "" { return TenantRequired; }
      if (tenant, domain, key) in rows {
        r := Ok(Some(rows[(tenant, domain, key)]));
      } else {
        r := Ok(None);
      }
    }

    method Upsert(tenant: string, domain: string, key: Key, row: Row) returns (r: Result<()>)
      modifies this
      ensures tenant == "" ==> r == TenantRequired && rows == old(rows)
      ensures tenant != "" ==> r == Ok(()) && rows == old(rows)[(tenant, domain, key) := row]
    {
      if tenant == "" { return TenantRequired; }
      rows := rows[(tenant, domain, key) := row];
      r := Ok(());
    }

    /** One more missed round for every key of the domain that was not seen. */
    method Sweep(tenant: string, domain: string, seen: set<Key>) returns (r: Result<()>)
      modifies this
      ensures tenant == "" ==> r == TenantRequired && rows == old(rows)
      ensures tenant != "" ==> r == Ok(()) && rows == Swept(old(rows), tenant, domain, seen)
    {
      if tenant == "" { return TenantRequired; }
      var todo := rows.Keys;
      while todo != {}
        invariant todo <= rows.Keys == old(rows).Keys
        invariant forall s :: s in todo ==> rows[s] == old(rows)[s]
        invariant forall s :: s in rows && s !in todo ==> rows[s] == Swept(old(rows), tenant, domain, seen)[s]
        decreases |todo|
      {
        var s :| s in todo;
        todo := todo - {s};
        if InDomain(s, tenant, domain) && s.2 !in seen {
          rows := rows[s := Missed(rows[s])];
        }
      }
      r := Ok(());
    }

    method ListByDomain(tenant: string, domain: string) returns (r: Result<map<Key, Row>>)
      ensures tenant == "" ==> r == TenantRequired
      ensures tenant != "" ==> r.Ok?
      ensures r.Ok? ==> forall k :: k in r.value <==> (tenant, domain, k) in rows
      ensures r.Ok? ==> forall k :: k in r.value ==> r.value[k] == rows[(tenant, domain, k)]
    {
      if tenant == "" { return TenantRequired; }
      r := Ok(map s | s in rows && InDomain(s, tenant, domain) :: s.2 := rows[s]);
    }
  }

  // ---- Rounds ----

  /** One completed round of a domain: its time and the keys of the anomalies it saw, with repetition. */
  datatype Round = Round(tenant: string, domain: string, now: int, keys: multiset<Key>)

  function SeenSlots(r: Round): set<Slot> {
    set k | k in r.keys :: (r.tenant, r.domain, k)
  }

  predicate Touches(r: Round, slot: Slot) {
    InDomain(slot, r.tenant, r.domain) && slot.2 in r.keys
  }

  /** The slot's row after the appearances of round r. */
  function Appeared(rows: Rows, r: Round, s: Slot): Row
    requires s in rows || Touches(r, s)
  {
    if Touches(r, s) then
      var before := if s in rows then rows[s] else Row(0, 0, r.now, r.now);
      Row(before.consecutive + r.keys[s.2], 0, before.firstSeen, r.now)
    else rows[s]
  }

  /** The rows after the appearances of round r, before its sweep. */
  function Appearances(rows: Rows, r: Round): (m: Rows)
    ensures forall s :: s in m <==> s in rows || Touches(r, s)
  {
    map s | s in rows.Keys + SeenSlots(r) :: Appeared(rows, r, s)
  }

  function KeysSeen(r: Round): set<Key> {
    set k | k in r.keys
  }

  function AfterRound(rows: Rows, r: Round): Rows {
    Swept(Appearances(rows, r), r.tenant, r.domain, KeysSeen(r))
  }

  /** Recording one more appearance of k is one Upsert of its Seen row. */
  lemma OneMoreAppearance(rows: Rows, r: Round, k: Key)
    ensures Appearances(rows, r.(keys := r.keys + multiset{k})) ==
            var so := Appearances(rows, r); so[(r.tenant, r.domain, k) := Seen(so, (r.tenant, r.domain, k), r.now)]
  {
    var so, r' := Appearances(rows, r), r.(keys := r.keys + multiset{k});
    var slot := (r.tenant, r.domain, k);
    forall s: Slot
      ensures Touches(r', s) <==> Touches(r, s) || s == slot
      ensures s in rows || Touches(r', s) ==> Appeared(rows, r', s) == so[slot := Seen(so, slot, r.now)][s]
    {
      OneMoreInSlot(rows, r, k, s);
    }
  }

  lemma OneMoreInSlot(rows: Rows, r: Round, k: Key, s: Slot)
    ensures var r' := r.(keys := r.keys + multiset{k});
      && (Touches(r', s) <==> Touches(r, s) || s == (r.tenant, r.domain, k))
      && (s in rows || Touches(r', s) ==>
            Appeared(rows, r', s) ==
              if s == (r.tenant, r.domain, k) then Seen(Appearances(rows, r), s, r.now) else Appeared(rows, r, s))
  {
    var r' := r.(keys := r.keys + multiset{k});
    assert r'.keys[s.2] == r.keys[s.2] + (if s.2 == k then 1 else 0);
  }

  /** Appearances recorded in two parts are the appearances recorded at once. */
  lemma AppearancesCompose(rows: Rows, r: Round, more: multiset<Key>)
    ensures Appearances(Appearances(rows, r), r.(keys := more)) == Appearances(rows, r.(keys := r.keys + more))
  {
    var so, r2, r' := Appearances(rows, r), r.(keys := more), r.(keys := r.keys + more);
    forall s: Slot
      ensures Touches(r', s) <==> Touches(r, s) || Touches(r2, s)
      ensures s in rows || Touches(r', s) ==> Appeared(rows, r', s) == Appeared(so, r2, s)
    {
      AppearancesComposeInSlot(rows, r, more, s);
    }
  }

  lemma AppearancesComposeInSlot(rows: Rows, r: Round, more: multiset<Key>, s: Slot)
    ensures var so, r2, r' := Appearances(rows, r), r.(keys := more), r.(keys := r.keys + more);
      && (Touches(r', s) <==> Touches(r, s) || Touches(r2, s))
      && (s in rows || Touches(r', s) ==> Appeared(rows, r', s) == Appeared(so, r2, s))
  {
  }

  lemma NoAppearances(rows: Rows, r: Round)
    requires r.keys == multiset{}
    ensures Appearances(rows, r) == rows
  {
  }

  function Runs(rows: Rows, history: seq<Round>): Rows {
    if history == [] then rows else AfterRound(Runs(rows, history[..|history| - 1]), history[|history| - 1])
  }

  // ---- What a whole run leaves in the store ----

  /** All appearances of the slot's key, repetitions included. */
  function Total(history: seq<Round>, slot: Slot): nat {
    if history == [] then 0
    else
      var last := history[|history| - 1];
      Total(history[..|history| - 1], slot) + (if InDomain(slot, last.tenant, last.domain) then last.keys[slot.2] else 0)
  }

  /** Completed rounds of the slot's domain since its key last appeared. */
  function RoundsMissed(history: seq<Round>, slot: Slot): nat {
    if history == [] then 0
    else
      var last := history[|history| - 1];
      if Touches(last, slot) then 0
      else RoundsMissed(history[..|history| - 1], slot) + (if InDomain(slot, last.tenant, last.domain) then 1 else 0)
  }

  predicate ReflectsSlot(rows: Rows, history: seq<Round>, s: Slot) {
    && (s in rows <==> Total(history, s) > 0)
    && (s in rows ==> rows[s].consecutive == Total(history, s) && rows[s].miss == RoundsMissed(history, s))
  }

  ghost predicate Reflects(rows: Rows, history: seq<Round>) {
    forall s: Slot :: ReflectsSlot(rows, history, s)
  }

  lemma SlotIsReflected(rows: Rows, history: seq<Round>, r: Round, s: Slot)
    requires ReflectsSlot(rows, history, s)
    ensures ReflectsSlot(AfterRound(rows, r), history + [r], s)
  {
    var h := history + [r];
    assert h[..|h| - 1] == history;
    assert Touches(r, s) <==> InDomain(s, r.tenant, r.domain) && s.2 in KeysSeen(r);
  }

  lemma RoundIsReflected(rows: Rows, history: seq<Round>, r: Round)
    requires Reflects(rows, history)
    ensures Reflects(AfterRound(rows, r), history + [r])
  {
    forall s: Slot ensures ReflectsSlot(AfterRound(rows, r), history + [r], s) {
      SlotIsReflected(rows, history, r, s);
    }
  }

  /** Over any run from an empty store: the counters are exactly total appearances and rounds missed. */
  lemma {:induction false} RunsAreReflected(history: seq<Round>)
    ensures Reflects(Runs(map[], history), history)
  {
    if history != [] {
      var n := |history| - 1;
      RunsAreReflected(history[..n]);
      RoundIsReflected(Runs(map[], history[..n]), history[..n], history[n]);
      assert history == history[..n] + [history[n]];
    }
  }

  /** Round i is the first to see the slot's key, round j the last. */
  predicate SeenBetween(history: seq<Round>, s: Slot, i: nat, j: nat) {
    && i <= j < |history| && Touches(history[i], s) && Touches(history[j], s)
    && forall k :: 0 <= k < |history| && Touches(history[k], s) ==> i <= k <= j
  }

  /** Over any run, a row tells the time of the first and of the last round that saw its key. */
  lemma {:induction false} RunsTellTimes(history: seq<Round>, s: Slot) returns (i: nat, j: nat)
    requires s in Runs(map[], history)
    ensures SeenBetween(history, s, i, j)
    ensures Runs(map[], history)[s].firstSeen == history[i].now && Runs(map[], history)[s].lastSeen == history[j].now
  {
    var n: nat := |history| - 1;
    var before, last := history[..n], history[n];
    assert history == before + [last];
    RoundTellsTimes(Runs(map[], before), last, s);
    if s in Runs(map[], before) {
      var i', j' := RunsTellTimes(before, s);
      SeenOnceMore(before, last, s, i', j');
      i, j := i', if Touches(last, s) then n else j';
    } else {
      NotSeenYet(before, s);
      i, j := n, n;
    }
  }

  /** What a round does to the times of one row. */
  lemma RoundTellsTimes(rows: Rows, r: Round, s: Slot)
    requires s in AfterRound(rows, r)
    ensures s in rows || Touches(r, s)
    ensures AfterRound(rows, r)[s].firstSeen == if s in rows then rows[s].firstSeen else r.now
    ensures Touches(r, s) ==> AfterRound(rows, r)[s].lastSeen == r.now
    ensures !Touches(r, s) ==> AfterRound(rows, r)[s].lastSeen == rows[s].lastSeen
  {
  }

  lemma SeenOnceMore(history: seq<Round>, last: Round, s: Slot, i: nat, j: nat)
    requires SeenBetween(history, s, i, j)
    ensures SeenBetween(history + [last], s, i, if Touches(last, s) then |history| else j)
  {
  }

  lemma {:induction false} NotSeenYet(history: seq<Round>, s: Slot)
    requires s !in Runs(map[], history)
    ensures forall k :: 0 <= k < |history| ==> !Touches(history[k], s)
  {
    if history != [] {
      var n := |history| - 1;
      NotSeenYet(history[..n], s);
      assert forall k :: 0 <= k < n ==> history[..n][k] == history[k];
    }
  }

  // ---- What a miss count says about the past ----

  /** The rounds of one domain, oldest first. */
  function DomainRounds(history: seq<Round>, tenant: string, domain: string): seq<Round> {
    if history == [] then []
    else
      var last := history[|history| - 1];
      DomainRounds(history[..|history| - 1], tenant, domain)
      + (if last.tenant == tenant && last.domain == domain then [last] else [])
  }

  /** The key is missing from each of the last n rounds of its domain, and there were that many. */
  ghost predicate AbsentForLast(history: seq<Round>, slot: Slot, n: int) {
    var rounds := DomainRounds(history, slot.0, slot.1);
    n <= |rounds| && forall j :: 0 <= j < |rounds| && |rounds| - n <= j ==> slot.2 !in rounds[j].keys
  }

  lemma {:induction false} MissCountIsAbsence(history: seq<Round>, slot: Slot, n: int)
    ensures RoundsMissed(history, slot) >= n <==> AbsentForLast(history, slot, n)
  {
    if history != [] {
      var last := history[|history| - 1];
      var before := history[..|history| - 1];
      var rounds := DomainRounds(before, slot.0, slot.1);
      if InDomain(slot, last.tenant, last.domain) {
        MissCountIsAbsence(before, slot, n - 1);
        var all := rounds + [last];
        assert DomainRounds(history, slot.0, slot.1) == all;
        assert forall j :: 0 <= j < |rounds| ==> all[j] == rounds[j];
        assert all[|rounds|] == last;
      } else {
        MissCountIsAbsence(before, slot, n);
        assert DomainRounds(history, slot.0, slot.1) == rounds;
      }
    }
  }
}
