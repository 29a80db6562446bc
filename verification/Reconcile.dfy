/** Closing records automatically once all their anomalies have stayed away. */
module Reconcile {
  import opened Records
  import opened Outcomes
  import opened Listing
  import DS = DetectionState
  import Services

  const LIST_LIMIT: nat := 10_000

  /** Rounds the key has been missing; an unknown key counts as present. */
  function Miss(states: DS.Rows, slot: DS.Slot): int {
    if slot in states then states[slot].miss else 0
  }

  predicate Stale(states: DS.Rows, rec: Record, after: int) {
    forall k :: k in RecordKeys(rec) ==> Miss(states, (rec.tenantId, rec.domain, k)) >= after
  }

  /** An open record with anomalies, all of them stale. */
  predicate Finished(states: DS.Rows, rec: Record, after: int) {
    IsOpen(rec.state) && RecordKeys(rec) != {} && Stale(states, rec, after)
  }

  predicate Closes(rows: seq<Row>, states: DS.Rows, after: int, i: nat)
    requires i < |rows|
  {
    Listed(rows, All(rows[i].rec.tenantId), LIST_LIMIT, i) && Finished(states, rows[i].rec, after)
  }

  function ClosedRow(r: Row): Row {
    r.(rec := Ended(r.rec, Resolved, "auto"))
  }

  function ReconciledRow(rows: seq<Row>, states: DS.Rows, after: int, i: nat): Row
    requires i < |rows|
  {
    if Closes(rows, states, after, i) then ClosedRow(rows[i]) else rows[i]
  }

  function Reconciled(rows: seq<Row>, states: DS.Rows, after: int): seq<Row> {
    seq(|rows|, i requires 0 <= i < |rows| => ReconciledRow(rows, states, after, i))
  }

  // ---- The pass ----

  lemma ResolvingOne(rows: seq<Row>, i: nat)
    requires DistinctIds(rows) && i < |rows|
    ensures Updated(rows, rows[i].rec.tenantId, rows[i].rec.recordId, rec => Ended(rec, Resolved, "auto")) ==
            rows[i := ClosedRow(rows[i])]
  {
    var at := Find(rows, rows[i].rec.recordId);
    assert at == Some(i);
  }

  /** `now` differs from `before` exactly by the closing of the rows in `closed`. */
  predicate ClosedSo(before: seq<Row>, now: seq<Row>, closed: set<nat>) {
    |now| == |before| && forall i :: 0 <= i < |now| ==> now[i] == if i in closed then ClosedRow(before[i]) else before[i]
  }

  lemma ClosingOneMore(before: seq<Row>, now: seq<Row>, closed: set<nat>, i: nat)
    requires ClosedSo(before, now, closed) && i < |before| && i !in closed && DistinctIds(before)
    ensures ClosedSo(before, now[i := ClosedRow(now[i])], closed + {i})
    ensures DistinctIds(now) && now[i] == before[i]
  {
  }

  lemma ListedAsBefore(before: seq<Row>, now: seq<Row>, closed: set<nat>, tenant: string, limit: nat, i: nat)
    requires ClosedSo(before, now, closed)
    ensures Listed(now, All(tenant), limit, i) <==> Listed(before, All(tenant), limit, i)
  {
    if i < |before| {
      assert AheadOf(now, All(tenant), i) == AheadOf(before, All(tenant), i);
    }
  }

  /** Checks one listed record and resolves it if it is finished. */
  method ReconcileRecord(records: RecordStore, states: DS.DetectionStateStore, tenant: string, after: int, i: nat)
    returns (done: bool)
    requires tenant != "" && i < |records.rows| && records.rows[i].rec.tenantId == tenant && DistinctIds(records.rows)
    modifies records
    ensures done <==> Finished(states.rows, old(records.rows)[i].rec, after)
    ensures records.rows == if done then old(records.rows)[i := ClosedRow(old(records.rows)[i])] else old(records.rows)
  {
    var rec := records.rows[i].rec;
    if !IsOpen(rec.state) || RecordKeys(rec) == {} { return false; }
    var byDomain := states.ListByDomain(tenant, rec.domain);
    done := forall k :: k in RecordKeys(rec) ==> (if k in byDomain.value then byDomain.value[k].miss else 0) >= after;
    assert done <==> Stale(states.rows, rec, after) by {
      assert forall k :: k in RecordKeys(rec) ==>
        (if k in byDomain.value then byDomain.value[k].miss else 0) == Miss(states.rows, (rec.tenantId, rec.domain, k));
    }
    if done {
      ResolvingOne(records.rows, i);
      var _ := records.SetTerminalState(tenant, rec.recordId, Resolved, "auto");
    }
  }

  /** For each row, whether it is finished. */
  function FinishedRows(rows: seq<Row>, states: DS.Rows, after: int): seq<bool> {
    seq(|rows|, i requires 0 <= i < |rows| => Finished(states, rows[i].rec, after))
  }

  predicate Distinct(order: seq<nat>, n: nat) {
    && (forall p :: 0 <= p < |order| ==> order[p] < n)
    && (forall p, q :: 0 <= p < q < |order| ==> order[p] != order[q])
  }

  /** `closed` and the marked ones among the listed rows. */
  function Marked(closed: set<nat>, order: seq<nat>, marks: seq<bool>): (f: set<nat>)
    requires Distinct(order, |marks|)
    ensures forall i: nat :: i in f <==> i in closed || (i in order && marks[i])
  {
    if order == [] then closed
    else
      var n := |order| - 1;
      assert order == order[..n] + [order[n]];
      Marked(closed, order[..n], marks) + if marks[order[n]] then {order[n]} else {}
  }

  lemma OneMoreMarked(closed: set<nat>, order: seq<nat>, marks: seq<bool>, p: nat)
    requires Distinct(order, |marks|) && p < |order| && order[p] !in closed
    ensures order[p] !in Marked(closed, order[..p], marks)
    ensures Marked(closed, order[..p + 1], marks) ==
            Marked(closed, order[..p], marks) + if marks[order[p]] then {order[p]} else {}
  {
    assert order[..p + 1][..p] == order[..p];
    assert forall q :: 0 <= q < p ==> order[..p][q] != order[p];
    assert order[p] !in order[..p];
  }

  /** Goes through a listing; `closed` are the rows closed before. */
  method ReconcileListing(records: RecordStore, states: DS.DetectionStateStore, tenant: string, after: int, listing: seq<nat>,
                          ghost before: seq<Row>, ghost closed: set<nat>) returns (count: nat)
    requires tenant != "" && DistinctIds(before) && ClosedSo(before, records.rows, closed)
    requires Distinct(listing, |before|)
    requires forall p :: 0 <= p < |listing| ==> before[listing[p]].rec.tenantId == tenant && listing[p] !in closed
    modifies records
    ensures ClosedSo(before, records.rows, Marked(closed, listing, FinishedRows(before, states.rows, after)))
    ensures |closed| + count == |Marked(closed, listing, FinishedRows(before, states.rows, after))|
  {
    count := 0;
    ghost var marks := FinishedRows(before, states.rows, after);
    ghost var so := closed;
    for p := 0 to |listing|
      invariant so == Marked(closed, listing[..p], marks)
      invariant ClosedSo(before, records.rows, so) && |closed| + count == |so|
    {
      var i: nat := listing[p];
      OneMoreMarked(closed, listing, marks, p);
      ClosingOneMore(before, records.rows, so, i);
      var done := ReconcileRecord(records, states, tenant, after, i);
      if done {
        count, so := count + 1, so + {i};
      }
    }
    assert listing[..|listing|] == listing;
  }

  predicate ClosesFor(rows: seq<Row>, states: DS.Rows, after: int, tenant: string, i: nat) {
    i < |rows| && rows[i].rec.tenantId == tenant && Closes(rows, states, after, i)
  }

  /** Closes what is to be closed for one tenant; `closed` are the rows closed for earlier tenants. */
  method ReconcileTenant(records: RecordStore, states: DS.DetectionStateStore, tenant: string, after: int,
                         ghost before: seq<Row>, ghost closed: set<nat>) returns (count: nat, ghost closed': set<nat>)
    requires tenant != "" && DistinctIds(before) && ClosedSo(before, records.rows, closed)
    requires forall i :: i in closed ==> i < |before| && before[i].rec.tenantId != tenant
    modifies records
    ensures ClosedSo(before, records.rows, closed') && |closed'| == |closed| + count
    ensures forall i: nat :: i in closed' <==> i in closed || ClosesFor(before, states.rows, after, tenant, i)
  {
    var listed := List(records.rows, All(tenant), LIST_LIMIT);
    var listing := listed.value;
    forall i: nat ensures i in listing <==> Listed(before, All(tenant), LIST_LIMIT, i) {
      ListedAsBefore(before, records.rows, closed, tenant, LIST_LIMIT, i);
    }
    assert forall p :: 0 <= p < |listing| ==> listing[p] in listing;
    count := ReconcileListing(records, states, tenant, after, listing, before, closed);
    closed' := Marked(closed, listing, FinishedRows(before, states.rows, after));
  }

  predicate HasRows(rows: seq<Row>, tenant: string) {
    exists i :: 0 <= i < |rows| && rows[i].rec.tenantId == tenant
  }

  /** The tenants that have records, in text order. */
  method ListTenants(rows: seq<Row>) returns (tenants: seq<string>)
    ensures Services.Ascending(tenants)
    ensures forall t :: t in tenants <==> HasRows(rows, t)
  {
    tenants := [];
    for i := 0 to |rows|
      invariant Services.Ascending(tenants)
      invariant forall t :: t in tenants <==> HasRows(rows[..i], t)
    {
      TenantsOfPrefix(rows, i);
      tenants := Services.Insert(tenants, rows[i].rec.tenantId);
    }
    assert rows[..|rows|] == rows;
  }

  lemma TenantsOfPrefix(rows: seq<Row>, i: nat)
    requires i < |rows|
    ensures forall t :: HasRows(rows[..i + 1], t) <==> HasRows(rows[..i], t) || t == rows[i].rec.tenantId
  {
    var before, now := rows[..i], rows[..i + 1];
    assert now == before + [rows[i]];
    forall t ensures HasRows(now, t) <==> HasRows(before, t) || t == rows[i].rec.tenantId {
      assert now[i] == rows[i];
      if j :| 0 <= j < |before| && before[j].rec.tenantId == t {
        assert now[j] == before[j];
      }
    }
  }

  /** The rows a pass closes. */
  function Closing(rows: seq<Row>, states: DS.Rows, after: int): set<nat> {
    set i: nat | 0 <= i < |rows| && Closes(rows, states, after, i)
  }

  /** One pass: a listed open record is resolved exactly when it is finished, and nothing else changes. */
  method ReconcileOnce(records: RecordStore, states: DS.DetectionStateStore, after: int) returns (r: Result<nat>)
    requires DistinctIds(records.rows)
    modifies records
    ensures r.TenantRequired? <==> HasRows(old(records.rows), "")
    ensures r.TenantRequired? ==> records.rows == old(records.rows)
    ensures r.Ok? ==> records.rows == Reconciled(old(records.rows), states.rows, after)
    ensures r.Ok? ==> r.value == |Closing(old(records.rows), states.rows, after)|
  {
    var tenants := ListTenants(records.rows);
    ghost var before := records.rows;
    if tenants != [] && tenants[0] == "" {
      assert tenants[0] in tenants;
      return TenantRequired;
    }
    EmptyComesFirst(tenants);
    var resolved := 0;
    ghost var closed: set<nat> := {};
    for t := 0 to |tenants|
      invariant ClosedSo(before, records.rows, closed) && |closed| == resolved
      invariant forall i: nat :: i in closed <==>
                  i < |before| && before[i].rec.tenantId in tenants[..t] && Closes(before, states.rows, after, i)
    {
      assert tenants[t] in tenants && tenants[t] !in tenants[..t] && tenants[..t + 1] == tenants[..t] + [tenants[t]] by {
        Services.NotRepeated(tenants, t);
      }
      var count;
      count, closed := ReconcileTenant(records, states, tenants[t], after, before, closed);
      resolved := resolved + count;
    }
    assert tenants[..|tenants|] == tenants;
    assert closed == Closing(before, states.rows, after);
    r := Ok(resolved);
  }

  lemma EmptyComesFirst(tenants: seq<string>)
    requires Services.Ascending(tenants) && (tenants == [] || tenants[0] != "")
    ensures "" !in tenants
  {
    forall i | 0 <= i < |tenants| ensures tenants[i] != "" {
      assert i > 0 ==> Services.Before(tenants[0], tenants[i]);
    }
  }

  // ---- What a closing says about the past ----

  /** The key has appeared, and was absent from each of the last n rounds of its domain. */
  ghost predicate Gone(history: seq<DS.Round>, slot: DS.Slot, n: int) {
    DS.Total(history, slot) > 0 && DS.AbsentForLast(history, slot, n)
  }

  ghost predicate AllGone(history: seq<DS.Round>, rec: Record, n: int) {
    forall k :: k in RecordKeys(rec) ==> Gone(history, (rec.tenantId, rec.domain, k), n)
  }

  /** For a threshold of at least one round, a record is finished exactly when all its anomalies are gone. */
  lemma FinishedIffGone(states: DS.Rows, history: seq<DS.Round>, rec: Record, after: int)
    requires DS.Reflects(states, history) && after >= 1
    ensures Finished(states, rec, after) <==> IsOpen(rec.state) && RecordKeys(rec) != {} && AllGone(history, rec, after)
  {
    forall k | k in RecordKeys(rec)
      ensures Miss(states, (rec.tenantId, rec.domain, k)) >= after <==> Gone(history, (rec.tenantId, rec.domain, k), after)
    {
      assert DS.ReflectsSlot(states, history, (rec.tenantId, rec.domain, k));
      DS.MissCountIsAbsence(history, (rec.tenantId, rec.domain, k), after);
    }
  }

  function RowsOf(rows: seq<Row>, tenant: string): set<nat> {
    set j: nat | 0 <= j < |rows| && Of(rows, All(tenant), j)
  }

  /** A tenant with no more records than the limit has all of them listed. */
  lemma FewRecordsAreAllListed(rows: seq<Row>, i: nat)
    requires i < |rows| && |RowsOf(rows, rows[i].rec.tenantId)| <= LIST_LIMIT
    ensures Listed(rows, All(rows[i].rec.tenantId), LIST_LIMIT, i)
  {
    var all := RowsOf(rows, rows[i].rec.tenantId);
    assert AheadOf(rows, All(rows[i].rec.tenantId), i) <= all - {i};
    assert i in all;
    SubsetIsNoLarger(AheadOf(rows, All(rows[i].rec.tenantId), i), all - {i});
  }

  lemma {:induction false} SubsetIsNoLarger(a: set<nat>, b: set<nat>)
    requires a <= b
    ensures |a| <= |b|
    decreases |a|
  {
    if x :| x in a {
      SubsetIsNoLarger(a - {x}, b - {x});
    }
  }
}
