/** Problem records: deduplication by exact key, and merging into an open record with fewer anomalies. */
module Records {
  import opened Anomalies
  import opened Outcomes

  datatype State = Pending | InProgress | Resolved | Closed | Archived | Escalated

  predicate IsOpen(s: State) {
    s.Pending? || s.InProgress?
  }

  datatype Entry =
    | Degraded(roundId: string, sources: seq<string>)
    | LogTraces(roundId: string, targetIds: seq<string>, traceIds: seq<string>)
    | AgentRun(runId: string, workflowId: string)
    | Decision(decision: string, ticketId: string, ticketNumber: string)
    | TicketStatus(ticketId: string, status: string, description: string)
    | Session(sessionId: string)
    | RunDecision(runId: string, nodeId: string, approved: bool)

  /** The deduplication key. Module Fingerprint relates it to the hashed text. */
  datatype GroupKey = GroupKey(tenant: string, domain: string, service: string, keys: multiset<Key>)

  /** A record as detection assembles it; times are clock ticks. */
  datatype Record = Record(
    recordId: string, tenantId: string, domain: string, state: State, service: string, groupKeyService: string,
    severity: string, detectedAt: int, lastSeenAt: Option<int>, occurrences: int,
    metrics: seq<Anomaly>, logs: seq<Anomaly>, evidence: seq<Entry>, resolveReason: Option<string>)

  /** A stored record: the key it was last filed under and its current fields. */
  datatype Row = Row(groupKey: GroupKey, rec: Record)

  /** Rows are kept by record id. */
  predicate DistinctIds(rows: seq<Row>) {
    forall i, j :: 0 <= i < j < |rows| ==> rows[i].rec.recordId != rows[j].rec.recordId
  }

  function RecordKey(rec: Record): GroupKey {
    GroupKey(rec.tenantId, rec.domain, if rec.groupKeyService != "" then rec.groupKeyService else rec.service,
             multiset(Keys(rec.metrics + rec.logs)))
  }

  function RecordKeys(rec: Record): set<Key> {
    KeySet(rec.metrics) + KeySet(rec.logs)
  }

  function Rank(severity: string): nat {
    if severity == "critical" then 2 else if severity == "high" then 1 else 0
  }

  // ---- Merging anomaly lists ----

  /** The list without later repetitions of a key; `seen` are keys already taken. */
  function Distinct(anomalies: seq<Anomaly>, seen: set<Key>): seq<Anomaly> {
    if anomalies == [] then []
    else if AnomalyKey(anomalies[0]) in seen then Distinct(anomalies[1..], seen)
    else [anomalies[0]] + Distinct(anomalies[1..], seen + {AnomalyKey(anomalies[0])})
  }

  method MergeAnomalies(before: seq<Anomaly>, incoming: seq<Anomaly>) returns (merged: seq<Anomaly>)
    ensures merged == Distinct(before + incoming, {})
  {
    var all := before + incoming;
    var seen: set<Key> := {};
    merged := [];
    for i := 0 to |all|
      invariant merged + Distinct(all[i..], seen) == Distinct(all, {})
    {
      assert all[i..][1..] == all[i + 1..];
      var key := AnomalyKey(all[i]);
      if key !in seen {
        seen := seen + {key};
        merged := merged + [all[i]];
      }
    }
    assert all[|all|..] == [];
  }

  /** Merging keeps exactly the identities of both lists, once each. */
  lemma {:induction false} DistinctKeepsKeys(anomalies: seq<Anomaly>, seen: set<Key>)
    ensures KeySet(Distinct(anomalies, seen)) == KeySet(anomalies) - seen
    ensures forall i, j :: 0 <= i < j < |Distinct(anomalies, seen)| ==>
              AnomalyKey(Distinct(anomalies, seen)[i]) != AnomalyKey(Distinct(anomalies, seen)[j])
    decreases anomalies
  {
    if anomalies != [] {
      var k := AnomalyKey(anomalies[0]);
      KeySetSplit(anomalies);
      if k in seen {
        DistinctKeepsKeys(anomalies[1..], seen);
      } else {
        var rest := Distinct(anomalies[1..], seen + {k});
        DistinctKeepsKeys(anomalies[1..], seen + {k});
        KeySetSplit([anomalies[0]] + rest);
        assert ([anomalies[0]] + rest)[1..] == rest;
        assert forall j :: 0 <= j < |rest| ==> AnomalyKey(rest[j]) in KeySet(rest);
      }
    }
  }

  lemma KeySetSplit(anomalies: seq<Anomaly>)
    requires anomalies != []
    ensures KeySet(anomalies) == {AnomalyKey(anomalies[0])} + KeySet(anomalies[1..])
  {
    forall k ensures k in KeySet(anomalies) <==> k == AnomalyKey(anomalies[0]) || k in KeySet(anomalies[1..]) {
      if k in KeySet(anomalies) && k != AnomalyKey(anomalies[0]) {
        var i :| 0 <= i < |anomalies| && AnomalyKey(anomalies[i]) == k;
        assert anomalies[1..][i - 1] == anomalies[i];
      }
      if k in KeySet(anomalies[1..]) {
        var i :| 0 <= i < |anomalies[1..]| && AnomalyKey(anomalies[1..][i]) == k;
        assert anomalies[i + 1] == anomalies[1..][i];
      }
    }
  }

  lemma KeySetConcat(a: seq<Anomaly>, b: seq<Anomaly>)
    ensures KeySet(a + b) == KeySet(a) + KeySet(b)
  {
    var c := a + b;
    forall k ensures k in KeySet(c) <==> k in KeySet(a) || k in KeySet(b) {
      if k in KeySet(a) {
        var i :| 0 <= i < |a| && AnomalyKey(a[i]) == k;
        assert c[i] == a[i];
      }
      if k in KeySet(b) {
        var i :| 0 <= i < |b| && AnomalyKey(b[i]) == k;
        assert c[|a| + i] == b[i];
      }
      if k in KeySet(c) {
        var i :| 0 <= i < |c| && AnomalyKey(c[i]) == k;
        assert c[i] == if i < |a| then a[i] else b[i - |a|];
      }
    }
  }

  // ---- Choosing the record to merge into ----

  /** Row r is an open record of the tenant whose identities are a non-empty strict part of `keys`. */
  predicate IsCandidate(r: Row, tenant: string, keys: set<Key>) {
    r.rec.tenantId == tenant && IsOpen(r.rec.state) && RecordKeys(r.rec) != {} && RecordKeys(r.rec) < keys
  }

  /** Candidates weigh the number of their identities, other rows nothing. */
  function Weight(r: Row, tenant: string, keys: set<Key>): (w: nat)
    ensures w > 0 <==> IsCandidate(r, tenant, keys)
  {
    if IsCandidate(r, tenant, keys) then
      assert |RecordKeys(r.rec)| > 0;
      |RecordKeys(r.rec)|
    else 0
  }

  function Weights(rows: seq<Row>, tenant: string, keys: set<Key>): seq<nat> {
    seq(|rows|, i requires 0 <= i < |rows| => Weight(rows[i], tenant, keys))
  }

  /** Position of the first largest weight, if any weight is positive. */
  function FirstLargest(w: seq<nat>): (r: Option<nat>)
    ensures r.None? <==> forall j :: 0 <= j < |w| ==> w[j] == 0
    ensures r.Some? ==> r.value < |w| && w[r.value] > 0
    ensures r.Some? ==> forall j :: 0 <= j < |w| ==> w[j] <= w[r.value] && (j < r.value ==> w[j] < w[r.value])
  {
    if w == [] then None
    else
      var n := |w| - 1;
      var before := FirstLargest(w[..n]);
      if w[n] > (if before.None? then 0 else w[before.value]) then Some(n) else before
  }

  /** The first of the largest open records with fewer anomalies. */
  function Best(rows: seq<Row>, tenant: string, keys: set<Key>): (r: Option<nat>)
    ensures r.Some? ==> r.value < |rows| && IsCandidate(rows[r.value], tenant, keys)
    ensures r.None? <==> forall j :: 0 <= j < |rows| ==> !IsCandidate(rows[j], tenant, keys)
  {
    var w := Weights(rows, tenant, keys);
    assert forall j :: 0 <= j < |rows| ==> (w[j] > 0 <==> IsCandidate(rows[j], tenant, keys));
    FirstLargest(w)
  }

  method SupersetCandidate(rows: seq<Row>, tenant: string, rec: Record) returns (target: Option<nat>)
    ensures target == Best(rows, tenant, RecordKeys(rec))
  {
    var keys := RecordKeys(rec);
    target := None;
    var size := 0;
    ghost var w := Weights(rows, tenant, keys);
    for i := 0 to |rows|
      invariant target == FirstLargest(w[..i])
      invariant size == if target.Some? then w[target.value] else 0
    {
      OneMoreWeight(w, i);
      var weight := Weight(rows[i], tenant, keys);
      if weight > 0 && (target.None? || weight > size) {
        target, size := Some(i), weight;
      }
    }
    assert w[..|rows|] == w;
  }

  lemma OneMoreWeight(w: seq<nat>, i: nat)
    requires i < |w|
    ensures var before := FirstLargest(w[..i]);
      FirstLargest(w[..i + 1]) == if w[i] > (if before.None? then 0 else w[before.value]) then Some(i) else before
  {
    assert w[..i + 1][..i] == w[..i];
  }

  /** First open row of the tenant filed under exactly this key. */
  function Exact(rows: seq<Row>, tenant: string, key: GroupKey): (r: Option<nat>)
    ensures r.Some? ==> r.value < |rows| && IsExact(rows[r.value], tenant, key)
    ensures r.None? ==> forall j :: 0 <= j < |rows| ==> !IsExact(rows[j], tenant, key)
  {
    if rows == [] then None
    else if IsExact(rows[0], tenant, key) then Some(0)
    else
      var later := Exact(rows[1..], tenant, key);
      if later.Some? then Some(later.value + 1) else
        assert forall j :: 0 < j < |rows| ==> rows[j] == rows[1..][j - 1];
        None
  }

  predicate IsExact(r: Row, tenant: string, key: GroupKey) {
    r.rec.tenantId == tenant && r.groupKey == key && IsOpen(r.rec.state)
  }

  // ---- Writing ----

  /** One more occurrence: evidence grows, the count rises, the later time and the higher severity win. */
  function Bumped(old': Record, rec: Record): Record {
    old'.(evidence := old'.evidence + rec.evidence, occurrences := old'.occurrences + 1,
          lastSeenAt := Some(if rec.lastSeenAt.Some? then rec.lastSeenAt.value else rec.detectedAt),
          severity := if Rank(rec.severity) > Rank(old'.severity) then rec.severity else old'.severity)
  }

  function AppendedRow(r: Row, rec: Record): Row {
    r.(rec := Bumped(r.rec, rec))
  }

  function MergedRow(r: Row, rec: Record): Row {
    Row(RecordKey(rec), Bumped(r.rec, rec).(metrics := Distinct(r.rec.metrics + rec.metrics, {}),
                                            logs := Distinct(r.rec.logs + rec.logs, {})))
  }

  /** Inserting under a record id: replaces the row of that id in place, or goes to the end. */
  function Put(rows: seq<Row>, row: Row): seq<Row> {
    if rows == [] then [row]
    else if rows[0].rec.recordId == row.rec.recordId then [row] + rows[1..]
    else [rows[0]] + Put(rows[1..], row)
  }

  function Written(rows: seq<Row>, tenant: string, rec: Record): seq<Row> {
    var best := Best(rows, tenant, RecordKeys(rec));
    if best.Some? then rows[best.value := MergedRow(rows[best.value], rec)]
    else
      var exact := Exact(rows, tenant, RecordKey(rec));
      if exact.Some? then rows[exact.value := AppendedRow(rows[exact.value], rec)]
      else Put(rows, Row(RecordKey(rec), rec))
  }

  /** Position of the row with this id that belongs to the tenant. */
  function Owned(rows: seq<Row>, tenant: string, id: string): (r: Option<nat>)
    ensures r.Some? ==> r.value < |rows| && rows[r.value].rec.recordId == id && rows[r.value].rec.tenantId == tenant
  {
    var at := Find(rows, id);
    if at.Some? && rows[at.value].rec.tenantId == tenant then at else None
  }

  function Find(rows: seq<Row>, id: string): (r: Option<nat>)
    ensures r.Some? ==> r.value < |rows| && rows[r.value].rec.recordId == id
    ensures r.None? ==> forall j :: 0 <= j < |rows| ==> rows[j].rec.recordId != id
  {
    if rows == [] then None
    else if rows[0].rec.recordId == id then Some(0)
    else
      var later := Find(rows[1..], id);
      if later.Some? then Some(later.value + 1) else
        assert forall j :: 0 < j < |rows| ==> rows[j] == rows[1..][j - 1];
        None
  }

  function Updated(rows: seq<Row>, tenant: string, id: string, f: Record -> Record): seq<Row> {
    var at := Owned(rows, tenant, id);
    if at.Some? then rows[at.value := rows[at.value].(rec := f(rows[at.value].rec))] else rows
  }

  function Ended(rec: Record, state: State, reason: string): Record {
    rec.(state := state, resolveReason := Some(reason))
  }

  function Started(rec: Record, runId: string, workflowId: string): Record {
    if rec.state.Pending? then rec.(state := InProgress, evidence := rec.evidence + [AgentRun(runId, workflowId)]) else rec
  }

  function Noted(rec: Record, entry: Entry): Record {
    rec.(evidence := rec.evidence + [entry])
  }

  /** The in-memory store; rows stand in insertion order, one per record id. */
  class RecordStore {
    var rows: seq<Row>

    constructor ()
      ensures rows == []
    {
      rows := [];
    }

    method FindOpen(tenant: string, key: GroupKey) returns (r: Result<Option<Row>>)
      ensures r.TenantRequired? <==> tenant == ""
      ensures r.Ok? && r.value.Some? ==> r.value.value in rows && IsExact(r.value.value, tenant, key)
      ensures r.Ok? && r.value.None? ==> forall i :: 0 <= i < |rows| ==> !IsExact(rows[i], tenant, key)
    {
      if tenant == "" { return TenantRequired; }
      var at := Exact(rows, tenant, key);
      r := Ok(if at.Some? then Some(rows[at.value]) else None);
    }

    method WriteOrAppend(tenant: string, rec: Record) returns (r: Result<()>)
      modifies this
      ensures r.TenantRequired? <==> tenant == ""
      ensures rows == if r.Ok? then Written(old(rows), tenant, rec) else old(rows)
    {
      if tenant == "" { return TenantRequired; }
      r := Ok(());
      var target := SupersetCandidate(rows, tenant, rec);
      if target.Some? {
        var row := rows[target.value];
        var metrics := MergeAnomalies(row.rec.metrics, rec.metrics);
        var logs := MergeAnomalies(row.rec.logs, rec.logs);
        rows := rows[target.value := Row(RecordKey(rec), Bumped(row.rec, rec).(metrics := metrics, logs := logs))];
        return;
      }
      for i := 0 to |rows|
        invariant rows == old(rows)
        invariant forall j :: 0 <= j < i ==> !IsExact(rows[j], tenant, RecordKey(rec))
      {
        if IsExact(rows[i], tenant, RecordKey(rec)) {
          ExactIsFirst(rows, tenant, RecordKey(rec), i);
          rows := rows[i := AppendedRow(rows[i], rec)];
          return;
        }
      }
      rows := Put(rows, Row(RecordKey(rec), rec));
    }

    method SetTerminalState(tenant: string, id: string, state: State, reason: string) returns (r: Result<()>)
      modifies this
      ensures r.TenantRequired? <==> tenant == ""
      ensures rows == if r.Ok? then Updated(old(rows), tenant, id, rec => Ended(rec, state, reason)) else old(rows)
    {
      if tenant == "" { return TenantRequired; }
      r := Ok(());
      var at := Owned(rows, tenant, id);
      if at.Some? {
        rows := rows[at.value := rows[at.value].(rec := Ended(rows[at.value].rec, state, reason))];
      }
    }

    method MarkInProgress(tenant: string, id: string, runId: string, workflowId: string) returns (r: Result<bool>)
      modifies this
      ensures r.TenantRequired? <==> tenant == ""
      ensures rows == if r.Ok? then Updated(old(rows), tenant, id, rec => Started(rec, runId, workflowId)) else old(rows)
      ensures r.Ok? ==> (r.value <==> Owned(old(rows), tenant, id).Some?
                                      && old(rows)[Owned(old(rows), tenant, id).value].rec.state.Pending?)
    {
      if tenant == "" { return TenantRequired; }
      var at := Owned(rows, tenant, id);
      if at.None? || !rows[at.value].rec.state.Pending? { return Ok(false); }
      rows := rows[at.value := rows[at.value].(rec := Started(rows[at.value].rec, runId, workflowId))];
      r := Ok(true);
    }

    method AppendEvidence(tenant: string, id: string, entry: Entry) returns (r: Result<bool>)
      modifies this
      ensures r.TenantRequired? <==> tenant == ""
      ensures rows == if r.Ok? then Updated(old(rows), tenant, id, rec => Noted(rec, entry)) else old(rows)
      ensures r.Ok? ==> r.value == Owned(old(rows), tenant, id).Some?
    {
      if tenant == "" { return TenantRequired; }
      var at := Owned(rows, tenant, id);
      if at.None? { return Ok(false); }
      rows := rows[at.value := rows[at.value].(rec := Noted(rows[at.value].rec, entry))];
      r := Ok(true);
    }
  }

  lemma {:induction false} ExactIsFirst(rows: seq<Row>, tenant: string, key: GroupKey, i: nat)
    requires i < |rows| && IsExact(rows[i], tenant, key)
    requires forall j :: 0 <= j < i ==> !IsExact(rows[j], tenant, key)
    ensures Exact(rows, tenant, key) == Some(i)
    decreases i
  {
    if i > 0 {
      ExactIsFirst(rows[1..], tenant, key, i - 1);
    }
  }
}
