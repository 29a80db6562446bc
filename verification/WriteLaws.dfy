/** What a write makes of the store, told by the rows that are there. */
module WriteLaws {
  import opened Anomalies
  import opened Records
  import opened RecordRuns
  import opened Outcomes

  // ---- Merged lists ----

  /** No earlier anomaly of the list has the same identity. */
  predicate FirstOfKey(s: seq<Anomaly>, i: nat)
    requires i < |s|
  {
    forall j :: 0 <= j < i ==> AnomalyKey(s[j]) != AnomalyKey(s[i])
  }

  /** The list is made of the first occurrences from position n on; `at` are their positions, ascending. */
  ghost predicate Firsts(s: seq<Anomaly>, n: nat, list: seq<Anomaly>, at: seq<nat>) {
    Ascending(at) && AreFirsts(s, n, list, at) && HasAllFirsts(s, n, at)
  }

  predicate Ascending(at: seq<nat>) {
    forall i, j :: 0 <= i < j < |at| ==> at[i] < at[j]
  }

  predicate AreFirsts(s: seq<Anomaly>, n: nat, list: seq<Anomaly>, at: seq<nat>) {
    && |at| == |list|
    && forall k :: 0 <= k < |at| ==> n <= at[k] < |s| && FirstOfKey(s, at[k]) && list[k] == s[at[k]]
  }

  predicate HasAllFirsts(s: seq<Anomaly>, n: nat, at: seq<nat>) {
    forall i: nat :: n <= i < |s| && FirstOfKey(s, i) ==> i in at
  }

  lemma OneMoreFirst(s: seq<Anomaly>, n: nat, list: seq<Anomaly>, at: seq<nat>)
    requires n < |s| && Firsts(s, n + 1, list, at) && FirstOfKey(s, n)
    ensures Firsts(s, n, [s[n]] + list, [n] + at)
  {
    OneMoreIsFirst(s, n, list, at);
    var all := [n] + at;
    assert Ascending(all);
    forall i: nat | n <= i < |s| && FirstOfKey(s, i) ensures i in all {
      assert i > n ==> i in at;
    }
  }

  lemma OneMoreIsFirst(s: seq<Anomaly>, n: nat, list: seq<Anomaly>, at: seq<nat>)
    requires n < |s| && AreFirsts(s, n + 1, list, at) && FirstOfKey(s, n)
    ensures AreFirsts(s, n, [s[n]] + list, [n] + at)
  {
  }

  lemma NoMoreFirst(s: seq<Anomaly>, n: nat, list: seq<Anomaly>, at: seq<nat>)
    requires n < |s| && Firsts(s, n + 1, list, at) && !FirstOfKey(s, n)
    ensures Firsts(s, n, list, at)
  {
  }

  lemma {:induction false} DistinctIsFirsts(s: seq<Anomaly>, n: nat, seen: set<Key>) returns (at: seq<nat>)
    requires n <= |s| && forall k :: k in seen <==> exists j :: 0 <= j < n && AnomalyKey(s[j]) == k
    ensures Firsts(s, n, Distinct(s[n..], seen), at)
    decreases |s| - n
  {
    if n == |s| {
      at := [];
    } else {
      var k := AnomalyKey(s[n]);
      assert s[n..][1..] == s[n + 1..];
      assert FirstOfKey(s, n) <==> k !in seen;
      var seen' := if k in seen then seen else seen + {k};
      at := DistinctIsFirsts(s, n + 1, seen');
      if k in seen {
        NoMoreFirst(s, n, Distinct(s[n + 1..], seen'), at);
      } else {
        OneMoreFirst(s, n, Distinct(s[n + 1..], seen'), at);
        at := [n] + at;
      }
    }
  }

  /** The list is the union of both by identity: first occurrences, in order. */
  ghost predicate Unites(before: seq<Anomaly>, incoming: seq<Anomaly>, list: seq<Anomaly>) {
    exists at :: Firsts(before + incoming, 0, list, at)
  }

  lemma DistinctUnites(before: seq<Anomaly>, incoming: seq<Anomaly>)
    ensures Unites(before, incoming, Distinct(before + incoming, {}))
  {
    var s := before + incoming;
    var at := DistinctIsFirsts(s, 0, {});
    assert s[0..] == s;
  }

  /** A united list has exactly the identities of both lists, and one anomaly of each. */
  lemma UnionHasAllKeys(before: seq<Anomaly>, incoming: seq<Anomaly>, list: seq<Anomaly>)
    requires Unites(before, incoming, list)
    ensures KeySet(list) == KeySet(before) + KeySet(incoming) && DistinctKeys(list)
  {
    var at :| Firsts(before + incoming, 0, list, at);
    KeySetConcat(before, incoming);
    FirstsHaveAllKeys(before + incoming, list, at);
    FirstsHaveDistinctKeys(before + incoming, list, at);
  }

  lemma FirstsHaveAllKeys(s: seq<Anomaly>, list: seq<Anomaly>, at: seq<nat>)
    requires AreFirsts(s, 0, list, at) && HasAllFirsts(s, 0, at)
    ensures KeySet(list) == KeySet(s)
  {
    forall k | k in KeySet(s) ensures k in KeySet(list) {
      var i :| 0 <= i < |s| && AnomalyKey(s[i]) == k;
      var f := FirstWithKey(s, i);
      var p :| 0 <= p < |at| && at[p] == f;
      assert AnomalyKey(list[p]) == k;
    }
    forall k | k in KeySet(list) ensures k in KeySet(s) {
      var p :| 0 <= p < |list| && AnomalyKey(list[p]) == k;
      assert AnomalyKey(s[at[p]]) == k;
    }
  }

  lemma FirstsHaveDistinctKeys(s: seq<Anomaly>, list: seq<Anomaly>, at: seq<nat>)
    requires AreFirsts(s, 0, list, at) && Ascending(at)
    ensures DistinctKeys(list)
  {
    forall i, j | 0 <= i < j < |list| ensures AnomalyKey(list[i]) != AnomalyKey(list[j]) {
      assert FirstOfKey(s, at[j]) && at[i] < at[j];
    }
  }

  lemma {:induction false} FirstWithKey(s: seq<Anomaly>, i: nat) returns (f: nat)
    requires i < |s|
    ensures f <= i && FirstOfKey(s, f) && AnomalyKey(s[f]) == AnomalyKey(s[i])
  {
    if j :| 0 <= j < i && AnomalyKey(s[j]) == AnomalyKey(s[i]) {
      f := FirstWithKey(s, j);
    } else {
      f := i;
    }
  }

  predicate DistinctKeys(list: seq<Anomaly>) {
    forall i, j :: 0 <= i < j < |list| ==> AnomalyKey(list[i]) != AnomalyKey(list[j])
  }

  /** What was there before stays in front, anomaly by anomaly, unless it repeated an identity. */
  lemma OldFindingsStayInFront(before: seq<Anomaly>, incoming: seq<Anomaly>, list: seq<Anomaly>)
    requires Unites(before, incoming, list) && DistinctKeys(before)
    ensures before <= list
  {
    var s := before + incoming;
    var at :| Firsts(s, 0, list, at);
    forall i: nat | i < |before| ensures FirstOfKey(s, i) && s[i] == before[i] {
      assert forall j :: 0 <= j <= i ==> s[j] == before[j];
    }
    FrontIsPicked(at, |before|);
    assert forall i :: 0 <= i < |before| ==> list[i] == s[at[i]];
  }

  /** Ascending positions that include the first n begin with them. */
  lemma {:induction false} FrontIsPicked(at: seq<nat>, n: nat)
    requires Ascending(at) && forall i: nat :: i < n ==> i in at
    ensures n <= |at| && forall i :: 0 <= i < n ==> at[i] == i
  {
    if n > 0 {
      FrontIsPicked(at, n - 1);
      assert n - 1 in at;
      var p :| 0 <= p < |at| && at[p] == n - 1;
      assert n > 1 ==> at[n - 2] == n - 2;
    }
  }

  // ---- Which row a write concerns, and what becomes of it ----

  /** Row i is the first among the open records of the tenant with the most identities strictly within the incoming ones. */
  ghost predicate LargestPart(rows: seq<Row>, tenant: string, rec: Record, i: nat) {
    && i < |rows| && IsCandidate(rows[i], tenant, RecordKeys(rec))
    && forall j :: 0 <= j < |rows| && IsCandidate(rows[j], tenant, RecordKeys(rec)) ==>
         |RecordKeys(rows[j].rec)| <= |RecordKeys(rows[i].rec)|
         && (j < i ==> |RecordKeys(rows[j].rec)| < |RecordKeys(rows[i].rec)|)
  }

  predicate NoPart(rows: seq<Row>, tenant: string, rec: Record) {
    forall j :: 0 <= j < |rows| ==> !IsCandidate(rows[j], tenant, RecordKeys(rec))
  }

  /** Row i is the first open record of the tenant filed under the incoming record's key. */
  predicate FirstExact(rows: seq<Row>, tenant: string, rec: Record, i: nat) {
    && i < |rows| && IsExact(rows[i], tenant, RecordKey(rec))
    && forall j :: 0 <= j < i ==> !IsExact(rows[j], tenant, RecordKey(rec))
  }

  predicate NoExact(rows: seq<Row>, tenant: string, rec: Record) {
    forall j :: 0 <= j < |rows| ==> !IsExact(rows[j], tenant, RecordKey(rec))
  }

  /** One more occurrence, seen at the incoming record's time; what the record is and how it stands does not change. */
  predicate Counted(was: Record, rec: Record, now: Record) {
    && now.recordId == was.recordId && now.tenantId == was.tenantId && now.domain == was.domain && now.state == was.state
    && now.service == was.service && now.groupKeyService == was.groupKeyService
    && now.detectedAt == was.detectedAt && now.resolveReason == was.resolveReason
    && now.occurrences == was.occurrences + 1 && now.evidence == was.evidence + rec.evidence
    && now.lastSeenAt == (if rec.lastSeenAt.Some? then rec.lastSeenAt else Some(rec.detectedAt))
    && (now.severity == was.severity || now.severity == rec.severity)
    && Rank(now.severity) >= Rank(was.severity) && Rank(now.severity) >= Rank(rec.severity)
    && (now.severity != was.severity ==> Rank(rec.severity) > Rank(was.severity))
  }

  predicate OthersStay(rows: seq<Row>, after: seq<Row>, i: nat) {
    |after| == |rows| && forall j :: 0 <= j < |rows| && j != i ==> after[j] == rows[j]
  }

  /**
   * An open record with fewer anomalies takes the incoming ones up: its metrics are united with the metrics and its logs
   * with the logs, it is filed under the incoming key, and no other row changes.
   */
  lemma WriteMerges(rows: seq<Row>, tenant: string, rec: Record, i: nat)
    requires LargestPart(rows, tenant, rec, i)
    ensures var after := Written(rows, tenant, rec);
      && OthersStay(rows, after, i) && after[i].groupKey == RecordKey(rec) && Counted(rows[i].rec, rec, after[i].rec)
      && Unites(rows[i].rec.metrics, rec.metrics, after[i].rec.metrics)
      && Unites(rows[i].rec.logs, rec.logs, after[i].rec.logs)
  {
    LargestIsBest(rows, tenant, rec, i);
    MergedIsCounted(rows[i], rec);
    assert Written(rows, tenant, rec) == rows[i := MergedRow(rows[i], rec)];
  }

  lemma MergedIsCounted(r: Row, rec: Record)
    ensures var now := MergedRow(r, rec);
      && now.groupKey == RecordKey(rec) && Counted(r.rec, rec, now.rec)
      && Unites(r.rec.metrics, rec.metrics, now.rec.metrics) && Unites(r.rec.logs, rec.logs, now.rec.logs)
  {
    DistinctUnites(r.rec.metrics, rec.metrics);
    DistinctUnites(r.rec.logs, rec.logs);
  }

  lemma LargestIsBest(rows: seq<Row>, tenant: string, rec: Record, i: nat)
    requires LargestPart(rows, tenant, rec, i)
    ensures Best(rows, tenant, RecordKeys(rec)) == Some(i)
  {
    var keys := RecordKeys(rec);
    var w := Weights(rows, tenant, keys);
    forall j | 0 <= j < |rows| ensures w[j] <= w[i] && (j < i ==> w[j] < w[i]) {
      assert w[j] > 0 <==> IsCandidate(rows[j], tenant, keys);
    }
    FirstLargestIs(w, i);
  }

  lemma FirstLargestIs(w: seq<nat>, i: nat)
    requires i < |w| && w[i] > 0 && forall j :: 0 <= j < |w| ==> w[j] <= w[i] && (j < i ==> w[j] < w[i])
    ensures FirstLargest(w) == Some(i)
  {
    var b := FirstLargest(w);
    assert b.Some? && w[b.value] == w[i];
  }

  /** So after a merge each list has exactly the identities of its own kind that either side had. */
  lemma MergeKeepsListsApart(rows: seq<Row>, tenant: string, rec: Record, i: nat)
    requires LargestPart(rows, tenant, rec, i)
    ensures var after := Written(rows, tenant, rec);
      && |after| == |rows|
      && KeySet(after[i].rec.metrics) == KeySet(rows[i].rec.metrics) + KeySet(rec.metrics)
      && KeySet(after[i].rec.logs) == KeySet(rows[i].rec.logs) + KeySet(rec.logs)
      && (DistinctKeys(rows[i].rec.metrics) ==> rows[i].rec.metrics <= after[i].rec.metrics)
      && (DistinctKeys(rows[i].rec.logs) ==> rows[i].rec.logs <= after[i].rec.logs)
  {
    WriteMerges(rows, tenant, rec, i);
    var was, now := rows[i].rec, Written(rows, tenant, rec)[i].rec;
    UnionHasAllKeys(was.metrics, rec.metrics, now.metrics);
    UnionHasAllKeys(was.logs, rec.logs, now.logs);
    if DistinctKeys(was.metrics) {
      OldFindingsStayInFront(was.metrics, rec.metrics, now.metrics);
    }
    if DistinctKeys(was.logs) {
      OldFindingsStayInFront(was.logs, rec.logs, now.logs);
    }
  }

  /** Without such a record, the first open one under the same key counts one occurrence more and keeps its anomalies. */
  lemma WriteAppends(rows: seq<Row>, tenant: string, rec: Record, i: nat)
    requires NoPart(rows, tenant, rec) && FirstExact(rows, tenant, rec, i)
    ensures var after := Written(rows, tenant, rec);
      && OthersStay(rows, after, i) && after[i].groupKey == rows[i].groupKey && Counted(rows[i].rec, rec, after[i].rec)
      && after[i].rec.metrics == rows[i].rec.metrics && after[i].rec.logs == rows[i].rec.logs
  {
    ExactIsFirst(rows, tenant, RecordKey(rec), i);
  }

  /** Without either, the record itself becomes the last row. */
  lemma WriteOpens(rows: seq<Row>, tenant: string, rec: Record)
    requires NoPart(rows, tenant, rec) && NoExact(rows, tenant, rec) && FreshId(rows, rec.recordId)
    ensures Written(rows, tenant, rec) == rows + [Row(RecordKey(rec), rec)]
  {
    PutFreshAppends(rows, Row(RecordKey(rec), rec));
  }

  /** A record written again under its own id takes the place of its row. */
  lemma {:induction false} WriteReplaces(rows: seq<Row>, tenant: string, rec: Record, i: nat)
    requires NoPart(rows, tenant, rec) && NoExact(rows, tenant, rec) && DistinctIds(rows)
    requires i < |rows| && rows[i].rec.recordId == rec.recordId
    ensures Written(rows, tenant, rec) == rows[i := Row(RecordKey(rec), rec)]
  {
    PutReplaces(rows, Row(RecordKey(rec), rec), i);
  }

  lemma {:induction false} PutReplaces(rows: seq<Row>, row: Row, i: nat)
    requires DistinctIds(rows) && i < |rows| && rows[i].rec.recordId == row.rec.recordId
    ensures Put(rows, row) == rows[i := row]
    decreases i
  {
    if i > 0 {
      PutReplaces(rows[1..], row, i - 1);
    }
  }

  /** One of the cases always applies. */
  lemma EveryWriteIsOneOfThree(rows: seq<Row>, tenant: string, rec: Record) returns (i: nat)
    ensures LargestPart(rows, tenant, rec, i)
            || (NoPart(rows, tenant, rec) && (FirstExact(rows, tenant, rec, i) || NoExact(rows, tenant, rec)))
  {
    var keys := RecordKeys(rec);
    var best := Best(rows, tenant, keys);
    if best.Some? {
      i := best.value;
      var w := Weights(rows, tenant, keys);
      assert forall j :: 0 <= j < |rows| && IsCandidate(rows[j], tenant, keys) ==> w[j] == |RecordKeys(rows[j].rec)|;
    } else {
      i := FirstExactRow(rows, tenant, rec, 0);
    }
  }

  lemma {:induction false} FirstExactRow(rows: seq<Row>, tenant: string, rec: Record, n: nat) returns (i: nat)
    requires n <= |rows| && forall j :: 0 <= j < n ==> !IsExact(rows[j], tenant, RecordKey(rec))
    ensures FirstExact(rows, tenant, rec, i) || NoExact(rows, tenant, rec)
    decreases |rows| - n
  {
    if n == |rows| || IsExact(rows[n], tenant, RecordKey(rec)) {
      i := n;
    } else {
      i := FirstExactRow(rows, tenant, rec, n + 1);
    }
  }
}
