/** Records keep metrics among metrics and logs among logs, and the time of the round that opened them. */
module Findings {
  import opened Anomalies
  import opened Records
  import opened RecordRuns
  import opened WriteLaws
  import opened Escalation
  import Reconcile
  import DS = DetectionState

  predicate SortedFindings(rec: Record) {
    && (forall k :: 0 <= k < |rec.metrics| ==> rec.metrics[k].Metric?)
    && (forall k :: 0 <= k < |rec.logs| ==> rec.logs[k].Log?)
  }

  ghost predicate AllSorted(rows: seq<Row>) {
    forall i :: 0 <= i < |rows| ==> SortedFindings(rows[i].rec)
  }

  /** Then the lists share out the record's identities by kind. */
  lemma SortedListsShareKeys(rec: Record)
    requires SortedFindings(rec)
    ensures KeySet(rec.metrics) == set k | k in RecordKeys(rec) && k.MetricKey?
    ensures KeySet(rec.logs) == set k | k in RecordKeys(rec) && k.LogKey?
  {
    forall k | k in KeySet(rec.metrics) ensures k.MetricKey? {
      var i :| 0 <= i < |rec.metrics| && AnomalyKey(rec.metrics[i]) == k;
    }
    forall k | k in KeySet(rec.logs) ensures k.LogKey? {
      var i :| 0 <= i < |rec.logs| && AnomalyKey(rec.logs[i]) == k;
    }
  }

  /** Nothing but the anomalies of both lists is in their union. */
  lemma UnionComesFromBoth(before: seq<Anomaly>, incoming: seq<Anomaly>, list: seq<Anomaly>, k: nat)
    requires Unites(before, incoming, list) && k < |list|
    ensures list[k] in before || list[k] in incoming
  {
    var at :| Firsts(before + incoming, 0, list, at);
    assert list[k] == (before + incoming)[at[k]];
  }

  lemma UnionsAreSorted(was: Record, rec: Record, now: Record)
    requires SortedFindings(was) && SortedFindings(rec)
    requires Unites(was.metrics, rec.metrics, now.metrics) && Unites(was.logs, rec.logs, now.logs)
    ensures SortedFindings(now)
  {
    forall k: nat | k < |now.metrics| ensures now.metrics[k].Metric? {
      UnionComesFromBoth(was.metrics, rec.metrics, now.metrics, k);
    }
    forall k: nat | k < |now.logs| ensures now.logs[k].Log? {
      UnionComesFromBoth(was.logs, rec.logs, now.logs, k);
    }
  }

  /** Rows there before keep their time; the new ones have the given time. */
  predicate OpenedAt(start: seq<Row>, rows: seq<Row>, time: int) {
    && |start| <= |rows|
    && (forall i :: 0 <= i < |start| ==> rows[i].rec.detectedAt == start[i].rec.detectedAt)
    && (forall i :: |start| <= i < |rows| ==> rows[i].rec.detectedAt == time)
  }

  lemma WriteKeepsFindings(start: seq<Row>, rows: seq<Row>, tenant: string, rec: Record)
    requires FreshId(rows, rec.recordId) && AllSorted(rows) && SortedFindings(rec) && OpenedAt(start, rows, rec.detectedAt)
    ensures AllSorted(Written(rows, tenant, rec)) && OpenedAt(start, Written(rows, tenant, rec), rec.detectedAt)
  {
    var i := EveryWriteIsOneOfThree(rows, tenant, rec);
    var after := Written(rows, tenant, rec);
    if LargestPart(rows, tenant, rec, i) {
      WriteMerges(rows, tenant, rec, i);
      UnionsAreSorted(rows[i].rec, rec, after[i].rec);
      OneRowLikeBefore(start, rows, after, i, rec.detectedAt);
    } else if FirstExact(rows, tenant, rec, i) {
      WriteAppends(rows, tenant, rec, i);
      OneRowLikeBefore(start, rows, after, i, rec.detectedAt);
    } else {
      WriteOpens(rows, tenant, rec);
      OneRowMore(start, rows, Row(RecordKey(rec), rec), rec.detectedAt);
    }
  }

  lemma OneRowLikeBefore(start: seq<Row>, rows: seq<Row>, after: seq<Row>, i: nat, time: int)
    requires AllSorted(rows) && OpenedAt(start, rows, time) && i < |rows| && OthersStay(rows, after, i)
    requires SortedFindings(after[i].rec) && after[i].rec.detectedAt == rows[i].rec.detectedAt
    ensures AllSorted(after) && OpenedAt(start, after, time)
  {
  }

  lemma OneRowMore(start: seq<Row>, rows: seq<Row>, row: Row, time: int)
    requires AllSorted(rows) && OpenedAt(start, rows, time) && SortedFindings(row.rec) && row.rec.detectedAt == time
    ensures AllSorted(rows + [row]) && OpenedAt(start, rows + [row], time)
  {
  }

  lemma {:induction false} PerformedKeepsLists(rec: Record, effects: seq<Effect>)
    ensures var after := Performed(rec, effects);
      after.metrics == rec.metrics && after.logs == rec.logs && after.detectedAt == rec.detectedAt
    decreases |effects|
  {
    if effects != [] {
      PerformedKeepsLists(Applied(rec, effects[0]), effects[1..]);
    }
  }

  lemma RequestKeepsFindings(rows: seq<Row>, tenant: string, id: string, q: Request, n: nat)
    requires AllSorted(rows)
    ensures var now := HandledRows(rows, tenant, id, q, n); AllSorted(now) && |now| == |rows| && OpenedAt(rows, now, 0)
  {
    var at := Owned(rows, tenant, id);
    if tenant != "" && at.Some? {
      var rec := rows[at.value].rec;
      PerformedKeepsLists(rec, Cut(Effects(rec, q), n));
    }
  }

  lemma PassKeepsFindings(rows: seq<Row>, states: DS.Rows, after: int)
    requires AllSorted(rows)
    ensures var now := Reconcile.Reconciled(rows, states, after); AllSorted(now) && |now| == |rows| && OpenedAt(rows, now, 0)
  {
  }
}
