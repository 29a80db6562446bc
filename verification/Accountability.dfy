/** Every row stays accountable under the store's own writes, reconcile passes and requests. */
module Accountability {
  import opened Records
  import opened RecordRuns
  import opened Escalation
  import Reconcile
  import DS = DetectionState

  ghost predicate AllAccountable(rows: seq<Row>) {
    forall i :: 0 <= i < |rows| ==> Accountable(rows[i].rec)
  }

  /** Evidence as detection assembles it. */
  predicate FromDetection(rec: Record) {
    Allowed(Event.Detected(rec.evidence))
  }

  /** Accountability is a matter of state and evidence. */
  lemma SameStateAndEvidence(a: Record, b: Record)
    requires Accountable(a) && b.state == a.state && b.evidence == a.evidence
    ensures Accountable(b)
  {
  }

  lemma DetectedRecordIsAccountable(rec: Record)
    requires rec.state.Pending? && FromDetection(rec)
    ensures Accountable(rec)
  {
    assert forall i :: 0 <= i < |rec.evidence| ==> !Ticketed(rec.evidence[i]);
  }

  /** To state and evidence of its target row, a write does what the Detected event does. */
  lemma WriteActsAsDetected(rows: seq<Row>, tenant: string, rec: Record)
    requires RecordRuns.Detected(tenant, rec) && FreshId(rows, rec.recordId) && Target(rows, tenant, rec) < |rows|
    ensures var i := Target(rows, tenant, rec); var now := Landed(rows, tenant, rec).rec;
      var next := Next(rows[i].rec, Event.Detected(rec.evidence));
      now.state == next.state && now.evidence == next.evidence
  {
    WriteLands(rows, tenant, rec);
  }

  lemma WriteKeepsAccountable(rows: seq<Row>, tenant: string, rec: Record)
    requires RecordRuns.Detected(tenant, rec) && FreshId(rows, rec.recordId) && FromDetection(rec) && AllAccountable(rows)
    ensures AllAccountable(Written(rows, tenant, rec))
  {
    var i, row := Target(rows, tenant, rec), Landed(rows, tenant, rec);
    WriteLands(rows, tenant, rec);
    if i == |rows| {
      DetectedRecordIsAccountable(rec);
    } else {
      WriteActsAsDetected(rows, tenant, rec);
      NextIsAccountable(rows[i].rec, Event.Detected(rec.evidence));
      SameStateAndEvidence(Next(rows[i].rec, Event.Detected(rec.evidence)), row.rec);
    }
    AccountableWith(rows, Written(rows, tenant, rec), i, row);
  }

  lemma AccountableWith(rows: seq<Row>, after: seq<Row>, i: nat, row: Row)
    requires AllAccountable(rows) && OnlyAt(rows, after, i, row) && Accountable(row.rec)
    ensures AllAccountable(after)
  {
  }

  /** A pass does to each row what the Reconciled event does, or nothing. */
  lemma PassActsAsReconciled(rows: seq<Row>, states: DS.Rows, after: int, i: nat)
    requires i < |rows|
    ensures var now := Reconcile.Reconciled(rows, states, after)[i].rec;
      now == if Reconcile.Closes(rows, states, after, i) then Next(rows[i].rec, Event.Reconciled) else rows[i].rec
  {
  }

  lemma PassKeepsAccountable(rows: seq<Row>, states: DS.Rows, after: int)
    requires AllAccountable(rows)
    ensures AllAccountable(Reconcile.Reconciled(rows, states, after))
  {
    var now := Reconcile.Reconciled(rows, states, after);
    forall i: nat | i < |now| ensures Accountable(now[i].rec) {
      PassActsAsReconciled(rows, states, after, i);
      NextIsAccountable(rows[i].rec, Event.Reconciled);
    }
  }

  lemma RequestKeepsAccountable(rows: seq<Row>, tenant: string, id: string, q: Request, n: nat)
    requires AllAccountable(rows) && Valid(q)
    ensures AllAccountable(HandledRows(rows, tenant, id, q, n))
  {
    var at := Owned(rows, tenant, id);
    if tenant != "" && at.Some? {
      NextIsAccountable(rows[at.value].rec, Asked(q, n));
    }
  }
}
