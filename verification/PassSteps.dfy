/** A reconcile pass is a series of End steps of a proper record history. */
module PassSteps {
  import opened Records
  import opened RecordRuns
  import opened RecordHistories
  import Reconcile
  import DS = DetectionState

  function EndOf(rec: Record): Step {
    End(rec.tenantId, rec.recordId, Resolved, "auto")
  }

  /** The first n rows as the pass leaves them, the others as they are. */
  function PartlyReconciled(rows: seq<Row>, states: DS.Rows, after: int, n: nat): seq<Row>
    requires n <= |rows|
  {
    Reconcile.Reconciled(rows, states, after)[..n] + rows[n..]
  }

  lemma EndOfOne(rows: seq<Row>, i: nat)
    requires DistinctIds(rows) && i < |rows| && rows[i].rec.tenantId != ""
    ensures Apply(rows, EndOf(rows[i].rec)) == rows[i := Reconcile.ClosedRow(rows[i])]
  {
    Reconcile.ResolvingOne(rows, i);
  }

  lemma PartStep(rows: seq<Row>, states: DS.Rows, after: int, n: nat)
    requires n < |rows|
    ensures var part := PartlyReconciled(rows, states, after, n);
      && part[n] == rows[n]
      && PartlyReconciled(rows, states, after, n + 1) ==
           if Reconcile.Closes(rows, states, after, n) then part[n := Reconcile.ClosedRow(rows[n])] else part
  {
  }

  lemma OneClosing(steps: seq<Step>, i: nat, row: Row)
    requires ProperRun(steps) && i < |After(steps)| && After(steps)[i] == row && row.rec.tenantId != ""
    ensures var steps' := steps + [EndOf(row.rec)];
      ProperRun(steps') && UsedIds(steps') == UsedIds(steps) && After(steps') == After(steps)[i := Reconcile.ClosedRow(row)]
  {
    RunIsSound(steps);
    EndOfOne(After(steps), i);
    OneMoreStep(steps, EndOf(row.rec));
  }

  lemma {:induction false} PartIsHistory(steps: seq<Step>, states: DS.Rows, after: int, n: nat) returns (steps': seq<Step>)
    requires ProperRun(steps) && n <= |After(steps)| && NamedTenants(After(steps))
    ensures ProperRun(steps') && UsedIds(steps') == UsedIds(steps)
    ensures After(steps') == PartlyReconciled(After(steps), states, after, n)
  {
    var rows := After(steps);
    if n == 0 {
      steps' := steps;
    } else {
      var m: nat := n - 1;
      var before := PartIsHistory(steps, states, after, m);
      steps' := NextPart(before, rows, states, after, m);
    }
  }

  lemma NextPart(before: seq<Step>, rows: seq<Row>, states: DS.Rows, after: int, m: nat) returns (steps': seq<Step>)
    requires ProperRun(before) && m < |rows| && rows[m].rec.tenantId != ""
    requires After(before) == PartlyReconciled(rows, states, after, m)
    ensures ProperRun(steps') && UsedIds(steps') == UsedIds(before)
    ensures After(steps') == PartlyReconciled(rows, states, after, m + 1)
  {
    PartStep(rows, states, after, m);
    steps' := before;
    if Reconcile.Closes(rows, states, after, m) {
      OneClosing(before, m, rows[m]);
      steps' := before + [EndOf(rows[m].rec)];
    }
  }

  lemma PassIsHistory(steps: seq<Step>, states: DS.Rows, after: int) returns (steps': seq<Step>)
    requires ProperRun(steps)
    ensures ProperRun(steps') && UsedIds(steps') == UsedIds(steps)
    ensures After(steps') == Reconcile.Reconciled(After(steps), states, after)
  {
    var rows := After(steps);
    ProperRunNamesTenants(steps);
    steps' := PartIsHistory(steps, states, after, |rows|);
    assert PartlyReconciled(rows, states, after, |rows|) == Reconcile.Reconciled(rows, states, after);
  }
}
