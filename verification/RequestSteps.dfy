/** A request's effects, however many of them are made, are steps of a proper record history. */
module RequestSteps {
  import opened Records
  import opened RecordHistories
  import Escalation

  function StepOf(rec: Record, e: Escalation.Effect): Step {
    match e
    case Append(entry) => Note(rec.tenantId, rec.recordId, entry)
    case Finish(state, reason) => End(rec.tenantId, rec.recordId, state, reason)
    case Begin(runId, workflowId) => Start(rec.tenantId, rec.recordId, runId, workflowId)
  }

  lemma StepOfApplies(rows: seq<Row>, i: nat, e: Escalation.Effect)
    requires DistinctIds(rows) && i < |rows| && rows[i].rec.tenantId != ""
    ensures Apply(rows, StepOf(rows[i].rec, e)) == Escalation.WithRecord(rows, i, Escalation.Applied(rows[i].rec, e))
  {
    match e
    case Append(entry) => Escalation.UpdatesAt(rows, i, rec => Noted(rec, entry));
    case Finish(state, reason) => Escalation.UpdatesAt(rows, i, rec => Ended(rec, state, reason));
    case Begin(runId, workflowId) => Escalation.UpdatesAt(rows, i, rec => Started(rec, runId, workflowId));
  }

  lemma {:induction false} PerformedIsHistory(steps: seq<Step>, i: nat, effects: seq<Escalation.Effect>) returns (steps': seq<Step>)
    requires ProperRun(steps) && i < |After(steps)| && After(steps)[i].rec.tenantId != ""
    requires forall k :: 0 <= k < |effects| ==> Escalation.Final(effects[k])
    ensures ProperRun(steps') && UsedIds(steps') == UsedIds(steps)
    ensures After(steps') == Escalation.WithRecord(After(steps), i, Escalation.Performed(After(steps)[i].rec, effects))
    decreases |effects|
  {
    if effects == [] {
      steps' := steps;
    } else {
      RunIsSound(steps);
      var s := StepOf(After(steps)[i].rec, effects[0]);
      StepOfApplies(After(steps), i, effects[0]);
      OneMoreStep(steps, s);
      steps' := PerformedIsHistory(steps + [s], i, effects[1..]);
    }
  }

  /** A request continues the record history, wherever it is cut off. */
  lemma RequestIsHistory(steps: seq<Step>, tenant: string, id: string, q: Escalation.Request, n: nat) returns (steps': seq<Step>)
    requires ProperRun(steps)
    ensures ProperRun(steps') && UsedIds(steps') == UsedIds(steps)
    ensures After(steps') == Escalation.HandledRows(After(steps), tenant, id, q, n)
  {
    var rows := After(steps);
    var at := Owned(rows, tenant, id);
    steps' := steps;
    if tenant != "" && at.Some? {
      Escalation.EffectsAreFinal(rows[at.value].rec, q);
      steps' := PerformedIsHistory(steps, at.value, Escalation.Cut(Escalation.Effects(rows[at.value].rec, q), n));
    }
  }
}
