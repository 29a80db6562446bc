/** With one domain per tenant, every anomaly of a record has been counted in the record's own domain. */
module OneDomain {
  import opened Anomalies
  import opened Records
  import opened RecordRuns
  import opened Escalation
  import Reconcile
  import DS = DetectionState

  /** The record is of its tenant's domain, and all its anomalies have appeared there. */
  predicate Known(rec: Record, history: seq<DS.Round>, domainOf: string -> string) {
    && rec.domain == domainOf(rec.tenantId)
    && forall k :: k in RecordKeys(rec) ==> DS.Total(history, (rec.tenantId, rec.domain, k)) > 0
  }

  ghost predicate AllKnown(rows: seq<Row>, history: seq<DS.Round>, domainOf: string -> string) {
    forall i :: 0 <= i < |rows| ==> Known(rows[i].rec, history, domainOf)
  }

  lemma TotalGrows(history: seq<DS.Round>, r: DS.Round, slot: DS.Slot)
    ensures DS.Total(history + [r], slot) ==
            DS.Total(history, slot) + if DS.InDomain(slot, r.tenant, r.domain) then r.keys[slot.2] else 0
  {
    var all := history + [r];
    assert all[..|all| - 1] == history;
  }

  lemma RoundKeepsKnown(rows: seq<Row>, history: seq<DS.Round>, r: DS.Round, domainOf: string -> string)
    requires AllKnown(rows, history, domainOf)
    ensures AllKnown(rows, history + [r], domainOf)
  {
    forall i, k | 0 <= i < |rows| && k in RecordKeys(rows[i].rec)
      ensures DS.Total(history + [r], (rows[i].rec.tenantId, rows[i].rec.domain, k)) > 0
    {
      assert Known(rows[i].rec, history, domainOf);
      TotalGrows(history, r, (rows[i].rec.tenantId, rows[i].rec.domain, k));
    }
    assert forall i :: 0 <= i < |rows| ==> Known(rows[i].rec, history, domainOf);
  }

  /** A record that only names anomalies of the round leaves its row known. */
  lemma WriteKeepsKnown(rows: seq<Row>, tenant: string, rec: Record, history: seq<DS.Round>, domainOf: string -> string)
    requires Sound(rows) && RecordRuns.Detected(tenant, rec) && FreshId(rows, rec.recordId)
    requires AllKnown(rows, history, domainOf) && Known(rec, history, domainOf)
    ensures AllKnown(Written(rows, tenant, rec), history, domainOf)
  {
    var i, row := Target(rows, tenant, rec), Landed(rows, tenant, rec);
    WriteTouchesOneRow(rows, tenant, rec);
    LandedDomain(rows, tenant, rec);
    if i < |rows| {
      assert Known(rows[i].rec, history, domainOf);
    }
    KnownLike(rec, row.rec, history, domainOf);
    KnownWith(rows, Written(rows, tenant, rec), i, row, history, domainOf);
  }

  lemma LandedDomain(rows: seq<Row>, tenant: string, rec: Record)
    ensures var i := Target(rows, tenant, rec);
      Landed(rows, tenant, rec).rec.domain == if i < |rows| then rows[i].rec.domain else rec.domain
  {
  }

  lemma KnownLike(a: Record, b: Record, history: seq<DS.Round>, domainOf: string -> string)
    requires Known(a, history, domainOf) && RecordKeys(b) == RecordKeys(a) && b.tenantId == a.tenantId && b.domain == a.domain
    ensures Known(b, history, domainOf)
  {
  }

  lemma KnownWith(rows: seq<Row>, after: seq<Row>, i: nat, row: Row, history: seq<DS.Round>, domainOf: string -> string)
    requires AllKnown(rows, history, domainOf) && OnlyAt(rows, after, i, row) && Known(row.rec, history, domainOf)
    ensures AllKnown(after, history, domainOf)
  {
  }

  lemma PassKeepsKnown(rows: seq<Row>, states: DS.Rows, after: int, history: seq<DS.Round>, domainOf: string -> string)
    requires AllKnown(rows, history, domainOf)
    ensures AllKnown(Reconcile.Reconciled(rows, states, after), history, domainOf)
  {
    var now := Reconcile.Reconciled(rows, states, after);
    forall i | 0 <= i < |now| ensures Known(now[i].rec, history, domainOf) {
      KnownLike(rows[i].rec, now[i].rec, history, domainOf);
    }
  }

  lemma RequestKeepsKnown(rows: seq<Row>, tenant: string, id: string, q: Request, n: nat,
                          history: seq<DS.Round>, domainOf: string -> string)
    requires AllKnown(rows, history, domainOf)
    ensures AllKnown(HandledRows(rows, tenant, id, q, n), history, domainOf)
  {
    var at := Owned(rows, tenant, id);
    if tenant != "" && at.Some? {
      var rec := rows[at.value].rec;
      PerformedKeepsFindings(rec, Cut(Effects(rec, q), n));
      KnownLike(rec, Handled(rec, q, n), history, domainOf);
    }
  }

  lemma {:induction false} PerformedKeepsFindings(rec: Record, effects: seq<Effect>)
    ensures var after := Performed(rec, effects);
      RecordKeys(after) == RecordKeys(rec) && after.tenantId == rec.tenantId && after.domain == rec.domain
    decreases |effects|
  {
    if effects != [] {
      PerformedKeepsFindings(Applied(rec, effects[0]), effects[1..]);
    }
  }

  // ---- What absence alone decides ----

  /** Each anomaly of the record was absent from each of the last n rounds of the record's domain. */
  ghost predicate AllAbsent(history: seq<DS.Round>, rec: Record, n: int) {
    forall k :: k in RecordKeys(rec) ==> DS.AbsentForLast(history, (rec.tenantId, rec.domain, k), n)
  }

  lemma KnownGoneIsAbsent(history: seq<DS.Round>, rec: Record, n: int, domainOf: string -> string)
    requires Known(rec, history, domainOf)
    ensures Reconcile.AllGone(history, rec, n) <==> AllAbsent(history, rec, n)
  {
    forall k | k in RecordKeys(rec)
      ensures Reconcile.Gone(history, (rec.tenantId, rec.domain, k), n) <==> DS.AbsentForLast(history, (rec.tenantId, rec.domain, k), n)
    {
      assert DS.Total(history, (rec.tenantId, rec.domain, k)) > 0;
    }
  }

  // ---- Across domains ----

  /**
   * A merge across domains strands the record: the row keeps its own domain, so an anomaly that has only appeared in the
   * other one is never counted as missing, and no pass closes the record however long all its anomalies stay away.
   */
  lemma CrossDomainMergeIsNeverFinished(rows: seq<Row>, tenant: string, rec: Record, k: Key,
                                        states: DS.Rows, history: seq<DS.Round>, after: int)
    requires Sound(rows) && RecordRuns.Detected(tenant, rec) && FreshId(rows, rec.recordId)
    requires Best(rows, tenant, RecordKeys(rec)).Some? && k in RecordKeys(rec)
    requires var domain := rows[Best(rows, tenant, RecordKeys(rec)).value].rec.domain;
      domain != rec.domain && DS.Total(history, (tenant, domain, k)) == 0
    requires DS.Reflects(states, history) && after >= 1
    ensures !Reconcile.Finished(states, Landed(rows, tenant, rec).rec, after)
  {
    var row := Landed(rows, tenant, rec).rec;
    WriteTouchesOneRow(rows, tenant, rec);
    LandedDomain(rows, tenant, rec);
    assert DS.ReflectsSlot(states, history, (tenant, row.domain, k));
    assert k in RecordKeys(row) && Reconcile.Miss(states, (row.tenantId, row.domain, k)) == 0;
  }
}
