/** The record store as SQL statements, and when the in-memory store does the same. */
module SqlRecords {
  import opened Outcomes
  import opened Records
  import opened RecordRuns

  function SqlRank(severity: string): nat {
    if severity == "warning" then 1 else if severity == "high" then 2 else if severity == "critical" then 3 else 0
  }

  function SqlSeverity(stored: string, incoming: string): string {
    if SqlRank(incoming) > SqlRank(stored) then incoming else stored
  }

  predicate SqlCandidate(r: Row, tenant: string, rec: Record) {
    IsCandidate(r, tenant, RecordKeys(rec)) && r.rec.domain == rec.domain
  }

  /** The query returns rows in no particular order, so any largest candidate may be chosen. */
  predicate SqlChoice(rows: seq<Row>, tenant: string, rec: Record, i: nat) {
    && i < |rows| && SqlCandidate(rows[i], tenant, rec)
    && forall j :: 0 <= j < |rows| && SqlCandidate(rows[j], tenant, rec) ==>
         Weight(rows[j], tenant, RecordKeys(rec)) <= Weight(rows[i], tenant, RecordKeys(rec))
  }

  /** The table refuses a second open row with the tenant and key of row i. */
  predicate ViolatesUnique(rows: seq<Row>, i: nat, row: Row) {
    exists j :: 0 <= j < |rows| && j != i && SameOpenKey(rows[j], row)
  }

  /** One write against the table may leave `after`; a refused statement leaves the table as it was. */
  ghost predicate SqlWrites(rows: seq<Row>, tenant: string, rec: Record, after: seq<Row>) {
    if exists i: nat :: SqlChoice(rows, tenant, rec, i) then
      exists i: nat :: SqlChoice(rows, tenant, rec, i) && after == SqlMerged(rows, rec, i)
    else
      var exact := Exact(rows, rec.tenantId, RecordKey(rec));
      if exact.Some? then
        var row := rows[exact.value];
        after == rows[exact.value := row.(rec := Bumped(row.rec, rec).(
          severity := SqlSeverity(row.rec.severity, rec.severity), lastSeenAt := rec.lastSeenAt))]
      else after == rows + [Row(RecordKey(rec), rec)]
  }

  function SqlMerged(rows: seq<Row>, rec: Record, i: nat): seq<Row>
    requires i < |rows|
  {
    var row := MergedRow(rows[i], rec);
    var row' := row.(rec := row.rec.(severity := SqlSeverity(rows[i].rec.severity, rec.severity)));
    if ViolatesUnique(rows, i, row') then rows else rows[i := row']
  }

  /** Against the table, every write keeps open keys unique. */
  lemma SqlWriteKeepsUnique(rows: seq<Row>, tenant: string, rec: Record, after: seq<Row>)
    requires UniqueOpen(rows) && Detected(tenant, rec) && SqlWrites(rows, tenant, rec, after)
    ensures UniqueOpen(after)
  {
    if i: nat :| SqlChoice(rows, tenant, rec, i) && after == SqlMerged(rows, rec, i) {
      if after != rows {
        UniqueWith(rows, after, i, after[i]);
      }
    } else {
      var exact := Exact(rows, rec.tenantId, RecordKey(rec));
      if exact.Some? {
        var e := exact.value;
        assert forall j :: 0 <= j < |rows| ==> (SameOpenKey(rows[j], after[e]) <==> SameOpenKey(rows[j], rows[e]));
        assert forall j :: 0 <= j < |rows| ==> (SameOpenKey(rows[j], after[e]) <==> SameOpenKey(rows[e], rows[j]));
        UniqueWith(rows, after, e, after[e]);
      } else {
        var row := Row(RecordKey(rec), rec);
        assert forall j :: 0 <= j < |rows| ==> (SameOpenKey(rows[j], row) <==> IsExact(rows[j], tenant, RecordKey(rec)));
        UniqueWith(rows, after, |rows|, row);
      }
    }
  }

  // ---- Comparison with the in-memory write ----

  /** The one pair of severities that the two forms rank differently: a stored word outside the vocabulary against "warning". */
  predicate RankedApart(stored: string, incoming: string) {
    incoming == "warning" && SqlRank(stored) == 0
  }

  lemma SameRankingIff(stored: string, incoming: string)
    ensures SqlSeverity(stored, incoming) == (if Rank(incoming) > Rank(stored) then incoming else stored)
            <==> !RankedApart(stored, incoming)
  {
  }

  /** The in-memory write goes to a row that the SQL write can go to as well, and both keep the same severity there. */
  predicate SameTarget(rows: seq<Row>, tenant: string, rec: Record) {
    var i := Target(rows, tenant, rec);
    i < |rows| ==> && (Best(rows, tenant, RecordKeys(rec)).Some? ==> rows[i].rec.domain == rec.domain)
                   && !RankedApart(rows[i].rec.severity, rec.severity)
  }

  /**
   * The in-memory write is an outcome of the SQL write exactly when it does not clash, merges within the domain, and
   * meets no stored severity outside the vocabulary with a mere warning.
   */
  lemma MemoryAgreesWithSqlIff(rows: seq<Row>, tenant: string, rec: Record)
    requires Sound(rows) && Detected(tenant, rec) && FreshId(rows, rec.recordId) && UniqueOpen(rows)
    ensures SqlWrites(rows, tenant, rec, Written(rows, tenant, rec)) <==>
            !Clashes(rows, tenant, rec) && SameTarget(rows, tenant, rec)
  {
    if SqlWrites(rows, tenant, rec, Written(rows, tenant, rec)) {
      SqlWriteKeepsUnique(rows, tenant, rec, Written(rows, tenant, rec));
      WriteKeepsUniqueIffNoClash(rows, tenant, rec);
      AgreementNeedsSameTarget(rows, tenant, rec);
    }
    if !Clashes(rows, tenant, rec) && SameTarget(rows, tenant, rec) {
      SameTargetIsSqlWrite(rows, tenant, rec);
    }
  }

  /** The in-memory write counts one more occurrence at its target. */
  lemma TargetIsBumped(rows: seq<Row>, tenant: string, rec: Record)
    requires Detected(tenant, rec) && FreshId(rows, rec.recordId) && Target(rows, tenant, rec) < |rows|
    ensures var i, after := Target(rows, tenant, rec), Written(rows, tenant, rec);
      && |after| == |rows| && after[i].rec.occurrences == rows[i].rec.occurrences + 1
      && after[i].rec.severity ==
           if Rank(rec.severity) > Rank(rows[i].rec.severity) then rec.severity else rows[i].rec.severity
  {
    WriteLands(rows, tenant, rec);
  }

  lemma AgreementNeedsSameTarget(rows: seq<Row>, tenant: string, rec: Record)
    requires Sound(rows) && Detected(tenant, rec) && FreshId(rows, rec.recordId)
    requires SqlWrites(rows, tenant, rec, Written(rows, tenant, rec))
    ensures SameTarget(rows, tenant, rec)
  {
    var i, after := Target(rows, tenant, rec), Written(rows, tenant, rec);
    if i < |rows| {
      TargetIsBumped(rows, tenant, rec);
      SqlTouches(rows, tenant, rec, after, i);
      TouchedIsSameTarget(rows, tenant, rec);
    }
  }

  lemma TouchedIsSameTarget(rows: seq<Row>, tenant: string, rec: Record)
    requires Sound(rows) && Target(rows, tenant, rec) < |rows|
    requires var r := rows[Target(rows, tenant, rec)];
      && (SqlCandidate(r, tenant, rec) || IsExact(r, tenant, RecordKey(rec)))
      && SqlSeverity(r.rec.severity, rec.severity) == if Rank(rec.severity) > Rank(r.rec.severity) then rec.severity else r.rec.severity
    ensures SameTarget(rows, tenant, rec)
  {
    var i := Target(rows, tenant, rec);
    SameRankingIff(rows[i].rec.severity, rec.severity);
    if Best(rows, tenant, RecordKeys(rec)).Some? {
      CandidateIsNotExact(rows[i], tenant, rec);
    }
  }

  lemma CandidateIsNotExact(r: Row, tenant: string, rec: Record)
    requires Filed(r) && IsCandidate(r, tenant, RecordKeys(rec))
    ensures !IsExact(r, tenant, RecordKey(rec))
  {
    RecordKeyNamesKeys(rec);
  }

  /** A row in which an SQL write counts one more occurrence is its chosen candidate or the row of its exact key. */
  lemma SqlTouches(rows: seq<Row>, tenant: string, rec: Record, after: seq<Row>, i: nat)
    requires Detected(tenant, rec) && SqlWrites(rows, tenant, rec, after) && i < |rows| && |after| == |rows|
    requires after[i].rec.occurrences == rows[i].rec.occurrences + 1
    ensures after[i].rec.severity == SqlSeverity(rows[i].rec.severity, rec.severity)
    ensures SqlCandidate(rows[i], tenant, rec) || IsExact(rows[i], tenant, RecordKey(rec))
  {
    if exists k: nat :: SqlChoice(rows, tenant, rec, k) {
      var k: nat :| SqlChoice(rows, tenant, rec, k) && after == SqlMerged(rows, rec, k);
      MergeTouches(rows, rec, k, i);
    } else {
      assert Exact(rows, tenant, RecordKey(rec)) == Some(i);
    }
  }

  lemma MergeTouches(rows: seq<Row>, rec: Record, k: nat, i: nat)
    requires k < |rows| && i < |rows| && SqlMerged(rows, rec, k)[i].rec.occurrences == rows[i].rec.occurrences + 1
    ensures k == i && SqlMerged(rows, rec, k)[i].rec.severity == SqlSeverity(rows[i].rec.severity, rec.severity)
  {
  }

  lemma SameTargetIsSqlWrite(rows: seq<Row>, tenant: string, rec: Record)
    requires Detected(tenant, rec) && FreshId(rows, rec.recordId)
    requires !Clashes(rows, tenant, rec) && SameTarget(rows, tenant, rec)
    ensures SqlWrites(rows, tenant, rec, Written(rows, tenant, rec))
  {
    if Best(rows, tenant, RecordKeys(rec)).Some? {
      LargestIsSqlChoice(rows, tenant, rec);
      MergeIsSqlMerge(rows, tenant, rec);
    } else {
      assert forall j: nat :: !SqlChoice(rows, tenant, rec, j);
      var exact := Exact(rows, tenant, RecordKey(rec));
      if exact.Some? {
        SameRankingIff(rows[exact.value].rec.severity, rec.severity);
      } else {
        PutFreshAppends(rows, Row(RecordKey(rec), rec));
      }
    }
  }

  lemma MergeIsSqlMerge(rows: seq<Row>, tenant: string, rec: Record)
    requires Detected(tenant, rec) && SameTarget(rows, tenant, rec)
    requires Best(rows, tenant, RecordKeys(rec)).Some? && Exact(rows, tenant, RecordKey(rec)).None?
    ensures SqlMerged(rows, rec, Best(rows, tenant, RecordKeys(rec)).value) == Written(rows, tenant, rec)
  {
    var i := Best(rows, tenant, RecordKeys(rec)).value;
    var row := MergedRow(rows[i], rec);
    SameRankingIff(rows[i].rec.severity, rec.severity);
    assert row.(rec := row.rec.(severity := SqlSeverity(rows[i].rec.severity, rec.severity))) == row;
    assert forall j :: 0 <= j < |rows| ==> (SameOpenKey(rows[j], row) ==> IsExact(rows[j], tenant, RecordKey(rec)));
  }

  lemma LargestIsSqlChoice(rows: seq<Row>, tenant: string, rec: Record)
    requires Best(rows, tenant, RecordKeys(rec)).Some?
    requires rows[Best(rows, tenant, RecordKeys(rec)).value].rec.domain == rec.domain
    ensures SqlChoice(rows, tenant, rec, Best(rows, tenant, RecordKeys(rec)).value)
  {
    var w, i := Weights(rows, tenant, RecordKeys(rec)), Best(rows, tenant, RecordKeys(rec)).value;
    assert forall j :: 0 <= j < |rows| ==> w[j] == Weight(rows[j], tenant, RecordKeys(rec)) && w[j] <= w[i];
  }
}
