/** What every sequence of operations on the record store keeps. */
module RecordRuns {
  import opened Anomalies
  import opened Records

  // ---- One write ----

  /** A record as detection assembles it for the tenant it writes for. */
  predicate Detected(tenant: string, rec: Record) {
    tenant != "" && rec.tenantId == tenant && rec.state.Pending? && rec.occurrences == 1 && rec.lastSeenAt.Some?
  }

  function KeysOf(key: GroupKey): set<Key> {
    set k | k in key.keys
  }

  /** The key a row is filed under names the row's tenant and identities. */
  predicate Filed(r: Row) {
    KeysOf(r.groupKey) == RecordKeys(r.rec) && r.groupKey.tenant == r.rec.tenantId
  }

  predicate FreshId(rows: seq<Row>, id: string) {
    forall i :: 0 <= i < |rows| ==> rows[i].rec.recordId != id
  }

  predicate Sound(rows: seq<Row>) {
    (forall i :: 0 <= i < |rows| ==> Filed(rows[i])) && DistinctIds(rows)
  }

  /** The row a write goes to; |rows| stands for a new row. */
  function Target(rows: seq<Row>, tenant: string, rec: Record): (i: nat)
    ensures i <= |rows|
  {
    var best := Best(rows, tenant, RecordKeys(rec));
    if best.Some? then best.value
    else
      var exact := Exact(rows, tenant, RecordKey(rec));
      if exact.Some? then exact.value else |rows|
  }

  /** `after` is `rows` with `row` at position i and everything else as it was. */
  predicate OnlyAt(rows: seq<Row>, after: seq<Row>, i: nat, row: Row) {
    i <= |rows| && after == if i < |rows| then rows[i := row] else rows + [row]
  }

  /** The row at the target of a write, as the write leaves it. */
  function Landed(rows: seq<Row>, tenant: string, rec: Record): Row {
    var i := Target(rows, tenant, rec);
    if i == |rows| then Row(RecordKey(rec), rec)
    else if Best(rows, tenant, RecordKeys(rec)).Some? then MergedRow(rows[i], rec)
    else AppendedRow(rows[i], rec)
  }

  lemma RecordKeyNamesKeys(rec: Record)
    ensures KeysOf(RecordKey(rec)) == RecordKeys(rec)
  {
    var all := rec.metrics + rec.logs;
    KeySetConcat(rec.metrics, rec.logs);
    forall k ensures k in multiset(Keys(all)) <==> k in KeySet(all) {
      if k in KeySet(all) {
        var i :| 0 <= i < |all| && AnomalyKey(all[i]) == k;
        assert Keys(all)[i] == k;
      }
      if k in Keys(all) {
        var i :| 0 <= i < |all| && Keys(all)[i] == k;
        assert AnomalyKey(all[i]) == k;
      }
    }
  }

  /** A merged row has the identities of both. */
  lemma MergingUnitesKeys(r: Row, rec: Record)
    ensures RecordKeys(MergedRow(r, rec).rec) == RecordKeys(r.rec) + RecordKeys(rec)
  {
    DistinctKeepsKeys(r.rec.metrics + rec.metrics, {});
    DistinctKeepsKeys(r.rec.logs + rec.logs, {});
    KeySetConcat(r.rec.metrics, rec.metrics);
    KeySetConcat(r.rec.logs, rec.logs);
  }

  lemma {:induction false} PutFreshAppends(rows: seq<Row>, row: Row)
    requires FreshId(rows, row.rec.recordId)
    ensures Put(rows, row) == rows + [row]
    decreases |rows|
  {
    if rows != [] {
      PutFreshAppends(rows[1..], row);
    }
  }

  /** The target row, after the write: open, and filed under the incoming key and key set. */
  lemma TargetTakesKey(rows: seq<Row>, tenant: string, rec: Record)
    requires Detected(tenant, rec) && forall i :: 0 <= i < |rows| ==> Filed(rows[i])
    ensures var row := Landed(rows, tenant, rec);
      row.groupKey == RecordKey(rec) && RecordKeys(row.rec) == RecordKeys(rec) && row.rec.tenantId == tenant && Filed(row)
  {
    var i := Target(rows, tenant, rec);
    if i == |rows| {
      RecordKeyNamesKeys(rec);
    } else if Best(rows, tenant, RecordKeys(rec)).Some? {
      MergedTakesKey(rows[i], rec);
    } else {
      AppendedKeepsKey(rows[i], rec);
    }
  }

  lemma MergedTakesKey(r: Row, rec: Record)
    requires RecordKeys(r.rec) <= RecordKeys(rec) && r.rec.tenantId == rec.tenantId
    ensures var row := MergedRow(r, rec); row.groupKey == RecordKey(rec) && RecordKeys(row.rec) == RecordKeys(rec) && Filed(row)
  {
    RecordKeyNamesKeys(rec);
    MergingUnitesKeys(r, rec);
  }

  lemma AppendedKeepsKey(r: Row, rec: Record)
    requires Filed(r) && r.groupKey == RecordKey(rec)
    ensures RecordKeys(AppendedRow(r, rec).rec) == RecordKeys(rec) && Filed(AppendedRow(r, rec))
  {
    RecordKeyNamesKeys(rec);
  }

  /** Everything else about the target row's place and identity. */
  predicate Lands(rows: seq<Row>, tenant: string, rec: Record) {
    var i, row := Target(rows, tenant, rec), Landed(rows, tenant, rec);
    && OnlyAt(rows, Written(rows, tenant, rec), i, row)
    && IsOpen(row.rec.state)
    && (i < |rows| ==> && IsOpen(rows[i].rec.state) && rows[i].rec.tenantId == tenant
                       && row.rec.recordId == rows[i].rec.recordId && row.rec.state == rows[i].rec.state)
    && (i == |rows| ==> row.rec == rec)
  }

  lemma WriteLands(rows: seq<Row>, tenant: string, rec: Record)
    requires Detected(tenant, rec) && FreshId(rows, rec.recordId)
    ensures Lands(rows, tenant, rec)
  {
    if Target(rows, tenant, rec) == |rows| {
      PutFreshAppends(rows, Row(RecordKey(rec), rec));
    }
  }

  /** A write adds or changes exactly one row: an open one, which now has the incoming key and key set. */
  lemma WriteTouchesOneRow(rows: seq<Row>, tenant: string, rec: Record)
    requires Sound(rows) && Detected(tenant, rec) && FreshId(rows, rec.recordId)
    ensures Lands(rows, tenant, rec)
    ensures var row := Landed(rows, tenant, rec);
      row.groupKey == RecordKey(rec) && RecordKeys(row.rec) == RecordKeys(rec) && row.rec.tenantId == tenant
    ensures Sound(Written(rows, tenant, rec))
  {
    WriteLands(rows, tenant, rec);
    TargetTakesKey(rows, tenant, rec);
    SoundWith(rows, Written(rows, tenant, rec), Target(rows, tenant, rec), Landed(rows, tenant, rec));
  }

  lemma SoundWith(rows: seq<Row>, after: seq<Row>, i: nat, row: Row)
    requires Sound(rows) && OnlyAt(rows, after, i, row) && Filed(row)
    requires if i < |rows| then row.rec.recordId == rows[i].rec.recordId else FreshId(rows, row.rec.recordId)
    ensures Sound(after)
  {
  }

  // ---- One open row per key ----

  predicate SameOpenKey(a: Row, b: Row) {
    IsOpen(a.rec.state) && IsOpen(b.rec.state) && a.rec.tenantId == b.rec.tenantId && a.groupKey == b.groupKey
  }

  predicate UniqueOpen(rows: seq<Row>) {
    forall i, j :: 0 <= i < j < |rows| ==> !SameOpenKey(rows[i], rows[j])
  }

  /** The write merges into a smaller record although some open row already has the incoming key. */
  predicate Clashes(rows: seq<Row>, tenant: string, rec: Record) {
    Best(rows, tenant, RecordKeys(rec)).Some? && Exact(rows, tenant, RecordKey(rec)).Some?
  }

  lemma UniqueWith(rows: seq<Row>, after: seq<Row>, i: nat, row: Row)
    requires UniqueOpen(rows) && OnlyAt(rows, after, i, row)
    ensures UniqueOpen(after) <==> forall j :: 0 <= j < |rows| && j != i ==> !SameOpenKey(rows[j], row)
  {
    forall j | 0 <= j < |rows| && j != i
      ensures after[j] == rows[j] && after[i] == row
      ensures SameOpenKey(rows[j], row) ==> !UniqueOpen(after)
    {
      if j < i {
        assert UniqueOpen(after) ==> !SameOpenKey(after[j], after[i]);
      } else {
        assert UniqueOpen(after) ==> !SameOpenKey(after[i], after[j]);
      }
    }
  }

  /** A write keeps open keys unique exactly when it does not clash. */
  lemma WriteKeepsUniqueIffNoClash(rows: seq<Row>, tenant: string, rec: Record)
    requires Sound(rows) && Detected(tenant, rec) && FreshId(rows, rec.recordId) && UniqueOpen(rows)
    ensures UniqueOpen(Written(rows, tenant, rec)) <==> !Clashes(rows, tenant, rec)
  {
    var i, row := Target(rows, tenant, rec), Landed(rows, tenant, rec);
    WriteTouchesOneRow(rows, tenant, rec);
    UniqueWith(rows, Written(rows, tenant, rec), i, row);
    assert forall j :: 0 <= j < |rows| ==> (SameOpenKey(rows[j], row) <==> IsExact(rows[j], tenant, RecordKey(rec)));
    if Clashes(rows, tenant, rec) {
      var j := Exact(rows, tenant, RecordKey(rec)).value;
      RecordKeyNamesKeys(rec);
      assert Filed(rows[j]) && RecordKeys(rows[j].rec) == RecordKeys(rec);
      assert j != i && SameOpenKey(rows[j], row);
    } else if i < |rows| {
      forall j | 0 <= j < |rows| && j != i ensures !SameOpenKey(rows[j], row) {
        assert if i < j then !SameOpenKey(rows[i], rows[j]) else !SameOpenKey(rows[j], rows[i]);
      }
    }
  }

  /** The variant that looks for the exact key before looking for a smaller record. */
  function WrittenExactFirst(rows: seq<Row>, tenant: string, rec: Record): seq<Row> {
    var exact := Exact(rows, tenant, RecordKey(rec));
    if exact.Some? then rows[exact.value := AppendedRow(rows[exact.value], rec)] else Written(rows, tenant, rec)
  }

  lemma ExactFirstKeepsUnique(rows: seq<Row>, tenant: string, rec: Record)
    requires Sound(rows) && Detected(tenant, rec) && FreshId(rows, rec.recordId) && UniqueOpen(rows)
    ensures UniqueOpen(WrittenExactFirst(rows, tenant, rec)) && Sound(WrittenExactFirst(rows, tenant, rec))
  {
    var exact := Exact(rows, tenant, RecordKey(rec));
    if exact.Some? {
      var row := AppendedRow(rows[exact.value], rec);
      assert Filed(rows[exact.value]) && Filed(row);
      assert forall j :: 0 <= j < |rows| ==> (SameOpenKey(rows[j], row) <==> SameOpenKey(rows[j], rows[exact.value]));
      assert forall j :: 0 <= j < |rows| ==> (SameOpenKey(rows[j], row) <==> SameOpenKey(rows[exact.value], rows[j]));
      UniqueWith(rows, WrittenExactFirst(rows, tenant, rec), exact.value, row);
      SoundWith(rows, WrittenExactFirst(rows, tenant, rec), exact.value, row);
    } else {
      WriteKeepsUniqueIffNoClash(rows, tenant, rec);
      WriteTouchesOneRow(rows, tenant, rec);
    }
  }

  /**
   * The proviso is needed: an incident, then a part of it on its own, then the whole again
   * leaves two open rows with one key.
   */
  lemma WholePartWholeBreaksUnique(tenant: string, whole: Record, part: Record, again: Record)
    requires Detected(tenant, whole) && Detected(tenant, part) && Detected(tenant, again)
    requires RecordKeys(part) != {} && RecordKeys(part) < RecordKeys(whole) && RecordKey(again) == RecordKey(whole)
    requires whole.recordId != part.recordId && whole.recordId != again.recordId && part.recordId != again.recordId
    ensures !UniqueOpen(Written(Written(Written([], tenant, whole), tenant, part), tenant, again))
  {
    var first, second := Row(RecordKey(whole), whole), Row(RecordKey(part), part);
    RecordKeyNamesKeys(whole);
    RecordKeyNamesKeys(part);
    UnmatchedIsAppended([], tenant, whole);
    var one := [first];
    assert !IsCandidate(one[0], tenant, RecordKeys(part)) && !IsExact(one[0], tenant, RecordKey(part));
    UnmatchedIsAppended(one, tenant, part);
    var two := one + [second];
    assert two[0] == first && two[1] == second;
    RecordKeyNamesKeys(again);
    AgainClashes(two, tenant, again);
  }

  lemma UnmatchedIsAppended(rows: seq<Row>, tenant: string, rec: Record)
    requires FreshId(rows, rec.recordId)
    requires forall i :: 0 <= i < |rows| ==>
               !IsCandidate(rows[i], tenant, RecordKeys(rec)) && !IsExact(rows[i], tenant, RecordKey(rec))
    ensures Written(rows, tenant, rec) == rows + [Row(RecordKey(rec), rec)]
  {
    PutFreshAppends(rows, Row(RecordKey(rec), rec));
  }

  lemma AgainClashes(two: seq<Row>, tenant: string, again: Record)
    requires |two| == 2 && Filed(two[0]) && Filed(two[1]) && Detected(tenant, again)
    requires two[0].rec.recordId != two[1].rec.recordId
    requires two[0].rec.recordId != again.recordId && two[1].rec.recordId != again.recordId
    requires IsExact(two[0], tenant, RecordKey(again)) && IsCandidate(two[1], tenant, RecordKeys(again))
    requires two[0].groupKey != two[1].groupKey
    ensures !UniqueOpen(Written(two, tenant, again))
  {
    TwoSoundRows(two, again.recordId);
    WriteKeepsUniqueIffNoClash(two, tenant, again);
  }

  lemma TwoSoundRows(two: seq<Row>, id: string)
    requires |two| == 2 && Filed(two[0]) && Filed(two[1])
    requires two[0].rec.recordId != two[1].rec.recordId && two[0].groupKey != two[1].groupKey
    requires two[0].rec.recordId != id && two[1].rec.recordId != id
    ensures Sound(two) && FreshId(two, id) && UniqueOpen(two)
  {
  }
}
