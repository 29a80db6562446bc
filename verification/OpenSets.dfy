/** One open row per set of identities: the reading of "one incident, one record" that repetition breaks. */
module OpenSets {
  import opened Anomalies
  import opened Records
  import opened RecordRuns
  import opened RecordHistories

  /** An open row of the tenant with exactly these identities. */
  predicate HasSet(r: Row, tenant: string, keys: set<Key>) {
    IsOpen(r.rec.state) && r.rec.tenantId == tenant && RecordKeys(r.rec) == keys
  }

  predicate SameOpenSet(a: Row, b: Row) {
    IsOpen(a.rec.state) && HasSet(b, a.rec.tenantId, RecordKeys(a.rec))
  }

  predicate UniqueSets(rows: seq<Row>) {
    forall i, j :: 0 <= i < j < |rows| ==> !SameOpenSet(rows[i], rows[j])
  }

  predicate SetIsOpen(rows: seq<Row>, tenant: string, keys: set<Key>) {
    exists j :: 0 <= j < |rows| && HasSet(rows[j], tenant, keys)
  }

  lemma UniqueSetsWith(rows: seq<Row>, after: seq<Row>, i: nat, row: Row)
    requires UniqueSets(rows) && OnlyAt(rows, after, i, row)
    ensures UniqueSets(after) <==> forall j :: 0 <= j < |rows| && j != i ==> !SameOpenSet(rows[j], row)
  {
    forall j | 0 <= j < |rows| && j != i
      ensures after[j] == rows[j] && after[i] == row
      ensures SameOpenSet(rows[j], row) ==> !UniqueSets(after)
    {
      if j < i {
        assert UniqueSets(after) ==> !SameOpenSet(after[j], after[i]);
      } else {
        assert UniqueSets(after) ==> !SameOpenSet(after[i], after[j]);
      }
    }
    if forall j :: 0 <= j < |rows| && j != i ==> !SameOpenSet(rows[j], row) {
      forall a, b | 0 <= a < b < |after| ensures !SameOpenSet(after[a], after[b]) {
        if a == i {
          assert !SameOpenSet(rows[b], row);
        } else if b == i {
          assert !SameOpenSet(rows[a], row);
        }
      }
    }
  }

  /** The write finds the row that already has its set: nothing smaller is open, and its exact key is. */
  predicate FindsItsSet(rows: seq<Row>, tenant: string, rec: Record) {
    Best(rows, tenant, RecordKeys(rec)).None? && Exact(rows, tenant, RecordKey(rec)).Some?
  }

  /** A row with the incoming set is open already, and the write goes elsewhere. */
  predicate SplitsSet(rows: seq<Row>, tenant: string, rec: Record) {
    SetIsOpen(rows, tenant, RecordKeys(rec)) && !FindsItsSet(rows, tenant, rec)
  }

  lemma ExactHasSet(r: Row, tenant: string, rec: Record)
    requires Filed(r) && IsExact(r, tenant, RecordKey(rec))
    ensures HasSet(r, tenant, RecordKeys(rec))
  {
    RecordKeyNamesKeys(rec);
  }

  /** A write keeps open sets unique exactly when its set is not open yet or it goes to the row that has it. */
  lemma WriteKeepsSetsUniqueIff(rows: seq<Row>, tenant: string, rec: Record)
    requires Sound(rows) && Detected(tenant, rec) && FreshId(rows, rec.recordId) && UniqueSets(rows)
    ensures UniqueSets(Written(rows, tenant, rec)) <==> !SplitsSet(rows, tenant, rec)
  {
    var i, row, keys := Target(rows, tenant, rec), Landed(rows, tenant, rec), RecordKeys(rec);
    WriteTouchesOneRow(rows, tenant, rec);
    UniqueSetsWith(rows, Written(rows, tenant, rec), i, row);
    assert forall j :: 0 <= j < |rows| ==> (SameOpenSet(rows[j], row) <==> HasSet(rows[j], tenant, keys));
    if FindsItsSet(rows, tenant, rec) {
      ExactHasSet(rows[i], tenant, rec);
      forall j | 0 <= j < |rows| && j != i ensures !HasSet(rows[j], tenant, keys) {
        assert if i < j then !SameOpenSet(rows[i], rows[j]) else !SameOpenSet(rows[j], rows[i]);
      }
    } else {
      assert i < |rows| ==> !HasSet(rows[i], tenant, keys);
    }
  }

  /**
   * Repetition splits an incident: two records with one set of identities, but not the same number of each,
   * leave two open rows with that set. Their keys differ, so open keys stay unique.
   */
  lemma RepetitionSplitsIncident(tenant: string, one: Record, two: Record)
    requires Detected(tenant, one) && Detected(tenant, two) && one.recordId != two.recordId
    requires RecordKeys(one) == RecordKeys(two) && RecordKey(one) != RecordKey(two)
    ensures var rows := Written(Written([], tenant, one), tenant, two);
      && |rows| == 2 && HasSet(rows[0], tenant, RecordKeys(one)) && HasSet(rows[1], tenant, RecordKeys(one))
      && !UniqueSets(rows) && UniqueOpen(rows)
  {
    var first, second := Row(RecordKey(one), one), Row(RecordKey(two), two);
    UnmatchedIsAppended([], tenant, one);
    var start := [first];
    assert !IsCandidate(start[0], tenant, RecordKeys(two)) && !IsExact(start[0], tenant, RecordKey(two));
    UnmatchedIsAppended(start, tenant, two);
    var rows := start + [second];
    assert rows[0] == first && rows[1] == second && SameOpenSet(rows[0], rows[1]);
  }

  // ---- Over runs ----

  lemma OtherStepsKeepSetsUnique(rows: seq<Row>, s: Step, used: set<string>)
    requires Sound(rows) && IdsAmong(rows, used) && Proper(s, used) && UniqueSets(rows) && !Accepted(s)
    ensures UniqueSets(Apply(rows, s))
  {
    StepPlaces(rows, s, used);
    var at := Place(rows, s);
    if at.Some? {
      var i, row := at.value, Placed(rows, s);
      forall j | 0 <= j < |rows| && j != i ensures !SameOpenSet(rows[j], row) {
        assert if i < j then !SameOpenSet(rows[i], rows[j]) else !SameOpenSet(rows[j], rows[i]);
      }
      UniqueSetsWith(rows, Apply(rows, s), i, row);
    }
  }

  lemma StepKeepsSetsUniqueIff(rows: seq<Row>, s: Step, used: set<string>)
    requires Sound(rows) && IdsAmong(rows, used) && Proper(s, used) && UniqueSets(rows)
    ensures UniqueSets(Apply(rows, s)) <==> !(Accepted(s) && SplitsSet(rows, s.tenant, s.rec))
  {
    if Accepted(s) {
      assert FreshId(rows, s.rec.recordId);
      WriteKeepsSetsUniqueIff(rows, s.tenant, s.rec);
    } else {
      OtherStepsKeepSetsUnique(rows, s, used);
    }
  }

  /** No write of the run splits a set at the point where it is made. */
  predicate SplitFree(steps: seq<Step>) {
    steps == [] ||
    var before, s := steps[..|steps| - 1], steps[|steps| - 1];
    SplitFree(before) && !(Accepted(s) && SplitsSet(After(before), s.tenant, s.rec))
  }

  /** Open sets are unique at every point of the run. */
  predicate AlwaysUniqueSets(steps: seq<Step>) {
    UniqueSets(After(steps)) && (steps == [] || AlwaysUniqueSets(steps[..|steps| - 1]))
  }

  /** Each incident has one open record throughout a run exactly when none of its writes splits a set. */
  lemma {:induction false} AlwaysUniqueSetsIffSplitFree(steps: seq<Step>)
    requires ProperRun(steps)
    ensures AlwaysUniqueSets(steps) <==> SplitFree(steps)
  {
    if steps != [] {
      var before := steps[..|steps| - 1];
      AlwaysUniqueSetsIffSplitFree(before);
      RunIsSound(before);
      if AlwaysUniqueSets(before) {
        StepKeepsSetsUniqueIff(After(before), steps[|steps| - 1], UsedIds(before));
      }
    }
  }
}
