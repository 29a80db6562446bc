/** Whole histories of a record store: accounting, uniqueness and the life of each row. */
module RecordHistories {
  import opened Records
  import opened Outcomes
  import opened RecordRuns

  datatype Step =
    | Write(tenant: string, rec: Record)
    | End(tenant: string, id: string, state: State, reason: string)
    | Start(tenant: string, id: string, runId: string, workflowId: string)
    | Note(tenant: string, id: string, entry: Entry)

  /** The store after one operation; an empty tenant is refused. */
  function Apply(rows: seq<Row>, s: Step): seq<Row> {
    if s.tenant == "" then rows
    else
      match s
      case Write(t, rec) => Written(rows, t, rec)
      case End(t, id, state, reason) => Updated(rows, t, id, rec => Ended(rec, state, reason))
      case Start(t, id, runId, workflowId) => Updated(rows, t, id, rec => Started(rec, runId, workflowId))
      case Note(t, id, entry) => Updated(rows, t, id, rec => Noted(rec, entry))
  }

  predicate Accepted(s: Step) {
    s.Write? && s.tenant != ""
  }

  /** Writes come from detection under ids not used before; End is called with a final state. */
  predicate Proper(s: Step, used: set<string>) {
    (Accepted(s) ==> Detected(s.tenant, s.rec) && s.rec.recordId !in used) && (s.End? ==> !IsOpen(s.state))
  }

  function UsedIds(steps: seq<Step>): set<string> {
    if steps == [] then {}
    else
      var s := steps[|steps| - 1];
      UsedIds(steps[..|steps| - 1]) + if Accepted(s) then {s.rec.recordId} else {}
  }

  predicate ProperRun(steps: seq<Step>) {
    steps == [] || (ProperRun(steps[..|steps| - 1]) && Proper(steps[|steps| - 1], UsedIds(steps[..|steps| - 1])))
  }

  function After(steps: seq<Step>): seq<Row> {
    if steps == [] then [] else Apply(After(steps[..|steps| - 1]), steps[|steps| - 1])
  }

  lemma OneMoreStep(steps: seq<Step>, s: Step)
    ensures After(steps + [s]) == Apply(After(steps), s)
    ensures UsedIds(steps + [s]) == UsedIds(steps) + if Accepted(s) then {s.rec.recordId} else {}
    ensures ProperRun(steps + [s]) <==> ProperRun(steps) && Proper(s, UsedIds(steps))
  {
    var all := steps + [s];
    assert all[..|all| - 1] == steps;
  }

  predicate IdsAmong(rows: seq<Row>, used: set<string>) {
    forall i :: 0 <= i < |rows| ==> rows[i].rec.recordId in used
  }

  // ---- One operation places one row ----

  /** The row an operation concerns; |rows| for a new one, None when it concerns no row. */
  function Place(rows: seq<Row>, s: Step): (i: Option<nat>)
    ensures i.Some? ==> i.value <= |rows| && (!s.Write? ==> i.value < |rows|)
  {
    if s.tenant == "" then None
    else if s.Write? then Some(Target(rows, s.tenant, s.rec))
    else Owned(rows, s.tenant, s.id)
  }

  function Placed(rows: seq<Row>, s: Step): Row
    requires Place(rows, s).Some?
  {
    var i := Place(rows, s).value;
    match s
    case Write(t, rec) => Landed(rows, t, rec)
    case End(_, _, state, reason) => rows[i].(rec := Ended(rows[i].rec, state, reason))
    case Start(_, _, runId, workflowId) => rows[i].(rec := Started(rows[i].rec, runId, workflowId))
    case Note(_, _, entry) => rows[i].(rec := Noted(rows[i].rec, entry))
  }

  lemma ApplyPlacesOneRow(rows: seq<Row>, s: Step, used: set<string>)
    requires Sound(rows) && IdsAmong(rows, used) && Proper(s, used)
    ensures var i := Place(rows, s);
      if i.None? then Apply(rows, s) == rows else OnlyAt(rows, Apply(rows, s), i.value, Placed(rows, s))
    ensures Accepted(s) ==> Lands(rows, s.tenant, s.rec)
    ensures Sound(Apply(rows, s)) && IdsAmong(Apply(rows, s), used + if Accepted(s) then {s.rec.recordId} else {})
  {
    if Accepted(s) {
      assert FreshId(rows, s.rec.recordId);
      WriteTouchesOneRow(rows, s.tenant, s.rec);
    } else {
      UpdatePlacesOneRow(rows, s, used);
    }
  }

  lemma UpdatePlacesOneRow(rows: seq<Row>, s: Step, used: set<string>)
    requires Sound(rows) && IdsAmong(rows, used) && !Accepted(s)
    ensures var i := Place(rows, s);
      if i.None? then Apply(rows, s) == rows else OnlyAt(rows, Apply(rows, s), i.value, Placed(rows, s))
    ensures Sound(Apply(rows, s)) && IdsAmong(Apply(rows, s), used)
  {
    var i := Place(rows, s);
    if i.Some? {
      var row := Placed(rows, s);
      assert Filed(rows[i.value]) && Filed(row);
      SoundWith(rows, Apply(rows, s), i.value, row);
    }
  }

  lemma {:induction false} RunIsSound(steps: seq<Step>)
    requires ProperRun(steps)
    ensures Sound(After(steps)) && IdsAmong(After(steps), UsedIds(steps))
  {
    if steps != [] {
      var before, s := steps[..|steps| - 1], steps[|steps| - 1];
      RunIsSound(before);
      ApplyPlacesOneRow(After(before), s, UsedIds(before));
    }
  }

  // ---- Accounting ----

  /** What a row has received: a detected record folded in, or a single evidence entry. */
  datatype Deed = Folded(rec: Record) | Entered(entry: Entry)

  function Folds(deeds: seq<Deed>): seq<Record> {
    if deeds == [] then []
    else
      var d := deeds[|deeds| - 1];
      Folds(deeds[..|deeds| - 1]) + if d.Folded? then [d.rec] else []
  }

  function Entries(deeds: seq<Deed>): seq<Entry> {
    if deeds == [] then []
    else
      var d := deeds[|deeds| - 1];
      Entries(deeds[..|deeds| - 1]) + if d.Folded? then d.rec.evidence else [d.entry]
  }

  /** The row is the sum of what it received. */
  ghost predicate Tells(row: Row, deeds: seq<Deed>) {
    var folds := Folds(deeds);
    && row.rec.evidence == Entries(deeds)
    && row.rec.occurrences == |folds| > 0
    && row.groupKey == RecordKey(folds[|folds| - 1])
    && (exists k :: 0 <= k < |folds| && folds[k].severity == row.rec.severity)
    && (forall k :: 0 <= k < |folds| ==> Rank(folds[k].severity) <= Rank(row.rec.severity))
  }

  type Ledger = seq<seq<Deed>>

  function DeedsOf(rows: seq<Row>, s: Step): seq<Deed>
    requires Place(rows, s).Some?
  {
    match s
    case Write(_, rec) => [Folded(rec)]
    case End(_, _, _, _) => []
    case Start(_, _, runId, workflowId) =>
      if rows[Place(rows, s).value].rec.state.Pending? then [Entered(AgentRun(runId, workflowId))] else []
    case Note(_, _, entry) => [Entered(entry)]
  }

  function Recorded(ledger: Ledger, rows: seq<Row>, s: Step): Ledger {
    var i := Place(rows, s);
    if i.None? || i.value > |ledger| then ledger
    else if i.value == |ledger| then ledger + [DeedsOf(rows, s)]
    else ledger[i.value := ledger[i.value] + DeedsOf(rows, s)]
  }

  function LedgerOf(steps: seq<Step>): Ledger {
    if steps == [] then []
    else
      var before := steps[..|steps| - 1];
      Recorded(LedgerOf(before), After(before), steps[|steps| - 1])
  }

  lemma OneMoreDeed(deeds: seq<Deed>, d: Deed)
    ensures Folds(deeds + [d]) == Folds(deeds) + if d.Folded? then [d.rec] else []
    ensures Entries(deeds + [d]) == Entries(deeds) + if d.Folded? then d.rec.evidence else [d.entry]
  {
    var all := deeds + [d];
    assert all[..|all| - 1] == deeds;
  }

  lemma FoldIsTold(row: Row, deeds: seq<Deed>, row': Row, rec: Record)
    requires Tells(row, deeds) && row'.groupKey == RecordKey(rec)
    requires row'.rec.evidence == row.rec.evidence + rec.evidence && row'.rec.occurrences == row.rec.occurrences + 1
    requires row'.rec.severity == if Rank(rec.severity) > Rank(row.rec.severity) then rec.severity else row.rec.severity
    ensures Tells(row', deeds + [Folded(rec)])
  {
    OneMoreDeed(deeds, Folded(rec));
    var folds := Folds(deeds);
    var folds' := folds + [rec];
    assert Folds(deeds + [Folded(rec)]) == folds';
    var k :| 0 <= k < |folds| && folds[k].severity == row.rec.severity;
    assert folds'[k] == folds[k] && folds'[|folds|] == rec;
  }

  lemma EntryIsTold(row: Row, deeds: seq<Deed>, row': Row, entry: Entry)
    requires Tells(row, deeds)
    requires row'.groupKey == row.groupKey && row'.rec.evidence == row.rec.evidence + [entry]
    requires row'.rec.occurrences == row.rec.occurrences && row'.rec.severity == row.rec.severity
    ensures Tells(row', deeds + [Entered(entry)])
  {
    OneMoreDeed(deeds, Entered(entry));
    assert Folds(deeds + [Entered(entry)]) == Folds(deeds);
  }

  lemma FirstIsTold(row: Row, rec: Record)
    requires row == Row(RecordKey(rec), rec) && rec.occurrences == 1
    ensures Tells(row, [Folded(rec)])
  {
    OneMoreDeed([], Folded(rec));
    assert [] + [Folded(rec)] == [Folded(rec)];
    assert Folds([Folded(rec)])[0] == rec;
  }

  ghost predicate Balanced(rows: seq<Row>, ledger: Ledger) {
    |rows| == |ledger| && forall i :: 0 <= i < |rows| ==> Tells(rows[i], ledger[i])
  }

  lemma LandedIsTold(rows: seq<Row>, ledger: Ledger, tenant: string, rec: Record)
    requires Balanced(rows, ledger) && Detected(tenant, rec)
    ensures var i := Target(rows, tenant, rec);
      Tells(Landed(rows, tenant, rec), if i < |rows| then ledger[i] + [Folded(rec)] else [Folded(rec)])
  {
    var i, row := Target(rows, tenant, rec), Landed(rows, tenant, rec);
    if i == |rows| {
      FirstIsTold(row, rec);
    } else {
      assert row.groupKey == RecordKey(rec);
      FoldIsTold(rows[i], ledger[i], row, rec);
    }
  }

  lemma PlacedIsTold(rows: seq<Row>, ledger: Ledger, s: Step)
    requires Balanced(rows, ledger) && Place(rows, s).Some?
    requires Accepted(s) ==> Detected(s.tenant, s.rec)
    ensures var i := Place(rows, s).value;
      Tells(Placed(rows, s), if i < |rows| then ledger[i] + DeedsOf(rows, s) else DeedsOf(rows, s))
  {
    var i, row := Place(rows, s).value, Placed(rows, s);
    if s.Write? {
      LandedIsTold(rows, ledger, s.tenant, s.rec);
    } else if s.Note? {
      EntryIsTold(rows[i], ledger[i], row, s.entry);
    } else if s.Start? && rows[i].rec.state.Pending? {
      EntryIsTold(rows[i], ledger[i], row, AgentRun(s.runId, s.workflowId));
    } else {
      assert ledger[i] + [] == ledger[i];
    }
  }

  function TotalOccurrences(rows: seq<Row>): int {
    if rows == [] then 0 else TotalOccurrences(rows[..|rows| - 1]) + rows[|rows| - 1].rec.occurrences
  }

  function Writes(steps: seq<Step>): nat {
    if steps == [] then 0 else Writes(steps[..|steps| - 1]) + if Accepted(steps[|steps| - 1]) then 1 else 0
  }

  lemma {:induction false} TotalWith(rows: seq<Row>, after: seq<Row>, i: nat, row: Row)
    requires OnlyAt(rows, after, i, row)
    ensures TotalOccurrences(after) ==
            TotalOccurrences(rows) + row.rec.occurrences - (if i < |rows| then rows[i].rec.occurrences else 0)
    decreases |rows|
  {
    var n := |after| - 1;
    if i == n {
      assert after[..n] == rows[..n];
      assert i == |rows| ==> rows[..n] == rows;
    } else {
      TotalWith(rows[..n], after[..n], i, row);
    }
  }

  /** After any run every row is exactly what its ledger says, and all occurrences add up to the writes made. */
  lemma {:induction false} RunIsAccounted(steps: seq<Step>)
    requires ProperRun(steps)
    ensures Balanced(After(steps), LedgerOf(steps))
    ensures TotalOccurrences(After(steps)) == Writes(steps)
  {
    if steps != [] {
      var before, s := steps[..|steps| - 1], steps[|steps| - 1];
      var rows := After(before);
      RunIsAccounted(before);
      RunIsSound(before);
      StepIsTold(rows, LedgerOf(before), s, UsedIds(before));
      StepIsCounted(rows, s, UsedIds(before));
    }
  }

  /** What the operation places, and nothing else about it. */
  lemma StepPlaces(rows: seq<Row>, s: Step, used: set<string>)
    requires Sound(rows) && IdsAmong(rows, used) && Proper(s, used)
    ensures var i := Place(rows, s);
      if i.None? then Apply(rows, s) == rows else OnlyAt(rows, Apply(rows, s), i.value, Placed(rows, s))
  {
    ApplyPlacesOneRow(rows, s, used);
  }

  lemma StepIsTold(rows: seq<Row>, ledger: Ledger, s: Step, used: set<string>)
    requires Sound(rows) && IdsAmong(rows, used) && Proper(s, used) && Balanced(rows, ledger)
    ensures Balanced(Apply(rows, s), Recorded(ledger, rows, s))
  {
    StepPlaces(rows, s, used);
    if Place(rows, s).Some? {
      PlacedIsTold(rows, ledger, s);
      PlaceIsBalanced(rows, ledger, s);
    }
  }

  lemma PlaceIsBalanced(rows: seq<Row>, ledger: Ledger, s: Step)
    requires Balanced(rows, ledger) && Place(rows, s).Some?
    requires var i := Place(rows, s).value;
      Tells(Placed(rows, s), if i < |rows| then ledger[i] + DeedsOf(rows, s) else DeedsOf(rows, s))
    requires OnlyAt(rows, Apply(rows, s), Place(rows, s).value, Placed(rows, s))
    ensures Balanced(Apply(rows, s), Recorded(ledger, rows, s))
  {
    var i, row, deeds := Place(rows, s).value, Placed(rows, s), DeedsOf(rows, s);
    BalancedWith(rows, ledger, i, row, if i < |rows| then ledger[i] + deeds else deeds);
  }

  lemma BalancedWith(rows: seq<Row>, ledger: Ledger, i: nat, row: Row, deeds: seq<Deed>)
    requires Balanced(rows, ledger) && i <= |rows| && Tells(row, deeds)
    ensures i < |rows| ==> Balanced(rows[i := row], ledger[i := deeds])
    ensures i == |rows| ==> Balanced(rows + [row], ledger + [deeds])
  {
  }

  lemma StepIsCounted(rows: seq<Row>, s: Step, used: set<string>)
    requires Sound(rows) && IdsAmong(rows, used) && Proper(s, used)
    ensures TotalOccurrences(Apply(rows, s)) == TotalOccurrences(rows) + if Accepted(s) then 1 else 0
  {
    StepPlaces(rows, s, used);
    if Place(rows, s).Some? {
      TotalWith(rows, Apply(rows, s), Place(rows, s).value, Placed(rows, s));
    }
  }

  // ---- The life of a row ----

  /** What any later state of a row has in common with an earlier one. */
  predicate Evolves(a: Row, b: Row) {
    && a.rec.recordId == b.rec.recordId && a.rec.tenantId == b.rec.tenantId
    && a.rec.domain == b.rec.domain && a.rec.detectedAt == b.rec.detectedAt
    && a.rec.evidence <= b.rec.evidence
    && a.rec.occurrences <= b.rec.occurrences && Rank(a.rec.severity) <= Rank(b.rec.severity)
    && (b.rec.state.Pending? ==> a.rec.state.Pending?)
    && (IsOpen(b.rec.state) ==> IsOpen(a.rec.state))
    && (!IsOpen(a.rec.state) ==> SameFinding(a, b))
  }

  /** Equal in everything but state, reason and evidence. */
  predicate SameFinding(a: Row, b: Row) {
    a == Row(b.groupKey, b.rec.(state := a.rec.state, resolveReason := a.rec.resolveReason, evidence := a.rec.evidence))
  }

  lemma PlacedEvolves(rows: seq<Row>, s: Step)
    requires Place(rows, s).Some? && Place(rows, s).value < |rows|
    requires s.Write? ==> IsOpen(rows[Place(rows, s).value].rec.state)
    requires s.End? ==> !IsOpen(s.state)
    ensures Evolves(rows[Place(rows, s).value], Placed(rows, s))
  {
  }

  lemma StepEvolves(rows: seq<Row>, s: Step, used: set<string>, i: nat)
    requires Sound(rows) && IdsAmong(rows, used) && Proper(s, used) && i < |rows|
    ensures i < |Apply(rows, s)| && Evolves(rows[i], Apply(rows, s)[i])
    ensures s.Write? && !IsOpen(rows[i].rec.state) ==> Apply(rows, s)[i] == rows[i]
  {
    ApplyPlacesOneRow(rows, s, used);
    if Place(rows, s) == Some(i) {
      PlacedEvolves(rows, s);
    }
  }

  /** From any point of a run to its end: evidence grows by suffix, final rows never reopen and keep their findings. */
  lemma {:induction false} RunEvolves(steps: seq<Step>, k: nat, i: nat)
    requires ProperRun(steps) && k <= |steps| && i < |After(steps[..k])|
    ensures i < |After(steps)| && Evolves(After(steps[..k])[i], After(steps)[i])
    decreases |steps|
  {
    if k == |steps| {
      assert steps[..k] == steps;
    } else {
      var before := steps[..|steps| - 1];
      assert before[..k] == steps[..k];
      RunEvolves(before, k, i);
      RunIsSound(before);
      StepEvolves(After(before), steps[|steps| - 1], UsedIds(before), i);
    }
  }

  ghost predicate HasRun(evidence: seq<Entry>) {
    exists k :: 0 <= k < |evidence| && evidence[k].AgentRun?
  }

  ghost predicate RunsRecorded(rows: seq<Row>) {
    forall i :: 0 <= i < |rows| && rows[i].rec.state.InProgress? ==> HasRun(rows[i].rec.evidence)
  }

  lemma HasRunGrows(a: seq<Entry>, b: seq<Entry>)
    requires HasRun(a) && a <= b
    ensures HasRun(b)
  {
    var k :| 0 <= k < |a| && a[k].AgentRun?;
    assert b[k] == a[k];
  }

  lemma StepRecordsRuns(rows: seq<Row>, s: Step, used: set<string>)
    requires Sound(rows) && IdsAmong(rows, used) && Proper(s, used) && RunsRecorded(rows)
    ensures RunsRecorded(Apply(rows, s))
  {
    var after := Apply(rows, s);
    ApplyPlacesOneRow(rows, s, used);
    forall i | 0 <= i < |after| && after[i].rec.state.InProgress? ensures HasRun(after[i].rec.evidence) {
      if i < |rows| {
        StepEvolves(rows, s, used, i);
        if rows[i].rec.state.InProgress? {
          HasRunGrows(rows[i].rec.evidence, after[i].rec.evidence);
        } else {
          assert after[i].rec.evidence[|rows[i].rec.evidence|].AgentRun?;
        }
      }
    }
  }

  /** In progress implies an agent run on file. */
  lemma {:induction false} RunRecordsRuns(steps: seq<Step>)
    requires ProperRun(steps)
    ensures RunsRecorded(After(steps))
  {
    if steps != [] {
      var before := steps[..|steps| - 1];
      RunRecordsRuns(before);
      RunIsSound(before);
      StepRecordsRuns(After(before), steps[|steps| - 1], UsedIds(before));
    }
  }

  predicate NamedTenants(rows: seq<Row>) {
    forall i :: 0 <= i < |rows| ==> rows[i].rec.tenantId != ""
  }

  lemma StepNamesTenants(rows: seq<Row>, s: Step, used: set<string>)
    requires Sound(rows) && IdsAmong(rows, used) && Proper(s, used) && NamedTenants(rows)
    ensures NamedTenants(Apply(rows, s))
  {
    var after := Apply(rows, s);
    ApplyPlacesOneRow(rows, s, used);
    forall i: nat | i < |after| ensures after[i].rec.tenantId != "" {
      if i < |rows| {
        StepEvolves(rows, s, used, i);
      }
    }
  }

  lemma {:induction false} ProperRunNamesTenants(steps: seq<Step>)
    requires ProperRun(steps)
    ensures NamedTenants(After(steps))
  {
    if steps != [] {
      var before := steps[..|steps| - 1];
      ProperRunNamesTenants(before);
      RunIsSound(before);
      StepNamesTenants(After(before), steps[|steps| - 1], UsedIds(before));
    }
  }

  // ---- Uniqueness over runs ----

  /** No write of the run clashes at the point where it is made. */
  predicate ClashFree(steps: seq<Step>) {
    steps == [] ||
    var before, s := steps[..|steps| - 1], steps[|steps| - 1];
    ClashFree(before) && !(Accepted(s) && Clashes(After(before), s.tenant, s.rec))
  }

  /** Open keys are unique at every point of the run. */
  predicate AlwaysUnique(steps: seq<Step>) {
    UniqueOpen(After(steps)) && (steps == [] || AlwaysUnique(steps[..|steps| - 1]))
  }

  lemma OtherStepsKeepUnique(rows: seq<Row>, s: Step, used: set<string>)
    requires Sound(rows) && IdsAmong(rows, used) && Proper(s, used) && UniqueOpen(rows) && !Accepted(s)
    ensures UniqueOpen(Apply(rows, s))
  {
    ApplyPlacesOneRow(rows, s, used);
    var at := Place(rows, s);
    if at.Some? {
      var i, row := at.value, Placed(rows, s);
      assert forall j :: 0 <= j < |rows| && SameOpenKey(rows[j], row) ==>
                           SameOpenKey(rows[j], rows[i]) && SameOpenKey(rows[i], rows[j]);
      UniqueWith(rows, Apply(rows, s), i, row);
    }
  }

  /** Open keys stay unique throughout a run exactly when none of its writes clashes. */
  lemma {:induction false} AlwaysUniqueIffClashFree(steps: seq<Step>)
    requires ProperRun(steps)
    ensures AlwaysUnique(steps) <==> ClashFree(steps)
  {
    if steps != [] {
      var before := steps[..|steps| - 1];
      AlwaysUniqueIffClashFree(before);
      RunIsSound(before);
      if AlwaysUnique(before) {
        StepKeepsUniqueIffNoClash(After(before), steps[|steps| - 1], UsedIds(before));
      }
    }
  }

  lemma StepKeepsUniqueIffNoClash(rows: seq<Row>, s: Step, used: set<string>)
    requires Sound(rows) && IdsAmong(rows, used) && Proper(s, used) && UniqueOpen(rows)
    ensures UniqueOpen(Apply(rows, s)) <==> !(Accepted(s) && Clashes(rows, s.tenant, s.rec))
  {
    if Accepted(s) {
      assert FreshId(rows, s.rec.recordId);
      WriteKeepsUniqueIffNoClash(rows, s.tenant, s.rec);
    } else {
      OtherStepsKeepUnique(rows, s, used);
    }
  }

  function AfterExactFirst(steps: seq<Step>): seq<Row> {
    if steps == [] then []
    else
      var rows, s := AfterExactFirst(steps[..|steps| - 1]), steps[|steps| - 1];
      if Accepted(s) then WrittenExactFirst(rows, s.tenant, s.rec) else Apply(rows, s)
  }

  /** Looking for the exact key first keeps open keys unique on every run. */
  lemma {:induction false} ExactFirstIsAlwaysUnique(steps: seq<Step>)
    requires ProperRun(steps)
    ensures Sound(AfterExactFirst(steps)) && UniqueOpen(AfterExactFirst(steps))
    ensures IdsAmong(AfterExactFirst(steps), UsedIds(steps))
  {
    if steps != [] {
      var before, s := steps[..|steps| - 1], steps[|steps| - 1];
      var rows := AfterExactFirst(before);
      ExactFirstIsAlwaysUnique(before);
      if Accepted(s) {
        assert FreshId(rows, s.rec.recordId);
        ExactFirstKeepsUnique(rows, s.tenant, s.rec);
        ApplyPlacesOneRow(rows, s, UsedIds(before));
      } else {
        OtherStepsKeepUnique(rows, s, UsedIds(before));
        ApplyPlacesOneRow(rows, s, UsedIds(before));
      }
    }
  }
}
