/** What a round's emissions mean: when a group opens a record, under which keys, and what the store then holds. */
module PipelineLaws {
  import opened Anomalies
  import opened GroupingRules
  import opened GroupCounts
  import opened Verify
  import opened Services
  import opened Sequences
  import opened Pipeline
  import DS = DetectionState
  import R = Records
  import opened RecordRuns
  import opened RecordHistories

  function SlotOf(ctx: Context, a: Anomaly): DS.Slot {
    (ctx.tenant, ctx.domain, AnomalyKey(a))
  }

  // ---- When a group emits ----

  /** Counting this round, the i-th anomaly has appeared often enough over the whole history. */
  predicate TotalReached(ctx: Context, history: seq<DS.Round>, round: seq<Anomaly>, i: nat)
    requires i < |round|
  {
    DS.Total(history + [RoundOf(ctx.tenant, ctx.domain, ctx.now, round)], SlotOf(ctx, round[i])) >= ctx.config.persistenceRounds
  }

  lemma ReachesIffTotal(ctx: Context, states: DS.Rows, history: seq<DS.Round>, round: seq<Anomaly>, groups: seq<seq<nat>>,
                        g: nat, k: nat)
    requires DS.Reflects(states, history) && IsGrouping(round, groups) && g < |groups| && Within(round, groups[g])
    requires k < |groups[g]|
    ensures Reaches(states, ctx.tenant, ctx.domain, ctx.config.persistenceRounds, Members(round, groups[g]), k) <==>
            TotalReached(ctx, history, round, groups[g][k])
  {
    var slot := SlotOf(ctx, round[groups[g][k]]);
    KeyStaysInItsGroup(round, groups, g, groups[g][k]);
    assert DS.ReflectsSlot(states, history, slot);
    var h := history + [RoundOf(ctx.tenant, ctx.domain, ctx.now, round)];
    assert h[..|h| - 1] == history;
  }

  /** A group opens or feeds a record exactly when some member's running total reaches the required number of rounds. */
  lemma EmitsIffTotalReached(ctx: Context, states: DS.Rows, history: seq<DS.Round>, round: seq<Anomaly>,
                             groups: seq<seq<nat>>, g: nat)
    requires DS.Reflects(states, history) && IsGrouping(round, groups) && g < |groups| && Within(round, groups[g])
    ensures Judged(ctx, states, Members(round, groups[g])).passed <==>
            exists k: nat :: k < |groups[g]| && TotalReached(ctx, history, round, groups[g][k])
  {
    var group, needed := Members(round, groups[g]), ctx.config.persistenceRounds;
    PassesIffTotalReached(states, ctx.tenant, ctx.domain, needed, group);
    if k: nat :| k < |group| && Reaches(states, ctx.tenant, ctx.domain, needed, group, k) {
      ReachesIffTotal(ctx, states, history, round, groups, g, k);
    }
    if k: nat :| k < |groups[g]| && TotalReached(ctx, history, round, groups[g][k]) {
      ReachesIffTotal(ctx, states, history, round, groups, g, k);
    }
  }

  // ---- Under which keys ----

  /** The service part of a record's key: the representative, or the joined names when that is empty. */
  function KeyService(group: seq<Anomaly>): string {
    if RepresentativeService(group) != "" then RepresentativeService(group) else DisplayName(group)
  }

  lemma AssembledKey(ctx: Context, id: string, group: seq<Anomaly>, severity: string)
    ensures R.RecordKey(Assembled(ctx, id, group, severity)) ==
            R.GroupKey(ctx.tenant, ctx.domain, KeyService(group), multiset(Keys(group)))
  {
    KindsKeepKeys(group);
  }

  /** Every member counts as persisted. */
  predicate AllPersist(ctx: Context, states: DS.Rows, group: seq<Anomaly>) {
    forall i: nat :: i < |group| ==> Persists(states, ctx.tenant, ctx.domain, ctx.config.persistenceRounds, group, i)
  }

  lemma {:induction false} WhereBag(group: seq<Anomaly>, flags: seq<bool>)
    requires |flags| == |group|
    ensures |Keys(Where(group, flags))| == |Where(group, flags)| && |Keys(group)| == |group|
    ensures multiset(Keys(Where(group, flags))) == multiset(Keys(group)) <==> forall i :: 0 <= i < |flags| ==> flags[i]
  {
    WhereCounts(group, flags);
    assert |multiset(Keys(Where(group, flags)))| == |Where(group, flags)| && |multiset(Keys(group))| == |group|;
  }

  /** The representative name is the service part of the record key, because it is not empty or no other name is there. */
  predicate NamesItsKey(group: seq<Anomaly>) {
    RepresentativeService(group) != "" || DisplayName(group) == ""
  }

  /**
   * The rate is looked up under the key that the record is stored under, and that a later verdict is booked on,
   * exactly when all members persisted and the representative does not yield to other names.
   */
  lemma RateKeyIsRecordKeyIff(ctx: Context, states: DS.Rows, group: seq<Anomaly>, rows: seq<R.Row>, rec: R.Record)
    requires rec == Assembled(ctx, rec.recordId, group, rec.severity)
    requires Sound(rows) && ctx.tenant != "" && FreshId(rows, rec.recordId)
    ensures var persisted := Persisted(states, ctx.tenant, ctx.domain, ctx.config.persistenceRounds, group);
      Landed(rows, ctx.tenant, rec).groupKey == RateKey(ctx.tenant, ctx.domain, RepresentativeService(group), persisted) <==>
      AllPersist(ctx, states, group) && NamesItsKey(group)
  {
    StoredUnderRecordKey(ctx, group, rows, rec);
    PersistedBag(ctx, states, group);
  }

  lemma StoredUnderRecordKey(ctx: Context, group: seq<Anomaly>, rows: seq<R.Row>, rec: R.Record)
    requires rec == Assembled(ctx, rec.recordId, group, rec.severity)
    requires Sound(rows) && ctx.tenant != "" && FreshId(rows, rec.recordId)
    ensures Landed(rows, ctx.tenant, rec).groupKey ==
            R.GroupKey(ctx.tenant, ctx.domain, KeyService(group), multiset(Keys(group)))
  {
    AssembledKey(ctx, rec.recordId, group, rec.severity);
    WriteTouchesOneRow(rows, ctx.tenant, rec);
  }

  lemma PersistedBag(ctx: Context, states: DS.Rows, group: seq<Anomaly>)
    ensures var persisted := Persisted(states, ctx.tenant, ctx.domain, ctx.config.persistenceRounds, group);
      multiset(Keys(persisted)) == multiset(Keys(group)) <==> AllPersist(ctx, states, group)
  {
    var turns := Turns(states, ctx.tenant, ctx.domain, ctx.config.persistenceRounds, group);
    WhereBag(group, turns);
    assert forall i: nat :: i < |group| ==>
      (turns[i] <==> Persists(states, ctx.tenant, ctx.domain, ctx.config.persistenceRounds, group, i));
  }

  /** A group that passes with a member not persisted reads its rate under a key that no verdict on its record is booked on. */
  lemma PartlyPersistedReadsAnotherKey(ctx: Context, states: DS.Rows, group: seq<Anomaly>, rows: seq<R.Row>, rec: R.Record, i: nat, j: nat)
    requires rec == Assembled(ctx, rec.recordId, group, rec.severity)
    requires Sound(rows) && ctx.tenant != "" && FreshId(rows, rec.recordId) && i < |group| && j < |group|
    requires Persists(states, ctx.tenant, ctx.domain, ctx.config.persistenceRounds, group, i)
    requires !Persists(states, ctx.tenant, ctx.domain, ctx.config.persistenceRounds, group, j)
    ensures Judged(ctx, states, group).passed
    ensures var persisted := Persisted(states, ctx.tenant, ctx.domain, ctx.config.persistenceRounds, group);
      Landed(rows, ctx.tenant, rec).groupKey != RateKey(ctx.tenant, ctx.domain, RepresentativeService(group), persisted)
  {
    RateKeyIsRecordKeyIff(ctx, states, group, rows, rec);
    var turns := Turns(states, ctx.tenant, ctx.domain, ctx.config.persistenceRounds, group);
    assert turns[i];
    WhereCounts(group, turns);
  }

  /** Such groups exist for every threshold: an anomaly that has just reached it beside one that is still short of it. */
  lemma OnePersistedOneNot(ctx: Context, states: DS.Rows, a: Anomaly, b: Anomaly)
    requires AnomalyKey(a) != AnomalyKey(b)
    requires Prior(states, SlotOf(ctx, a)) + 1 >= ctx.config.persistenceRounds > Prior(states, SlotOf(ctx, b)) + 1
    ensures Persists(states, ctx.tenant, ctx.domain, ctx.config.persistenceRounds, [a, b], 0)
    ensures !Persists(states, ctx.tenant, ctx.domain, ctx.config.persistenceRounds, [a, b], 1)
  {
    var group := [a, b];
    assert Keys(group[..1]) == [AnomalyKey(a)] && Keys(group[..2]) == [AnomalyKey(a), AnomalyKey(b)];
  }

  /** With at most one required round, every member persists. */
  lemma OneRoundPersistsAll(ctx: Context, states: DS.Rows, history: seq<DS.Round>, group: seq<Anomaly>)
    requires DS.Reflects(states, history) && ctx.config.persistenceRounds <= 1
    ensures AllPersist(ctx, states, group)
  {
    forall i: nat | i < |group|
      ensures Persists(states, ctx.tenant, ctx.domain, ctx.config.persistenceRounds, group, i)
    {
      OccurrenceIsPart(group, i);
      assert DS.ReflectsSlot(states, history, SlotOf(ctx, group[i]));
    }
  }

  // ---- What is emitted ----

  datatype Passed = Passed(group: seq<Anomaly>, severity: string)

  /** The groups that pass, with their severities, in order. */
  function Passing(ctx: Context, states: DS.Rows, groups: seq<seq<Anomaly>>): seq<Passed> {
    if groups == [] then []
    else
      var n := |groups| - 1;
      var v := Judged(ctx, states, groups[n]);
      Passing(ctx, states, groups[..n]) + if v.passed then [Passed(groups[n], v.severity)] else []
  }

  /** The record of this group at this severity; only its number is left open. */
  predicate RecordsGroup(ctx: Context, rec: R.Record, p: Passed) {
    rec == Assembled(ctx, rec.recordId, p.group, p.severity)
  }

  ghost predicate OneRecordEach(ctx: Context, recs: seq<R.Record>, passing: seq<Passed>) {
    |recs| == |passing| && forall k :: 0 <= k < |recs| ==> RecordsGroup(ctx, recs[k], passing[k])
  }

  lemma OneMoreRecord(ctx: Context, recs: seq<R.Record>, passing: seq<Passed>, rec: R.Record, p: Passed)
    requires OneRecordEach(ctx, recs, passing) && RecordsGroup(ctx, rec, p)
    ensures OneRecordEach(ctx, recs + [rec], passing + [p])
  {
  }

  /** Exactly one record for each passing group, in order, with that group's anomalies and severity. */
  lemma {:induction false} OneRecordPerPassingGroup(ctx: Context, states: DS.Rows, start: Output, groups: seq<seq<Anomaly>>)
    requires start.emitted == []
    ensures OneRecordEach(ctx, Emissions(ctx, states, start, groups).emitted, Passing(ctx, states, groups))
  {
    if groups != [] {
      var n := |groups| - 1;
      OneRecordPerPassingGroup(ctx, states, start, groups[..n]);
      var so, v := Emissions(ctx, states, start, groups[..n]), Judged(ctx, states, groups[n]);
      OneMoreRecord(ctx, so.emitted, Passing(ctx, states, groups[..n]),
                    Assembled(ctx, NextId(so.next, ctx.days(n)), groups[n], v.severity), Passed(groups[n], v.severity));
    }
  }

  function WriteSteps(tenant: string, recs: seq<R.Record>): seq<Step> {
    seq(|recs|, i requires 0 <= i < |recs| => Write(tenant, recs[i]))
  }

  /** Every id was drawn as a record number. */
  ghost predicate IssuedBy(ids: set<string>, next: Counters) {
    forall id :: id in ids ==> Issued(id, next)
  }

  ghost predicate Issued(id: string, next: Counters) {
    exists day: string, n: nat ::
      IsDate(day) && 1 <= n <= Count(next, Prefix(RecordId), day) && id == Label(Prefix(RecordId), day, n)
  }

  lemma NextIdIsNew(ids: set<string>, next: Counters, day: string)
    requires IsDate(day) && IssuedBy(ids, next)
    ensures NextId(next, day) !in ids
    ensures IssuedBy(ids + {NextId(next, day)}, next[(Prefix(RecordId), day) := Count(next, Prefix(RecordId), day) + 1])
  {
    var c := Count(next, Prefix(RecordId), day) + 1;
    var next' := next[(Prefix(RecordId), day) := c];
    if NextId(next, day) in ids {
      var d: string, n: nat :| IsDate(d) && 1 <= n <= Count(next, Prefix(RecordId), d)
                               && NextId(next, day) == Label(Prefix(RecordId), d, n);
      LabelDetermines(RecordId, d, n, RecordId, day, c);
    }
    forall id | id in ids ensures Issued(id, next') {
      assert Issued(id, next);
      var d: string, n: nat :| IsDate(d) && 1 <= n <= Count(next, Prefix(RecordId), d) && id == Label(Prefix(RecordId), d, n);
      assert n <= Count(next', Prefix(RecordId), d);
    }
    assert Issued(NextId(next, day), next') by {
      assert c <= Count(next', Prefix(RecordId), day);
    }
  }

  /** A round's emissions continue the record history by proper writes under unused ids. */
  lemma {:induction false} EmissionsAreProperWrites(ctx: Context, states: DS.Rows, start: Output,
                                                    groups: seq<seq<Anomaly>>, steps: seq<Step>)
    requires ctx.tenant != "" && forall n: nat :: IsDate(ctx.days(n))
    requires start.emitted == [] && start.rows == After(steps) && ProperRun(steps) && IssuedBy(UsedIds(steps), start.next)
    ensures var out := Emissions(ctx, states, start, groups); var steps' := steps + WriteSteps(ctx.tenant, out.emitted);
      out.rows == After(steps') && ProperRun(steps') && IssuedBy(UsedIds(steps'), out.next)
  {
    if groups == [] {
      assert steps + WriteSteps(ctx.tenant, []) == steps;
    } else {
      var n := |groups| - 1;
      EmissionsAreProperWrites(ctx, states, start, groups[..n], steps);
      var so, v := Emissions(ctx, states, start, groups[..n]), Judged(ctx, states, groups[n]);
      if v.passed {
        EmitOneIsProperWrite(ctx, so, ctx.days(n), groups[n], v.severity, steps);
      }
    }
  }

  lemma EmitOneIsProperWrite(ctx: Context, so: Output, day: string, group: seq<Anomaly>, severity: string, steps: seq<Step>)
    requires ctx.tenant != "" && IsDate(day)
    requires var steps' := steps + WriteSteps(ctx.tenant, so.emitted);
      so.rows == After(steps') && ProperRun(steps') && IssuedBy(UsedIds(steps'), so.next)
    ensures var out := EmitOne(ctx, so, day, group, severity); var steps' := steps + WriteSteps(ctx.tenant, out.emitted);
      out.rows == After(steps') && ProperRun(steps') && IssuedBy(UsedIds(steps'), out.next)
  {
    var rec := Assembled(ctx, NextId(so.next, day), group, severity);
    OneMoreWriteStep(ctx.tenant, so.emitted, rec, steps);
    WriteIsProper(steps + WriteSteps(ctx.tenant, so.emitted), ctx.tenant, rec, so.next, day);
  }

  lemma OneMoreWriteStep(tenant: string, recs: seq<R.Record>, rec: R.Record, steps: seq<Step>)
    ensures steps + WriteSteps(tenant, recs + [rec]) == steps + WriteSteps(tenant, recs) + [Write(tenant, rec)]
  {
    assert WriteSteps(tenant, recs + [rec]) == WriteSteps(tenant, recs) + [Write(tenant, rec)];
  }

  lemma WriteIsProper(steps: seq<Step>, tenant: string, rec: R.Record, next: Counters, day: string)
    requires ProperRun(steps) && IssuedBy(UsedIds(steps), next) && IsDate(day)
    requires Detected(tenant, rec) && rec.recordId == NextId(next, day)
    ensures var steps' := steps + [Write(tenant, rec)];
      && After(steps') == R.Written(After(steps), tenant, rec) && ProperRun(steps')
      && IssuedBy(UsedIds(steps'), next[(Prefix(RecordId), day) := Count(next, Prefix(RecordId), day) + 1])
  {
    NextIdIsNew(UsedIds(steps), next, day);
    OneMoreStep(steps, Write(tenant, rec));
  }
}
