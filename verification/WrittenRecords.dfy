/** What the record of a group says: when, what, how bad and on which evidence, told by the group and the rounds before. */
module WrittenRecords {
  import opened Anomalies
  import opened Verify
  import opened Services
  import opened Pipeline
  import opened PipelineLaws
  import opened Outcomes
  import DS = DetectionState
  import R = Records
  import Text

  // ---- Severity ----

  /** With its appearances in all earlier rounds, the i-th member has appeared often enough at its turn. */
  predicate PersistsBy(ctx: Context, history: seq<DS.Round>, group: seq<Anomaly>, i: nat)
    requires i < |group|
  {
    DS.Total(history, SlotOf(ctx, group[i])) + Occurrence(group, i) >= ctx.config.persistenceRounds
  }

  function PersistFlags(ctx: Context, history: seq<DS.Round>, group: seq<Anomaly>): seq<bool> {
    seq(|group|, i requires 0 <= i < |group| => PersistsBy(ctx, history, group, i))
  }

  /** The severity that the given members of a group call for under the rates on file. */
  predicate Calls(ctx: Context, group: seq<Anomaly>, persisted: seq<Anomaly>, severity: string) {
    Graded(ctx.config, ctx.rates, R.GroupKey(ctx.tenant, ctx.domain, RepresentativeService(group), multiset(Keys(persisted))),
           persisted, ctx.related(group), severity)
  }

  /** The severity called for by exactly the members that persist. */
  ghost predicate GradedGroup(ctx: Context, history: seq<DS.Round>, group: seq<Anomaly>, severity: string) {
    exists persisted, at ::
      Picks(group, PersistFlags(ctx, history, group), persisted, at) && Calls(ctx, group, persisted, severity)
  }

  lemma FlagsAreTurns(ctx: Context, states: DS.Rows, history: seq<DS.Round>, group: seq<Anomaly>)
    requires DS.Reflects(states, history)
    ensures Turns(states, ctx.tenant, ctx.domain, ctx.config.persistenceRounds, group) == PersistFlags(ctx, history, group)
  {
    var turns, flags := Turns(states, ctx.tenant, ctx.domain, ctx.config.persistenceRounds, group), PersistFlags(ctx, history, group);
    forall i: nat | i < |group| ensures turns[i] == flags[i] {
      assert DS.ReflectsSlot(states, history, SlotOf(ctx, group[i]));
    }
  }

  /** A group that passes is graded by the rate on file under the key of the members that persisted. */
  lemma JudgedIsGraded(ctx: Context, states: DS.Rows, history: seq<DS.Round>, group: seq<Anomaly>)
    requires DS.Reflects(states, history)
    ensures Judged(ctx, states, group).passed ==> GradedGroup(ctx, history, group, Judged(ctx, states, group).severity)
  {
    var persisted := Persisted(states, ctx.tenant, ctx.domain, ctx.config.persistenceRounds, group);
    FlagsAreTurns(ctx, states, history, group);
    var at := WherePicks(group, PersistFlags(ctx, history, group));
    VerdictIsGraded(ctx.config, ctx.rates, RateKey(ctx.tenant, ctx.domain, RepresentativeService(group), persisted), persisted,
                    ctx.related(group));
  }

  // ---- Findings ----

  function MetricFlags(group: seq<Anomaly>): seq<bool> {
    seq(|group|, i requires 0 <= i < |group| => group[i].Metric?)
  }

  function LogFlags(group: seq<Anomaly>): seq<bool> {
    seq(|group|, i requires 0 <= i < |group| => group[i].Log?)
  }

  /** The metrics are those of the group, the logs those of the group, in the group's order. */
  ghost predicate SortedByKind(group: seq<Anomaly>, metrics: seq<Anomaly>, logs: seq<Anomaly>) {
    (exists at :: Picks(group, MetricFlags(group), metrics, at)) && (exists at :: Picks(group, LogFlags(group), logs, at))
  }

  lemma {:induction false} MetricsAreWhere(group: seq<Anomaly>)
    ensures Metrics(group) == Where(group, MetricFlags(group))
  {
    if group != [] {
      var n: nat := |group| - 1;
      MetricsAreWhere(group[..n]);
      assert MetricFlags(group)[..n] == MetricFlags(group[..n]);
      MetricsOfLast(group, n);
    }
  }

  lemma {:induction false} MetricsOfLast(group: seq<Anomaly>, n: nat)
    requires |group| == n + 1
    ensures Metrics(group) == Metrics(group[..n]) + if group[n].Metric? then [group[n]] else []
  {
    if n == 0 {
      assert group[1..] == [] && group[..0] == [];
    } else {
      MetricsOfLast(group[1..], n - 1);
      assert group[1..][..n - 1] == group[..n][1..];
    }
  }

  lemma {:induction false} LogsAreWhere(group: seq<Anomaly>)
    ensures Logs(group) == Where(group, LogFlags(group))
  {
    if group != [] {
      var n: nat := |group| - 1;
      LogsAreWhere(group[..n]);
      assert LogFlags(group)[..n] == LogFlags(group[..n]);
      LogsOfLast(group, n);
    }
  }

  lemma {:induction false} LogsOfLast(group: seq<Anomaly>, n: nat)
    requires |group| == n + 1
    ensures Logs(group) == Logs(group[..n]) + if group[n].Log? then [group[n]] else []
  {
    if n == 0 {
      assert group[1..] == [] && group[..0] == [];
    } else {
      LogsOfLast(group[1..], n - 1);
      assert group[1..][..n - 1] == group[..n][1..];
    }
  }

  lemma KindsAreSorted(group: seq<Anomaly>)
    ensures SortedByKind(group, Metrics(group), Logs(group))
  {
    MetricsAreWhere(group);
    LogsAreWhere(group);
    var m := WherePicks(group, MetricFlags(group));
    var l := WherePicks(group, LogFlags(group));
  }

  // ---- Evidence ----

  /** Some log of the group carries the trace id. */
  predicate Traced(group: seq<Anomaly>, id: string) {
    exists i :: 0 <= i < |group| && group[i].Log? && id in group[i].traceIds
  }

  /** Exactly the trace ids of the group's logs, once each. */
  ghost predicate TracesOf(group: seq<Anomaly>, ids: seq<string>) {
    && (forall id :: id in ids <==> Traced(group, id))
    && (forall i, j :: 0 <= i < j < |ids| ==> ids[i] != ids[j])
  }

  /** The degraded sources of the round, if any, then the traces of the group's logs, if any. */
  ghost predicate EvidenceOf(ctx: Context, group: seq<Anomaly>, evidence: seq<R.Entry>) {
    exists ids :: TracesOf(group, ids) && evidence ==
      (if ctx.degraded == [] then [] else [R.Degraded(ctx.roundId, ctx.degraded)])
      + if ids == [] then [] else [R.LogTraces(ctx.roundId, ctx.targetIds, ids)]
  }

  lemma {:induction false} AllTracesAreTraced(group: seq<Anomaly>, id: string)
    requires forall i :: 0 <= i < |group| ==> group[i].Log?
    ensures id in AllTraceIds(group) <==> Traced(group, id)
  {
    if group != [] {
      var n := |group| - 1;
      AllTracesAreTraced(group[..n], id);
      if Traced(group[..n], id) {
        var i :| 0 <= i < n && group[..n][i].Log? && id in group[..n][i].traceIds;
        assert group[i].Log? && id in group[i].traceIds;
      }
      if i :| 0 <= i < |group| && group[i].Log? && id in group[i].traceIds {
        assert i < n ==> group[..n][i] == group[i];
      }
    }
  }

  lemma LogsAreTraced(group: seq<Anomaly>, id: string)
    ensures Traced(Logs(group), id) <==> Traced(group, id)
  {
    LogsAreWhere(group);
    var at := WherePicks(group, LogFlags(group));
    var logs := Logs(group);
    if i: nat :| i < |group| && group[i].Log? && id in group[i].traceIds {
      assert LogFlags(group)[i];
      var p :| 0 <= p < |at| && at[p] == i;
      assert logs[p] == group[i];
    }
    if p: nat :| p < |logs| && logs[p].Log? && id in logs[p].traceIds {
      assert group[at[p]] == logs[p];
    }
  }

  lemma EvidenceIsTold(ctx: Context, group: seq<Anomaly>)
    ensures EvidenceOf(ctx, group, Evidence(ctx, group))
  {
    LogsAreLogs(group);
    var all := AllTraceIds(Logs(group));
    var ids := FirstOccurrences(all);
    FirstOccurrencesAreDistinct(all);
    forall id ensures id in ids <==> Traced(group, id) {
      AllTracesAreTraced(Logs(group), id);
      LogsAreTraced(group, id);
    }
    assert TracesOf(group, ids);
  }

  // ---- The whole record ----

  /** The record of a group, field by field; only its number is left open. */
  ghost predicate Tells(ctx: Context, history: seq<DS.Round>, group: seq<Anomaly>, rec: R.Record) {
    && rec.tenantId == ctx.tenant && rec.domain == ctx.domain && rec.state == R.Pending && rec.resolveReason == None
    && rec.detectedAt == ctx.now && rec.lastSeenAt == Some(ctx.now) && rec.occurrences == 1
    && rec.service == Text.JoinWith(GroupServices(group), ",") && rec.groupKeyService == RepresentativeService(group)
    && SortedByKind(group, rec.metrics, rec.logs)
    && EvidenceOf(ctx, group, rec.evidence)
    && GradedGroup(ctx, history, group, rec.severity)
  }

  lemma AssembledTells(ctx: Context, states: DS.Rows, history: seq<DS.Round>, group: seq<Anomaly>, id: string)
    requires DS.Reflects(states, history) && Judged(ctx, states, group).passed
    ensures Tells(ctx, history, group, Assembled(ctx, id, group, Judged(ctx, states, group).severity))
  {
    JudgedIsGraded(ctx, states, history, group);
    KindsAreSorted(group);
    EvidenceIsTold(ctx, group);
  }

  /** Each passing group is graded by the counts before the round. */
  lemma {:induction false} PassingIsJudged(ctx: Context, states: DS.Rows, groups: seq<seq<Anomaly>>, k: nat)
    requires k < |Passing(ctx, states, groups)|
    ensures var p, v := Passing(ctx, states, groups)[k], Judged(ctx, states, Passing(ctx, states, groups)[k].group);
      v.passed && v.severity == p.severity
  {
    var n := |groups| - 1;
    if k < |Passing(ctx, states, groups[..n])| {
      PassingIsJudged(ctx, states, groups[..n], k);
    }
  }

  /** Every record of a round tells its group. */
  lemma RecordsTell(ctx: Context, states: DS.Rows, history: seq<DS.Round>, groups: seq<seq<Anomaly>>, recs: seq<R.Record>, k: nat)
    requires DS.Reflects(states, history) && OneRecordEach(ctx, recs, Passing(ctx, states, groups)) && k < |recs|
    ensures Tells(ctx, history, Passing(ctx, states, groups)[k].group, recs[k])
  {
    var p := Passing(ctx, states, groups)[k];
    PassingIsJudged(ctx, states, groups, k);
    assert RecordsGroup(ctx, recs[k], p);
    AssembledTells(ctx, states, history, p.group, recs[k].recordId);
  }
}
