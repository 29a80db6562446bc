/** One detection round of a domain, from its anomalies to written records. */
module Pipeline {
  import opened Anomalies
  import opened GroupingRules
  import opened GroupCounts
  import opened Verify
  import opened Services
  import opened Sequences
  import DS = DetectionState
  import R = Records
  import opened Outcomes
  import Grouping
  import Text

  /** What a round is run with. `days` gives the calendar day at which each group's number is drawn. */
  datatype Context = Context(
    tenant: string, domain: string, now: int, roundId: string, degraded: seq<string>, targetIds: seq<string>,
    config: Config, rates: map<R.GroupKey, Rate>, related: seq<Anomaly> -> bool, days: nat -> string)

  // ---- Emission ----

  function Metrics(group: seq<Anomaly>): seq<Anomaly> {
    if group == [] then [] else (if group[0].Metric? then [group[0]] else []) + Metrics(group[1..])
  }

  function Logs(group: seq<Anomaly>): seq<Anomaly> {
    if group == [] then [] else (if group[0].Log? then [group[0]] else []) + Logs(group[1..])
  }

  /** Sorting a group's anomalies by kind loses and invents none. */
  lemma {:induction false} KindsKeepKeys(group: seq<Anomaly>)
    ensures multiset(Keys(Metrics(group) + Logs(group))) == multiset(Keys(group))
  {
    if group != [] {
      var first, rest := [group[0]], group[1..];
      var m, l := Metrics(rest), Logs(rest);
      KindsKeepKeys(rest);
      assert group == first + rest;
      KeysConcat(first, rest);
      KeysConcat(m, l);
      if group[0].Metric? {
        assert Metrics(group) == first + m && Logs(group) == l;
        KeysConcat(first + m, l);
        KeysConcat(first, m);
      } else {
        assert Metrics(group) == m && Logs(group) == first + l;
        KeysConcat(m, first + l);
        KeysConcat(first, l);
      }
    }
  }

  lemma KeysConcat(a: seq<Anomaly>, b: seq<Anomaly>)
    ensures multiset(Keys(a + b)) == multiset(Keys(a)) + multiset(Keys(b))
  {
    assert Keys(a + b) == Keys(a) + Keys(b);
  }

  function FirstOccurrences(ids: seq<string>): seq<string> {
    if ids == [] then []
    else
      var before, id := FirstOccurrences(ids[..|ids| - 1]), ids[|ids| - 1];
      if id in before then before else before + [id]
  }

  function AllTraceIds(logs: seq<Anomaly>): seq<string>
    requires forall i :: 0 <= i < |logs| ==> logs[i].Log?
  {
    if logs == [] then [] else AllTraceIds(logs[..|logs| - 1]) + logs[|logs| - 1].traceIds
  }

  lemma {:induction false} FirstOccurrencesAreDistinct(ids: seq<string>)
    ensures forall x :: x in FirstOccurrences(ids) <==> x in ids
    ensures forall i, j :: 0 <= i < j < |FirstOccurrences(ids)| ==> FirstOccurrences(ids)[i] != FirstOccurrences(ids)[j]
  {
    if ids != [] {
      FirstOccurrencesAreDistinct(ids[..|ids| - 1]);
      assert ids == ids[..|ids| - 1] + [ids[|ids| - 1]];
    }
  }

  method CollectTraceIds(logs: seq<Anomaly>) returns (ids: seq<string>)
    requires forall i :: 0 <= i < |logs| ==> logs[i].Log?
    ensures ids == FirstOccurrences(AllTraceIds(logs))
  {
    ids := [];
    for i := 0 to |logs|
      invariant ids == FirstOccurrences(AllTraceIds(logs[..i]))
    {
      var all := AllTraceIds(logs[..i]);
      var traces := logs[i].traceIds;
      assert all + traces[..0] == all;
      for k := 0 to |traces|
        invariant ids == FirstOccurrences(all + traces[..k])
      {
        assert (all + traces[..k + 1])[..|all| + k] == all + traces[..k];
        if traces[k] !in ids {
          ids := ids + [traces[k]];
        }
      }
      assert traces[..|traces|] == traces;
      assert logs[..i + 1][..i] == logs[..i];
    }
    assert logs[..|logs|] == logs;
  }

  function Evidence(ctx: Context, group: seq<Anomaly>): seq<R.Entry> {
    LogsAreLogs(group);
    var ids := FirstOccurrences(AllTraceIds(Logs(group)));
    (if ctx.degraded != [] then [R.Degraded(ctx.roundId, ctx.degraded)] else [])
    + (if ids != [] then [R.LogTraces(ctx.roundId, ctx.targetIds, ids)] else [])
  }

  method CollectEvidence(ctx: Context, group: seq<Anomaly>) returns (evidence: seq<R.Entry>)
    ensures evidence == Evidence(ctx, group)
  {
    LogsAreLogs(group);
    evidence := [];
    if ctx.degraded != [] {
      evidence := [R.Degraded(ctx.roundId, ctx.degraded)];
    }
    var traces := CollectTraceIds(Logs(group));
    if traces != [] {
      evidence := evidence + [R.LogTraces(ctx.roundId, ctx.targetIds, traces)];
    }
  }

  lemma LogsAreLogs(group: seq<Anomaly>)
    ensures forall i :: 0 <= i < |Logs(group)| ==> Logs(group)[i].Log?
  {
  }

  function DisplayName(group: seq<Anomaly>): string {
    Text.JoinWith(GroupServices(group), ",")
  }

  function Assembled(ctx: Context, id: string, group: seq<Anomaly>, severity: string): R.Record {
    R.Record(id, ctx.tenant, ctx.domain, R.Pending, DisplayName(group), RepresentativeService(group), severity,
             ctx.now, Some(ctx.now), 1, Metrics(group), Logs(group), Evidence(ctx, group), None)
  }

  /** Records emitted, the record rows and the number counters. */
  datatype Output = Output(emitted: seq<R.Record>, rows: seq<R.Row>, next: Counters)

  function NextId(next: Counters, day: string): string {
    Label(Prefix(RecordId), day, Count(next, Prefix(RecordId), day) + 1)
  }

  function EmitOne(ctx: Context, so: Output, day: string, group: seq<Anomaly>, severity: string): Output {
    var n := Count(so.next, Prefix(RecordId), day) + 1;
    var rec := Assembled(ctx, NextId(so.next, day), group, severity);
    Output(so.emitted + [rec], R.Written(so.rows, ctx.tenant, rec), so.next[(Prefix(RecordId), day) := n])
  }

  /** A verified group takes a number and is written; any other leaves no trace. */
  method Emit(ctx: Context, records: R.RecordStore, ids: SequenceStore, day: string, group: seq<Anomaly>, v: Verification)
    returns (emitted: Option<R.Record>)
    requires ctx.tenant != ""
    modifies records, ids
    ensures !v.passed ==> emitted == None && records.rows == old(records.rows) && ids.next == old(ids.next)
    ensures v.passed ==> && emitted.Some?
                         && emitted.value == Assembled(ctx, emitted.value.recordId, group, v.severity)
                         && Issues(old(ids.next), Call(RecordId, day), emitted.value.recordId, ids.next)
                         && records.rows == R.Written(old(records.rows), ctx.tenant, emitted.value)
  {
    if !v.passed { return None; }
    var evidence := CollectEvidence(ctx, group);
    var id := ids.Next(RecordId, day);
    var rec := R.Record(id, ctx.tenant, ctx.domain, R.Pending, DisplayName(group), RepresentativeService(group),
                        v.severity, ctx.now, Some(ctx.now), 1, Metrics(group), Logs(group), evidence, None);
    var _ := records.WriteOrAppend(ctx.tenant, rec);
    emitted := Some(rec);
  }

  lemma EmittedIsEmitOne(ctx: Context, so: Output, day: string, group: seq<Anomaly>, severity: string, rec: R.Record, next: Counters)
    requires rec == Assembled(ctx, rec.recordId, group, severity) && Issues(so.next, Call(RecordId, day), rec.recordId, next)
    ensures Output(so.emitted + [rec], R.Written(so.rows, ctx.tenant, rec), next) == EmitOne(ctx, so, day, group, severity)
  {
  }

  // ---- The round ----

  /** The verdict on a group, judged by the counts that stood when the round began. */
  function Judged(ctx: Context, rows: DS.Rows, group: seq<Anomaly>): Verification {
    var persisted := Persisted(rows, ctx.tenant, ctx.domain, ctx.config.persistenceRounds, group);
    var key := RateKey(ctx.tenant, ctx.domain, RepresentativeService(group), persisted);
    Verdict(ctx.config, RateOf(ctx.rates, key), persisted, ctx.related(group))
  }

  /** Every group that passes is emitted, in group order. */
  function Emissions(ctx: Context, states: DS.Rows, start: Output, groups: seq<seq<Anomaly>>): Output {
    if groups == [] then start
    else
      var n := |groups| - 1;
      var so := Emissions(ctx, states, start, groups[..n]);
      var v := Judged(ctx, states, groups[n]);
      if v.passed then EmitOne(ctx, so, ctx.days(n), groups[n], v.severity) else so
  }

  function AllMembers(round: seq<Anomaly>, groups: seq<seq<nat>>): seq<seq<Anomaly>>
    requires forall g :: 0 <= g < |groups| ==> Within(round, groups[g])
  {
    seq(|groups|, g requires 0 <= g < |groups| => Members(round, groups[g]))
  }

  /** All keys of the groups, with repetition. */
  function BagOf(groups: seq<seq<Anomaly>>): multiset<Key> {
    if groups == [] then multiset{} else BagOf(groups[..|groups| - 1]) + multiset(Keys(groups[|groups| - 1]))
  }

  /** The keys of group g occur in no earlier group. */
  predicate NewKeys(groups: seq<seq<Anomaly>>, g: nat)
    requires g < |groups|
  {
    forall i :: 0 <= i < |groups[g]| ==> BagOf(groups[..g])[AnomalyKey(groups[g][i])] == 0
  }

  lemma {:induction false} BagOfMembers(round: seq<Anomaly>, groups: seq<seq<nat>>, g: nat)
    requires IsGrouping(round, groups) && g <= |groups| && forall h :: 0 <= h < |groups| ==> Within(round, groups[h])
    ensures BagOf(AllMembers(round, groups)[..g]) == KeysAt(round, |round|, Covered(groups, g))
  {
    if g == 0 {
      KeysAtNone(round, |round|);
    } else {
      BagOfMembers(round, groups, g - 1);
      NextGroupAdds(round, groups, g - 1);
      var all := AllMembers(round, groups);
      assert all[..g][..g - 1] == all[..g - 1];
    }
  }

  lemma GroupsSeparateKeys(round: seq<Anomaly>, groups: seq<seq<nat>>)
    requires IsGrouping(round, groups) && forall h :: 0 <= h < |groups| ==> Within(round, groups[h])
    ensures BagOf(AllMembers(round, groups)) == multiset(Keys(round))
    ensures forall g: nat :: g < |groups| ==> NewKeys(AllMembers(round, groups), g)
  {
    var all := AllMembers(round, groups);
    BagOfMembers(round, groups, |groups|);
    GroupsHoldAllKeys(round, groups);
    assert all[..|groups|] == all;
    forall g: nat | g < |groups| ensures NewKeys(all, g) {
      BagOfMembers(round, groups, g);
      forall i | 0 <= i < |all[g]| ensures BagOf(all[..g])[AnomalyKey(all[g][i])] == 0 {
        KeyStaysInItsGroup(round, groups, g, groups[g][i]);
      }
    }
  }

  function PartialRound(ctx: Context, groups: seq<seq<Anomaly>>, g: nat): DS.Round
    requires g <= |groups|
  {
    DS.Round(ctx.tenant, ctx.domain, ctx.now, BagOf(groups[..g]))
  }

  lemma SameKeysEitherWay(group: seq<Anomaly>, k: Key)
    ensures k in multiset(Keys(group)) <==> k in KeySet(group)
  {
    if k in KeySet(group) {
      var i :| 0 <= i < |group| && AnomalyKey(group[i]) == k;
      assert Keys(group)[i] == k;
    }
    if k in Keys(group) {
      var i :| 0 <= i < |group| && Keys(group)[i] == k;
      assert AnomalyKey(group[i]) == k;
    }
  }

  /** Earlier groups of the round do not influence the verdict on a later one. */
  lemma EarlierGroupsDoNotMatter(ctx: Context, rows: DS.Rows, groups: seq<seq<Anomaly>>, g: nat)
    requires g < |groups| && NewKeys(groups, g)
    ensures Judged(ctx, DS.Appearances(rows, PartialRound(ctx, groups, g)), groups[g]) == Judged(ctx, rows, groups[g])
  {
    var r, group, needed := PartialRound(ctx, groups, g), groups[g], ctx.config.persistenceRounds;
    forall i: nat | i < |group|
      ensures Persists(DS.Appearances(rows, r), ctx.tenant, ctx.domain, needed, group, i) ==
              Persists(rows, ctx.tenant, ctx.domain, needed, group, i)
    {
      PriorAfter(rows, r, AnomalyKey(group[i]));
    }
    assert Turns(DS.Appearances(rows, r), ctx.tenant, ctx.domain, needed, group)
        == Turns(rows, ctx.tenant, ctx.domain, needed, group);
  }

  /** One group more: what is on record, which keys have been seen, and what is emitted. */
  lemma NextGroupCounts(ctx: Context, rows: DS.Rows, groups: seq<seq<Anomaly>>, g: nat)
    requires g < |groups|
    ensures DS.Appearances(DS.Appearances(rows, PartialRound(ctx, groups, g)),
                           RoundOf(ctx.tenant, ctx.domain, ctx.now, groups[g])) ==
            DS.Appearances(rows, PartialRound(ctx, groups, g + 1))
    ensures DS.KeysSeen(PartialRound(ctx, groups, g)) + KeySet(groups[g]) == DS.KeysSeen(PartialRound(ctx, groups, g + 1))
  {
    assert groups[..g + 1][..g] == groups[..g];
    DS.AppearancesCompose(rows, PartialRound(ctx, groups, g), multiset(Keys(groups[g])));
    forall k ensures k in multiset(Keys(groups[g])) <==> k in KeySet(groups[g]) {
      SameKeysEitherWay(groups[g], k);
    }
  }

  lemma NextGroupEmits(ctx: Context, states: DS.Rows, start: Output, groups: seq<seq<Anomaly>>, g: nat)
    requires g < |groups|
    ensures var so, v := Emissions(ctx, states, start, groups[..g]), Judged(ctx, states, groups[g]);
      Emissions(ctx, states, start, groups[..g + 1]) ==
        if v.passed then EmitOne(ctx, so, ctx.days(g), groups[g], v.severity) else so
  {
    assert groups[..g + 1][..g] == groups[..g];
  }

  /** Verifies one group and emits it if it passes. */
  method RunGroup(ctx: Context, states: DS.DetectionStateStore, records: R.RecordStore, ids: SequenceStore,
                  group: seq<Anomaly>, day: string, seen: set<Key>, emitted: seq<R.Record>)
    returns (emitted': seq<R.Record>, seen': set<Key>)
    requires ctx.tenant != ""
    modifies states, records, ids
    ensures states.rows == DS.Appearances(old(states.rows), RoundOf(ctx.tenant, ctx.domain, ctx.now, group))
    ensures seen' == seen + KeySet(group)
    ensures var v := Judged(ctx, old(states.rows), group); var so := Output(emitted, old(records.rows), old(ids.next));
      Output(emitted', records.rows, ids.next) == if v.passed then EmitOne(ctx, so, day, group, v.severity) else so
  {
    var service := RepresentativeService(group);
    var v;
    v, seen' := L3Verify(states, ctx.tenant, ctx.domain, ctx.now, ctx.config, ctx.rates, service, group,
                         ctx.related(group), seen);
    var rec := Emit(ctx, records, ids, day, group, v);
    emitted' := emitted;
    if rec.Some? {
      emitted' := emitted + [rec.value];
      EmittedIsEmitOne(ctx, Output(emitted, old(records.rows), old(ids.next)), day, group, v.severity, rec.value, ids.next);
    }
  }

  /** The counts after a round are AfterRound's, and the records are those of the groups that pass. */
  method RunDomain(ctx: Context, states: DS.DetectionStateStore, records: R.RecordStore, ids: SequenceStore,
                   round: seq<Anomaly>)
    returns (r: Result<seq<R.Record>>, groups: seq<seq<nat>>)
    modifies states, records, ids
    ensures r.TenantRequired? <==> ctx.tenant == ""
    ensures r.TenantRequired? ==>
              states.rows == old(states.rows) && records.rows == old(records.rows) && ids.next == old(ids.next)
    ensures r.Ok? ==> IsGrouping(round, groups)
    ensures r.Ok? ==> states.rows == DS.AfterRound(old(states.rows), RoundOf(ctx.tenant, ctx.domain, ctx.now, round))
    ensures r.Ok? ==> (forall g :: 0 <= g < |groups| ==> Within(round, groups[g]))
                      && Output(r.value, records.rows, ids.next) ==
                         Emissions(ctx, old(states.rows), Output([], old(records.rows), old(ids.next)), AllMembers(round, groups))
  {
    groups := GroupingOf(round);
    if ctx.tenant == "" { return TenantRequired, groups; }
    GroupsSeparateKeys(round, groups);
    var all := AllMembers(round, groups);
    assert all[..|all|] == all;
    var emitted, seen := RunGroups(ctx, states, records, ids, all);
    var _ := states.Sweep(ctx.tenant, ctx.domain, seen);
    r := Ok(emitted);
  }

  method GroupingOf(round: seq<Anomaly>) returns (groups: seq<seq<nat>>)
    ensures IsGrouping(round, groups) && forall g :: 0 <= g < |groups| ==> Within(round, groups[g])
  {
    groups := Grouping.GroupAnomalies(round);
    GroupsAreWithin(round, groups);
  }

  method RunGroups(ctx: Context, states: DS.DetectionStateStore, records: R.RecordStore, ids: SequenceStore,
                   groups: seq<seq<Anomaly>>)
    returns (emitted: seq<R.Record>, seen: set<Key>)
    requires ctx.tenant != "" && forall g: nat :: g < |groups| ==> NewKeys(groups, g)
    modifies states, records, ids
    ensures states.rows == DS.Appearances(old(states.rows), PartialRound(ctx, groups, |groups|))
    ensures seen == DS.KeysSeen(PartialRound(ctx, groups, |groups|))
    ensures Output(emitted, records.rows, ids.next) ==
            Emissions(ctx, old(states.rows), Output([], old(records.rows), old(ids.next)), groups)
  {
    emitted, seen := [], {};
    ghost var start := Output([], records.rows, ids.next);
    DS.NoAppearances(states.rows, PartialRound(ctx, groups, 0));
    for g := 0 to |groups|
      invariant states.rows == DS.Appearances(old(states.rows), PartialRound(ctx, groups, g))
      invariant seen == DS.KeysSeen(PartialRound(ctx, groups, g))
      invariant Output(emitted, records.rows, ids.next) == Emissions(ctx, old(states.rows), start, groups[..g])
    {
      EarlierGroupsDoNotMatter(ctx, old(states.rows), groups, g);
      NextGroupCounts(ctx, old(states.rows), groups, g);
      NextGroupEmits(ctx, old(states.rows), start, groups, g);
      emitted, seen := RunGroup(ctx, states, records, ids, groups[g], ctx.days(g), seen, emitted);
    }
    assert groups[..|groups|] == groups;
  }
}
