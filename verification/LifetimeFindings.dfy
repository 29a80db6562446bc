/** At every point of every run: what kinds of findings a record holds, and when it was opened. */
module LifetimeFindings {
  import opened Anomalies
  import opened GroupingRules
  import opened Sequences
  import opened Pipeline
  import opened PipelineLaws
  import opened RecordRuns
  import opened RecordHistories
  import opened Lifetime
  import opened Findings
  import DS = DetectionState
  import Listing
  import LifetimeLaws

  lemma AssembledIsSorted(ctx: Context, id: string, group: seq<Anomaly>, severity: string)
    ensures SortedFindings(Assembled(ctx, id, group, severity))
  {
    MetricsAreMetrics(group);
    LogsAreLogs(group);
  }

  lemma {:induction false} MetricsAreMetrics(group: seq<Anomaly>)
    ensures forall i :: 0 <= i < |Metrics(group)| ==> Metrics(group)[i].Metric?
  {
    if group != [] {
      MetricsAreMetrics(group[1..]);
    }
  }

  lemma {:induction false} EmissionsKeepFindings(ctx: Context, states: DS.Rows, start: Output, groups: seq<seq<Anomaly>>,
                                                 steps: seq<Step>)
    requires ctx.tenant != "" && forall n: nat :: IsDate(ctx.days(n))
    requires start.emitted == [] && start.rows == After(steps) && ProperRun(steps) && IssuedBy(UsedIds(steps), start.next)
    requires AllSorted(start.rows)
    ensures var rows := Emissions(ctx, states, start, groups).rows; AllSorted(rows) && OpenedAt(start.rows, rows, ctx.now)
  {
    if groups != [] {
      var n := |groups| - 1;
      EmissionsKeepFindings(ctx, states, start, groups[..n], steps);
      LifetimeLaws.ReadyToEmit(ctx, states, start, groups, steps);
      var so, v := Emissions(ctx, states, start, groups[..n]), Judged(ctx, states, groups[n]);
      if v.passed {
        var id := NextId(so.next, ctx.days(n));
        AssembledIsSorted(ctx, id, groups[n], v.severity);
        WriteKeepsFindings(start.rows, so.rows, ctx.tenant, Assembled(ctx, id, groups[n], v.severity));
      }
    }
  }

  /** An event opens rows only if it is a round, and then at the round's time. */
  ghost predicate Opens(s: Stores, e: Event, s': Stores) {
    if e.Detect? then OpenedAt(s.rows, s'.rows, e.ctx.now) else |s'.rows| == |s.rows| && OpenedAt(s.rows, s'.rows, 0)
  }

  lemma EventKeepsFindings(s: Stores, e: Event, s': Stores, steps: seq<Step>)
    requires Allowed(e) && Leads(s, e, s') && HasHistory(s, steps) && AllSorted(s.rows)
    ensures AllSorted(s'.rows) && Opens(s, e, s')
  {
    match e
    case Detect(ctx, round) =>
      var groups: seq<seq<nat>> :| IsGrouping(round, groups) && GroupedLeads(s, ctx, round, groups, s');
      EmissionsKeepFindings(ctx, s.states, Output([], s.rows, s.next), AllMembers(round, groups), steps);
    case Ask(tenant, id, q, n) =>
      RequestKeepsFindings(s.rows, tenant, id, q, n);
    case Pass(after) =>
      PassKeepsFindings(s.rows, s.states, after);
  }

  /** Metrics and logs stay apart in every record of every run. */
  lemma {:induction false} RunSortsFindings(events: seq<Event>, stores: seq<Stores>, n: nat)
    requires IsRun(events, stores) && n <= |events|
    ensures AllSorted(stores[n].rows)
  {
    if n > 0 {
      var m: nat := n - 1;
      RunSortsFindings(events, stores, m);
      StepKeepsFindings(events, stores, m);
    }
  }

  lemma StepKeepsFindings(events: seq<Event>, stores: seq<Stores>, n: nat)
    requires IsRun(events, stores) && n < |events| && AllSorted(stores[n].rows)
    ensures AllSorted(stores[n + 1].rows) && Opens(stores[n], events[n], stores[n + 1])
  {
    var steps := RunHasRecordHistory(events, stores, n);
    EventKeepsFindings(stores[n], events[n], stores[n + 1], steps);
  }

  /** So a record's metrics have exactly the metric identities of the key it is filed under, and its logs the others. */
  lemma FindingsAreTheKeys(events: seq<Event>, stores: seq<Stores>, n: nat, i: nat)
    requires IsRun(events, stores) && n <= |events| && i < |stores[n].rows|
    ensures var row := stores[n].rows[i];
      && KeySet(row.rec.metrics) == (set k | k in row.groupKey.keys && k.MetricKey?)
      && KeySet(row.rec.logs) == (set k | k in row.groupKey.keys && k.LogKey?)
  {
    RunSortsFindings(events, stores, n);
    RunKeepsRecordsSound(events, stores, n);
    var row := stores[n].rows[i];
    assert Filed(row);
    SortedListsShareKeys(row.rec);
    assert forall k :: k in KeysOf(row.groupKey) <==> k in row.groupKey.keys;
  }

  // ---- When a record was opened ----

  /** Row i first stands in the store after event e, which is a round. */
  ghost predicate OpenedIn(events: seq<Event>, stores: seq<Stores>, i: nat, e: nat) {
    && e < |events| && |stores| == |events| + 1 && events[e].Detect?
    && |stores[e].rows| <= i < |stores[e + 1].rows|
  }

  lemma StepOpens(events: seq<Event>, stores: seq<Stores>, n: nat)
    requires IsRun(events, stores) && n < |events|
    ensures Opens(stores[n], events[n], stores[n + 1])
  {
    RunSortsFindings(events, stores, n);
    StepKeepsFindings(events, stores, n);
  }

  /** Row i is in the store and has this time. */
  predicate HasTime(s: Stores, i: nat, time: int) {
    i < |s.rows| && s.rows[i].rec.detectedAt == time
  }

  ghost predicate RoundsOpen(events: seq<Event>, stores: seq<Stores>) {
    |stores| == |events| + 1 && forall k: nat :: k < |events| ==> Opens(stores[k], events[k], stores[k + 1])
  }

  lemma RunOpens(events: seq<Event>, stores: seq<Stores>)
    requires IsRun(events, stores)
    ensures RoundsOpen(events, stores)
  {
    forall k: nat | k < |events| ensures Opens(stores[k], events[k], stores[k + 1]) {
      StepOpens(events, stores, k);
    }
  }

  lemma {:induction false} RunKeepsTime(events: seq<Event>, stores: seq<Stores>, m: nat, n: nat, i: nat, time: int)
    requires RoundsOpen(events, stores) && m <= n <= |events| && HasTime(stores[m], i, time)
    ensures HasTime(stores[n], i, time)
    decreases n - m
  {
    if m < n {
      assert Opens(stores[m], events[m], stores[m + 1]);
      RunKeepsTime(events, stores, m + 1, n, i, time);
    }
  }

  /** A record keeps the time of the round that opened it. */
  lemma OpenedTellsRound(events: seq<Event>, stores: seq<Stores>, n: nat, i: nat, e: nat)
    requires IsRun(events, stores) && e < n <= |events| && OpenedIn(events, stores, i, e)
    ensures HasTime(stores[n], i, events[e].ctx.now)
  {
    RunOpens(events, stores);
    assert Opens(stores[e], events[e], stores[e + 1]);
    RunKeepsTime(events, stores, e + 1, n, i, events[e].ctx.now);
  }

  /** Every record was opened by a round. */
  lemma {:induction false} EveryRowWasOpened(events: seq<Event>, stores: seq<Stores>, n: nat, i: nat) returns (e: nat)
    requires IsRun(events, stores) && n <= |events| && i < |stores[n].rows|
    ensures e < n && OpenedIn(events, stores, i, e)
  {
    var m: nat := n - 1;
    StepOpens(events, stores, m);
    if i < |stores[m].rows| {
      e := EveryRowWasOpened(events, stores, m, i);
    } else {
      e := m;
    }
  }

  /** The listing shows the records of newer rounds first. */
  lemma NewerRoundsComeFirst(events: seq<Event>, stores: seq<Stores>, n: nat, i: nat, e: nat, j: nat, f: nat)
    requires IsRun(events, stores) && n <= |events| && e < n && f < n
    requires OpenedIn(events, stores, i, e) && OpenedIn(events, stores, j, f) && events[e].ctx.now < events[f].ctx.now
    ensures i < |stores[n].rows| && j < |stores[n].rows| && Listing.Ahead(stores[n].rows, j, i)
  {
    OpenedTellsRound(events, stores, n, i, e);
    OpenedTellsRound(events, stores, n, j, f);
  }
}
