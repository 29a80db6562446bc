/** What holds at every point of every run: what is written, what is closed, and what every row accounts for. */
module LifetimeLaws {
  import opened Anomalies
  import opened GroupingRules
  import opened GroupCounts
  import opened Sequences
  import opened Pipeline
  import opened PipelineLaws
  import opened RoundWrites
  import opened RecordRuns
  import opened RecordHistories
  import opened Lifetime
  import DS = DetectionState
  import R = Records
  import Listing
  import Reconcile
  import Accountability
  import OneDomain
  import WrittenRecords

  // ---- One write of a round ----

  /** The history before a group's write: sound rows, and the number not used yet. */
  lemma ReadyToEmit(ctx: Context, states: DS.Rows, start: Output, groups: seq<seq<Anomaly>>, steps: seq<Step>)
    requires ctx.tenant != "" && groups != [] && forall n: nat :: IsDate(ctx.days(n))
    requires start.emitted == [] && start.rows == After(steps) && ProperRun(steps) && IssuedBy(UsedIds(steps), start.next)
    ensures var n := |groups| - 1; var so := Emissions(ctx, states, start, groups[..n]);
      Sound(so.rows) && FreshId(so.rows, NextId(so.next, ctx.days(n)))
  {
    var n := |groups| - 1;
    EmissionsAreProperWrites(ctx, states, start, groups[..n], steps);
    var so := Emissions(ctx, states, start, groups[..n]);
    var steps' := steps + WriteSteps(ctx.tenant, so.emitted);
    RunIsSound(steps');
    NextIdIsNew(UsedIds(steps'), so.next, ctx.days(n));
  }

  // ---- Accountability ----

  lemma AssembledIsFromDetection(ctx: Context, id: string, group: seq<Anomaly>, severity: string)
    ensures Accountability.FromDetection(Assembled(ctx, id, group, severity))
  {
  }

  lemma {:induction false} EmissionsKeepAccountable(ctx: Context, states: DS.Rows, start: Output, groups: seq<seq<Anomaly>>,
                                                    steps: seq<Step>)
    requires ctx.tenant != "" && forall n: nat :: IsDate(ctx.days(n))
    requires start.emitted == [] && start.rows == After(steps) && ProperRun(steps) && IssuedBy(UsedIds(steps), start.next)
    requires Accountability.AllAccountable(start.rows)
    ensures Accountability.AllAccountable(Emissions(ctx, states, start, groups).rows)
  {
    if groups != [] {
      var n := |groups| - 1;
      EmissionsKeepAccountable(ctx, states, start, groups[..n], steps);
      ReadyToEmit(ctx, states, start, groups, steps);
      var so, v := Emissions(ctx, states, start, groups[..n]), Judged(ctx, states, groups[n]);
      if v.passed {
        AssembledIsFromDetection(ctx, NextId(so.next, ctx.days(n)), groups[n], v.severity);
        Accountability.WriteKeepsAccountable(so.rows, ctx.tenant, Assembled(ctx, NextId(so.next, ctx.days(n)), groups[n], v.severity));
      }
    }
  }

  lemma EventKeepsAccountable(s: Stores, e: Event, s': Stores, steps: seq<Step>)
    requires Allowed(e) && Leads(s, e, s') && HasHistory(s, steps) && Accountability.AllAccountable(s.rows)
    ensures Accountability.AllAccountable(s'.rows)
  {
    match e
    case Detect(ctx, round) =>
      var groups: seq<seq<nat>> :| IsGrouping(round, groups) && GroupedLeads(s, ctx, round, groups, s');
      EmissionsKeepAccountable(ctx, s.states, Output([], s.rows, s.next), AllMembers(round, groups), steps);
    case Ask(tenant, id, q, n) =>
      Accountability.RequestKeepsAccountable(s.rows, tenant, id, q, n);
    case Pass(after) =>
      Accountability.PassKeepsAccountable(s.rows, s.states, after);
  }

  /**
   * At every point of every run, from empty stores: an escalated record has a ticketed escalation on record, all such
   * entries of a record name one ticket, and a record in progress names a run.
   */
  lemma {:induction false} RunKeepsRecordsAccountable(events: seq<Event>, stores: seq<Stores>, n: nat)
    requires IsRun(events, stores) && n <= |events|
    ensures Accountability.AllAccountable(stores[n].rows)
  {
    if n > 0 {
      RunKeepsRecordsAccountable(events, stores, n - 1);
      StepKeepsAccountable(events, stores, n - 1);
    }
  }

  lemma StepKeepsAccountable(events: seq<Event>, stores: seq<Stores>, n: nat)
    requires IsRun(events, stores) && n < |events| && Accountability.AllAccountable(stores[n].rows)
    ensures Accountability.AllAccountable(stores[n + 1].rows)
  {
    var steps := RunHasRecordHistory(events, stores, n);
    EventKeepsAccountable(stores[n], events[n], stores[n + 1], steps);
  }

  // ---- What is closed ----

  /** The record is open and listed, and it has anomalies. */
  predicate UpForClosing(s: Stores, i: nat)
    requires i < |s.rows|
  {
    var rec := s.rows[i].rec;
    R.IsOpen(rec.state) && R.RecordKeys(rec) != {} && Listing.Listed(s.rows, Listing.All(rec.tenantId), Reconcile.LIST_LIMIT, i)
  }

  /**
   * In every run, a pass closes exactly the records up for closing each of whose anomalies has appeared in the record's
   * own domain and was absent from that many last rounds of it; all other rows stay as they are.
   */
  lemma PassClosesExactlyTheGone(events: seq<Event>, stores: seq<Stores>, n: nat, i: nat)
    requires IsRun(events, stores) && n < |events| && events[n].Pass? && events[n].after >= 1 && i < |stores[n].rows|
    ensures |stores[n + 1].rows| == |stores[n].rows|
    ensures stores[n + 1].rows[i] ==
            if UpForClosing(stores[n], i) && Reconcile.AllGone(Rounds(events, n), stores[n].rows[i].rec, events[n].after)
            then Reconcile.ClosedRow(stores[n].rows[i]) else stores[n].rows[i]
  {
    assert Leads(stores[n], events[n], stores[n + 1]);
    RunReflectsRounds(events, stores, n);
    Reconcile.FinishedIffGone(stores[n].states, Rounds(events, n), stores[n].rows[i].rec, events[n].after);
  }

  /** All rounds of a tenant are of one domain. */
  predicate OneDomainEach(events: seq<Event>, domainOf: string -> string) {
    forall k :: 0 <= k < |events| && events[k].Detect? ==> events[k].ctx.domain == domainOf(events[k].ctx.tenant)
  }

  lemma MemberKeysAreRoundKeys(round: seq<Anomaly>, group: seq<nat>, k: Key)
    requires Within(round, group) && k in multiset(Keys(Members(round, group)))
    ensures k in multiset(Keys(round))
  {
    var members := Members(round, group);
    assert k in Keys(members);
    var j :| 0 <= j < |members| && Keys(members)[j] == k;
    assert Keys(round)[group[j]] == k;
  }

  /** All anomalies of the group have appeared in the tenant's domain. */
  predicate GroupKnown(ctx: Context, group: seq<Anomaly>, history: seq<DS.Round>) {
    forall k :: k in multiset(Keys(group)) ==> DS.Total(history, (ctx.tenant, ctx.domain, k)) > 0
  }

  /** Once a round has been counted, all its groups are known. */
  lemma GroupOfRoundIsKnown(ctx: Context, round: seq<Anomaly>, group: seq<nat>, history: seq<DS.Round>)
    requires Within(round, group)
    ensures GroupKnown(ctx, Members(round, group), history + [RoundRun(ctx, round)])
  {
    forall k | k in multiset(Keys(Members(round, group)))
      ensures DS.Total(history + [RoundRun(ctx, round)], (ctx.tenant, ctx.domain, k)) > 0
    {
      MemberKeysAreRoundKeys(round, group, k);
      OneDomain.TotalGrows(history, RoundRun(ctx, round), (ctx.tenant, ctx.domain, k));
    }
  }

  lemma AssembledIsKnown(ctx: Context, id: string, group: seq<Anomaly>, severity: string, history: seq<DS.Round>,
                         domainOf: string -> string)
    requires GroupKnown(ctx, group, history) && ctx.domain == domainOf(ctx.tenant)
    ensures OneDomain.Known(Assembled(ctx, id, group, severity), history, domainOf)
  {
    var rec := Assembled(ctx, id, group, severity);
    AssembledKey(ctx, id, group, severity);
    RecordKeyNamesKeys(rec);
    forall k | k in R.RecordKeys(rec) ensures DS.Total(history, (rec.tenantId, rec.domain, k)) > 0 {
      assert k in KeysOf(R.RecordKey(rec));
    }
  }

  lemma {:induction false} EmissionsKeepKnown(ctx: Context, states: DS.Rows, start: Output, groups: seq<seq<Anomaly>>,
                                              steps: seq<Step>, history: seq<DS.Round>, domainOf: string -> string)
    requires ctx.tenant != "" && ctx.domain == domainOf(ctx.tenant) && forall n: nat :: IsDate(ctx.days(n))
    requires start.emitted == [] && start.rows == After(steps) && ProperRun(steps) && IssuedBy(UsedIds(steps), start.next)
    requires forall g :: 0 <= g < |groups| ==> GroupKnown(ctx, groups[g], history)
    requires OneDomain.AllKnown(start.rows, history, domainOf)
    ensures OneDomain.AllKnown(Emissions(ctx, states, start, groups).rows, history, domainOf)
  {
    if groups != [] {
      var n := |groups| - 1;
      EmissionsKeepKnown(ctx, states, start, groups[..n], steps, history, domainOf);
      ReadyToEmit(ctx, states, start, groups, steps);
      var so, v := Emissions(ctx, states, start, groups[..n]), Judged(ctx, states, groups[n]);
      if v.passed {
        var id := NextId(so.next, ctx.days(n));
        AssembledIsKnown(ctx, id, groups[n], v.severity, history, domainOf);
        OneDomain.WriteKeepsKnown(so.rows, ctx.tenant, Assembled(ctx, id, groups[n], v.severity), history, domainOf);
      }
    }
  }

  lemma DetectKeepsKnown(s: Stores, ctx: Context, round: seq<Anomaly>, s': Stores, steps: seq<Step>, history: seq<DS.Round>,
                         domainOf: string -> string)
    requires Allowed(Detect(ctx, round)) && DetectLeads(s, ctx, round, s') && HasHistory(s, steps)
    requires OneDomain.AllKnown(s.rows, history, domainOf) && ctx.domain == domainOf(ctx.tenant)
    ensures OneDomain.AllKnown(s'.rows, history + [RoundRun(ctx, round)], domainOf)
  {
    var groups: seq<seq<nat>> :| IsGrouping(round, groups) && GroupedLeads(s, ctx, round, groups, s');
    var all, now := AllMembers(round, groups), history + [RoundRun(ctx, round)];
    OneDomain.RoundKeepsKnown(s.rows, history, RoundRun(ctx, round), domainOf);
    forall g | 0 <= g < |all| ensures GroupKnown(ctx, all[g], now) {
      GroupOfRoundIsKnown(ctx, round, groups[g], history);
    }
    EmissionsKeepKnown(ctx, s.states, Output([], s.rows, s.next), all, steps, now, domainOf);
  }

  lemma EventKeepsKnown(s: Stores, e: Event, s': Stores, steps: seq<Step>, history: seq<DS.Round>, domainOf: string -> string)
    requires Allowed(e) && Leads(s, e, s') && HasHistory(s, steps) && OneDomain.AllKnown(s.rows, history, domainOf)
    requires e.Detect? ==> e.ctx.domain == domainOf(e.ctx.tenant)
    ensures OneDomain.AllKnown(s'.rows, history + RoundsOf(e), domainOf)
  {
    assert history + [] == history;
    match e
    case Detect(ctx, round) =>
      DetectKeepsKnown(s, ctx, round, s', steps, history, domainOf);
    case Ask(tenant, id, q, n) =>
      OneDomain.RequestKeepsKnown(s.rows, tenant, id, q, n, history, domainOf);
    case Pass(after) =>
      OneDomain.PassKeepsKnown(s.rows, s.states, after, history, domainOf);
  }

  /** With one domain per tenant, every anomaly of every record has been counted in the record's domain. */
  lemma {:induction false} RunKnowsItsKeys(events: seq<Event>, stores: seq<Stores>, n: nat, domainOf: string -> string)
    requires IsRun(events, stores) && n <= |events| && OneDomainEach(events, domainOf)
    ensures OneDomain.AllKnown(stores[n].rows, Rounds(events, n), domainOf)
  {
    if n > 0 {
      var m: nat := n - 1;
      RunKnowsItsKeys(events, stores, m, domainOf);
      assert OneDomain.AllKnown(stores[m].rows, Rounds(events, m), domainOf);
      StepKeepsKnown(events, stores, m, domainOf);
    }
  }

  lemma StepKeepsKnown(events: seq<Event>, stores: seq<Stores>, n: nat, domainOf: string -> string)
    requires IsRun(events, stores) && n < |events| && OneDomainEach(events, domainOf)
    requires OneDomain.AllKnown(stores[n].rows, Rounds(events, n), domainOf)
    ensures OneDomain.AllKnown(stores[n + 1].rows, Rounds(events, n + 1), domainOf)
  {
    var steps := RunHasRecordHistory(events, stores, n);
    var s, e, s', history := stores[n], events[n], stores[n + 1], Rounds(events, n);
    assert Allowed(e) && Leads(s, e, s');
    EventKeepsKnown(s, e, s', steps, history, domainOf);
  }

  /** Then absence alone decides: a pass closes exactly the records up for closing whose anomalies all stayed away. */
  lemma PassClosesExactlyTheAbsent(events: seq<Event>, stores: seq<Stores>, n: nat, i: nat, domainOf: string -> string)
    requires IsRun(events, stores) && n < |events| && events[n].Pass? && events[n].after >= 1 && i < |stores[n].rows|
    requires OneDomainEach(events, domainOf)
    ensures |stores[n + 1].rows| == |stores[n].rows|
    ensures stores[n + 1].rows[i] ==
            if UpForClosing(stores[n], i) && OneDomain.AllAbsent(Rounds(events, n), stores[n].rows[i].rec, events[n].after)
            then Reconcile.ClosedRow(stores[n].rows[i]) else stores[n].rows[i]
  {
    PassClosesExactlyTheGone(events, stores, n, i);
    RunKnowsItsKeys(events, stores, n, domainOf);
    OneDomain.KnownGoneIsAbsent(Rounds(events, n), stores[n].rows[i].rec, events[n].after, domainOf);
  }

  /** Without that, a record holding an anomaly never counted in its own domain is closed by no pass. */
  lemma StrandedIsNeverClosed(events: seq<Event>, stores: seq<Stores>, n: nat, i: nat, k: Key)
    requires IsRun(events, stores) && n < |events| && events[n].Pass? && events[n].after >= 1 && i < |stores[n].rows|
    requires var rec := stores[n].rows[i].rec;
      k in R.RecordKeys(rec) && DS.Total(Rounds(events, n), (rec.tenantId, rec.domain, k)) == 0
    ensures |stores[n + 1].rows| == |stores[n].rows| && stores[n + 1].rows[i] == stores[n].rows[i]
  {
    PassClosesExactlyTheGone(events, stores, n, i);
    var rec := stores[n].rows[i].rec;
    assert !Reconcile.Gone(Rounds(events, n), (rec.tenantId, rec.domain, k), events[n].after);
  }

  // ---- What is written ----

  /**
   * In every run, a round writes exactly one record for each group in which some member's total over all rounds reaches
   * the threshold, in order, and changes the record rows in no other way. Each record tells its group: its findings by
   * kind, the round's time, the traces of its logs, and the severity that its persisted members call for.
   */
  lemma DetectWritesExactlyTheReached(events: seq<Event>, stores: seq<Stores>, n: nat, groups: seq<seq<nat>>)
    returns (recs: seq<R.Record>, passing: seq<Passed>)
    requires IsRun(events, stores) && n < |events| && events[n].Detect? && IsGrouping(events[n].round, groups)
    requires forall h :: 0 <= h < |groups| ==> Within(events[n].round, groups[h])
    ensures stores[n + 1].rows == WrittenAll(stores[n].rows, events[n].ctx.tenant, recs)
    ensures OneRecordEach(events[n].ctx, recs, passing)
    ensures PassingAt(passing, AllMembers(events[n].round, groups),
                      Raised(ReachedGroups(events[n].ctx, Rounds(events, n), events[n].round, groups), |groups|))
    ensures forall k: nat :: k < |recs| ==> WrittenRecords.Tells(events[n].ctx, Rounds(events, n), passing[k].group, recs[k])
  {
    var ctx, round := events[n].ctx, events[n].round;
    recs := DetectWrites(stores[n], ctx, round, stores[n + 1], groups);
    passing := Passing(ctx, stores[n].states, AllMembers(round, groups));
    RunReflectsRounds(events, stores, n);
    PassedIsReached(ctx, stores[n].states, Rounds(events, n), round, groups);
    PassingIsRaised(ctx, stores[n].states, AllMembers(round, groups), |groups|);
    assert AllMembers(round, groups)[..|groups|] == AllMembers(round, groups);
    forall k: nat | k < |recs| ensures WrittenRecords.Tells(ctx, Rounds(events, n), passing[k].group, recs[k]) {
      WrittenRecords.RecordsTell(ctx, stores[n].states, Rounds(events, n), AllMembers(round, groups), recs, k);
    }
  }

  lemma DetectWrites(s: Stores, ctx: Context, round: seq<Anomaly>, s': Stores, groups: seq<seq<nat>>) returns (recs: seq<R.Record>)
    requires DetectLeads(s, ctx, round, s') && IsGrouping(round, groups)
    requires forall h :: 0 <= h < |groups| ==> Within(round, groups[h])
    ensures s'.rows == WrittenAll(s.rows, ctx.tenant, recs)
    ensures OneRecordEach(ctx, recs, Passing(ctx, s.states, AllMembers(round, groups)))
  {
    var found: seq<seq<nat>> :| IsGrouping(round, found) && GroupedLeads(s, ctx, round, found, s');
    GroupingIsUnique(round, groups, found);
    var start := Output([], s.rows, s.next);
    recs := Emissions(ctx, s.states, start, AllMembers(round, groups)).emitted;
    EmissionsAreWritten(ctx, s.states, start, AllMembers(round, groups));
    OneRecordPerPassingGroup(ctx, s.states, start, AllMembers(round, groups));
  }
}
