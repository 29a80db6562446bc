/** Detection rounds, requests and reconcile passes in any order, on one set of stores. */
module Lifetime {
  import opened Anomalies
  import opened GroupingRules
  import opened GroupCounts
  import opened Sequences
  import opened Pipeline
  import opened PipelineLaws
  import opened RecordRuns
  import opened RecordHistories
  import Verify
  import DS = DetectionState
  import R = Records
  import Reconcile
  import Escalation
  import RequestSteps
  import PassSteps

  datatype Event =
    | Detect(ctx: Context, round: seq<Anomaly>)
    | Ask(tenant: string, id: string, q: Escalation.Request, n: nat)
    | Pass(after: int)

  datatype Stores = Stores(states: DS.Rows, rows: seq<R.Row>, next: Counters)

  /** Rounds name their tenant and days are written in digits; a request may be cut off after any number of operations. */
  ghost predicate Allowed(e: Event) {
    match e
    case Detect(ctx, _) => ctx.tenant != "" && forall n: nat :: IsDate(ctx.days(n))
    case Ask(_, _, q, _) => Escalation.Valid(q)
    case Pass(_) => true
  }

  function RoundRun(ctx: Context, round: seq<Anomaly>): DS.Round {
    Verify.RoundOf(ctx.tenant, ctx.domain, ctx.now, round)
  }

  /** What the event makes of the stores: the contracts of RunDomain, of Handle and of ReconcileOnce. */
  ghost predicate Leads(s: Stores, e: Event, s': Stores) {
    match e
    case Detect(ctx, round) => DetectLeads(s, ctx, round, s')
    case Ask(tenant, id, q, n) => s' == s.(rows := Escalation.HandledRows(s.rows, tenant, id, q, n))
    case Pass(after) => s' == s.(rows := Reconcile.Reconciled(s.rows, s.states, after))
  }

  ghost predicate DetectLeads(s: Stores, ctx: Context, round: seq<Anomaly>, s': Stores) {
    exists groups: seq<seq<nat>> :: IsGrouping(round, groups) && GroupedLeads(s, ctx, round, groups, s')
  }

  ghost predicate GroupedLeads(s: Stores, ctx: Context, round: seq<Anomaly>, groups: seq<seq<nat>>, s': Stores) {
    && (forall g :: 0 <= g < |groups| ==> Within(round, groups[g]))
    && var out := Emissions(ctx, s.states, Output([], s.rows, s.next), AllMembers(round, groups));
       s' == Stores(DS.AfterRound(s.states, RoundRun(ctx, round)), out.rows, out.next)
  }

  /** A run: each event leads from one state to the next, starting from empty stores. */
  ghost predicate IsRun(events: seq<Event>, stores: seq<Stores>) {
    && |stores| == |events| + 1 && stores[0] == Stores(map[], [], map[])
    && forall k :: 0 <= k < |events| ==> Allowed(events[k]) && Leads(stores[k], events[k], stores[k + 1])
  }

  /** The rounds among the first n events. */
  function Rounds(events: seq<Event>, n: nat): seq<DS.Round>
    requires n <= |events|
  {
    if n == 0 then []
    else Rounds(events, n - 1) + RoundsOf(events[n - 1])
  }

  function RoundsOf(e: Event): seq<DS.Round> {
    if e.Detect? then [RoundRun(e.ctx, e.round)] else []
  }

  /** The record rows come from a proper record history whose numbers were all drawn. */
  ghost predicate HasHistory(s: Stores, steps: seq<Step>) {
    ProperRun(steps) && s.rows == After(steps) && IssuedBy(UsedIds(steps), s.next)
  }

  // ---- Every run ----

  lemma AskContinues(s: Stores, steps: seq<Step>, tenant: string, id: string, q: Escalation.Request, n: nat)
    returns (steps': seq<Step>)
    requires HasHistory(s, steps)
    ensures HasHistory(s.(rows := Escalation.HandledRows(s.rows, tenant, id, q, n)), steps')
  {
    steps' := RequestSteps.RequestIsHistory(steps, tenant, id, q, n);
  }

  lemma PassContinues(s: Stores, steps: seq<Step>, after: int) returns (steps': seq<Step>)
    requires HasHistory(s, steps)
    ensures HasHistory(s.(rows := Reconcile.Reconciled(s.rows, s.states, after)), steps')
  {
    steps' := PassSteps.PassIsHistory(steps, s.states, after);
  }

  lemma DetectContinues(s: Stores, steps: seq<Step>, ctx: Context, round: seq<Anomaly>, s': Stores) returns (steps': seq<Step>)
    requires HasHistory(s, steps) && Allowed(Detect(ctx, round)) && DetectLeads(s, ctx, round, s')
    ensures HasHistory(s', steps')
  {
    var groups: seq<seq<nat>> :| IsGrouping(round, groups) && GroupedLeads(s, ctx, round, groups, s');
    var start := Output([], s.rows, s.next);
    steps' := steps + WriteSteps(ctx.tenant, Emissions(ctx, s.states, start, AllMembers(round, groups)).emitted);
    EmissionsAreProperWrites(ctx, s.states, start, AllMembers(round, groups), steps);
  }

  lemma EventContinues(s: Stores, steps: seq<Step>, e: Event, s': Stores) returns (steps': seq<Step>)
    requires HasHistory(s, steps) && Allowed(e) && Leads(s, e, s')
    ensures HasHistory(s', steps')
  {
    match e
    case Detect(ctx, round) => steps' := DetectContinues(s, steps, ctx, round, s');
    case Ask(tenant, id, q, n) => steps' := AskContinues(s, steps, tenant, id, q, n);
    case Pass(after) => steps' := PassContinues(s, steps, after);
  }

  /** At any point of any run the record rows are those of a proper record history. */
  lemma {:induction false} RunHasRecordHistory(events: seq<Event>, stores: seq<Stores>, n: nat) returns (steps: seq<Step>)
    requires IsRun(events, stores) && n <= |events|
    ensures HasHistory(stores[n], steps)
  {
    if n == 0 {
      steps := [];
    } else {
      var before := RunHasRecordHistory(events, stores, n - 1);
      steps := EventContinues(stores[n - 1], before, events[n - 1], stores[n]);
    }
  }

  /** At any point of any run the counters tell total appearances and rounds missed. */
  lemma {:induction false} RunReflectsRounds(events: seq<Event>, stores: seq<Stores>, n: nat)
    requires IsRun(events, stores) && n <= |events|
    ensures DS.Reflects(stores[n].states, Rounds(events, n))
  {
    if n > 0 {
      RunReflectsRounds(events, stores, n - 1);
      EventReflects(stores[n - 1], events[n - 1], stores[n], Rounds(events, n - 1));
    }
  }

  lemma EventReflects(s: Stores, e: Event, s': Stores, history: seq<DS.Round>)
    requires Leads(s, e, s') && DS.Reflects(s.states, history)
    ensures DS.Reflects(s'.states, history + RoundsOf(e))
  {
    if e.Detect? {
      DS.RoundIsReflected(s.states, history, RoundRun(e.ctx, e.round));
    } else {
      assert history + [] == history;
    }
  }

  /** Whatever rounds, requests and passes came before: rows are well filed and in-progress rows name a run. */
  lemma RunKeepsRecordsSound(events: seq<Event>, stores: seq<Stores>, n: nat)
    requires IsRun(events, stores) && n <= |events|
    ensures Sound(stores[n].rows) && RunsRecorded(stores[n].rows) && NamedTenants(stores[n].rows)
  {
    var steps := RunHasRecordHistory(events, stores, n);
    RunIsSound(steps);
    RunRecordsRuns(steps);
    ProperRunNamesTenants(steps);
  }
}
