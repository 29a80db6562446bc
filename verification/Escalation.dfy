/** What the operator endpoints do to one record, step by step, with a crash possible between any two steps. */
module Escalation {
  import opened Records
  import opened Outcomes
  import opened Text

  datatype Ticket = Ticket(id: string, number: string)

  datatype Choice = Escalate | Reject | Ignore | FalsePositive

  /**
   * Requests, with what other services answered: the ticket created or read back, the run started, or nothing
   * when the call failed. `refused` stands for a request that is turned down before it has any effect.
   */
  datatype Request =
    | DirectEscalate(ticket: Option<Ticket>)
    | Decide(choice: Choice, ticket: Option<Ticket>, run: Option<string>, refused: bool)
    | Report(ticketText: string, status: string, description: string)
    | Analyze(run: Option<string>, workflow: string, rerun: bool)
    | Diagnose(session: Option<string>)
    | NoteRunDecision(runText: string, nodeText: string, approved: bool)
    | ResolveByHand
    | IgnoreByHand

  /** Other services answer with an id that is not empty, or not at all. */
  predicate Valid(q: Request) {
    match q
    case DirectEscalate(t) => t.Some? ==> t.value.id != ""
    case Decide(_, t, run, _) => (t.Some? ==> t.value.id != "") && (run.Some? ==> run.value != "")
    case Analyze(run, _, _) => run.Some? ==> run.value != ""
    case Diagnose(session) => session.Some? ==> session.value != ""
    case _ => true
  }

  /** One store operation on the record. */
  datatype Effect = Append(entry: Entry) | Finish(state: State, reason: string) | Begin(runId: string, workflowId: string)

  predicate IsTerminal(s: State) {
    s.Resolved? || s.Closed? || s.Archived? || s.Escalated?
  }

  /** An escalation on record together with its ticket. */
  predicate Ticketed(e: Entry) {
    e.Decision? && e.decision == "escalate" && e.ticketId != ""
  }

  function CreatedTicket(evidence: seq<Entry>): (t: Option<Ticket>)
    ensures t.None? <==> forall i :: 0 <= i < |evidence| ==> !Ticketed(evidence[i])
    ensures t.Some? ==> t.value.id != "" && exists i :: 0 <= i < |evidence| && Ticketed(evidence[i])
                                                        && Ticket(evidence[i].ticketId, evidence[i].ticketNumber) == t.value
  {
    if evidence == [] then None
    else if Ticketed(evidence[0]) then
      assert Ticket(evidence[0].ticketId, evidence[0].ticketNumber).id != "";
      Some(Ticket(evidence[0].ticketId, evidence[0].ticketNumber))
    else
      assert forall i :: 0 < i < |evidence| ==> evidence[i] == evidence[1..][i - 1];
      CreatedTicket(evidence[1..])
  }

  predicate BoundRun(e: Entry) {
    e.AgentRun? && e.runId != ""
  }

  /** The last agent run on record. */
  function LatestRun(evidence: seq<Entry>): (r: Option<Entry>)
    ensures r.Some? ==> BoundRun(r.value)
    ensures r.None? <==> forall i :: 0 <= i < |evidence| ==> !BoundRun(evidence[i])
  {
    if evidence == [] then None
    else if BoundRun(evidence[|evidence| - 1]) then Some(evidence[|evidence| - 1])
    else LatestRun(evidence[..|evidence| - 1])
  }

  predicate HasSession(evidence: seq<Entry>) {
    exists i :: 0 <= i < |evidence| && evidence[i].Session? && evidence[i].sessionId != ""
  }

  function EscalatedReason(number: string): string {
    if number != "" then "escalated:" + number else "escalated"
  }

  /** Is this record the holder of the ticket? */
  predicate HoldsTicket(rec: Record, ticket: string) {
    ticket != "" &&
    (rec.resolveReason == Some("escalated:" + ticket)
     || exists i :: 0 <= i < |rec.evidence| && Names(rec.evidence[i], ticket))
  }

  predicate Names(e: Entry, ticket: string) {
    match e
    case Decision(_, id, number) => id == ticket || number == ticket
    case TicketStatus(id, _, _) => id == ticket
    case _ => false
  }

  predicate Reported(evidence: seq<Entry>, ticket: string, status: string, description: string) {
    TicketStatus(ticket, status, description) in evidence
  }

  // ---- The effects of a request ----

  function EscalateEffects(t: Ticket): seq<Effect> {
    [Append(Decision("escalate", t.id, t.number)), Finish(Escalated, EscalatedReason(t.number))]
  }

  /** A ticket already on record is used again; only otherwise does a new one count. */
  function TicketToUse(evidence: seq<Entry>, offered: Option<Ticket>): Option<Ticket> {
    if CreatedTicket(evidence).Some? then CreatedTicket(evidence) else offered
  }

  function DecideEffects(rec: Record, choice: Choice, ticket: Option<Ticket>, run: Option<string>, refused: bool): seq<Effect> {
    var latest := LatestRun(rec.evidence);
    if IsTerminal(rec.state) || refused || !Bound(rec.evidence) then []
    else
      match choice
      case Escalate =>
        var t := TicketToUse(rec.evidence, ticket);
        if t.None? then [] else EscalateEffects(t.value)
      case Reject =>
        if latest.None? then [Append(Decision("reject", "", ""))]
        else if latest.value.workflowId == "" || run.None? then []
        else [Append(AgentRun(run.value, latest.value.workflowId)), Append(Decision("reject", "", ""))]
      case Ignore => [Finish(Closed, "ignored"), Append(Decision("ignore", "", ""))]
      case FalsePositive => [Finish(Resolved, "false_positive"), Append(Decision("false_positive", "", ""))]
  }

  function ReportEffects(rec: Record, ticket: string, status: string, description: string): seq<Effect> {
    if !HoldsTicket(rec, ticket) || Reported(rec.evidence, ticket, status, description) then []
    else
      [Append(TicketStatus(ticket, status, description))]
      + if status == "resolved" && rec.state.Escalated? then [Finish(Resolved, "agentflow:resolved:" + ticket)] else []
  }

  function AnalyzeEffects(rec: Record, run: Option<string>, workflow: string, rerun: bool): seq<Effect> {
    if IsTerminal(rec.state) || run.None? || (!rec.state.Pending? && !rerun) then []
    else if rec.state.Pending? then [Begin(run.value, workflow)]
    else [Append(AgentRun(run.value, workflow))]
  }

  /** The outcome of a run's approval is noted once per run and node. */
  function RunDecisionEffects(rec: Record, run: string, node: string, approved: bool): seq<Effect> {
    var n := if node == "" then "approve-plan" else node;
    if run == "" || RunDecision(run, n, true) in rec.evidence || RunDecision(run, n, false) in rec.evidence then []
    else [Append(RunDecision(run, n, approved))]
  }

  /** All effects of the request on the record, in the order in which the endpoint makes them. */
  function Effects(rec: Record, q: Request): seq<Effect> {
    match q
    case DirectEscalate(t) =>
      if CreatedTicket(rec.evidence).Some? || IsTerminal(rec.state) || t.None? then [] else EscalateEffects(t.value)
    case Decide(choice, t, run, refused) => DecideEffects(rec, choice, t, run, refused)
    case Report(text, status, description) => ReportEffects(rec, Strip(text), status, description)
    case Analyze(run, workflow, rerun) => AnalyzeEffects(rec, run, workflow, rerun)
    case Diagnose(session) =>
      if session.None? || IsTerminal(rec.state) || HasSession(rec.evidence) then [] else [Append(Session(session.value))]
    case NoteRunDecision(run, node, approved) => RunDecisionEffects(rec, Strip(run), Strip(node), approved)
    case ResolveByHand => [Finish(Resolved, "manual")]
    case IgnoreByHand => [Finish(Closed, "ignored")]
  }

  function Applied(rec: Record, e: Effect): Record {
    match e
    case Append(entry) => Noted(rec, entry)
    case Finish(state, reason) => Ended(rec, state, reason)
    case Begin(runId, workflowId) => Started(rec, runId, workflowId)
  }

  function Performed(rec: Record, effects: seq<Effect>): Record
    decreases |effects|
  {
    if effects == [] then rec else Performed(Applied(rec, effects[0]), effects[1..])
  }

  lemma PerformedOne(rec: Record, e: Effect)
    ensures Performed(rec, [e]) == Applied(rec, e)
  {
    assert [e][1..] == [] && Performed(Applied(rec, e), []) == Applied(rec, e);
  }

  lemma PerformedTwo(rec: Record, e: Effect, f: Effect)
    ensures Performed(rec, [e, f]) == Applied(Applied(rec, e), f)
  {
    assert [e, f][1..] == [f];
    PerformedOne(Applied(rec, e), f);
  }

  function Cut(effects: seq<Effect>, n: nat): seq<Effect> {
    if n < |effects| then effects[..n] else effects
  }

  /** The request handled up to a crash after n effects; a large n means no crash. */
  function Handled(rec: Record, q: Request, n: nat): Record {
    Performed(rec, Cut(Effects(rec, q), n))
  }

  // ---- Every run of requests, crashes, detection and reconciliation ----

  datatype Event =
    | Asked(q: Request, n: nat)         // a request, cut off after n effects
    | Detected(entries: seq<Entry>)     // a round folds in more evidence
    | Reconciled                        // a reconcile pass closes the record

  predicate Allowed(e: Event) {
    match e
    case Asked(q, _) => Valid(q)
    case Detected(entries) => forall i :: 0 <= i < |entries| ==> entries[i].Degraded? || entries[i].LogTraces?
    case Reconciled => true
  }

  /** Detection and reconciliation touch open records only. */
  function Next(rec: Record, e: Event): Record {
    match e
    case Asked(q, n) => Handled(rec, q, n)
    case Detected(entries) => if IsOpen(rec.state) then rec.(evidence := rec.evidence + entries) else rec
    case Reconciled => if IsOpen(rec.state) then Ended(rec, Resolved, "auto") else rec
  }

  function After(rec: Record, events: seq<Event>): Record {
    if events == [] then rec else Next(After(rec, events[..|events| - 1]), events[|events| - 1])
  }

  /** All ticketed escalations on record name one ticket. */
  predicate OneTicket(evidence: seq<Entry>) {
    forall i, j :: 0 <= i < |evidence| && 0 <= j < |evidence| && Ticketed(evidence[i]) && Ticketed(evidence[j]) ==>
      evidence[i].ticketId == evidence[j].ticketId && evidence[i].ticketNumber == evidence[j].ticketNumber
  }

  /** Escalated records have their ticket on record, records in progress their run. */
  ghost predicate Accountable(rec: Record) {
    && OneTicket(rec.evidence)
    && (rec.state.Escalated? ==> CreatedTicket(rec.evidence).Some?)
    && (rec.state.InProgress? ==> exists i :: 0 <= i < |rec.evidence| && rec.evidence[i].AgentRun?)
  }

  /** Requests never reopen a record. */
  predicate Final(e: Effect) {
    e.Finish? ==> !IsOpen(e.state)
  }

  lemma EffectsAreFinal(rec: Record, q: Request)
    ensures forall i :: 0 <= i < |Effects(rec, q)| ==> Final(Effects(rec, q)[i])
  {
  }

  /** Effects that do not break accountability. */
  predicate SafeEffect(rec: Record, e: Effect) {
    match e
    case Append(entry) =>
      Ticketed(entry) && CreatedTicket(rec.evidence).Some? ==>
        CreatedTicket(rec.evidence).value == Ticket(entry.ticketId, entry.ticketNumber)
    case Finish(state, _) => !IsOpen(state) && (state.Escalated? ==> CreatedTicket(rec.evidence).Some?)
    case Begin(_, _) => true
  }

  lemma AppendKeepsOneTicket(evidence: seq<Entry>, entry: Entry)
    requires OneTicket(evidence)
    requires Ticketed(entry) && CreatedTicket(evidence).Some? ==>
               CreatedTicket(evidence).value == Ticket(entry.ticketId, entry.ticketNumber)
    ensures OneTicket(evidence + [entry])
    ensures CreatedTicket(evidence).Some? || Ticketed(entry) ==> CreatedTicket(evidence + [entry]).Some?
  {
    var all := evidence + [entry];
    assert forall i :: 0 <= i < |evidence| ==> all[i] == evidence[i];
    assert all[|evidence|] == entry;
  }

  lemma SafeEffectKeepsAccountable(rec: Record, e: Effect)
    requires Accountable(rec) && SafeEffect(rec, e)
    ensures Accountable(Applied(rec, e))
  {
    match e
    case Append(entry) =>
      AppendKeepsOneTicket(rec.evidence, entry);
      AppendKeepsRun(rec.evidence, entry);
    case Finish(_, _) =>
    case Begin(runId, workflowId) =>
      AppendKeepsOneTicket(rec.evidence, AgentRun(runId, workflowId));
      AppendKeepsRun(rec.evidence, AgentRun(runId, workflowId));
  }

  lemma AppendKeepsRun(evidence: seq<Entry>, entry: Entry)
    ensures entry.AgentRun? || (exists i :: 0 <= i < |evidence| && evidence[i].AgentRun?) ==>
            exists i :: 0 <= i < |evidence + [entry]| && (evidence + [entry])[i].AgentRun?
  {
    var all := evidence + [entry];
    assert all[|evidence|] == entry;
    if i :| 0 <= i < |evidence| && evidence[i].AgentRun? {
      assert all[i].AgentRun?;
    }
  }

  /** Each effect of the list is safe where it is made. */
  predicate AllSafe(rec: Record, effects: seq<Effect>)
    decreases |effects|
  {
    effects == [] || (SafeEffect(rec, effects[0]) && AllSafe(Applied(rec, effects[0]), effects[1..]))
  }

  lemma {:induction false} AllSafeKeepsAccountable(rec: Record, effects: seq<Effect>, n: nat)
    requires Accountable(rec) && AllSafe(rec, effects)
    ensures Accountable(Performed(rec, Cut(effects, n)))
    decreases |effects|
  {
    if effects != [] && n > 0 {
      SafeEffectKeepsAccountable(rec, effects[0]);
      AllSafeKeepsAccountable(Applied(rec, effects[0]), effects[1..], n - 1);
      assert Cut(effects, n)[1..] == Cut(effects[1..], n - 1);
    }
  }

  lemma TwoSafe(rec: Record, e: Effect, f: Effect)
    requires SafeEffect(rec, e) && SafeEffect(Applied(rec, e), f)
    ensures AllSafe(rec, [e, f])
  {
    assert [e, f][1..] == [f] && [f][1..] == [];
  }

  lemma EscalationIsSafe(rec: Record, t: Ticket)
    requires OneTicket(rec.evidence) && t.id != "" && (CreatedTicket(rec.evidence).Some? ==> CreatedTicket(rec.evidence).value == t)
    ensures AllSafe(rec, EscalateEffects(t))
  {
    var entry := Decision("escalate", t.id, t.number);
    AppendKeepsOneTicket(rec.evidence, entry);
    TwoSafe(rec, Append(entry), Finish(Escalated, EscalatedReason(t.number)));
  }

  lemma EffectsAreSafe(rec: Record, q: Request)
    requires Accountable(rec) && Valid(q)
    ensures AllSafe(rec, Effects(rec, q))
  {
    match q
    case DirectEscalate(t) =>
      if Effects(rec, q) != [] { EscalationIsSafe(rec, t.value); }
    case Decide(choice, t, run, refused) =>
      DecisionIsSafe(rec, choice, t, run, refused);
    case _ =>
  }

  lemma DecisionIsSafe(rec: Record, choice: Choice, t: Option<Ticket>, run: Option<string>, refused: bool)
    requires Accountable(rec) && Valid(Decide(choice, t, run, refused))
    ensures AllSafe(rec, DecideEffects(rec, choice, t, run, refused))
  {
    if choice.Escalate? && TicketToUse(rec.evidence, t).Some? {
      EscalationIsSafe(rec, TicketToUse(rec.evidence, t).value);
    }
  }

  lemma NextIsAccountable(rec: Record, e: Event)
    requires Accountable(rec) && Allowed(e)
    ensures Accountable(Next(rec, e))
  {
    match e
    case Asked(q, n) =>
      EffectsAreSafe(rec, q);
      AllSafeKeepsAccountable(rec, Effects(rec, q), n);
    case Detected(entries) =>
      DetectionIsSafe(rec, entries);
    case Reconciled =>
  }

  lemma DetectionIsSafe(rec: Record, entries: seq<Entry>)
    requires Accountable(rec) && forall i :: 0 <= i < |entries| ==> entries[i].Degraded? || entries[i].LogTraces?
    ensures Accountable(rec.(evidence := rec.evidence + entries))
  {
    var all := rec.evidence + entries;
    assert forall i :: 0 <= i < |rec.evidence| ==> all[i] == rec.evidence[i];
    assert forall i :: |rec.evidence| <= i < |all| ==> all[i] == entries[i - |rec.evidence|];
  }

  /**
   * Whatever requests arrive, wherever they are cut off, and whatever detection does in between: an escalated record
   * has a ticketed escalation on record, all such entries name one ticket, and a record in progress names a run.
   */
  lemma {:induction false} EveryRunIsAccountable(rec: Record, events: seq<Event>)
    requires Accountable(rec) && forall i :: 0 <= i < |events| ==> Allowed(events[i])
    ensures Accountable(After(rec, events))
  {
    if events != [] {
      var n := |events| - 1;
      EveryRunIsAccountable(rec, events[..n]);
      NextIsAccountable(After(rec, events[..n]), events[n]);
    }
  }

  // ---- Retrying an escalation that was cut off ----

  lemma AppendedTicketIsFound(evidence: seq<Entry>, t: Ticket)
    requires t.id != "" && (CreatedTicket(evidence).Some? ==> CreatedTicket(evidence).value == t)
    ensures CreatedTicket(evidence + [Decision("escalate", t.id, t.number)]) == Some(t)
  {
    if evidence != [] {
      var all := evidence + [Decision("escalate", t.id, t.number)];
      assert all[1..] == evidence[1..] + [Decision("escalate", t.id, t.number)];
      if !Ticketed(evidence[0]) {
        AppendedTicketIsFound(evidence[1..], t);
      }
    }
  }

  lemma {:induction false} TicketStaysFound(evidence: seq<Entry>, more: seq<Entry>)
    requires CreatedTicket(evidence).Some?
    ensures CreatedTicket(evidence + more) == CreatedTicket(evidence)
  {
    if !Ticketed(evidence[0]) {
      TicketStaysFound(evidence[1..], more);
      assert (evidence + more)[1..] == evidence[1..] + more;
    }
  }

  /** After a crash between the ticket entry and the change of state, the record is as open as before and has its ticket. */
  lemma CutOffEscalation(rec: Record, q: Request, t: Ticket)
    requires Effects(rec, q) == EscalateEffects(t) && t.id != ""
    requires CreatedTicket(rec.evidence).Some? ==> CreatedTicket(rec.evidence).value == t
    ensures var cut := Handled(rec, q, 1);
      && cut == Noted(rec, Decision("escalate", t.id, t.number)) && cut.state == rec.state
      && CreatedTicket(cut.evidence) == Some(t)
  {
    assert Cut(Effects(rec, q), 1) == [EscalateEffects(t)[0]];
    PerformedOne(rec, EscalateEffects(t)[0]);
    AppendedTicketIsFound(rec.evidence, t);
  }

  /** A direct escalation, asked for again with whatever ticket on offer, or a detection round. */
  predicate RetryOrRound(e: Event) {
    Allowed(e) && (e.Asked? ==> e.q.DirectEscalate?) && !e.Reconciled?
  }

  lemma {:induction false} DirectRetryIsRefused(rec: Record, events: seq<Event>)
    requires CreatedTicket(rec.evidence).Some? && forall i :: 0 <= i < |events| ==> RetryOrRound(events[i])
    ensures var after := After(rec, events);
      after.state == rec.state && CreatedTicket(after.evidence) == CreatedTicket(rec.evidence)
  {
    if events != [] {
      var n := |events| - 1;
      DirectRetryIsRefused(rec, events[..n]);
      OneRetryIsRefused(After(rec, events[..n]), events[n]);
    }
  }

  lemma OneRetryIsRefused(rec: Record, e: Event)
    requires CreatedTicket(rec.evidence).Some? && RetryOrRound(e)
    ensures Next(rec, e).state == rec.state && CreatedTicket(Next(rec, e).evidence) == CreatedTicket(rec.evidence)
  {
    if e.Detected? {
      TicketStaysFound(rec.evidence, e.entries);
    } else {
      assert Effects(rec, e.q) == [];
    }
  }

  lemma DirectEscalateEffects(rec: Record, t: Ticket)
    requires IsOpen(rec.state) && CreatedTicket(rec.evidence).None?
    ensures Effects(rec, DirectEscalate(Some(t))) == EscalateEffects(t)
  {
  }

  /** Repeating a direct escalation that was cut off never completes it, however often and whatever rounds come between. */
  lemma DirectRetryNeverCompletes(rec: Record, t: Ticket, events: seq<Event>)
    requires IsOpen(rec.state) && CreatedTicket(rec.evidence).None? && t.id != ""
    requires forall i :: 0 <= i < |events| ==> RetryOrRound(events[i])
    ensures var after := After(Handled(rec, DirectEscalate(Some(t)), 1), events);
      IsOpen(after.state) && after.state == rec.state && CreatedTicket(after.evidence) == Some(t)
  {
    DirectEscalateEffects(rec, t);
    CutOffEscalation(rec, DirectEscalate(Some(t)), t);
    DirectRetryIsRefused(Handled(rec, DirectEscalate(Some(t)), 1), events);
  }

  /**
   * A decision to escalate completes an escalation that was cut off, with the ticket on record, exactly when a run or
   * a session is bound.
   */
  lemma DecisionRetryCompletesIffBound(rec: Record, q: Request, t: Ticket, offered: Option<Ticket>, n: nat)
    requires IsOpen(rec.state) && Effects(rec, q) == EscalateEffects(t) && t.id != "" && n >= 2
    requires CreatedTicket(rec.evidence).Some? ==> CreatedTicket(rec.evidence).value == t
    ensures var cut := Handled(rec, q, 1); var after := Handled(cut, Decide(Escalate, offered, None, false), n);
      if Bound(rec.evidence)
      then after.state == Escalated && after.resolveReason == Some(EscalatedReason(t.number)) && CreatedTicket(after.evidence) == Some(t)
      else after == cut
  {
    var cut := Handled(rec, q, 1);
    CutOffEscalation(rec, q, t);
    BindingsUnchanged(rec.evidence, Decision("escalate", t.id, t.number));
    DecisionUsesTicket(cut, t, offered);
    EscalationEnds(cut, t);
  }

  /** Whether the record can be decided upon. */
  predicate Bound(evidence: seq<Entry>) {
    LatestRun(evidence).Some? || HasSession(evidence)
  }

  lemma DecisionUsesTicket(rec: Record, t: Ticket, offered: Option<Ticket>)
    requires IsOpen(rec.state) && CreatedTicket(rec.evidence) == Some(t)
    ensures Effects(rec, Decide(Escalate, offered, None, false)) == if Bound(rec.evidence) then EscalateEffects(t) else []
  {
  }

  lemma EscalationEnds(rec: Record, t: Ticket)
    requires CreatedTicket(rec.evidence) == Some(t)
    ensures var after := Performed(rec, EscalateEffects(t));
      after.state == Escalated && after.resolveReason == Some(EscalatedReason(t.number)) && CreatedTicket(after.evidence) == Some(t)
  {
    AppendedTicketIsFound(rec.evidence, t);
    PerformedTwo(rec, Append(Decision("escalate", t.id, t.number)), Finish(Escalated, EscalatedReason(t.number)));
  }

  lemma BindingsUnchanged(evidence: seq<Entry>, entry: Entry)
    requires entry.Decision?
    ensures Bound(evidence + [entry]) <==> Bound(evidence)
  {
    var all := evidence + [entry];
    assert all[..|evidence|] == evidence && all[|evidence|] == entry;
    assert forall i :: 0 <= i < |evidence| ==> all[i] == evidence[i];
  }

  // ---- Reports from the ticket service ----

  /** A report, handled to the end, resolves the record exactly when all of this holds. */
  predicate WillResolve(rec: Record, ticket: string, status: string, description: string) {
    status == "resolved" && rec.state.Escalated? && HoldsTicket(rec, ticket) && !Reported(rec.evidence, ticket, status, description)
  }

  lemma ReportResolvesIff(rec: Record, text: string, status: string, description: string, n: nat)
    requires n >= 2
    ensures var after := Handled(rec, Report(text, status, description), n);
      if WillResolve(rec, Strip(text), status, description)
      then after.state == Resolved && after.resolveReason == Some("agentflow:resolved:" + Strip(text))
      else after.state == rec.state && after.resolveReason == rec.resolveReason
  {
    var effects := ReportEffects(rec, Strip(text), status, description);
    if |effects| == 2 {
      assert effects == [effects[0], effects[1]];
      PerformedTwo(rec, effects[0], effects[1]);
    } else if |effects| == 1 {
      assert effects == [effects[0]];
      PerformedOne(rec, effects[0]);
    }
  }

  /** A report cut off before the change of state is lost: no repetition of it ever resolves the record. */
  lemma {:induction false} CutOffReportIsLost(rec: Record, text: string, description: string, events: seq<Event>)
    requires WillResolve(rec, Strip(text), "resolved", description)
    requires forall i :: 0 <= i < |events| ==> events[i].Asked? && events[i].q == Report(text, "resolved", description)
    ensures var cut := Handled(rec, Report(text, "resolved", description), 1);
      cut.state.Escalated? && After(cut, events) == cut
  {
    var q := Report(text, "resolved", description);
    var cut := Handled(rec, q, 1);
    var entry := TicketStatus(Strip(text), "resolved", description);
    assert Cut(Effects(rec, q), 1) == [Append(entry)];
    PerformedOne(rec, Append(entry));
    assert cut == Noted(rec, entry);
    assert cut.evidence[|rec.evidence|] == entry;
    if events != [] {
      CutOffReportIsLost(rec, text, description, events[..|events| - 1]);
    }
  }

  // ---- The endpoints on the store ----

  /** The store with the record at position i changed. */
  function WithRecord(rows: seq<Row>, i: nat, rec: Record): seq<Row>
    requires i < |rows|
  {
    rows[i := rows[i].(rec := rec)]
  }

  lemma UpdatesAt(rows: seq<Row>, i: nat, f: Record -> Record)
    requires DistinctIds(rows) && i < |rows|
    ensures Owned(rows, rows[i].rec.tenantId, rows[i].rec.recordId) == Some(i)
    ensures Updated(rows, rows[i].rec.tenantId, rows[i].rec.recordId, f) == WithRecord(rows, i, f(rows[i].rec))
  {
    assert Find(rows, rows[i].rec.recordId) == Some(i);
  }

  method Perform(store: RecordStore, i: nat, e: Effect)
    requires DistinctIds(store.rows) && i < |store.rows| && store.rows[i].rec.tenantId != ""
    modifies store
    ensures i < |old(store.rows)| && store.rows == WithRecord(old(store.rows), i, Applied(old(store.rows)[i].rec, e))
  {
    var tenant, id := store.rows[i].rec.tenantId, store.rows[i].rec.recordId;
    match e {
      case Append(entry) =>
        UpdatesAt(store.rows, i, rec => Noted(rec, entry));
        var _ := store.AppendEvidence(tenant, id, entry);
      case Finish(state, reason) =>
        UpdatesAt(store.rows, i, rec => Ended(rec, state, reason));
        var _ := store.SetTerminalState(tenant, id, state, reason);
      case Begin(runId, workflowId) =>
        UpdatesAt(store.rows, i, rec => Started(rec, runId, workflowId));
        var _ := store.MarkInProgress(tenant, id, runId, workflowId);
    }
  }

  lemma {:induction false} PerformedStep(rec: Record, effects: seq<Effect>, k: nat)
    requires k < |effects|
    ensures Performed(rec, effects[..k + 1]) == Applied(Performed(rec, effects[..k]), effects[k])
    decreases k
  {
    if k == 0 {
      assert effects[..1][1..] == [] && effects[..0] == [];
    } else {
      PerformedStep(Applied(rec, effects[0]), effects[1..], k - 1);
      assert effects[..k + 1][1..] == effects[1..][..k] && effects[..k][1..] == effects[1..][..k - 1];
    }
  }

  /** The store after a request on the record with this id, cut off after n operations; an unknown id has no effect. */
  function HandledRows(rows: seq<Row>, tenant: string, id: string, q: Request, n: nat): seq<Row> {
    var at := Owned(rows, tenant, id);
    if tenant == "" || at.None? then rows else WithRecord(rows, at.value, Handled(rows[at.value].rec, q, n))
  }

  /** A request performs its effects one store operation after the other, up to the crash. */
  method Handle(store: RecordStore, tenant: string, id: string, q: Request, n: nat) returns (r: Result<bool>)
    requires DistinctIds(store.rows)
    modifies store
    ensures r.TenantRequired? <==> tenant == ""
    ensures r.Ok? ==> r.value == Owned(old(store.rows), tenant, id).Some?
    ensures store.rows == HandledRows(old(store.rows), tenant, id, q, n)
  {
    if tenant == "" { return TenantRequired; }
    var at := Owned(store.rows, tenant, id);
    if at.None? { return Ok(false); }
    var i, rec := at.value, store.rows[at.value].rec;
    var effects := Cut(Effects(rec, q), n);
    assert WithRecord(store.rows, i, rec) == store.rows;
    for k := 0 to |effects|
      invariant store.rows == WithRecord(old(store.rows), i, Performed(rec, effects[..k]))
    {
      PerformedStep(rec, effects, k);
      PerformedKeepsIdentity(rec, effects[..k]);
      Perform(store, i, effects[k]);
    }
    assert effects[..|effects|] == effects;
    r := Ok(true);
  }

  lemma {:induction false} PerformedKeepsIdentity(rec: Record, effects: seq<Effect>)
    ensures Performed(rec, effects).recordId == rec.recordId && Performed(rec, effects).tenantId == rec.tenantId
    decreases |effects|
  {
    if effects != [] {
      PerformedKeepsIdentity(Applied(rec, effects[0]), effects[1..]);
    }
  }

  /** The first record of the tenant that holds the ticket. */
  method FindByTicket(rows: seq<Row>, tenant: string, ticket: string) returns (at: Option<nat>)
    ensures at.Some? ==> at.value < |rows| && rows[at.value].rec.tenantId == tenant && HoldsTicket(rows[at.value].rec, ticket)
    ensures at.Some? ==> forall j :: 0 <= j < at.value && rows[j].rec.tenantId == tenant ==> !HoldsTicket(rows[j].rec, ticket)
    ensures at.None? ==> forall j :: 0 <= j < |rows| && rows[j].rec.tenantId == tenant ==> !HoldsTicket(rows[j].rec, ticket)
  {
    for i := 0 to |rows|
      invariant forall j :: 0 <= j < i && rows[j].rec.tenantId == tenant ==> !HoldsTicket(rows[j].rec, ticket)
    {
      if rows[i].rec.tenantId == tenant && HoldsTicket(rows[i].rec, ticket) {
        return Some(i);
      }
    }
    at := None;
  }

  /** A report goes to the holder of its ticket; without one it has no effect. */
  method ReportTicketStatus(store: RecordStore, tenant: string, text: string, status: string, description: string, n: nat)
    returns (r: Result<Option<nat>>)
    requires DistinctIds(store.rows)
    modifies store
    ensures r.TenantRequired? ==> tenant == "" && store.rows == old(store.rows)
    ensures r.Ok? && r.value.None? ==> store.rows == old(store.rows)
                                       && forall j :: 0 <= j < |store.rows| && store.rows[j].rec.tenantId == tenant ==>
                                                        !HoldsTicket(store.rows[j].rec, Strip(text))
    ensures r.Ok? && r.value.Some? ==>
              && r.value.value < |old(store.rows)| && HoldsTicket(old(store.rows)[r.value.value].rec, Strip(text))
              && store.rows == WithRecord(old(store.rows), r.value.value,
                                          Handled(old(store.rows)[r.value.value].rec, Report(text, status, description), n))
  {
    if Strip(text) == "" { return Ok(None); }
    if tenant == "" { return TenantRequired; }
    var at := FindByTicket(store.rows, tenant, Strip(text));
    if at.None? { return Ok(None); }
    UpdatesAt(store.rows, at.value, rec => rec);
    var _ := Handle(store, tenant, store.rows[at.value].rec.recordId, Report(text, status, description), n);
    r := Ok(at);
  }
}
