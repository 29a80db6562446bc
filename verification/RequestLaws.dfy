/** What each request, handled to the end, makes of its record, and when it does nothing. */
module RequestLaws {
  import opened Records
  import opened Outcomes
  import opened Text
  import opened Escalation

  /** The record in another state, for another reason, with more evidence; everything else as it was. */
  function Became(rec: Record, state: State, reason: Option<string>, more: seq<Entry>): Record {
    rec.(state := state, resolveReason := reason, evidence := rec.evidence + more)
  }

  /** More evidence, and nothing else. */
  function WithMore(rec: Record, more: seq<Entry>): Record {
    Became(rec, rec.state, rec.resolveReason, more)
  }

  lemma NothingHappens(rec: Record, q: Request, n: nat)
    requires Effects(rec, q) == []
    ensures Handled(rec, q, n) == rec
  {
  }

  lemma OneEffect(rec: Record, q: Request, n: nat, e: Effect)
    requires Effects(rec, q) == [e] && n >= 1
    ensures Handled(rec, q, n) == Applied(rec, e)
  {
    PerformedOne(rec, e);
  }

  lemma TwoEffects(rec: Record, q: Request, n: nat, e: Effect, f: Effect)
    requires Effects(rec, q) == [e, f] && n >= 2
    ensures Handled(rec, q, n) == Applied(Applied(rec, e), f)
  {
    PerformedTwo(rec, e, f);
  }

  // ---- By hand ----

  /** Resolving by hand resolves, whatever the record's state. */
  lemma ResolvedByHand(rec: Record, n: nat)
    requires n >= 1
    ensures Handled(rec, ResolveByHand, n) == Became(rec, Resolved, Some("manual"), [])
  {
    OneEffect(rec, ResolveByHand, n, Finish(Resolved, "manual"));
  }

  /** Ignoring by hand closes, whatever the record's state. */
  lemma IgnoredByHand(rec: Record, n: nat)
    requires n >= 1
    ensures Handled(rec, IgnoreByHand, n) == Became(rec, Closed, Some("ignored"), [])
  {
    OneEffect(rec, IgnoreByHand, n, Finish(Closed, "ignored"));
  }

  // ---- Escalating ----

  predicate HasTicket(evidence: seq<Entry>) {
    exists i :: 0 <= i < |evidence| && Ticketed(evidence[i])
  }

  predicate FirstTicketAt(evidence: seq<Entry>, i: nat) {
    i < |evidence| && Ticketed(evidence[i]) && forall j :: 0 <= j < i ==> !Ticketed(evidence[j])
  }

  lemma {:induction false} FirstTicketIsUsed(evidence: seq<Entry>, i: nat)
    requires FirstTicketAt(evidence, i)
    ensures CreatedTicket(evidence) == Some(Ticket(evidence[i].ticketId, evidence[i].ticketNumber))
    decreases i
  {
    if i > 0 {
      assert evidence[1..][i - 1] == evidence[i];
      FirstTicketIsUsed(evidence[1..], i - 1);
    }
  }

  function EscalatedWith(rec: Record, t: Ticket): Record {
    Became(rec, Escalated, Some(if t.number == "" then "escalated" else "escalated:" + t.number),
           [Decision("escalate", t.id, t.number)])
  }

  lemma EscalateEffectsEscalate(rec: Record, q: Request, n: nat, t: Ticket)
    requires Effects(rec, q) == EscalateEffects(t) && n >= 2
    ensures Handled(rec, q, n) == EscalatedWith(rec, t)
  {
    TwoEffects(rec, q, n, Append(Decision("escalate", t.id, t.number)), Finish(Escalated, EscalatedReason(t.number)));
  }

  /** An open record without a ticket is escalated with the one created; otherwise nothing happens. */
  lemma EscalatedDirectly(rec: Record, ticket: Option<Ticket>, n: nat)
    requires n >= 2
    ensures Handled(rec, DirectEscalate(ticket), n) ==
            if IsOpen(rec.state) && !HasTicket(rec.evidence) && ticket.Some? then EscalatedWith(rec, ticket.value) else rec
  {
    if IsOpen(rec.state) && !HasTicket(rec.evidence) && ticket.Some? {
      EscalateEffectsEscalate(rec, DirectEscalate(ticket), n, ticket.value);
    } else {
      NothingHappens(rec, DirectEscalate(ticket), n);
    }
  }

  // ---- Deciding ----

  predicate RunOrSession(e: Entry) {
    (e.AgentRun? && e.runId != "") || (e.Session? && e.sessionId != "")
  }

  /** An open record with a run or a session on file can be decided upon, unless the request is turned down. */
  predicate CanDecide(rec: Record, refused: bool) {
    IsOpen(rec.state) && !refused && exists i :: 0 <= i < |rec.evidence| && RunOrSession(rec.evidence[i])
  }

  lemma BoundIffEntry(evidence: seq<Entry>)
    ensures Bound(evidence) <==> exists i :: 0 <= i < |evidence| && RunOrSession(evidence[i])
  {
    if i :| 0 <= i < |evidence| && RunOrSession(evidence[i]) {
      assert evidence[i].AgentRun? ==> BoundRun(evidence[i]);
    }
    if LatestRun(evidence).Some? {
      var i :| 0 <= i < |evidence| && BoundRun(evidence[i]);
      assert RunOrSession(evidence[i]);
    }
    if HasSession(evidence) {
      var i :| 0 <= i < |evidence| && evidence[i].Session? && evidence[i].sessionId != "";
      assert RunOrSession(evidence[i]);
    }
  }

  lemma CannotDecide(rec: Record, choice: Choice, ticket: Option<Ticket>, run: Option<string>, refused: bool, n: nat)
    requires !CanDecide(rec, refused)
    ensures Handled(rec, Decide(choice, ticket, run, refused), n) == rec
  {
    BoundIffEntry(rec.evidence);
    NothingHappens(rec, Decide(choice, ticket, run, refused), n);
  }

  /** Deciding to escalate uses the first ticket on record, else the one created; without either nothing happens. */
  lemma DecidedToEscalate(rec: Record, ticket: Option<Ticket>, run: Option<string>, refused: bool, n: nat)
    requires n >= 2
    ensures var after := Handled(rec, Decide(Escalate, ticket, run, refused), n);
      && (!CanDecide(rec, refused) || (!HasTicket(rec.evidence) && ticket.None?) ==> after == rec)
      && (forall i: nat :: CanDecide(rec, refused) && FirstTicketAt(rec.evidence, i) ==>
            after == EscalatedWith(rec, Ticket(rec.evidence[i].ticketId, rec.evidence[i].ticketNumber)))
      && (CanDecide(rec, refused) && !HasTicket(rec.evidence) && ticket.Some? ==> after == EscalatedWith(rec, ticket.value))
  {
    var q := Decide(Escalate, ticket, run, refused);
    if !CanDecide(rec, refused) {
      CannotDecide(rec, Escalate, ticket, run, refused, n);
    } else {
      BoundIffEntry(rec.evidence);
      var t := TicketToUse(rec.evidence, ticket);
      if t.None? {
        NothingHappens(rec, q, n);
      } else {
        EscalateEffectsEscalate(rec, q, n, t.value);
      }
      forall i: nat | FirstTicketAt(rec.evidence, i) ensures t == Some(Ticket(rec.evidence[i].ticketId, rec.evidence[i].ticketNumber)) {
        FirstTicketIsUsed(rec.evidence, i);
      }
    }
  }

  /** Deciding to ignore closes the record and notes the decision. */
  lemma DecidedToIgnore(rec: Record, ticket: Option<Ticket>, run: Option<string>, refused: bool, n: nat)
    requires n >= 2
    ensures Handled(rec, Decide(Ignore, ticket, run, refused), n) ==
            if CanDecide(rec, refused) then Became(rec, Closed, Some("ignored"), [Decision("ignore", "", "")]) else rec
  {
    if CanDecide(rec, refused) {
      BoundIffEntry(rec.evidence);
      TwoEffects(rec, Decide(Ignore, ticket, run, refused), n, Finish(Closed, "ignored"), Append(Decision("ignore", "", "")));
    } else {
      CannotDecide(rec, Ignore, ticket, run, refused, n);
    }
  }

  /** Deciding on a false alarm resolves the record and notes the decision. */
  lemma DecidedFalsePositive(rec: Record, ticket: Option<Ticket>, run: Option<string>, refused: bool, n: nat)
    requires n >= 2
    ensures Handled(rec, Decide(FalsePositive, ticket, run, refused), n) ==
            if CanDecide(rec, refused)
            then Became(rec, Resolved, Some("false_positive"), [Decision("false_positive", "", "")]) else rec
  {
    if CanDecide(rec, refused) {
      BoundIffEntry(rec.evidence);
      TwoEffects(rec, Decide(FalsePositive, ticket, run, refused), n, Finish(Resolved, "false_positive"),
                 Append(Decision("false_positive", "", "")));
    } else {
      CannotDecide(rec, FalsePositive, ticket, run, refused, n);
    }
  }

  /** State and reason of a decision that ends the record, and the entry that notes it. */
  function EndOf(choice: Choice): (State, string, Entry)
    requires choice.Ignore? || choice.FalsePositive?
  {
    if choice.Ignore? then (Closed, "ignored", Decision("ignore", "", ""))
    else (Resolved, "false_positive", Decision("false_positive", "", ""))
  }

  /** Cut off in between, such a decision has ended the record without being noted, and no repetition notes it any more. */
  lemma CutOffDecisionIsLost(rec: Record, choice: Choice, q: Request, again: Request, n: nat)
    requires (choice.Ignore? || choice.FalsePositive?) && q.Decide? && q.choice == choice && again.Decide?
    requires CanDecide(rec, q.refused)
    ensures var cut := Handled(rec, q, 1);
      cut == Became(rec, EndOf(choice).0, Some(EndOf(choice).1), []) && Handled(cut, again, n) == cut
  {
    BoundIffEntry(rec.evidence);
    var end := EndOf(choice);
    assert Effects(rec, q) == [Finish(end.0, end.1), Append(end.2)];
    assert Cut(Effects(rec, q), 1) == [Finish(end.0, end.1)];
    PerformedOne(rec, Finish(end.0, end.1));
    CannotDecide(Handled(rec, q, 1), again.choice, again.ticket, again.run, again.refused, n);
  }

  predicate LastRunAt(evidence: seq<Entry>, i: nat) {
    i < |evidence| && BoundRun(evidence[i]) && forall j :: i < j < |evidence| ==> !BoundRun(evidence[j])
  }

  predicate HasAnyRun(evidence: seq<Entry>) {
    exists i :: 0 <= i < |evidence| && BoundRun(evidence[i])
  }

  lemma {:induction false} LastRunIsLatest(evidence: seq<Entry>, i: nat)
    requires LastRunAt(evidence, i)
    ensures LatestRun(evidence) == Some(evidence[i])
    decreases |evidence|
  {
    var n := |evidence| - 1;
    if i < n {
      LastRunIsLatest(evidence[..n], i);
    }
  }

  /**
   * Rejecting a run's plan starts another run of the same workflow and notes both; without a run on file only the
   * rejection is noted. The record stays as open as it was.
   */
  lemma DecidedToReject(rec: Record, ticket: Option<Ticket>, run: Option<string>, refused: bool, n: nat)
    requires n >= 2
    ensures var after := Handled(rec, Decide(Reject, ticket, run, refused), n);
      && (!CanDecide(rec, refused) ==> after == rec)
      && (CanDecide(rec, refused) && !HasAnyRun(rec.evidence) ==> after == WithMore(rec, [Decision("reject", "", "")]))
      && (forall i: nat :: CanDecide(rec, refused) && LastRunAt(rec.evidence, i) ==>
            after == if rec.evidence[i].workflowId == "" || run.None? then rec
                     else WithMore(rec, [AgentRun(run.value, rec.evidence[i].workflowId), Decision("reject", "", "")]))
  {
    var q := Decide(Reject, ticket, run, refused);
    var latest := LatestRun(rec.evidence);
    if !CanDecide(rec, refused) {
      CannotDecide(rec, Reject, ticket, run, refused, n);
    } else {
      BoundIffEntry(rec.evidence);
      if latest.None? {
        OneEffect(rec, q, n, Append(Decision("reject", "", "")));
      } else if latest.value.workflowId == "" || run.None? {
        NothingHappens(rec, q, n);
      } else {
        RejectedRun(rec, q, n, AgentRun(run.value, latest.value.workflowId));
      }
      forall i: nat | LastRunAt(rec.evidence, i) ensures latest == Some(rec.evidence[i]) {
        LastRunIsLatest(rec.evidence, i);
      }
    }
  }

  /** Cut off in between, a rejection has noted the new run but not itself. */
  lemma CutOffRejection(rec: Record, q: Request, i: nat)
    requires q.Decide? && q.choice.Reject? && q.run.Some? && CanDecide(rec, q.refused)
    requires LastRunAt(rec.evidence, i) && rec.evidence[i].workflowId != ""
    ensures Handled(rec, q, 1) == WithMore(rec, [AgentRun(q.run.value, rec.evidence[i].workflowId)])
  {
    BoundIffEntry(rec.evidence);
    LastRunIsLatest(rec.evidence, i);
    var next := AgentRun(q.run.value, rec.evidence[i].workflowId);
    assert Cut(Effects(rec, q), 1) == [Append(next)];
    PerformedOne(rec, Append(next));
  }

  lemma RejectedRun(rec: Record, q: Request, n: nat, next: Entry)
    requires Effects(rec, q) == [Append(next), Append(Decision("reject", "", ""))] && n >= 2
    ensures Handled(rec, q, n) == WithMore(rec, [next, Decision("reject", "", "")])
  {
    TwoEffects(rec, q, n, Append(next), Append(Decision("reject", "", "")));
    assert rec.evidence + [next] + [Decision("reject", "", "")] == rec.evidence + [next, Decision("reject", "", "")];
  }

  // ---- Runs and sessions ----

  /** A started run takes a pending record into progress; asked for again, it is noted on a record in progress. */
  lemma Analyzed(rec: Record, run: Option<string>, workflow: string, rerun: bool, n: nat)
    requires n >= 1
    ensures Handled(rec, Analyze(run, workflow, rerun), n) ==
            if run.Some? && rec.state.Pending? then Became(rec, InProgress, rec.resolveReason, [AgentRun(run.value, workflow)])
            else if run.Some? && rec.state.InProgress? && rerun then WithMore(rec, [AgentRun(run.value, workflow)])
            else rec
  {
    var q := Analyze(run, workflow, rerun);
    if run.Some? && rec.state.Pending? {
      OneEffect(rec, q, n, Begin(run.value, workflow));
    } else if run.Some? && rec.state.InProgress? && rerun {
      OneEffect(rec, q, n, Append(AgentRun(run.value, workflow)));
    } else {
      NothingHappens(rec, q, n);
    }
  }

  /** A session is bound to an open record that has none. */
  lemma Diagnosed(rec: Record, session: Option<string>, n: nat)
    requires n >= 1
    ensures Handled(rec, Diagnose(session), n) ==
            if session.Some? && IsOpen(rec.state)
               && (forall i :: 0 <= i < |rec.evidence| && rec.evidence[i].Session? ==> rec.evidence[i].sessionId == "")
            then WithMore(rec, [Session(session.value)]) else rec
  {
    var q := Diagnose(session);
    if session.Some? && IsOpen(rec.state) && !HasSession(rec.evidence) {
      OneEffect(rec, q, n, Append(Session(session.value)));
    } else {
      NothingHappens(rec, q, n);
    }
  }

  /** An approval or refusal is noted once per run and node, in any state; the node is `approve-plan` if none is named. */
  lemma RunDecisionNoted(rec: Record, runText: string, nodeText: string, approved: bool, n: nat)
    requires n >= 1
    ensures var run := Strip(runText); var node := if Strip(nodeText) == "" then "approve-plan" else Strip(nodeText);
      Handled(rec, NoteRunDecision(runText, nodeText, approved), n) ==
        if run != "" && (forall i :: 0 <= i < |rec.evidence| && rec.evidence[i].RunDecision? ==>
                                       !(rec.evidence[i].runId == run && rec.evidence[i].nodeId == node))
        then WithMore(rec, [RunDecision(run, node, approved)]) else rec
  {
    var q := NoteRunDecision(runText, nodeText, approved);
    var run := Strip(runText);
    var node := if Strip(nodeText) == "" then "approve-plan" else Strip(nodeText);
    NotedIffEntry(rec.evidence, run, node);
    if run != "" && !(RunDecision(run, node, true) in rec.evidence || RunDecision(run, node, false) in rec.evidence) {
      OneEffect(rec, q, n, Append(RunDecision(run, node, approved)));
    } else {
      NothingHappens(rec, q, n);
    }
  }

  lemma NotedIffEntry(evidence: seq<Entry>, run: string, node: string)
    ensures RunDecision(run, node, true) in evidence || RunDecision(run, node, false) in evidence <==>
            exists i :: 0 <= i < |evidence| && evidence[i].RunDecision? && evidence[i].runId == run && evidence[i].nodeId == node
  {
    if i :| 0 <= i < |evidence| && evidence[i].RunDecision? && evidence[i].runId == run && evidence[i].nodeId == node {
      assert evidence[i] == RunDecision(run, node, evidence[i].approved);
    }
  }

  // ---- Reports ----

  /** A new report to the holder of its ticket is noted, and resolves an escalated record if it says so. */
  lemma Reporting(rec: Record, text: string, status: string, description: string, n: nat)
    requires n >= 2
    ensures var entry := TicketStatus(Strip(text), status, description);
      Handled(rec, Report(text, status, description), n) ==
        if !HoldsTicket(rec, Strip(text)) || entry in rec.evidence then rec
        else if status == "resolved" && rec.state.Escalated?
        then Became(rec, Resolved, Some("agentflow:resolved:" + Strip(text)), [entry])
        else WithMore(rec, [entry])
  {
    var q, ticket := Report(text, status, description), Strip(text);
    var entry := TicketStatus(ticket, status, description);
    if !HoldsTicket(rec, ticket) || entry in rec.evidence {
      NothingHappens(rec, q, n);
    } else if status == "resolved" && rec.state.Escalated? {
      TwoEffects(rec, q, n, Append(entry), Finish(Resolved, "agentflow:resolved:" + ticket));
    } else {
      OneEffect(rec, q, n, Append(entry));
    }
  }
}
