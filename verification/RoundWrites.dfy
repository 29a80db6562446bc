/** The records a round writes, group by group. */
module RoundWrites {
  import opened Anomalies
  import opened GroupingRules
  import opened GroupCounts
  import opened Pipeline
  import opened PipelineLaws
  import DS = DetectionState
  import R = Records

  /** The rows after writing the records one after the other. */
  function WrittenAll(rows: seq<R.Row>, tenant: string, recs: seq<R.Record>): seq<R.Row> {
    if recs == [] then rows
    else R.Written(WrittenAll(rows, tenant, recs[..|recs| - 1]), tenant, recs[|recs| - 1])
  }

  lemma OneMoreWritten(rows: seq<R.Row>, tenant: string, recs: seq<R.Record>, rec: R.Record)
    ensures WrittenAll(rows, tenant, recs + [rec]) == R.Written(WrittenAll(rows, tenant, recs), tenant, rec)
  {
    assert (recs + [rec])[..|recs|] == recs;
  }

  lemma {:induction false} EmissionsAreWritten(ctx: Context, states: DS.Rows, start: Output, groups: seq<seq<Anomaly>>)
    requires start.emitted == []
    ensures var out := Emissions(ctx, states, start, groups); out.rows == WrittenAll(start.rows, ctx.tenant, out.emitted)
  {
    if groups != [] {
      var n := |groups| - 1;
      EmissionsAreWritten(ctx, states, start, groups[..n]);
      var so, v := Emissions(ctx, states, start, groups[..n]), Judged(ctx, states, groups[n]);
      OneMoreWritten(start.rows, ctx.tenant, so.emitted, Assembled(ctx, NextId(so.next, ctx.days(n)), groups[n], v.severity));
    }
  }

  /** Some member of group g has, with this round, appeared often enough over the whole history. */
  ghost predicate GroupReached(ctx: Context, history: seq<DS.Round>, round: seq<Anomaly>, groups: seq<seq<nat>>, g: nat)
    requires g < |groups| && Within(round, groups[g])
  {
    exists k: nat :: k < |groups[g]| && TotalReached(ctx, history, round, groups[g][k])
  }

  /** For each group, whether it has. */
  ghost function ReachedGroups(ctx: Context, history: seq<DS.Round>, round: seq<Anomaly>, groups: seq<seq<nat>>): (flags: seq<bool>)
    requires forall h :: 0 <= h < |groups| ==> Within(round, groups[h])
    ensures |flags| == |groups| && forall g: nat :: g < |groups| ==> flags[g] == GroupReached(ctx, history, round, groups, g)
  {
    seq(|groups|, g requires 0 <= g < |groups| => GroupReached(ctx, history, round, groups, g))
  }

  function PassedGroups(ctx: Context, states: DS.Rows, groups: seq<seq<Anomaly>>): seq<bool> {
    seq(|groups|, g requires 0 <= g < |groups| => Judged(ctx, states, groups[g]).passed)
  }

  /** The raised positions below g, ascending. */
  function Raised(flags: seq<bool>, g: nat): (r: seq<nat>)
    requires g <= |flags|
    ensures forall j :: 0 <= j < |r| ==> r[j] < g && flags[r[j]]
    ensures forall i, j :: 0 <= i < j < |r| ==> r[i] < r[j]
    ensures forall h: nat :: h < g && flags[h] ==> h in r
  {
    if g == 0 then [] else if flags[g - 1] then Raised(flags, g - 1) + [g - 1] else Raised(flags, g - 1)
  }

  /** The passing groups are those at the given positions. */
  ghost predicate PassingAt(passing: seq<Passed>, groups: seq<seq<Anomaly>>, at: seq<nat>) {
    |passing| == |at| && forall j :: 0 <= j < |at| ==> at[j] < |groups| && passing[j].group == groups[at[j]]
  }

  lemma OneMorePassing(passing: seq<Passed>, groups: seq<seq<Anomaly>>, at: seq<nat>, p: Passed, g: nat)
    requires PassingAt(passing, groups, at) && g < |groups| && p.group == groups[g]
    ensures PassingAt(passing + [p], groups, at + [g])
  {
  }

  lemma NextPassing(ctx: Context, states: DS.Rows, groups: seq<seq<Anomaly>>, g: nat)
    requires g < |groups|
    ensures var v := Judged(ctx, states, groups[g]);
      Passing(ctx, states, groups[..g + 1]) ==
      if v.passed then Passing(ctx, states, groups[..g]) + [Passed(groups[g], v.severity)] else Passing(ctx, states, groups[..g])
  {
    assert groups[..g + 1][..g] == groups[..g];
  }

  lemma {:induction false} PassingIsRaised(ctx: Context, states: DS.Rows, groups: seq<seq<Anomaly>>, g: nat)
    requires g <= |groups|
    ensures PassingAt(Passing(ctx, states, groups[..g]), groups, Raised(PassedGroups(ctx, states, groups), g))
  {
    if g > 0 {
      var flags := PassedGroups(ctx, states, groups);
      var h: nat := g - 1;
      PassingIsRaised(ctx, states, groups, h);
      RaisedOneMore(ctx, states, groups, h, flags);
    }
  }

  lemma RaisedOneMore(ctx: Context, states: DS.Rows, groups: seq<seq<Anomaly>>, h: nat, flags: seq<bool>)
    requires h < |groups| && flags == PassedGroups(ctx, states, groups)
    requires PassingAt(Passing(ctx, states, groups[..h]), groups, Raised(flags, h))
    ensures PassingAt(Passing(ctx, states, groups[..h + 1]), groups, Raised(flags, h + 1))
  {
    var v := Judged(ctx, states, groups[h]);
    assert flags[h] == v.passed;
    NextPassing(ctx, states, groups, h);
    if v.passed {
      OneMorePassing(Passing(ctx, states, groups[..h]), groups, Raised(flags, h), Passed(groups[h], v.severity), h);
    }
  }

  lemma PassedIsReached(ctx: Context, states: DS.Rows, history: seq<DS.Round>, round: seq<Anomaly>, groups: seq<seq<nat>>)
    requires DS.Reflects(states, history) && IsGrouping(round, groups)
    requires forall h :: 0 <= h < |groups| ==> Within(round, groups[h])
    ensures PassedGroups(ctx, states, AllMembers(round, groups)) == ReachedGroups(ctx, history, round, groups)
  {
    var passed, reached := PassedGroups(ctx, states, AllMembers(round, groups)), ReachedGroups(ctx, history, round, groups);
    forall g: nat | g < |groups| ensures passed[g] == reached[g] {
      EmitsIffTotalReached(ctx, states, history, round, groups, g);
    }
  }
}
