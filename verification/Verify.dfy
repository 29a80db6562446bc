/** Verification of one incident: persistence, false-positive gate and severity. */
module Verify {
  import opened Anomalies
  import DS = DetectionState
  import Records

  // ---- Severity ----

  function TopRank(anomalies: seq<Anomaly>): (r: nat)
    ensures r <= 2
    ensures forall i :: 0 <= i < |anomalies| ==> Records.Rank(anomalies[i].severity) <= r
    ensures r > 0 ==> exists i :: 0 <= i < |anomalies| && Records.Rank(anomalies[i].severity) == r
  {
    if anomalies == [] then 0
    else
      var n := |anomalies| - 1;
      var before := TopRank(anomalies[..n]);
      if Records.Rank(anomalies[n].severity) > before then Records.Rank(anomalies[n].severity) else before
  }

  predicate Has(anomalies: seq<Anomaly>, severity: string) {
    exists i :: 0 <= i < |anomalies| && anomalies[i].severity == severity
  }

  predicate HasHighMetric(anomalies: seq<Anomaly>) {
    exists i :: 0 <= i < |anomalies| && anomalies[i].Metric? && anomalies[i].severity == "high"
  }

  predicate HasHighLog(anomalies: seq<Anomaly>) {
    exists i :: 0 <= i < |anomalies| && anomalies[i].Log? && anomalies[i].severity == "high"
  }

  /** The highest severity present; a related high metric and high log together are critical. */
  function CalibrateSeverity(anomalies: seq<Anomaly>, related: bool): (r: string)
    ensures r == "critical" <==>
            Has(anomalies, "critical") || (related && HasHighMetric(anomalies) && HasHighLog(anomalies))
    ensures r == "high" <==> r != "critical" && Has(anomalies, "high")
    ensures r == "critical" || r == "high" || r == "warning"
  {
    if anomalies == [] then "warning"
    else
      var top := TopRank(anomalies);
      assert forall s: string :: s == "critical" || s == "high" ==> (Has(anomalies, s) ==> top >= Records.Rank(s));
      if related && HasHighMetric(anomalies) && HasHighLog(anomalies) then "critical"
      else if top == 2 then "critical"
      else if top == 1 then "high"
      else "warning"
  }

  // ---- Persistence ----

  /** Appearances of the slot recorded so far. */
  function Prior(rows: DS.Rows, slot: DS.Slot): int {
    if slot in rows then rows[slot].consecutive else 0
  }

  /** How often the i-th anomaly's key occurs up to and including position i. */
  function Occurrence(group: seq<Anomaly>, i: nat): nat
    requires i < |group|
  {
    multiset(Keys(group[..i + 1]))[AnomalyKey(group[i])]
  }

  /** The i-th anomaly reaches the required number of appearances at its turn. */
  predicate Persists(rows: DS.Rows, tenant: string, domain: string, needed: int, group: seq<Anomaly>, i: nat)
    requires i < |group|
  {
    Prior(rows, (tenant, domain, AnomalyKey(group[i]))) + Occurrence(group, i) >= needed
  }

  /** For each anomaly, whether it does. */
  function Turns(rows: DS.Rows, tenant: string, domain: string, needed: int, group: seq<Anomaly>): seq<bool> {
    seq(|group|, i requires 0 <= i < |group| => Persists(rows, tenant, domain, needed, group, i))
  }

  function Where(group: seq<Anomaly>, flags: seq<bool>): (p: seq<Anomaly>)
    requires |flags| == |group|
  {
    if group == [] then []
    else
      var n := |group| - 1;
      Where(group[..n], flags[..n]) + if flags[n] then [group[n]] else []
  }

  lemma {:induction false} WhereCounts(group: seq<Anomaly>, flags: seq<bool>)
    requires |flags| == |group|
    ensures |Where(group, flags)| <= |group|
    ensures Where(group, flags) != [] <==> exists i :: 0 <= i < |flags| && flags[i]
    ensures |Where(group, flags)| == |group| <==> forall i :: 0 <= i < |flags| ==> flags[i]
    ensures |Where(group, flags)| == |group| ==> Where(group, flags) == group
  {
    if group != [] {
      var n := |group| - 1;
      WhereCounts(group[..n], flags[..n]);
      assert forall i :: 0 <= i < n ==> flags[..n][i] == flags[i];
    }
  }

  /** The anomalies that reach it, in order. */
  function Persisted(rows: DS.Rows, tenant: string, domain: string, needed: int, group: seq<Anomaly>): seq<Anomaly> {
    Where(group, Turns(rows, tenant, domain, needed, group))
  }

  lemma {:induction false} LastOccurrence(group: seq<Anomaly>, i: nat) returns (j: nat)
    requires i < |group|
    ensures j < |group| && AnomalyKey(group[j]) == AnomalyKey(group[i])
    ensures Occurrence(group, j) == multiset(Keys(group))[AnomalyKey(group[i])]
  {
    var n: nat := |group| - 1;
    if AnomalyKey(group[n]) == AnomalyKey(group[i]) {
      j := n;
      assert group[..n + 1] == group;
    } else {
      j := LastOccurrence(group[..n], i);
      KeysOfPrefix(group, n);
      assert group[..n + 1] == group && group[..n][..j + 1] == group[..j + 1];
    }
  }

  lemma KeysOfPrefix(group: seq<Anomaly>, n: nat)
    requires n < |group|
    ensures multiset(Keys(group[..n + 1])) == multiset(Keys(group[..n])) + multiset{AnomalyKey(group[n])}
  {
    assert Keys(group[..n + 1]) == Keys(group[..n]) + [AnomalyKey(group[n])];
  }

  /** The group's own appearances of k, together with those on record, reach the required number. */
  predicate Reaches(rows: DS.Rows, tenant: string, domain: string, needed: int, group: seq<Anomaly>, i: nat)
    requires i < |group|
  {
    Prior(rows, (tenant, domain, AnomalyKey(group[i]))) + multiset(Keys(group))[AnomalyKey(group[i])] >= needed
  }

  lemma ReachedIsATurn(rows: DS.Rows, tenant: string, domain: string, needed: int, group: seq<Anomaly>, i: nat) returns (j: nat)
    requires i < |group| && Reaches(rows, tenant, domain, needed, group, i)
    ensures j < |group| && Turns(rows, tenant, domain, needed, group)[j]
  {
    j := LastOccurrence(group, i);
  }

  lemma TurnIsReached(rows: DS.Rows, tenant: string, domain: string, needed: int, group: seq<Anomaly>, i: nat)
    requires i < |group| && Turns(rows, tenant, domain, needed, group)[i]
    ensures Reaches(rows, tenant, domain, needed, group, i)
  {
    OccurrenceIsPart(group, i);
  }

  /** Some member passes at its turn exactly when some member's total reaches the number after the whole group. */
  lemma PassesIffTotalReached(rows: DS.Rows, tenant: string, domain: string, needed: int, group: seq<Anomaly>)
    ensures Persisted(rows, tenant, domain, needed, group) != [] <==>
            exists i: nat :: i < |group| && Reaches(rows, tenant, domain, needed, group, i)
  {
    var turns := Turns(rows, tenant, domain, needed, group);
    WhereCounts(group, turns);
    if i: nat :| i < |group| && Reaches(rows, tenant, domain, needed, group, i) {
      var j := ReachedIsATurn(rows, tenant, domain, needed, group, i);
    }
    if i: nat :| i < |turns| && turns[i] {
      TurnIsReached(rows, tenant, domain, needed, group, i);
    }
  }

  lemma OccurrenceIsPart(group: seq<Anomaly>, i: nat)
    requires i < |group|
    ensures 1 <= Occurrence(group, i) <= multiset(Keys(group))[AnomalyKey(group[i])]
  {
    assert Keys(group) == Keys(group[..i + 1]) + Keys(group[i + 1..]);
    KeysOfPrefix(group, i);
  }

  // ---- The verification ----

  datatype Rate = Rate(fpr: real, total: nat)
  datatype Config = Config(persistenceRounds: int, minSamples: int, threshold: real)
  datatype Verification = Verification(passed: bool, rate: real, severity: string)

  /** The key under which the rate is looked up: the persisted members only. */
  function RateKey(tenant: string, domain: string, service: string, persisted: seq<Anomaly>): Records.GroupKey {
    Records.GroupKey(tenant, domain, service, multiset(Keys(persisted)))
  }

  function RateOf(rates: map<Records.GroupKey, Rate>, key: Records.GroupKey): Rate {
    if key in rates then rates[key] else Rate(0.0, 0)
  }

  /** A rate with enough samples at or above the threshold. */
  predicate TooOftenFalse(config: Config, rate: Rate) {
    rate.total >= config.minSamples && rate.fpr >= config.threshold
  }

  function Verdict(config: Config, rate: Rate, persisted: seq<Anomaly>, related: bool): Verification {
    if persisted == [] then Verification(false, 0.0, "warning")
    else Verification(true, rate.fpr, if TooOftenFalse(config, rate) then "warning" else CalibrateSeverity(persisted, related))
  }

  /** Enough verdicts were booked under the key, and the share of false alarms among them reaches the threshold. */
  predicate Discredited(config: Config, rates: map<Records.GroupKey, Rate>, key: Records.GroupKey) {
    if key in rates then rates[key].total >= config.minSamples && rates[key].fpr >= config.threshold
    else 0 >= config.minSamples && 0.0 >= config.threshold
  }

  /** The severity that the persisted members call for, unless their key is discredited. */
  predicate Graded(config: Config, rates: map<Records.GroupKey, Rate>, key: Records.GroupKey, persisted: seq<Anomaly>,
                   related: bool, severity: string)
  {
    if Discredited(config, rates, key) then severity == "warning"
    else
      && (severity == "critical" <==>
          Has(persisted, "critical") || (related && HasHighMetric(persisted) && HasHighLog(persisted)))
      && (severity == "high" <==> severity != "critical" && Has(persisted, "high"))
      && (severity == "critical" || severity == "high" || severity == "warning")
  }

  /** A group passes exactly if some member persisted, and is then graded by the rate on file under those members' key. */
  lemma VerdictIsGraded(config: Config, rates: map<Records.GroupKey, Rate>, key: Records.GroupKey, persisted: seq<Anomaly>,
                        related: bool)
    ensures var v := Verdict(config, RateOf(rates, key), persisted, related);
      (v.passed <==> persisted != []) && (v.passed ==> Graded(config, rates, key, persisted, related, v.severity))
  {
  }

  /** The positions at which the flag is raised, ascending, and what stands there. */
  ghost predicate Picks(group: seq<Anomaly>, flags: seq<bool>, picked: seq<Anomaly>, at: seq<nat>) {
    && |flags| == |group| && |at| == |picked| && (forall i, j :: 0 <= i < j < |at| ==> at[i] < at[j])
    && (forall k :: 0 <= k < |at| ==> at[k] < |group| && flags[at[k]] && picked[k] == group[at[k]])
    && (forall i: nat :: i < |group| && flags[i] ==> i in at)
  }

  lemma {:induction false} WherePicks(group: seq<Anomaly>, flags: seq<bool>) returns (at: seq<nat>)
    requires |flags| == |group|
    ensures Picks(group, flags, Where(group, flags), at)
  {
    if group == [] {
      at := [];
    } else {
      var n: nat := |group| - 1;
      var before := WherePicks(group[..n], flags[..n]);
      at := if flags[n] then before + [n] else before;
      if flags[n] {
        PickedOneMore(group, flags, Where(group[..n], flags[..n]), before, n);
      } else {
        PickedNoMore(group, flags, Where(group, flags), before, n);
      }
    }
  }

  lemma PickedOneMore(group: seq<Anomaly>, flags: seq<bool>, picked: seq<Anomaly>, at: seq<nat>, n: nat)
    requires |flags| == |group| == n + 1 && flags[n] && Picks(group[..n], flags[..n], picked, at)
    ensures Picks(group, flags, picked + [group[n]], at + [n])
  {
    forall i: nat | i < |group| && flags[i] ensures i in at + [n] {
      assert i < n ==> flags[..n][i];
    }
  }

  lemma PickedNoMore(group: seq<Anomaly>, flags: seq<bool>, picked: seq<Anomaly>, at: seq<nat>, n: nat)
    requires |flags| == |group| == n + 1 && !flags[n] && Picks(group[..n], flags[..n], picked, at)
    ensures Picks(group, flags, picked, at)
  {
    forall i: nat | i < |group| && flags[i] ensures i in at {
      assert flags[..n][i];
    }
  }

  function RoundOf(tenant: string, domain: string, now: int, group: seq<Anomaly>): DS.Round {
    DS.Round(tenant, domain, now, multiset(Keys(group)))
  }

  /** One appearance of the key is recorded; answers whether it has now appeared often enough. */
  method CountAppearance(store: DS.DetectionStateStore, tenant: string, domain: string, now: int, needed: int, key: Key)
    returns (enough: bool)
    requires tenant != ""
    modifies store
    ensures var slot := (tenant, domain, key); var row := DS.Seen(old(store.rows), slot, now);
      store.rows == old(store.rows)[slot := row] && (enough <==> row.consecutive >= needed)
  {
    var got := store.Get(tenant, domain, key);
    var row := if got.value.Some? then DS.Row(got.value.value.consecutive + 1, 0, got.value.value.firstSeen, now)
               else DS.Row(1, 0, now, now);
    enough := row.consecutive >= needed;
    var _ := store.Upsert(tenant, domain, key, row);
  }

  method CountAppearances(store: DS.DetectionStateStore, tenant: string, domain: string, now: int, needed: int,
                          group: seq<Anomaly>, seen: set<Key>) returns (persisted: seq<Anomaly>, seen': set<Key>)
    requires tenant != ""
    modifies store
    ensures store.rows == DS.Appearances(old(store.rows), RoundOf(tenant, domain, now, group))
    ensures seen' == seen + KeySet(group)
    ensures persisted == Persisted(old(store.rows), tenant, domain, needed, group)
  {
    persisted, seen' := [], seen;
    ghost var turns := Turns(store.rows, tenant, domain, needed, group);
    DS.NoAppearances(store.rows, RoundOf(tenant, domain, now, group[..0]));
    for i := 0 to |group|
      invariant store.rows == DS.Appearances(old(store.rows), RoundOf(tenant, domain, now, group[..i]))
      invariant seen' == seen + KeySet(group[..i])
      invariant persisted == Where(group[..i], turns[..i])
    {
      StepCounts(old(store.rows), tenant, domain, now, needed, group, i);
      KeySetOfPrefix(seen, group, i);
      seen' := seen' + {AnomalyKey(group[i])};
      var enough := CountAppearance(store, tenant, domain, now, needed, AnomalyKey(group[i]));
      if enough {
        persisted := persisted + [group[i]];
      }
    }
    assert group[..|group|] == group && turns[..|group|] == turns;
  }

  /** Counts each anomaly's appearance, then judges the group by those that have appeared often enough. */
  method L3Verify(store: DS.DetectionStateStore, tenant: string, domain: string, now: int, config: Config,
                  rates: map<Records.GroupKey, Rate>, service: string, group: seq<Anomaly>, related: bool,
                  seen: set<Key>) returns (v: Verification, seen': set<Key>)
    requires tenant != ""
    modifies store
    ensures store.rows == DS.Appearances(old(store.rows), RoundOf(tenant, domain, now, group))
    ensures seen' == seen + KeySet(group)
    ensures var persisted := Persisted(old(store.rows), tenant, domain, config.persistenceRounds, group);
      && v == Verdict(config, RateOf(rates, RateKey(tenant, domain, service, persisted)), persisted, related)
      && (v.passed <==> persisted != [])
      && (v.passed ==> Graded(config, rates, Records.GroupKey(tenant, domain, service, multiset(Keys(persisted))),
                              persisted, related, v.severity))
  {
    var persisted;
    persisted, seen' := CountAppearances(store, tenant, domain, now, config.persistenceRounds, group, seen);
    if persisted == [] {
      return Verification(false, 0.0, "warning"), seen';
    }
    var rate := RateOf(rates, RateKey(tenant, domain, service, persisted));
    var rateOk := rate.total < config.minSamples || rate.fpr < config.threshold;
    v := Verification(true, rate.fpr, if !rateOk then "warning" else CalibrateSeverity(persisted, related));
  }

  lemma KeySetOfPrefix(seen: set<Key>, group: seq<Anomaly>, n: nat)
    requires n < |group|
    ensures (seen + KeySet(group[..n])) + {AnomalyKey(group[n])} == seen + KeySet(group[..n + 1])
  {
    Records.KeySetConcat(group[..n], [group[n]]);
    assert group[..n + 1] == group[..n] + [group[n]];
    assert KeySet([group[n]]) == {AnomalyKey([group[n]][0])};
  }

  /** What the i-th turn finds in the store and makes of it. */
  lemma StepCounts(rows: DS.Rows, tenant: string, domain: string, now: int, needed: int, group: seq<Anomaly>, i: nat)
    requires i < |group|
    ensures var so := DS.Appearances(rows, RoundOf(tenant, domain, now, group[..i]));
      var slot := (tenant, domain, AnomalyKey(group[i]));
      && DS.Appearances(rows, RoundOf(tenant, domain, now, group[..i + 1])) == so[slot := DS.Seen(so, slot, now)]
      && (DS.Seen(so, slot, now).consecutive >= needed <==> Turns(rows, tenant, domain, needed, group)[i])
    ensures Where(group[..i + 1], Turns(rows, tenant, domain, needed, group)[..i + 1]) ==
            Where(group[..i], Turns(rows, tenant, domain, needed, group)[..i])
            + if Turns(rows, tenant, domain, needed, group)[i] then [group[i]] else []
  {
    var r := RoundOf(tenant, domain, now, group[..i]);
    var slot := (tenant, domain, AnomalyKey(group[i]));
    DS.OneMoreAppearance(rows, r, AnomalyKey(group[i]));
    KeysOfPrefix(group, i);
    assert RoundOf(tenant, domain, now, group[..i + 1]) == r.(keys := r.keys + multiset{AnomalyKey(group[i])});
    PriorAfter(rows, r, AnomalyKey(group[i]));
    var turns := Turns(rows, tenant, domain, needed, group);
    assert group[..i + 1][..i] == group[..i] && turns[..i + 1][..i] == turns[..i];
  }

  /** Recording appearances adds exactly their number. */
  lemma PriorAfter(rows: DS.Rows, r: DS.Round, k: Key)
    ensures Prior(DS.Appearances(rows, r), (r.tenant, r.domain, k)) == Prior(rows, (r.tenant, r.domain, k)) + r.keys[k]
  {
  }
}
