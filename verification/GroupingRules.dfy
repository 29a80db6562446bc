/** What "the same incident" means: the equivalence closure of four rules over one round's anomalies. */
module GroupingRules {
  import opened Anomalies

  type Link = (nat, nat) -> bool

  ghost predicate IsPath(link: Link, p: seq<nat>) {
    |p| > 0 && forall k :: 0 <= k < |p| - 1 ==> link(p[k], p[k + 1])
  }

  ghost predicate Connects(link: Link, p: seq<nat>, i: nat, j: nat) {
    IsPath(link, p) && p[0] == i && p[|p| - 1] == j
  }

  ghost predicate Connected(link: Link, i: nat, j: nat) {
    exists p :: Connects(link, p, i, j)
  }

  ghost predicate Symmetric(link: Link) {
    forall i, j :: link(i, j) ==> link(j, i)
  }

  // ---- The rules (anomalies are named by their position in the round) ----

  ghost predicate LogLink(round: seq<Anomaly>, i: nat, j: nat) {
    && i < |round| && j < |round| && round[i].Log? && round[j].Log?
    && (round[i].signature == round[j].signature
        || exists t :: t in round[i].traceIds && t in round[j].traceIds)
  }

  ghost predicate MetricLink(round: seq<Anomaly>, i: nat, j: nat) {
    && i < |round| && j < |round| && round[i].Metric? && round[j].Metric?
    && round[i].service == round[j].service
  }

  ghost predicate IsLogOf(round: seq<Anomaly>, i: nat, service: string) {
    i < |round| && round[i].Log? && round[i].service == service
  }

  /** All log anomalies of the service already belong together by the log rules alone. */
  ghost predicate SingleLogComponent(round: seq<Anomaly>, service: string) {
    forall i, j :: IsLogOf(round, i, service) && IsLogOf(round, j, service) ==> Connected(LogRel(round), i, j)
  }

  ghost predicate AttachLink(round: seq<Anomaly>, i: nat, j: nat) {
    && i < |round| && j < |round| && round[i].Log? && round[j].Metric?
    && round[i].service == round[j].service
    && SingleLogComponent(round, round[j].service)
  }

  ghost predicate IncidentLink(round: seq<Anomaly>, i: nat, j: nat) {
    LogLink(round, i, j) || MetricLink(round, i, j) || AttachLink(round, i, j) || AttachLink(round, j, i)
  }

  ghost function LogRel(round: seq<Anomaly>): Link {
    (i: nat, j: nat) => LogLink(round, i, j)
  }

  /** The rules that need no look at log components. */
  ghost function PlainRel(round: seq<Anomaly>): Link {
    (i: nat, j: nat) => LogLink(round, i, j) || MetricLink(round, i, j)
  }

  ghost function IncidentRel(round: seq<Anomaly>): Link {
    (i: nat, j: nat) => IncidentLink(round, i, j)
  }

  ghost predicate SameIncident(round: seq<Anomaly>, i: nat, j: nat) {
    Connected(IncidentRel(round), i, j)
  }

  // ---- Closure laws ----

  lemma Reflexive(link: Link, i: nat)
    ensures Connected(link, i, i)
  {
    assert Connects(link, [i], i, i);
  }

  lemma Direct(link: Link, i: nat, j: nat)
    requires link(i, j)
    ensures Connected(link, i, j)
  {
    assert Connects(link, [i, j], i, j);
  }

  lemma Transitive(link: Link, i: nat, j: nat, k: nat)
    requires Connected(link, i, j) && Connected(link, j, k)
    ensures Connected(link, i, k)
  {
    var p :| Connects(link, p, i, j);
    var q :| Connects(link, q, j, k);
    var r := p + q[1..];
    forall x | 0 <= x < |r| - 1 ensures link(r[x], r[x + 1]) {
      if x >= |p| - 1 {
        assert r[x] == q[x - (|p| - 1)] && r[x + 1] == q[x - (|p| - 1) + 1];
      }
    }
    assert Connects(link, r, i, k);
  }

  lemma Reversible(link: Link, i: nat, j: nat)
    requires Symmetric(link) && Connected(link, i, j)
    ensures Connected(link, j, i)
  {
    var p :| Connects(link, p, i, j);
    var r := seq(|p|, k requires 0 <= k < |p| => p[|p| - 1 - k]);
    forall x | 0 <= x < |r| - 1 ensures link(r[x], r[x + 1]) {
      assert link(p[|p| - 2 - x], p[|p| - 2 - x + 1]);
    }
    assert Connects(link, r, j, i);
  }

  /** What every link preserves, connection preserves. */
  lemma CarriedAlong(link: Link, holds: nat -> bool, i: nat, j: nat)
    requires Connected(link, i, j) && holds(i)
    requires forall x, y :: link(x, y) && holds(x) ==> holds(y)
    ensures holds(j)
  {
    var p :| Connects(link, p, i, j);
    CarriedAlongPath(link, holds, p, |p| - 1);
  }

  lemma {:induction false} CarriedAlongPath(link: Link, holds: nat -> bool, p: seq<nat>, k: nat)
    requires IsPath(link, p) && k < |p| && holds(p[0])
    requires forall x, y :: link(x, y) && holds(x) ==> holds(y)
    ensures holds(p[k])
  {
    if k > 0 {
      CarriedAlongPath(link, holds, p, k - 1);
      assert link(p[k - 1], p[k - 1 + 1]);
    }
  }

  lemma FewerLinks(weak: Link, strong: Link, i: nat, j: nat)
    requires Connected(weak, i, j)
    requires forall x, y :: weak(x, y) ==> strong(x, y)
    ensures Connected(strong, i, j)
  {
    var p :| Connects(weak, p, i, j);
    assert Connects(strong, p, i, j);
  }

  lemma RulesAreSymmetric(round: seq<Anomaly>)
    ensures Symmetric(LogRel(round)) && Symmetric(PlainRel(round)) && Symmetric(IncidentRel(round))
  {
  }

  lemma LogRulesAreIncidentRules(round: seq<Anomaly>, i: nat, j: nat)
    requires Connected(LogRel(round), i, j)
    ensures SameIncident(round, i, j)
  {
    FewerLinks(LogRel(round), IncidentRel(round), i, j);
  }

  // ---- Consequences of the rules ----

  /** x is log-connected to i, or is a metric whose service's logs all are. */
  ghost predicate Near(round: seq<Anomaly>, i: nat, x: nat) {
    x < |round| &&
    if round[x].Log? then Connected(LogRel(round), i, x)
    else
      && SingleLogComponent(round, round[x].service)
      && (exists l :: IsLogOf(round, l, round[x].service))
      && forall l :: IsLogOf(round, l, round[x].service) ==> Connected(LogRel(round), i, l)
  }

  lemma NearIsCarried(round: seq<Anomaly>, i: nat, x: nat, y: nat)
    requires Near(round, i, x) && IncidentLink(round, x, y)
    ensures Near(round, i, y)
  {
    if LogLink(round, x, y) {
      Direct(LogRel(round), x, y);
      Transitive(LogRel(round), i, x, y);
    } else if AttachLink(round, x, y) {
      assert IsLogOf(round, x, round[y].service);
      forall l | IsLogOf(round, l, round[y].service) ensures Connected(LogRel(round), i, l) {
        Transitive(LogRel(round), i, x, l);
      }
    } else if AttachLink(round, y, x) {
      assert IsLogOf(round, y, round[x].service);
    }
  }

  /** Attaching metrics never fuses two log components: on logs, the incidents are the log-only components. */
  lemma AttachingMetricsKeepsLogComponents(round: seq<Anomaly>, i: nat, j: nat)
    requires i < |round| && j < |round| && round[i].Log? && round[j].Log?
    ensures SameIncident(round, i, j) <==> Connected(LogRel(round), i, j)
  {
    if SameIncident(round, i, j) {
      Reflexive(LogRel(round), i);
      forall x: nat, y: nat | IncidentRel(round)(x, y) && Near(round, i, x) ensures Near(round, i, y) {
        NearIsCarried(round, i, x, y);
      }
      CarriedAlong(IncidentRel(round), (x: nat) => Near(round, i, x), i, j);
    }
    if Connected(LogRel(round), i, j) {
      LogRulesAreIncidentRules(round, i, j);
    }
  }

  /** Two anomalies with one identity are always one incident, so incidents never share an anomaly key. */
  lemma SameKeySameIncident(round: seq<Anomaly>, i: nat, j: nat)
    requires i < |round| && j < |round| && AnomalyKey(round[i]) == AnomalyKey(round[j])
    ensures SameIncident(round, i, j)
  {
    Direct(IncidentRel(round), i, j);
  }

  // ---- The incidents do not depend on the order of the anomalies ----

  /** to[i] is the position in `after` of what stood at i in `before`; `from` is its inverse. */
  ghost predicate Reordering(before: seq<Anomaly>, after: seq<Anomaly>, to: seq<nat>, from: seq<nat>) {
    && |before| == |after| == |to| == |from|
    && (forall i :: 0 <= i < |to| ==> to[i] < |to| && after[to[i]] == before[i] && from[to[i]] == i)
    && (forall i :: 0 <= i < |from| ==> from[i] < |from| && before[from[i]] == after[i] && to[from[i]] == i)
  }

  lemma PathMoves(linkB: Link, linkA: Link, to: seq<nat>, i: nat, j: nat)
    requires forall x: nat, y: nat :: linkB(x, y) ==> x < |to| && y < |to| && linkA(to[x], to[y])
    requires i < |to| && Connected(linkB, i, j)
    ensures j < |to| && Connected(linkA, to[i], to[j])
  {
    var p :| Connects(linkB, p, i, j);
    forall k | 0 <= k < |p| ensures p[k] < |to| {
      if k > 0 { assert linkB(p[k - 1], p[k - 1 + 1]); }
    }
    var q := seq(|p|, k requires 0 <= k < |p| => to[p[k]]);
    assert Connects(linkA, q, to[i], to[j]);
  }

  lemma LogComponentsMove(before: seq<Anomaly>, after: seq<Anomaly>, to: seq<nat>, from: seq<nat>, service: string)
    requires Reordering(before, after, to, from) && SingleLogComponent(before, service)
    ensures SingleLogComponent(after, service)
  {
    forall i: nat, j: nat | IsLogOf(after, i, service) && IsLogOf(after, j, service)
      ensures Connected(LogRel(after), i, j)
    {
      assert IsLogOf(before, from[i], service) && IsLogOf(before, from[j], service);
      PathMoves(LogRel(before), LogRel(after), to, from[i], from[j]);
    }
  }

  lemma IncidentsMove(before: seq<Anomaly>, after: seq<Anomaly>, to: seq<nat>, from: seq<nat>, i: nat, j: nat)
    requires Reordering(before, after, to, from) && i < |before| && SameIncident(before, i, j)
    ensures j < |to| && SameIncident(after, to[i], to[j])
  {
    forall x: nat, y: nat | IncidentRel(before)(x, y) ensures x < |to| && y < |to| && IncidentRel(after)(to[x], to[y]) {
      if AttachLink(before, x, y) { LogComponentsMove(before, after, to, from, before[y].service); }
      if AttachLink(before, y, x) { LogComponentsMove(before, after, to, from, before[x].service); }
    }
    PathMoves(IncidentRel(before), IncidentRel(after), to, i, j);
  }

  lemma IncidentsIgnoreInputOrder(before: seq<Anomaly>, after: seq<Anomaly>, to: seq<nat>, from: seq<nat>, i: nat, j: nat)
    requires Reordering(before, after, to, from) && i < |before| && j < |before|
    ensures SameIncident(before, i, j) <==> SameIncident(after, to[i], to[j])
  {
    if SameIncident(before, i, j) { IncidentsMove(before, after, to, from, i, j); }
    if SameIncident(after, to[i], to[j]) { IncidentsMove(after, before, from, to, to[i], to[j]); }
  }

  // ---- The partition into groups ----

  /** The groups a round must be split into: a partition by SameIncident, everything in ascending position order. */
  ghost predicate IsGrouping(round: seq<Anomaly>, groups: seq<seq<nat>>) {
    && (forall g :: 0 <= g < |groups| ==> |groups[g]| > 0)
    && (forall g, k :: 0 <= g < |groups| && 0 <= k < |groups[g]| ==> groups[g][k] < |round|)
    && (forall g, k, l :: 0 <= g < |groups| && 0 <= k < l < |groups[g]| ==> groups[g][k] < groups[g][l])
    && (forall g, h :: 0 <= g < h < |groups| ==> groups[g][0] < groups[h][0])
    && (forall i :: 0 <= i < |round| ==> InSomeGroup(groups, i))
    && (forall g, h, i, j :: 0 <= g < |groups| && 0 <= h < |groups| && i in groups[g] && j in groups[h] ==>
          (SameIncident(round, i, j) <==> g == h))
  }

  ghost predicate InSomeGroup(groups: seq<seq<nat>>, i: nat) {
    exists g :: 0 <= g < |groups| && i in groups[g]
  }

  /** Incidents never share an anomaly key. */
  lemma GroupsHaveDisjointKeys(round: seq<Anomaly>, groups: seq<seq<nat>>, g: nat, h: nat, i: nat, j: nat)
    requires IsGrouping(round, groups) && g < |groups| && h < |groups| && i in groups[g] && j in groups[h]
    requires AnomalyKey(round[i]) == AnomalyKey(round[j])
    ensures g == h
  {
    SameKeySameIncident(round, i, j);
  }

  // ---- The rules leave no choice of grouping ----

  lemma SharedMemberSameMembers(round: seq<Anomaly>, one: seq<seq<nat>>, two: seq<seq<nat>>, a: nat, b: nat, i: nat)
    requires IsGrouping(round, one) && IsGrouping(round, two) && a < |one| && b < |two|
    requires i in one[a] && i in two[b]
    ensures one[a] == two[b]
  {
    forall x | x in one[a] ensures x in two[b] {
      assert InSomeGroup(two, x);
      var c :| 0 <= c < |two| && x in two[c];
      assert SameIncident(round, i, x);
    }
    forall x | x in two[b] ensures x in one[a] {
      assert InSomeGroup(one, x);
      var c :| 0 <= c < |one| && x in one[c];
      assert SameIncident(round, i, x);
    }
    AscendingListsAgree(one[a], two[b]);
  }

  lemma {:induction false} AscendingListsAgree(p: seq<nat>, q: seq<nat>)
    requires forall k, l :: 0 <= k < l < |p| ==> p[k] < p[l]
    requires forall k, l :: 0 <= k < l < |q| ==> q[k] < q[l]
    requires forall x :: x in p <==> x in q
    ensures p == q
  {
    assert p != [] ==> p[0] in q;
    assert q != [] ==> q[0] in p;
    if p != [] {
      forall x ensures x in p[1..] <==> x in q[1..] {
        assert x in p[1..] <==> x in p && x != p[0];
        assert x in q[1..] <==> x in q && x != q[0];
      }
      AscendingListsAgree(p[1..], q[1..]);
    }
  }

  /** If two groupings agree before position a, the group of `two` equal to one[a] does not come earlier. */
  lemma NotEarlier(round: seq<Anomaly>, one: seq<seq<nat>>, two: seq<seq<nat>>, a: nat) returns (b: nat)
    requires IsGrouping(round, one) && IsGrouping(round, two) && a < |one|
    requires forall c :: 0 <= c < a ==> c < |two| && one[c] == two[c]
    ensures a <= b < |two| && one[a] == two[b]
  {
    var f := one[a][0];
    assert InSomeGroup(two, f);
    b :| 0 <= b < |two| && f in two[b];
    SharedMemberSameMembers(round, one, two, a, b, f);
    Reflexive(IncidentRel(round), f);
    assert f in one[a];
  }

  lemma {:induction false} GroupingsAgreeUpTo(round: seq<Anomaly>, one: seq<seq<nat>>, two: seq<seq<nat>>, n: nat)
    requires IsGrouping(round, one) && IsGrouping(round, two) && n <= |one|
    ensures n <= |two| && forall c :: 0 <= c < n ==> one[c] == two[c]
  {
    if n > 0 {
      GroupingsAgreeUpTo(round, one, two, n - 1);
      var b := NotEarlier(round, one, two, n - 1);
      if b > n - 1 {
        var d := NotEarlier(round, two, one, n - 1);
        assert false;
      }
    }
  }

  /** The groups of a round are fully determined by its anomalies. */
  lemma GroupingIsUnique(round: seq<Anomaly>, one: seq<seq<nat>>, two: seq<seq<nat>>)
    requires IsGrouping(round, one) && IsGrouping(round, two)
    ensures one == two
  {
    GroupingsAgreeUpTo(round, one, two, |one|);
    GroupingsAgreeUpTo(round, two, one, |two|);
  }
}
