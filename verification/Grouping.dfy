/** Splitting one round's anomalies into incidents with a union-find over first-seen anchors. */
module Grouping {
  import opened Anomalies
  import opened GroupingRules
  import opened UnionFinds

  /** Every fusion made so far is justified by the links. */
  ghost predicate Sound(link: Link, root: seq<nat>) {
    forall i, j {:trigger Connected(link, i, j)} ::
      0 <= i < |root| && 0 <= j < |root| && root[i] == root[j] ==> Connected(link, i, j)
  }

  /** The partition is the closure of the links. */
  ghost predicate Exact(link: Link, root: seq<nat>) {
    forall i, j {:trigger Connected(link, i, j)} ::
      0 <= i < |root| && 0 <= j < |root| ==> (root[i] == root[j] <==> Connected(link, i, j))
  }

  ghost predicate Coarser(before: seq<nat>, after: seq<nat>) {
    |before| == |after| &&
    forall i, j :: 0 <= i < |before| && 0 <= j < |before| && before[i] == before[j] ==> after[i] == after[j]
  }

  lemma MergeStaysSound(link: Link, before: seq<nat>, after: seq<nat>, a: nat, b: nat)
    requires |before| == |after| && a < |before| && b < |before|
    requires Symmetric(link) && Sound(link, before) && MergesExactly(before, after, a, b) && Connected(link, a, b)
    ensures Sound(link, after) && Coarser(before, after) && after[a] == after[b]
  {
    forall i, j | 0 <= i < |after| && 0 <= j < |after| && after[i] == after[j] ensures Connected(link, i, j) {
      if before[i] == before[a] && before[j] == before[b] {
        Transitive(link, i, a, b);
        Transitive(link, i, b, j);
      } else if before[i] == before[b] && before[j] == before[a] {
        Reversible(link, a, b);
        Transitive(link, i, b, a);
        Transitive(link, i, a, j);
      }
    }
  }

  lemma SoundIsMonotone(weak: Link, strong: Link, root: seq<nat>)
    requires Sound(weak, root) && forall x, y :: weak(x, y) ==> strong(x, y)
    ensures Sound(strong, root)
  {
    forall i, j | 0 <= i < |root| && 0 <= j < |root| && root[i] == root[j] ensures Connected(strong, i, j) {
      FewerLinks(weak, strong, i, j);
    }
  }

  /** A sound partition that follows every link is exactly the closure. */
  lemma SoundAndClosedIsExact(link: Link, root: seq<nat>)
    requires Sound(link, root)
    requires forall x: nat, y: nat :: link(x, y) ==> x < |root| && y < |root| && root[x] == root[y]
    ensures Exact(link, root)
  {
    forall i, j | 0 <= i < |root| && 0 <= j < |root| && Connected(link, i, j) ensures root[i] == root[j] {
      CarriedAlong(link, (x: nat) => x < |root| && root[x] == root[i], i, j);
    }
  }

  /** Fusing two connected anomalies keeps the partition sound and only ever coarsens it. */
  method Fuse(uf: UnionFind, ghost link: Link, a: nat, b: nat)
    requires uf.Valid() && a < uf.parent.Length && b < uf.parent.Length
    requires Symmetric(link) && Sound(link, uf.root) && Connected(link, a, b)
    modifies uf, uf.parent
    ensures uf.Valid() && Sound(link, uf.root)
    ensures Coarser(old(uf.root), uf.root) && uf.root[a] == uf.root[b]
  {
    ghost var before := uf.root;
    uf.Union(a, b);
    MergeStaysSound(link, before, uf.root, a, b);
  }

  // ---- Log anomalies ----

  /** The dictionaries anchor the first `n` logs: each log already sits with the anchor of its signature. */
  ghost predicate SignaturesAnchored(round: seq<Anomaly>, n: nat, root: seq<nat>, bySignature: map<string, nat>)
    requires n <= |round| == |root|
  {
    && (forall s :: s in bySignature ==>
          bySignature[s] < |round| && round[bySignature[s]].Log? && round[bySignature[s]].signature == s)
    && (forall i :: 0 <= i < n && round[i].Log? ==>
          round[i].signature in bySignature && root[bySignature[round[i].signature]] == root[i])
  }

  ghost predicate TraceAnchored(round: seq<Anomaly>, i: nat, t: string, root: seq<nat>, byTrace: map<string, nat>)
    requires i < |round| == |root|
  {
    t in byTrace && byTrace[t] < |round| && root[byTrace[t]] == root[i]
  }

  ghost predicate TracesAnchored(round: seq<Anomaly>, n: nat, root: seq<nat>, byTrace: map<string, nat>)
    requires n <= |round| == |root|
  {
    forall i, t :: 0 <= i < n && round[i].Log? && t in round[i].traceIds ==> TraceAnchored(round, i, t, root, byTrace)
  }

  ghost predicate AnchorsCarryTraces(round: seq<Anomaly>, byTrace: map<string, nat>) {
    forall t :: t in byTrace ==> byTrace[t] < |round| && round[byTrace[t]].Log? && t in round[byTrace[t]].traceIds
  }

  method UnionLogs(uf: UnionFind, round: seq<Anomaly>)
    requires uf.Valid() && uf.parent.Length == |round|
    requires uf.root == seq(|round|, i => i)
    modifies uf, uf.parent
    ensures uf.Valid()
    ensures Exact(LogRel(round), uf.root)
  {
    var bySignature: map<string, nat> := map[];
    var byTrace: map<string, nat> := map[];
    ghost var link := LogRel(round);
    RulesAreSymmetric(round);
    forall i: nat { Reflexive(link, i); }
    for idx := 0 to |round|
      invariant uf.Valid() && Sound(link, uf.root)
      invariant SignaturesAnchored(round, idx, uf.root, bySignature)
      invariant TracesAnchored(round, idx, uf.root, byTrace) && AnchorsCarryTraces(round, byTrace)
    {
      if round[idx].Log? {
        bySignature := UnionSignature(uf, round, idx, bySignature, byTrace);
        byTrace := UnionTraces(uf, round, idx, bySignature, byTrace);
      }
    }
    LogPartitionIsExact(round, uf.root, bySignature, byTrace);
  }

  lemma LogPartitionIsExact(round: seq<Anomaly>, root: seq<nat>, bySignature: map<string, nat>, byTrace: map<string, nat>)
    requires |root| == |round| && Sound(LogRel(round), root)
    requires SignaturesAnchored(round, |round|, root, bySignature) && TracesAnchored(round, |round|, root, byTrace)
    ensures Exact(LogRel(round), root)
  {
    forall i: nat, j: nat | LogRel(round)(i, j) ensures i < |root| && j < |root| && root[i] == root[j] {
      if round[i].signature != round[j].signature {
        var t :| t in round[i].traceIds && t in round[j].traceIds;
        assert TraceAnchored(round, i, t, root, byTrace) && TraceAnchored(round, j, t, root, byTrace);
      }
    }
    SoundAndClosedIsExact(LogRel(round), root);
  }

  lemma AnchorsSurvive(round: seq<Anomaly>, n: nat, before: seq<nat>, after: seq<nat>,
                       bySignature: map<string, nat>, byTrace: map<string, nat>)
    requires n <= |round| == |before| == |after| && Coarser(before, after)
    ensures SignaturesAnchored(round, n, before, bySignature) ==> SignaturesAnchored(round, n, after, bySignature)
    ensures TracesAnchored(round, n, before, byTrace) ==> TracesAnchored(round, n, after, byTrace)
  {
    if TracesAnchored(round, n, before, byTrace) {
      forall i, t | 0 <= i < n && round[i].Log? && t in round[i].traceIds
        ensures TraceAnchored(round, i, t, after, byTrace)
      {
        assert TraceAnchored(round, i, t, before, byTrace);
      }
    }
  }

  /** Fuses log `idx` with the first log of the same signature, or makes it that first log. */
  method UnionSignature(uf: UnionFind, round: seq<Anomaly>, idx: nat,
                        bySignature: map<string, nat>, ghost byTrace: map<string, nat>)
    returns (bySignature': map<string, nat>)
    requires uf.Valid() && uf.parent.Length == |round| && idx < |round| && round[idx].Log?
    requires Symmetric(LogRel(round)) && Sound(LogRel(round), uf.root)
    requires SignaturesAnchored(round, idx, uf.root, bySignature) && TracesAnchored(round, idx, uf.root, byTrace)
    modifies uf, uf.parent
    ensures uf.Valid() && Sound(LogRel(round), uf.root)
    ensures SignaturesAnchored(round, idx + 1, uf.root, bySignature') && TracesAnchored(round, idx, uf.root, byTrace)
  {
    var s := round[idx].signature;
    if s in bySignature {
      ghost var before := uf.root;
      Direct(LogRel(round), bySignature[s], idx);
      Fuse(uf, LogRel(round), bySignature[s], idx);
      AnchorsSurvive(round, idx, before, uf.root, bySignature, byTrace);
      bySignature' := bySignature;
    } else {
      bySignature' := bySignature[s := idx];
    }
  }

  /** The first k trace ids of log idx are anchored. */
  ghost predicate OwnTracesAnchored(round: seq<Anomaly>, idx: nat, k: nat, root: seq<nat>, byTrace: map<string, nat>)
    requires idx < |round| == |root| && round[idx].Log? && k <= |round[idx].traceIds|
  {
    forall m :: 0 <= m < k ==> TraceAnchored(round, idx, round[idx].traceIds[m], root, byTrace)
  }

  /** Fuses log `idx` with the first log of each of its trace ids. */
  method UnionTraces(uf: UnionFind, round: seq<Anomaly>, idx: nat,
                     ghost bySignature: map<string, nat>, byTrace: map<string, nat>)
    returns (byTrace': map<string, nat>)
    requires uf.Valid() && uf.parent.Length == |round| && idx < |round| && round[idx].Log?
    requires Symmetric(LogRel(round)) && Sound(LogRel(round), uf.root)
    requires SignaturesAnchored(round, idx + 1, uf.root, bySignature)
    requires TracesAnchored(round, idx, uf.root, byTrace) && AnchorsCarryTraces(round, byTrace)
    modifies uf, uf.parent
    ensures uf.Valid() && Sound(LogRel(round), uf.root)
    ensures SignaturesAnchored(round, idx + 1, uf.root, bySignature)
    ensures TracesAnchored(round, idx + 1, uf.root, byTrace') && AnchorsCarryTraces(round, byTrace')
  {
    byTrace' := byTrace;
    for k := 0 to |round[idx].traceIds|
      invariant uf.Valid() && Sound(LogRel(round), uf.root)
      invariant SignaturesAnchored(round, idx + 1, uf.root, bySignature)
      invariant TracesAnchored(round, idx, uf.root, byTrace') && AnchorsCarryTraces(round, byTrace')
      invariant OwnTracesAnchored(round, idx, k, uf.root, byTrace')
    {
      byTrace' := UnionTrace(uf, round, idx, k, bySignature, byTrace');
    }
    forall i, t | 0 <= i < idx + 1 && round[i].Log? && t in round[i].traceIds
      ensures TraceAnchored(round, i, t, uf.root, byTrace')
    {
      if i == idx {
        var m :| 0 <= m < |round[idx].traceIds| && round[idx].traceIds[m] == t;
        assert TraceAnchored(round, idx, round[idx].traceIds[m], uf.root, byTrace');
      }
    }
  }

  method UnionTrace(uf: UnionFind, round: seq<Anomaly>, idx: nat, k: nat,
                    ghost bySignature: map<string, nat>, byTrace: map<string, nat>)
    returns (byTrace': map<string, nat>)
    requires uf.Valid() && uf.parent.Length == |round| && idx < |round| && round[idx].Log?
    requires k < |round[idx].traceIds|
    requires Symmetric(LogRel(round)) && Sound(LogRel(round), uf.root)
    requires SignaturesAnchored(round, idx + 1, uf.root, bySignature)
    requires TracesAnchored(round, idx, uf.root, byTrace) && AnchorsCarryTraces(round, byTrace)
    requires OwnTracesAnchored(round, idx, k, uf.root, byTrace)
    modifies uf, uf.parent
    ensures uf.Valid() && Sound(LogRel(round), uf.root)
    ensures SignaturesAnchored(round, idx + 1, uf.root, bySignature)
    ensures TracesAnchored(round, idx, uf.root, byTrace') && AnchorsCarryTraces(round, byTrace')
    ensures OwnTracesAnchored(round, idx, k + 1, uf.root, byTrace')
  {
    var t := round[idx].traceIds[k];
    if t in byTrace {
      ghost var before := uf.root;
      Direct(LogRel(round), byTrace[t], idx);
      Fuse(uf, LogRel(round), byTrace[t], idx);
      byTrace' := byTrace;
      AnchorsSurvive(round, idx + 1, before, uf.root, bySignature, byTrace);
      AnchorsSurvive(round, idx, before, uf.root, bySignature, byTrace);
      OwnTracesSurvive(round, idx, k, before, uf.root, byTrace);
    } else {
      byTrace' := byTrace[t := idx];
      NewAnchorKeepsOthers(round, idx, uf.root, byTrace, t, idx);
      forall m | 0 <= m < k ensures TraceAnchored(round, idx, round[idx].traceIds[m], uf.root, byTrace') {
        assert TraceAnchored(round, idx, round[idx].traceIds[m], uf.root, byTrace);
      }
    }
  }

  lemma OwnTracesSurvive(round: seq<Anomaly>, idx: nat, k: nat, before: seq<nat>, after: seq<nat>, byTrace: map<string, nat>)
    requires idx < |round| == |before| == |after| && round[idx].Log? && k <= |round[idx].traceIds|
    requires Coarser(before, after) && OwnTracesAnchored(round, idx, k, before, byTrace)
    ensures OwnTracesAnchored(round, idx, k, after, byTrace)
  {
    forall m | 0 <= m < k ensures TraceAnchored(round, idx, round[idx].traceIds[m], after, byTrace) {
      assert TraceAnchored(round, idx, round[idx].traceIds[m], before, byTrace);
    }
  }

  lemma NewAnchorKeepsOthers(round: seq<Anomaly>, n: nat, root: seq<nat>, byTrace: map<string, nat>, t: string, idx: nat)
    requires n <= |round| == |root| && t !in byTrace && TracesAnchored(round, n, root, byTrace)
    ensures TracesAnchored(round, n, root, byTrace[t := idx])
  {
    forall i, u | 0 <= i < n && round[i].Log? && u in round[i].traceIds
      ensures TraceAnchored(round, i, u, root, byTrace[t := idx])
    {
      assert TraceAnchored(round, i, u, root, byTrace);
    }
  }

  // ---- Metric anomalies ----

  method UnionMetrics(uf: UnionFind, round: seq<Anomaly>)
    requires uf.Valid() && uf.parent.Length == |round| && Exact(LogRel(round), uf.root)
    modifies uf, uf.parent
    ensures uf.Valid() && Exact(PlainRel(round), uf.root)
  {
    var anchorOf: map<string, nat> := map[];
    RulesAreSymmetric(round);
    SoundIsMonotone(LogRel(round), PlainRel(round), uf.root);
    LogLinksHold(round, uf.root);
    ghost var logRoot := uf.root;
    for idx := 0 to |round|
      invariant uf.Valid() && Sound(PlainRel(round), uf.root) && Coarser(logRoot, uf.root)
      invariant MetricsAnchored(round, idx, uf.root, anchorOf)
    {
      if round[idx].Metric? {
        ghost var before := uf.root;
        if round[idx].service in anchorOf {
          var anchor := anchorOf[round[idx].service];
          Direct(PlainRel(round), anchor, idx);
          Fuse(uf, PlainRel(round), anchor, idx);
        } else {
          anchorOf := anchorOf[round[idx].service := idx];
        }
      }
    }
    forall i: nat, j: nat | PlainRel(round)(i, j) ensures i < |round| && j < |round| && uf.root[i] == uf.root[j] {
      if LogLink(round, i, j) { assert logRoot[i] == logRoot[j]; }
    }
    SoundAndClosedIsExact(PlainRel(round), uf.root);
  }

  ghost predicate MetricsAnchored(round: seq<Anomaly>, n: nat, root: seq<nat>, anchorOf: map<string, nat>)
    requires n <= |round| == |root|
  {
    && (forall s :: s in anchorOf ==>
          anchorOf[s] < |round| && round[anchorOf[s]].Metric? && round[anchorOf[s]].service == s)
    && (forall i :: 0 <= i < n && round[i].Metric? ==>
          round[i].service in anchorOf && root[anchorOf[round[i].service]] == root[i])
  }

  lemma LogLinksHold(round: seq<Anomaly>, root: seq<nat>)
    requires |root| == |round| && Exact(LogRel(round), root)
    ensures forall i: nat, j: nat :: LogLink(round, i, j) ==> root[i] == root[j]
  {
    forall i: nat, j: nat | LogLink(round, i, j) ensures root[i] == root[j] {
      Direct(LogRel(round), i, j);
    }
  }

  /** On logs, the plain partition is still the log partition. */
  lemma PlainRulesKeepLogComponents(round: seq<Anomaly>, i: nat, j: nat)
    requires i < |round| && j < |round| && round[i].Log? && round[j].Log?
    ensures Connected(PlainRel(round), i, j) <==> Connected(LogRel(round), i, j)
  {
    if Connected(PlainRel(round), i, j) {
      Reflexive(LogRel(round), i);
      forall x: nat, y: nat | PlainRel(round)(x, y) && x < |round| && round[x].Log? && Connected(LogRel(round), i, x)
        ensures y < |round| && round[y].Log? && Connected(LogRel(round), i, y)
      {
        Direct(LogRel(round), x, y);
        Transitive(LogRel(round), i, x, y);
      }
      CarriedAlong(PlainRel(round), (x: nat) => x < |round| && round[x].Log? && Connected(LogRel(round), i, x), i, j);
    }
    if Connected(LogRel(round), i, j) {
      FewerLinks(LogRel(round), PlainRel(round), i, j);
    }
  }

  // ---- Attaching metrics to their service's log component ----

  /** rootsOf[s] is the set of classes that the first n logs of service s fall into. */
  ghost predicate RootsCollected(round: seq<Anomaly>, n: nat, root: seq<nat>, rootsOf: map<string, set<nat>>)
    requires n <= |round| == |root|
  {
    && (forall i :: 0 <= i < n && round[i].Log? ==>
          round[i].service in rootsOf && root[i] in rootsOf[round[i].service])
    && (forall s, r :: s in rootsOf && r in rootsOf[s] ==>
          exists i :: 0 <= i < n && IsLogOf(round, i, s) && root[i] == r)
  }

  method CollectRoots(uf: UnionFind, round: seq<Anomaly>) returns (rootsOf: map<string, set<nat>>)
    requires uf.Valid() && uf.parent.Length == |round|
    modifies uf.parent
    ensures uf.Valid() && RootsCollected(round, |round|, uf.root, rootsOf)
  {
    rootsOf := map[];
    for idx := 0 to |round|
      invariant uf.Valid() && RootsCollected(round, idx, uf.root, rootsOf)
    {
      if round[idx].Log? {
        var r := uf.Find(idx);
        var s := round[idx].service;
        var known := if s in rootsOf then rootsOf[s] else {};
        assert IsLogOf(round, idx, s);
        rootsOf := rootsOf[s := known + {r}];
      }
    }
  }

  /** One class for all logs of a service is what the code's "exactly one root" test detects. */
  lemma OneRootIsOneComponent(round: seq<Anomaly>, root: seq<nat>, rootsOf: map<string, set<nat>>, s: string, r: nat)
    requires |root| == |round| && Exact(PlainRel(round), root) && RootsCollected(round, |round|, root, rootsOf)
    requires s in rootsOf && rootsOf[s] == {r}
    ensures SingleLogComponent(round, s)
    ensures exists l: nat :: IsLogOf(round, l, s) && root[l] == r
    ensures forall l: nat :: IsLogOf(round, l, s) ==> root[l] == r
  {
    forall i: nat, j: nat | IsLogOf(round, i, s) && IsLogOf(round, j, s) ensures Connected(LogRel(round), i, j) {
      assert root[i] in rootsOf[s] && root[j] in rootsOf[s];
      PlainRulesKeepLogComponents(round, i, j);
    }
    assert r in rootsOf[s];
  }

  lemma OneComponentIsOneRoot(round: seq<Anomaly>, root: seq<nat>, rootsOf: map<string, set<nat>>, s: string, l: nat)
    requires |root| == |round| && Exact(PlainRel(round), root) && RootsCollected(round, |round|, root, rootsOf)
    requires SingleLogComponent(round, s) && IsLogOf(round, l, s)
    ensures s in rootsOf && rootsOf[s] == {root[l]}
  {
    forall r | r in rootsOf[s] ensures r == root[l] {
      var i :| 0 <= i < |round| && IsLogOf(round, i, s) && root[i] == r;
      PlainRulesKeepLogComponents(round, i, l);
    }
  }

  lemma RootReachesMetric(round: seq<Anomaly>, root: seq<nat>, rootsOf: map<string, set<nat>>, r: nat, idx: nat)
    requires |root| == |round| && Exact(PlainRel(round), root) && RootsCollected(round, |round|, root, rootsOf)
    requires idx < |round| && round[idx].Metric? && round[idx].service in rootsOf
    requires rootsOf[round[idx].service] == {r} && Idempotent(root)
    ensures r < |round| && root[r] == r && Connected(IncidentRel(round), r, idx)
  {
    OneRootIsOneComponent(round, root, rootsOf, round[idx].service, r);
    var l: nat :| IsLogOf(round, l, round[idx].service) && root[l] == r;
    FewerLinks(PlainRel(round), IncidentRel(round), r, l);
    Direct(IncidentRel(round), l, idx);
    Transitive(IncidentRel(round), r, l, idx);
  }

  /** Of the first n anomalies, every attachable metric sits with all logs it attaches to. */
  ghost predicate Attached(round: seq<Anomaly>, n: nat, root: seq<nat>, rootsOf: map<string, set<nat>>)
    requires n <= |round| == |root|
  {
    forall m: nat, r: nat {:trigger OnlyRoot(round, m, rootsOf, r)} ::
      m < n && OnlyRoot(round, m, rootsOf, r) ==> r < |root| && root[r] == root[m]
  }

  ghost predicate OnlyRoot(round: seq<Anomaly>, m: nat, rootsOf: map<string, set<nat>>, r: nat)
    requires m < |round|
  {
    round[m].Metric? && round[m].service in rootsOf && rootsOf[round[m].service] == {r}
  }

  method AttachMetrics(uf: UnionFind, round: seq<Anomaly>, rootsOf: map<string, set<nat>>)
    requires uf.Valid() && uf.parent.Length == |round| && Exact(PlainRel(round), uf.root)
    requires RootsCollected(round, |round|, uf.root, rootsOf)
    modifies uf, uf.parent
    ensures uf.Valid() && Exact(IncidentRel(round), uf.root)
  {
    ghost var plain := uf.root;
    RootsAreFixed(uf.parent[..], plain, uf.level);
    RulesAreSymmetric(round);
    SoundIsMonotone(PlainRel(round), IncidentRel(round), plain);
    for idx := 0 to |round|
      invariant uf.Valid() && Sound(IncidentRel(round), uf.root) && Coarser(plain, uf.root)
      invariant Attached(round, idx, uf.root, rootsOf)
    {
      AttachMetric(uf, round, rootsOf, idx, plain);
    }
    AttachedIsExact(round, plain, uf.root, rootsOf);
  }

  method AttachMetric(uf: UnionFind, round: seq<Anomaly>, rootsOf: map<string, set<nat>>, idx: nat, ghost plain: seq<nat>)
    requires uf.Valid() && uf.parent.Length == |round| == |plain| && idx < |round|
    requires Exact(PlainRel(round), plain) && Idempotent(plain) && RootsCollected(round, |round|, plain, rootsOf)
    requires Symmetric(IncidentRel(round)) && Sound(IncidentRel(round), uf.root) && Coarser(plain, uf.root)
    requires Attached(round, idx, uf.root, rootsOf)
    modifies uf, uf.parent
    ensures uf.Valid() && Sound(IncidentRel(round), uf.root) && Coarser(plain, uf.root)
    ensures Attached(round, idx + 1, uf.root, rootsOf)
  {
    if round[idx].Metric? && round[idx].service in rootsOf && |rootsOf[round[idx].service]| == 1 {
      var r :| r in rootsOf[round[idx].service];
      SingletonSet(rootsOf[round[idx].service], r);
      RootReachesMetric(round, plain, rootsOf, r, idx);
      ghost var before := uf.root;
      Fuse(uf, IncidentRel(round), r, idx);
      AttachedSurvives(round, idx, before, uf.root, rootsOf);
    }
  }

  lemma AttachedSurvives(round: seq<Anomaly>, n: nat, before: seq<nat>, after: seq<nat>, rootsOf: map<string, set<nat>>)
    requires n <= |round| == |before| == |after| && Coarser(before, after) && Attached(round, n, before, rootsOf)
    ensures Attached(round, n, after, rootsOf)
  {
  }

  lemma SingletonSet(s: set<nat>, r: nat)
    requires |s| == 1 && r in s
    ensures s == {r}
  {
    assert |s - {r}| == 0;
    assert s == (s - {r}) + {r};
  }

  lemma AttachedIsExact(round: seq<Anomaly>, plain: seq<nat>, root: seq<nat>, rootsOf: map<string, set<nat>>)
    requires |plain| == |root| == |round| && Exact(PlainRel(round), plain) && RootsCollected(round, |round|, plain, rootsOf)
    requires Idempotent(plain)
    requires Sound(IncidentRel(round), root) && Coarser(plain, root) && Attached(round, |round|, root, rootsOf)
    ensures Exact(IncidentRel(round), root)
  {
    forall i: nat, j: nat | IncidentRel(round)(i, j) ensures i < |root| && j < |root| && root[i] == root[j] {
      if LogLink(round, i, j) || MetricLink(round, i, j) {
        Direct(PlainRel(round), i, j);
      } else if AttachLink(round, i, j) {
        AttachLinkHolds(round, plain, root, rootsOf, i, j);
      } else {
        AttachLinkHolds(round, plain, root, rootsOf, j, i);
      }
    }
    SoundAndClosedIsExact(IncidentRel(round), root);
  }

  lemma AttachLinkHolds(round: seq<Anomaly>, plain: seq<nat>, root: seq<nat>, rootsOf: map<string, set<nat>>, l: nat, m: nat)
    requires |plain| == |root| == |round| && Exact(PlainRel(round), plain) && RootsCollected(round, |round|, plain, rootsOf)
    requires Idempotent(plain)
    requires Coarser(plain, root) && Attached(round, |round|, root, rootsOf) && AttachLink(round, l, m)
    ensures root[l] == root[m]
  {
    OneComponentIsOneRoot(round, plain, rootsOf, round[m].service, l);
    assert OnlyRoot(round, m, rootsOf, plain[l]);
    assert plain[plain[l]] == plain[l];
  }

  // ---- Collecting the groups ----

  /** `positions` lists, ascending, some of the first n members of class r. */
  ghost predicate Listed(n: nat, root: seq<nat>, r: nat, positions: seq<nat>)
    requires n <= |root|
  {
    && |positions| > 0
    && (forall k :: 0 <= k < |positions| ==> positions[k] < n && root[positions[k]] == r)
    && (forall k, l :: 0 <= k < l < |positions| ==> positions[k] < positions[l])
  }

  /** The first n positions, filed under their class; classes take slots by first appearance, as dictionary keys do. */
  ghost predicate Filed(n: nat, root: seq<nat>, slotOf: map<nat, nat>, groups: seq<seq<nat>>)
    requires n <= |root|
  {
    && (forall r :: r in slotOf ==> slotOf[r] < |groups| && Listed(n, root, r, groups[slotOf[r]]))
    && (forall i :: 0 <= i < n ==> root[i] in slotOf && i in groups[slotOf[root[i]]])
    && (forall g :: 0 <= g < |groups| ==> HasClass(n, root, slotOf, groups[g], g))
    && (forall g, h :: 0 <= g < h < |groups| ==> groups[g][0] < groups[h][0])
  }

  ghost predicate HasClass(n: nat, root: seq<nat>, slotOf: map<nat, nat>, positions: seq<nat>, g: nat)
    requires n <= |root|
  {
    |positions| > 0 && positions[0] < n && root[positions[0]] in slotOf && slotOf[root[positions[0]]] == g
  }

  lemma ListedMore(n: nat, root: seq<nat>, r: nat, positions: seq<nat>)
    requires n < |root| && Listed(n, root, r, positions)
    ensures Listed(n + 1, root, r, positions)
    ensures root[n] == r ==> Listed(n + 1, root, r, positions + [n])
  {
  }

  lemma FileKnown(n: nat, root: seq<nat>, slotOf: map<nat, nat>, groups: seq<seq<nat>>, groups': seq<seq<nat>>)
    requires n < |root| && Filed(n, root, slotOf, groups) && root[n] in slotOf
    requires groups' == groups[slotOf[root[n]] := groups[slotOf[root[n]]] + [n]]
    ensures Filed(n + 1, root, slotOf, groups')
  {
    var slot := slotOf[root[n]];
    forall r | r in slotOf ensures Listed(n + 1, root, r, groups'[slotOf[r]]) {
      ListedMore(n, root, r, groups[slotOf[r]]);
      if slotOf[r] == slot { assert r == root[groups[slot][0]] == root[n]; }
    }
    forall i | 0 <= i < n + 1 ensures i in groups'[slotOf[root[i]]] {
      if i < n { assert i in groups[slotOf[root[i]]]; } else { assert groups'[slot][|groups[slot]|] == n; }
    }
    forall g | 0 <= g < |groups'| ensures HasClass(n + 1, root, slotOf, groups'[g], g) {
      assert HasClass(n, root, slotOf, groups[g], g) && groups'[g][0] == groups[g][0];
    }
  }

  lemma FileNew(n: nat, root: seq<nat>, slotOf: map<nat, nat>, groups: seq<seq<nat>>)
    requires n < |root| && Filed(n, root, slotOf, groups) && root[n] !in slotOf
    ensures Filed(n + 1, root, slotOf[root[n] := |groups|], groups + [[n]])
  {
    var slotOf', groups' := slotOf[root[n] := |groups|], groups + [[n]];
    forall r | r in slotOf' ensures Listed(n + 1, root, r, groups'[slotOf'[r]]) {
      if r != root[n] { ListedMore(n, root, r, groups[slotOf[r]]); }
    }
    forall i | 0 <= i < n + 1 ensures root[i] in slotOf' && i in groups'[slotOf'[root[i]]] {
      if i < n { assert i in groups[slotOf[root[i]]]; }
    }
    forall g | 0 <= g < |groups'| ensures HasClass(n + 1, root, slotOf', groups'[g], g) {
      if g < |groups| { assert HasClass(n, root, slotOf, groups[g], g); }
    }
    forall g, h | 0 <= g < h < |groups'| ensures groups'[g][0] < groups'[h][0] {
      assert HasClass(n, root, slotOf, groups[g], g);
    }
  }

  datatype Filing = Filing(slotOf: map<nat, nat>, groups: seq<seq<nat>>) {
    predicate Consistent() {
      forall r :: r in slotOf ==> slotOf[r] < |groups|
    }

    /** Appends position `idx` to the list of class r, opening the list if r is new. */
    function Add(r: nat, idx: nat): Filing
      requires Consistent()
    {
      if r in slotOf then this.(groups := groups[slotOf[r] := groups[slotOf[r]] + [idx]])
      else Filing(slotOf[r := |groups|], groups + [[idx]])
    }

    ghost predicate Holds(n: nat, root: seq<nat>) {
      n <= |root| && Consistent() && Filed(n, root, slotOf, groups)
    }
  }

  lemma FileNext(f: Filing, n: nat, root: seq<nat>)
    requires f.Holds(n, root) && n < |root|
    ensures f.Add(root[n], n).Holds(n + 1, root)
  {
    if root[n] in f.slotOf {
      FileKnown(n, root, f.slotOf, f.groups, f.Add(root[n], n).groups);
    } else {
      FileNew(n, root, f.slotOf, f.groups);
    }
  }

  method FileByRoot(uf: UnionFind, n: nat) returns (f: Filing)
    requires uf.Valid() && uf.parent.Length == n
    modifies uf.parent
    ensures uf.Valid() && f.Holds(n, uf.root)
  {
    f := Filing(map[], []);
    ghost var root := uf.root;
    for idx := 0 to n
      invariant uf.Valid() && uf.root == root && f.Holds(idx, root)
    {
      FileNext(f, idx, root);
      var r := uf.Find(idx);
      f := f.Add(r, idx);
    }
  }

  /**
    Splits a round into its incidents. Classes are filed in order of first appearance, which is already the order
    by smallest position that the source sorts them into.
  */
  method GroupAnomalies(round: seq<Anomaly>) returns (groups: seq<seq<nat>>)
    ensures IsGrouping(round, groups)
  {
    var uf := new UnionFind(|round|);
    UnionLogs(uf, round);
    UnionMetrics(uf, round);
    var rootsOf := CollectRoots(uf, round);
    AttachMetrics(uf, round, rootsOf);
    var filing := FileByRoot(uf, |round|);
    groups := filing.groups;
    FiledIsGrouping(round, uf.root, filing.slotOf, groups);
  }

  lemma FiledIsGrouping(round: seq<Anomaly>, root: seq<nat>, slotOf: map<nat, nat>, groups: seq<seq<nat>>)
    requires |root| == |round| && Exact(IncidentRel(round), root) && Filed(|round|, root, slotOf, groups)
    ensures IsGrouping(round, groups)
  {
    forall g | 0 <= g < |groups| ensures Listed(|round|, root, root[groups[g][0]], groups[g]) {
      assert HasClass(|round|, root, slotOf, groups[g], g);
    }
    forall i | 0 <= i < |round| ensures InSomeGroup(groups, i) {
      assert i in groups[slotOf[root[i]]];
    }
    forall g, h, i, j | 0 <= g < |groups| && 0 <= h < |groups| && i in groups[g] && j in groups[h]
      ensures SameIncident(round, i, j) <==> g == h
    {
      assert root[i] == root[groups[g][0]] && root[j] == root[groups[h][0]];
      assert HasClass(|round|, root, slotOf, groups[g], g) && HasClass(|round|, root, slotOf, groups[h], h);
    }
  }
}
