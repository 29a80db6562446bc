/** The newest-first listing of a tenant's records, filtered. */
module Listing {
  import opened Records
  import opened Outcomes
  import opened Text

  /** Filters left open keep everything; a service matches any of the joined names. */
  datatype Filter = Filter(tenant: string, state: Option<State>, service: Option<string>, severity: Option<string>)

  function All(tenant: string): Filter {
    Filter(tenant, None, None, None)
  }

  predicate Keeps(f: Filter, rec: Record) {
    && rec.tenantId == f.tenant
    && (f.state.Some? ==> rec.state == f.state.value)
    && (f.service.Some? ==> f.service.value in SplitOn(rec.service, ','))
    && (f.severity.Some? ==> rec.severity == f.severity.value)
  }

  /** Row j is listed before row i: detected later, or at the same time and stored earlier. */
  predicate Ahead(rows: seq<Row>, j: nat, i: nat)
    requires j < |rows| && i < |rows|
  {
    rows[j].rec.detectedAt > rows[i].rec.detectedAt || (rows[j].rec.detectedAt == rows[i].rec.detectedAt && j < i)
  }

  predicate Of(rows: seq<Row>, f: Filter, j: nat) {
    j < |rows| && Keeps(f, rows[j].rec)
  }

  /** The kept rows that come before row i. */
  function AheadOf(rows: seq<Row>, f: Filter, i: nat): set<nat>
    requires i < |rows|
  {
    set j: nat | 0 <= j < |rows| && Of(rows, f, j) && Ahead(rows, j, i)
  }

  /** Row i is among the first `limit` kept rows. */
  predicate Listed(rows: seq<Row>, f: Filter, limit: nat, i: nat) {
    Of(rows, f, i) && |AheadOf(rows, f, i)| < limit
  }

  ghost predicate Ordered(rows: seq<Row>, order: seq<nat>) {
    && (forall p :: 0 <= p < |order| ==> order[p] < |rows|)
    && (forall p, q :: 0 <= p < q < |order| ==> Ahead(rows, order[p], order[q]))
  }

  /** Places row i, stored after all others in `order`, behind those at least as new. */
  function Place(rows: seq<Row>, order: seq<nat>, i: nat): (r: seq<nat>)
    requires Ordered(rows, order) && i < |rows| && forall p :: 0 <= p < |order| ==> order[p] < i
    ensures forall j :: j in r <==> j in order || j == i
    ensures Ordered(rows, r)
  {
    if order == [] then [i]
    else
      var n := |order| - 1;
      if rows[order[n]].rec.detectedAt >= rows[i].rec.detectedAt then
        assert forall p :: 0 <= p < n ==> Ahead(rows, order[p], order[n]);
        order + [i]
      else
        var r := Place(rows, order[..n], i);
        LastStaysLast(rows, order, i, r);
        r + [order[n]]
  }

  lemma LastStaysLast(rows: seq<Row>, order: seq<nat>, i: nat, r: seq<nat>)
    requires order != [] && Ordered(rows, order) && Ordered(rows, r) && i < |rows|
    requires rows[order[|order| - 1]].rec.detectedAt < rows[i].rec.detectedAt
    requires forall j :: j in r <==> j in order[..|order| - 1] || j == i
    ensures Ordered(rows, r + [order[|order| - 1]])
    ensures forall j :: j in r + [order[|order| - 1]] <==> j in order || j == i
  {
    var n := |order| - 1;
    assert order == order[..n] + [order[n]];
    forall p | 0 <= p < |r| ensures Ahead(rows, r[p], order[n]) {
      assert r[p] in r;
      if r[p] != i {
        var q :| 0 <= q < n && order[..n][q] == r[p];
        assert order[q] == r[p];
      }
    }
  }

  /** The kept rows among the first n, newest first, equally new ones in stored order. */
  function Newest(rows: seq<Row>, f: Filter, n: nat): (r: seq<nat>)
    requires n <= |rows|
    ensures Ordered(rows, r)
    ensures forall j: nat :: j in r <==> j < n && Of(rows, f, j)
  {
    if n == 0 then []
    else
      var before := Newest(rows, f, n - 1);
      if Of(rows, f, n - 1) then
        assert forall p :: 0 <= p < |before| ==> before[p] in before;
        Place(rows, before, n - 1)
      else before
  }

  /** In the listing, a row's position is the number of rows ahead of it. */
  lemma PositionIsRank(rows: seq<Row>, f: Filter, p: nat)
    requires p < |Newest(rows, f, |rows|)|
    ensures var order := Newest(rows, f, |rows|);
      order[p] in order && Of(rows, f, order[p]) && |AheadOf(rows, f, order[p])| == p
  {
    var order := Newest(rows, f, |rows|);
    assert order[p] in order;
    var front := order[..p];
    forall j: nat ensures j in front <==> j in AheadOf(rows, f, order[p]) {
      if j in front {
        var q :| 0 <= q < p && front[q] == j;
        assert order[q] == j && j in order && Ahead(rows, order[q], order[p]);
      }
      if j in AheadOf(rows, f, order[p]) {
        assert j in order;
        var q :| 0 <= q < |order| && order[q] == j;
        assert q < p;
        assert front[q] == j;
      }
    }
    assert AheadOf(rows, f, order[p]) == Elements(front);
    DistinctCount(rows, front);
  }

  function Elements(front: seq<nat>): set<nat> {
    set j | j in front
  }

  lemma {:induction false} DistinctCount(rows: seq<Row>, front: seq<nat>)
    requires Ordered(rows, front)
    ensures |Elements(front)| == |front|
  {
    if front == [] {
      assert Elements(front) == {};
    } else {
      var n := |front| - 1;
      DistinctCount(rows, front[..n]);
      assert front == front[..n] + [front[n]];
      assert front[n] !in front[..n];
      assert Elements(front) == Elements(front[..n]) + {front[n]};
    }
  }

  method List(rows: seq<Row>, f: Filter, limit: nat) returns (r: Result<seq<nat>>)
    ensures r.TenantRequired? <==> f.tenant == ""
    ensures r.Ok? ==> Ordered(rows, r.value) && forall i :: i in r.value <==> Listed(rows, f, limit, i)
  {
    if f.tenant == "" { return TenantRequired; }
    var order := Newest(rows, f, |rows|);
    var listing := if |order| <= limit then order else order[..limit];
    forall i: nat ensures i in listing <==> Listed(rows, f, limit, i) {
      ListedIffNear(rows, f, limit, i);
    }
    r := Ok(listing);
  }

  lemma ListedIffNear(rows: seq<Row>, f: Filter, limit: nat, i: nat)
    ensures var order := Newest(rows, f, |rows|);
      i in (if |order| <= limit then order else order[..limit]) <==> Listed(rows, f, limit, i)
  {
    var order := Newest(rows, f, |rows|);
    var front := if |order| <= limit then order else order[..limit];
    if i in front {
      var p :| 0 <= p < |front| && front[p] == i;
      PositionIsRank(rows, f, p);
    }
    if Listed(rows, f, limit, i) {
      assert i in order;
      var p :| 0 <= p < |order| && order[p] == i;
      PositionIsRank(rows, f, p);
      assert front[p] == i;
    }
  }
}
