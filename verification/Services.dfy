/** Service names of a group, and the representative that enters its deduplication key. */
module Services {
  import opened Anomalies

  /** Text order by code point. */
  predicate Before(a: string, b: string) {
    if b == "" then false
    else if a == "" then true
    else a[0] < b[0] || (a[0] == b[0] && Before(a[1..], b[1..]))
  }

  lemma {:induction false} BeforeIsTransitive(a: string, b: string, c: string)
    requires Before(a, b) && Before(b, c)
    ensures Before(a, c)
  {
    if a != "" && a[0] == b[0] && b[0] == c[0] {
      BeforeIsTransitive(a[1..], b[1..], c[1..]);
    }
  }

  lemma {:induction false} BeforeIsStrictAndTotal(a: string, b: string)
    ensures !(Before(a, b) && Before(b, a))
    ensures a != b ==> Before(a, b) || Before(b, a)
    ensures !Before(a, a)
  {
    if a != "" { BeforeIsStrictAndTotal(a[1..], if b != "" then b[1..] else ""); }
    if a != "" && b != "" && a[0] == b[0] && a[1..] == b[1..] {
      assert a == [a[0]] + a[1..] && b == [b[0]] + b[1..];
    }
  }

  ghost predicate Ascending(names: seq<string>) {
    forall i, j :: 0 <= i < j < |names| ==> Before(names[i], names[j])
  }

  function Insert(names: seq<string>, s: string): (r: seq<string>)
    requires Ascending(names)
    ensures Ascending(r)
    ensures forall x :: x in r <==> x in names || x == s
  {
    if names == [] then [s]
    else if s == names[0] then names
    else if Before(s, names[0]) then
      InFront(s, names);
      [s] + names
    else
      BeforeIsStrictAndTotal(s, names[0]);
      var rest := Insert(names[1..], s);
      assert names == [names[0]] + names[1..];
      assert forall x :: x in rest ==> Before(names[0], x);
      [names[0]] + rest
  }

  lemma InFront(s: string, names: seq<string>)
    requires Ascending(names) && names != [] && Before(s, names[0])
    ensures Ascending([s] + names)
  {
    var r := [s] + names;
    forall i, j | 0 <= i < j < |r| ensures Before(r[i], r[j]) {
      if i == 0 && j > 1 { BeforeIsTransitive(s, names[0], names[j - 1]); }
    }
  }

  /** The distinct service names of a group in text order. */
  function GroupServices(group: seq<Anomaly>): (r: seq<string>)
    ensures Ascending(r)
    ensures forall i :: 0 <= i < |group| ==> group[i].service in r
    ensures forall x :: x in r ==> exists i :: 0 <= i < |group| && group[i].service == x
  {
    if group == [] then []
    else Insert(GroupServices(group[..|group| - 1]), group[|group| - 1].service)
  }

  /** First name in text order; "unknown" for the empty group. */
  function RepresentativeService(group: seq<Anomaly>): (r: string)
    ensures group == [] ==> r == "unknown"
    ensures group != [] ==> exists i :: 0 <= i < |group| && group[i].service == r
    ensures forall i :: 0 <= i < |group| ==> r == group[i].service || Before(r, group[i].service)
  {
    var services := GroupServices(group);
    assert forall i :: 0 <= i < |group| ==> group[i].service in services;
    if services == [] then "unknown"
    else
      assert services[0] in services;
      services[0]
  }

  /** The representative depends only on which services take part, so it is stable from round to round. */
  lemma RepresentativeIsStable(one: seq<Anomaly>, two: seq<Anomaly>)
    requires forall x :: x in GroupServices(one) <==> x in GroupServices(two)
    ensures GroupServices(one) == GroupServices(two)
    ensures RepresentativeService(one) == RepresentativeService(two)
  {
    AscendingNamesAgree(GroupServices(one), GroupServices(two));
  }

  lemma {:induction false} AscendingNamesAgree(p: seq<string>, q: seq<string>)
    requires Ascending(p) && Ascending(q) && forall x :: x in p <==> x in q
    ensures p == q
  {
    assert p != [] ==> p[0] in q;
    assert q != [] ==> q[0] in p;
    if p != [] {
      BeforeIsStrictAndTotal(p[0], q[0]);
      forall x ensures x in p[1..] <==> x in q[1..] {
        NotAmongTheRest(p);
        NotAmongTheRest(q);
        assert x in p[1..] <==> x in p && x != p[0];
        assert x in q[1..] <==> x in q && x != q[0];
      }
      AscendingNamesAgree(p[1..], q[1..]);
    }
  }

  lemma NotRepeated(p: seq<string>, t: nat)
    requires Ascending(p) && t < |p|
    ensures p[t] !in p[..t]
  {
    BeforeIsStrictAndTotal(p[t], p[t]);
  }

  lemma NotAmongTheRest(p: seq<string>)
    requires Ascending(p) && p != []
    ensures p[0] !in p[1..]
  {
    BeforeIsStrictAndTotal(p[0], p[0]);
  }
}
