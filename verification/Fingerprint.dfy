/** The hashed keys: what the texts that enter the hash say about identity. */
module Fingerprints {
  import opened Anomalies
  import opened Text
  import opened Services
  import R = Records

  /** A digest renders as 64 characters without the separator. */
  ghost predicate HexDigest(h: string -> string) {
    forall x: string :: |h(x)| == 64 && '|' !in h(x)
  }

  // ---- The text of one anomaly ----

  function RawKey(k: Key): string {
    match k
    case MetricKey(t, s, m, l) => "metric" + "|" + (t + "|" + (s + "|" + (m + "|" + l)))
    case LogKey(t, s, g) => "log" + "|" + (t + "|" + (s + "|" + g))
  }

  /** Tenant, service and metric names do not contain the separator; labels and signatures may. */
  predicate PlainKey(k: Key) {
    '|' !in k.tenant && '|' !in k.service && (k.MetricKey? ==> '|' !in k.metric)
  }

  lemma RawKeyDetermines(k: Key, k': Key)
    requires PlainKey(k) && PlainKey(k') && RawKey(k) == RawKey(k')
    ensures k == k'
  {
    assert RawKey(k)[0] == if k.MetricKey? then 'm' else 'l';
    assert RawKey(k')[0] == if k'.MetricKey? then 'm' else 'l';
    if k.MetricKey? {
      MetricDetermines(k, k');
    } else {
      LogDetermines(k, k');
    }
  }

  lemma MetricDetermines(k: Key, k': Key)
    requires k.MetricKey? && k'.MetricKey? && PlainKey(k) && PlainKey(k') && RawKey(k) == RawKey(k')
    ensures k == k'
  {
    var m, m' := k.metric + "|" + k.labels, k'.metric + "|" + k'.labels;
    var s, s' := k.service + "|" + m, k'.service + "|" + m';
    CutIsUnique("metric", k.tenant + "|" + s, "metric", k'.tenant + "|" + s', '|');
    CutIsUnique(k.tenant, s, k'.tenant, s', '|');
    CutIsUnique(k.service, m, k'.service, m', '|');
    CutIsUnique(k.metric, k.labels, k'.metric, k'.labels, '|');
  }

  lemma LogDetermines(k: Key, k': Key)
    requires k.LogKey? && k'.LogKey? && PlainKey(k) && PlainKey(k') && RawKey(k) == RawKey(k')
    ensures k == k'
  {
    var s, s' := k.service + "|" + k.signature, k'.service + "|" + k'.signature;
    CutIsUnique("log", k.tenant + "|" + s, "log", k'.tenant + "|" + s', '|');
    CutIsUnique(k.tenant, s, k'.tenant, s', '|');
    CutIsUnique(k.service, k.signature, k'.service, k'.signature, '|');
  }

  function KeyText(h: string -> string, k: Key): string {
    var d := h(RawKey(k));
    if |d| <= 16 then d else d[..16]
  }

  // ---- Sorting, with repetition ----

  predicate AtMost(a: string, b: string) {
    !Before(b, a)
  }

  predicate InOrder(names: seq<string>) {
    forall i, j :: 0 <= i < j < |names| ==> AtMost(names[i], names[j])
  }

  lemma AtMostIsTransitive(a: string, b: string, c: string)
    requires AtMost(a, b) && AtMost(b, c)
    ensures AtMost(a, c)
  {
    BeforeIsStrictAndTotal(a, b);
    BeforeIsStrictAndTotal(b, c);
    if Before(c, a) {
      if a != b { BeforeIsTransitive(c, a, b); }
    }
  }

  function Insert(names: seq<string>, s: string): (r: seq<string>)
    requires InOrder(names)
    ensures InOrder(r) && multiset(r) == multiset(names) + multiset{s}
  {
    if names == [] || AtMost(s, names[0]) then
      InsertInFront(names, s);
      [s] + names
    else
      var rest := Insert(names[1..], s);
      InsertBehind(names, s, rest);
      [names[0]] + rest
  }

  lemma InsertInFront(names: seq<string>, s: string)
    requires InOrder(names) && (names == [] || AtMost(s, names[0]))
    ensures InOrder([s] + names)
  {
    var r := [s] + names;
    forall i, j | 0 <= i < j < |r| ensures AtMost(r[i], r[j]) {
      if i == 0 && j > 1 {
        AtMostIsTransitive(s, names[0], names[j - 1]);
      }
    }
  }

  lemma InsertBehind(names: seq<string>, s: string, rest: seq<string>)
    requires names != [] && InOrder(names) && !AtMost(s, names[0])
    requires InOrder(rest) && multiset(rest) == multiset(names[1..]) + multiset{s}
    ensures InOrder([names[0]] + rest) && multiset([names[0]] + rest) == multiset(names) + multiset{s}
  {
    assert names == [names[0]] + names[1..];
    BeforeIsStrictAndTotal(s, names[0]);
    forall j | 0 <= j < |rest| ensures AtMost(names[0], rest[j]) {
      assert rest[j] in multiset(rest);
      assert rest[j] in names[1..] || rest[j] == s;
    }
    var r := [names[0]] + rest;
    forall i, j | 0 <= i < j < |r| ensures AtMost(r[i], r[j]) {
    }
  }

  function Sorted(names: seq<string>): (r: seq<string>)
    ensures InOrder(r) && multiset(r) == multiset(names)
  {
    if names == [] then []
    else
      assert names == names[..|names| - 1] + [names[|names| - 1]];
      Insert(Sorted(names[..|names| - 1]), names[|names| - 1])
  }

  /** Two ordered lists of the same items are the same list. */
  lemma {:induction false} OrderIsCanonical(p: seq<string>, q: seq<string>)
    requires InOrder(p) && InOrder(q) && multiset(p) == multiset(q)
    ensures p == q
    decreases |p|
  {
    assert |p| == |multiset(p)| == |multiset(q)| == |q|;
    if p != [] {
      assert p[0] in multiset(q) && q[0] in multiset(p);
      FirstIsLeast(p, q[0]);
      FirstIsLeast(q, p[0]);
      BeforeIsStrictAndTotal(p[0], q[0]);
      RestOfBag(p);
      RestOfBag(q);
      OrderIsCanonical(p[1..], q[1..]);
      assert p == [p[0]] + p[1..] && q == [q[0]] + q[1..];
    }
  }

  lemma RestOfBag(p: seq<string>)
    requires p != []
    ensures multiset(p[1..]) == multiset(p) - multiset{p[0]}
  {
    assert p == [p[0]] + p[1..];
  }

  lemma FirstIsLeast(p: seq<string>, x: string)
    requires InOrder(p) && x in p
    ensures AtMost(p[0], x)
  {
    BeforeIsStrictAndTotal(x, x);
  }

  // ---- The text of a group ----

  function Texts(h: string -> string, anomalies: seq<Anomaly>): seq<string> {
    seq(|anomalies|, i requires 0 <= i < |anomalies| => KeyText(h, AnomalyKey(anomalies[i])))
  }

  function RawGroup(tenant: string, domain: string, service: string, keys: seq<string>): string {
    tenant + "|" + (domain + "|" + (service + "|" + JoinWith(Sorted(keys), "|")))
  }

  function GroupText(h: string -> string, tenant: string, domain: string, service: string, anomalies: seq<Anomaly>): string {
    var d := h(RawGroup(tenant, domain, service, Texts(h, anomalies)));
    tenant + ":" + domain + ":" + service + ":" + if |d| <= 12 then d else d[..12]
  }

  predicate PlainItems(items: seq<string>) {
    forall i :: 0 <= i < |items| ==> items[i] != "" && '|' !in items[i]
  }

  /** Joined items are separated again in only one way. */
  lemma {:induction false} JoinDetermines(p: seq<string>, q: seq<string>)
    requires PlainItems(p) && PlainItems(q) && JoinWith(p, "|") == JoinWith(q, "|")
    ensures p == q
    decreases |p|
  {
    JoinStarts(p);
    JoinStarts(q);
    if |p| > 1 && |q| > 1 {
      CutIsUnique(p[0], JoinWith(p[1..], "|"), q[0], JoinWith(q[1..], "|"), '|');
      JoinDetermines(p[1..], q[1..]);
      assert p == [p[0]] + p[1..] && q == [q[0]] + q[1..];
    }
  }

  lemma JoinStarts(p: seq<string>)
    requires PlainItems(p)
    ensures p == [] <==> JoinWith(p, "|") == ""
    ensures |p| == 1 ==> JoinWith(p, "|") == p[0] && '|' !in JoinWith(p, "|")
    ensures |p| > 1 ==> JoinWith(p, "|") == p[0] + "|" + JoinWith(p[1..], "|") && '|' in JoinWith(p, "|")
  {
    if |p| > 1 {
      assert JoinWith(p, "|") == p[0] + "|" + JoinWith(p[1..], "|");
      assert JoinWith(p, "|")[|p[0]|] == '|';
    }
  }

  predicate PlainNames(tenant: string, domain: string, service: string) {
    '|' !in tenant && '|' !in domain && '|' !in service
  }

  lemma RawGroupDetermines(t: string, d: string, s: string, p: seq<string>, t': string, d': string, s': string, q: seq<string>)
    requires PlainNames(t, d, s) && PlainNames(t', d', s') && PlainItems(p) && PlainItems(q)
    ensures RawGroup(t, d, s, p) == RawGroup(t', d', s', q) <==> t == t' && d == d' && s == s' && multiset(p) == multiset(q)
  {
    SortedIsPlain(p);
    SortedIsPlain(q);
    var j, j' := JoinWith(Sorted(p), "|"), JoinWith(Sorted(q), "|");
    if RawGroup(t, d, s, p) == RawGroup(t', d', s', q) {
      CutIsUnique(t, d + "|" + (s + "|" + j), t', d' + "|" + (s' + "|" + j'), '|');
      CutIsUnique(d, s + "|" + j, d', s' + "|" + j', '|');
      CutIsUnique(s, j, s', j', '|');
      JoinDetermines(Sorted(p), Sorted(q));
    }
    if multiset(p) == multiset(q) {
      OrderIsCanonical(Sorted(p), Sorted(q));
    }
  }

  lemma SortedIsPlain(p: seq<string>)
    requires PlainItems(p)
    ensures PlainItems(Sorted(p))
  {
    var r := Sorted(p);
    forall i | 0 <= i < |r| ensures r[i] != "" && '|' !in r[i] {
      assert r[i] in multiset(p);
    }
  }

  // ---- Identities and their texts ----

  /** The shortened digest tells the two texts apart if they differ. */
  predicate NoCollision(h: string -> string, x: string, y: string, n: nat)
    requires n <= |h(x)| && n <= |h(y)|
  {
    h(x)[..n] == h(y)[..n] ==> x == y
  }

  /** No two of the anomalies' texts collide. */
  ghost predicate KeysDoNotCollide(h: string -> string, keys: seq<Key>) {
    HexDigest(h) && forall i, j :: 0 <= i < |keys| && 0 <= j < |keys| ==> NoCollision(h, RawKey(keys[i]), RawKey(keys[j]), 16)
  }

  ghost predicate PlainKeys(keys: seq<Key>) {
    forall i :: 0 <= i < |keys| ==> PlainKey(keys[i])
  }

  /** Anomalies have the same hashed key exactly when they have the same identity. */
  lemma KeyTextDetermines(h: string -> string, keys: seq<Key>, i: nat, j: nat)
    requires KeysDoNotCollide(h, keys) && PlainKeys(keys) && i < |keys| && j < |keys|
    ensures KeyText(h, keys[i]) == KeyText(h, keys[j]) <==> keys[i] == keys[j]
  {
    if KeyText(h, keys[i]) == KeyText(h, keys[j]) {
      assert NoCollision(h, RawKey(keys[i]), RawKey(keys[j]), 16);
      RawKeyDetermines(keys[i], keys[j]);
    }
  }

  function Rendered(h: string -> string, keys: seq<Key>): seq<string> {
    seq(|keys|, i requires 0 <= i < |keys| => KeyText(h, keys[i]))
  }

  /** A text occurs as often as its identity does. */
  lemma {:induction false} TextCount(h: string -> string, keys: seq<Key>, k: Key)
    requires forall i :: 0 <= i < |keys| ==> (KeyText(h, keys[i]) == KeyText(h, k) <==> keys[i] == k)
    ensures multiset(Rendered(h, keys))[KeyText(h, k)] == multiset(keys)[k]
  {
    if keys != [] {
      var n := |keys| - 1;
      TextCount(h, keys[..n], k);
      assert keys == keys[..n] + [keys[n]];
      assert Rendered(h, keys) == Rendered(h, keys[..n]) + [KeyText(h, keys[n])];
    }
  }

  lemma TextBagsAgree(h: string -> string, a: seq<Key>, b: seq<Key>)
    requires KeysDoNotCollide(h, a + b) && PlainKeys(a + b)
    ensures multiset(Rendered(h, a)) == multiset(Rendered(h, b)) <==> multiset(a) == multiset(b)
  {
    if multiset(Rendered(h, a)) == multiset(Rendered(h, b)) {
      forall k ensures multiset(a)[k] == multiset(b)[k] {
        SameCount(h, a, b, k);
      }
    }
    if multiset(a) == multiset(b) {
      forall x ensures multiset(Rendered(h, a))[x] == multiset(Rendered(h, b))[x] {
        SameTextCount(h, a, b, x);
      }
    }
  }

  lemma SameCount(h: string -> string, a: seq<Key>, b: seq<Key>, k: Key)
    requires KeysDoNotCollide(h, a + b) && PlainKeys(a + b) && multiset(Rendered(h, a)) == multiset(Rendered(h, b))
    ensures multiset(a)[k] == multiset(b)[k]
  {
    if k in a + b {
      var i: nat :| i < |a + b| && (a + b)[i] == k;
      TextCountIn(h, a, b, i);
    }
  }

  lemma SameTextCount(h: string -> string, a: seq<Key>, b: seq<Key>, x: string)
    requires KeysDoNotCollide(h, a + b) && PlainKeys(a + b) && multiset(a) == multiset(b)
    ensures multiset(Rendered(h, a))[x] == multiset(Rendered(h, b))[x]
  {
    if x in Rendered(h, a) || x in Rendered(h, b) {
      var i := TextComesFrom(h, a, b, x);
      TextCountIn(h, a, b, i);
    }
  }

  lemma TextCountIn(h: string -> string, a: seq<Key>, b: seq<Key>, i: nat)
    requires KeysDoNotCollide(h, a + b) && PlainKeys(a + b) && i < |a + b|
    ensures multiset(Rendered(h, a))[KeyText(h, (a + b)[i])] == multiset(a)[(a + b)[i]]
    ensures multiset(Rendered(h, b))[KeyText(h, (a + b)[i])] == multiset(b)[(a + b)[i]]
  {
    var all := a + b;
    forall j | 0 <= j < |a| ensures KeyText(h, a[j]) == KeyText(h, all[i]) <==> a[j] == all[i] {
      KeyTextDetermines(h, all, j, i);
    }
    forall j | 0 <= j < |b| ensures KeyText(h, b[j]) == KeyText(h, all[i]) <==> b[j] == all[i] {
      KeyTextDetermines(h, all, |a| + j, i);
    }
    TextCount(h, a, all[i]);
    TextCount(h, b, all[i]);
  }

  lemma TextComesFrom(h: string -> string, a: seq<Key>, b: seq<Key>, x: string) returns (i: nat)
    requires x in Rendered(h, a) || x in Rendered(h, b)
    ensures i < |a + b| && KeyText(h, (a + b)[i]) == x
  {
    if x in Rendered(h, a) {
      i :| i < |a| && Rendered(h, a)[i] == x;
    } else {
      var j: nat :| j < |b| && Rendered(h, b)[j] == x;
      i := |a| + j;
    }
  }

  // ---- The group key ----

  /** The texts that enter the two group hashes, and what is assumed of them. */
  ghost predicate Distinguishable(h: string -> string, one: R.GroupKey, a: seq<Anomaly>, two: R.GroupKey, b: seq<Anomaly>) {
    && PlainNames(one.tenant, one.domain, one.service) && PlainNames(two.tenant, two.domain, two.service)
    && one.keys == multiset(Keys(a)) && two.keys == multiset(Keys(b))
    && PlainKeys(Keys(a) + Keys(b)) && KeysDoNotCollide(h, Keys(a) + Keys(b))
    && NoCollision(h, RawGroup(one.tenant, one.domain, one.service, Texts(h, a)),
                   RawGroup(two.tenant, two.domain, two.service, Texts(h, b)), 12)
  }

  /** Hashed group keys agree exactly when tenant, domain, service and the multiset of identities agree. */
  lemma GroupTextDetermines(h: string -> string, one: R.GroupKey, a: seq<Anomaly>, two: R.GroupKey, b: seq<Anomaly>)
    requires HexDigest(h) && Distinguishable(h, one, a, two, b)
    ensures GroupText(h, one.tenant, one.domain, one.service, a) == GroupText(h, two.tenant, two.domain, two.service, b)
            <==> one == two
  {
    var x := RawGroup(one.tenant, one.domain, one.service, Texts(h, a));
    var y := RawGroup(two.tenant, two.domain, two.service, Texts(h, b));
    assert Texts(h, a) == Rendered(h, Keys(a)) && Texts(h, b) == Rendered(h, Keys(b));
    TextsArePlain(h, a);
    TextsArePlain(h, b);
    RawGroupDetermines(one.tenant, one.domain, one.service, Texts(h, a), two.tenant, two.domain, two.service, Texts(h, b));
    TextBagsAgree(h, Keys(a), Keys(b));
    LastTwelve(one.tenant + ":" + one.domain + ":" + one.service + ":", h(x)[..12],
               two.tenant + ":" + two.domain + ":" + two.service + ":", h(y)[..12]);
  }

  lemma TextsArePlain(h: string -> string, a: seq<Anomaly>)
    requires HexDigest(h)
    ensures PlainItems(Texts(h, a))
  {
  }

  lemma LastTwelve(p: string, d: string, q: string, e: string)
    requires |d| == 12 && |e| == 12
    ensures p + d == q + e ==> d == e
  {
    if p + d == q + e {
      assert d == (p + d)[|p + d| - 12..] && e == (q + e)[|q + e| - 12..];
    }
  }
}
