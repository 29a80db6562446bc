/** The false-positive rate per record key: rounded running mean in memory, exact counts in the table. */
module FalsePositiveRate {
  import opened Verify
  import R = Records
  import opened Outcomes

  const UNIT := 0.0001

  /** Nearest multiple of the unit, ties to the even one. */
  function Round4(x: real): (r: real) {
    var m := (x / UNIT).Floor;
    var d := x / UNIT - m as real;
    (if d < 0.5 || (d == 0.5 && m % 2 == 0) then m else m + 1) as real * UNIT
  }

  function Units(m: int): real {
    m as real * UNIT
  }

  ghost predicate Multiple(x: real) {
    exists m: int :: x == Units(m)
  }

  lemma RoundIsNear(x: real)
    ensures Multiple(Round4(x)) && x - UNIT / 2.0 <= Round4(x) <= x + UNIT / 2.0
  {
    var m := (x / UNIT).Floor;
    assert x == (x / UNIT) * UNIT;
    assert Round4(x) == Units(m) || Round4(x) == Units(m + 1);
  }

  /** A multiple of the unit closer than half a unit is the rounded value. */
  lemma RoundFinds(x: real, m: int)
    requires Units(m) - UNIT / 2.0 < x < Units(m) + UNIT / 2.0
    ensures Round4(x) == Units(m)
  {
    assert x / UNIT * UNIT == x;
    assert m as real - 0.5 < x / UNIT < m as real + 0.5;
    assert (x / UNIT).Floor == m || (x / UNIT).Floor == m - 1;
  }

  // ---- One verdict ----

  function Increment(falsePositive: bool): nat {
    if falsePositive then 1 else 0
  }

  function Mean(rate: Rate, falsePositive: bool): real {
    (rate.fpr * rate.total as real + Increment(falsePositive) as real) / (rate.total + 1) as real
  }

  function WithVerdict(rate: Rate, falsePositive: bool): Rate {
    Rate(Round4(Mean(rate, falsePositive)), rate.total + 1)
  }

  /** Rates by tenant and key. */
  class RateStore {
    var rates: map<string, map<R.GroupKey, Rate>>

    constructor ()
      ensures rates == map[]
    {
      rates := map[];
    }

    method WriteFpr(tenant: string, key: R.GroupKey, falsePositive: bool) returns (r: Result<()>)
      modifies this
      ensures tenant == "" ==> r == TenantRequired && rates == old(rates)
      ensures tenant != "" ==>
                var table := if tenant in old(rates) then old(rates)[tenant] else map[];
                r == Ok(()) && rates == old(rates)[tenant := table[key := WithVerdict(RateOf(table, key), falsePositive)]]
    {
      if tenant == "" { return TenantRequired; }
      var table := if tenant in rates then rates[tenant] else map[];
      var total := if key in table then table[key].total else 0;
      var fpr := if key in table then table[key].fpr else 0.0;
      var increment := if falsePositive then 1 else 0;
      var mean := (fpr * total as real + increment as real) / (total + 1) as real;
      assert RateOf(table, key) == Rate(fpr, total) && mean == Mean(Rate(fpr, total), falsePositive);
      rates := rates[tenant := table[key := Rate(Round4(mean), total + 1)]];
      r := Ok(());
    }
  }

  // ---- All verdicts on one key ----

  function After(verdicts: seq<bool>): Rate {
    if verdicts == [] then Rate(0.0, 0) else WithVerdict(After(verdicts[..|verdicts| - 1]), verdicts[|verdicts| - 1])
  }

  /** How many of the verdicts call a false alarm. */
  function Positives(verdicts: seq<bool>): nat {
    if verdicts == [] then 0 else Positives(verdicts[..|verdicts| - 1]) + if verdicts[|verdicts| - 1] then 1 else 0
  }

  lemma MeanTimesTotal(rate: Rate, falsePositive: bool)
    ensures Mean(rate, falsePositive) * (rate.total as real + 1.0) ==
            rate.fpr * rate.total as real + Increment(falsePositive) as real
  {
  }

  lemma MeanStaysInRange(rate: Rate, falsePositive: bool)
    requires 0.0 <= rate.fpr <= 1.0
    ensures 0.0 <= Mean(rate, falsePositive) <= 1.0
  {
    var n := rate.total as real;
    MeanTimesTotal(rate, falsePositive);
    assert 0.0 <= rate.fpr * n <= n;
    var top := rate.fpr * n + Increment(falsePositive) as real;
    assert 0.0 <= top <= n + 1.0;
    QuotientInRange(top, n + 1.0);
  }

  lemma QuotientInRange(top: real, n: real)
    requires 0.0 <= top <= n && n > 0.0
    ensures 0.0 <= top / n <= 1.0
  {
  }

  /** The rate is a proper ratio and a multiple of the unit. */
  lemma {:induction false} RateStaysInRange(verdicts: seq<bool>)
    ensures After(verdicts).total == |verdicts| && 0.0 <= After(verdicts).fpr <= 1.0 && Multiple(After(verdicts).fpr)
  {
    if verdicts == [] {
      assert 0.0 == Units(0);
    } else {
      var before, v := After(verdicts[..|verdicts| - 1]), verdicts[|verdicts| - 1];
      RateStaysInRange(verdicts[..|verdicts| - 1]);
      MeanStaysInRange(before, v);
      RoundIsNear(Mean(before, v));
      RoundStaysInRange(Mean(before, v));
    }
  }

  lemma RoundStaysInRange(x: real)
    requires 0.0 <= x <= 1.0
    ensures 0.0 <= Round4(x) <= 1.0
  {
    RoundIsNear(x);
    var m: int :| Round4(x) == Units(m);
    assert -1.0 < m as real < 10001.0;
    assert 0 <= m <= 10000;
  }

  // ---- How far the running mean strays ----

  /** Rounding drift of n verdicts, multiplied by n. */
  function Bound(n: real): real {
    0.000025 * n * (n + 1.0)
  }

  predicate Near(fpr: real, n: real, count: real) {
    -Bound(n) <= fpr * n - count <= Bound(n)
  }

  lemma DriftStep(fpr: real, n: real, count: real, inc: real, mean: real, fpr': real)
    requires n >= 0.0 && mean * (n + 1.0) == fpr * n + inc && Near(fpr, n, count)
    requires mean - 0.00005 <= fpr' <= mean + 0.00005
    ensures Near(fpr', n + 1.0, count + inc)
  {
    var off := fpr' - mean;
    Scaled(off, n + 1.0);
    Distribute(mean, off, n + 1.0);
    assert fpr' * (n + 1.0) == (mean + off) * (n + 1.0);
    BoundGrows(n);
  }

  lemma Distribute(a: real, b: real, n: real)
    ensures (a + b) * n == a * n + b * n
  {
  }

  lemma BoundGrows(n: real)
    ensures Bound(n + 1.0) == Bound(n) + 0.00005 * (n + 1.0)
  {
  }

  lemma Scaled(off: real, n: real)
    requires -0.00005 <= off <= 0.00005 && n >= 0.0
    ensures -0.00005 * n <= off * n <= 0.00005 * n
  {
  }

  lemma VerdictStaysNear(rate: Rate, v: bool, count: nat)
    requires Near(rate.fpr, rate.total as real, count as real)
    ensures Near(WithVerdict(rate, v).fpr, (rate.total + 1) as real, (count + Increment(v)) as real)
  {
    var mean := Mean(rate, v);
    MeanTimesTotal(rate, v);
    RoundIsNear(mean);
    DriftStep(rate.fpr, rate.total as real, count as real, Increment(v) as real, mean, Round4(mean));
  }

  lemma {:induction false} DriftIsBounded(verdicts: seq<bool>)
    ensures After(verdicts).total == |verdicts|
    ensures Near(After(verdicts).fpr, |verdicts| as real, Positives(verdicts) as real)
  {
    if verdicts != [] {
      var n := |verdicts| - 1;
      DriftIsBounded(verdicts[..n]);
      VerdictStaysNear(After(verdicts[..n]), verdicts[n], Positives(verdicts[..n]));
    }
  }

  /** After n verdicts the in-memory rate is within 0.000025 (n + 1) of the exact ratio. */
  lemma RateIsNearRatio(verdicts: seq<bool>)
    requires verdicts != []
    ensures var n := |verdicts| as real; var ratio := Positives(verdicts) as real / n;
      ratio - 0.000025 * (n + 1.0) <= After(verdicts).fpr <= ratio + 0.000025 * (n + 1.0)
  {
    DriftIsBounded(verdicts);
    DividedAbove(After(verdicts).fpr, Positives(verdicts) as real, |verdicts| as real);
    DividedBelow(After(verdicts).fpr, Positives(verdicts) as real, |verdicts| as real);
  }

  lemma DividedAbove(fpr: real, count: real, n: real)
    requires n > 0.0 && Near(fpr, n, count)
    ensures fpr <= count / n + 0.000025 * (n + 1.0)
  {
    var ratio, slack := count / n, 0.000025 * (n + 1.0);
    assert ratio * n == count && slack * n == Bound(n);
    Distribute(ratio, slack, n);
    NoLarger(fpr, ratio + slack, n);
  }

  lemma DividedBelow(fpr: real, count: real, n: real)
    requires n > 0.0 && Near(fpr, n, count)
    ensures count / n - 0.000025 * (n + 1.0) <= fpr
  {
    var ratio, slack := count / n, 0.000025 * (n + 1.0);
    assert ratio * n == count && slack * n == Bound(n);
    Distribute(fpr, slack, n);
    NoLarger(ratio, fpr + slack, n);
  }

  lemma NoLarger(x: real, y: real, n: real)
    requires n > 0.0 && x * n <= y * n
    ensures x <= y
  {
  }

  // ---- Which verdicts are heard ----

  /** How far the verdict lies from the rate. */
  function Pull(rate: Rate, falsePositive: bool): real {
    var d := Increment(falsePositive) as real - rate.fpr;
    if d >= 0.0 then d else -d
  }

  /** The verdict's pull, shared among all verdicts, exceeds half a unit, or equals it and the rate is an odd number of units. */
  predicate Heard(rate: Rate, m: int, falsePositive: bool) {
    var p := 20000.0 * Pull(rate, falsePositive);
    p > (rate.total + 1) as real || (p == (rate.total + 1) as real && m % 2 == 1)
  }

  /** A verdict changes the rate of m units exactly when it is heard. */
  lemma VerdictChangesRateIff(rate: Rate, m: int, v: bool)
    requires rate.fpr == Units(m)
    ensures WithVerdict(rate, v).fpr != rate.fpr <==> Heard(rate, m, v)
  {
    var mean := Mean(rate, v);
    MeanTimesTotal(rate, v);
    StepOfMean(rate.fpr, rate.total as real, Increment(v) as real, mean);
    RoundKeepsIff(mean, m);
  }

  /** The step of the mean against half a unit, without the division. */
  lemma StepOfMean(fpr: real, n: real, inc: real, mean: real)
    requires n >= 0.0 && mean * (n + 1.0) == fpr * n + inc
    ensures mean - fpr > 0.00005 <==> 20000.0 * (inc - fpr) > n + 1.0
    ensures mean - fpr < 0.00005 <==> 20000.0 * (inc - fpr) < n + 1.0
    ensures fpr - mean > 0.00005 <==> 20000.0 * (fpr - inc) > n + 1.0
    ensures fpr - mean < 0.00005 <==> 20000.0 * (fpr - inc) < n + 1.0
  {
    Distribute(mean, -fpr, n + 1.0);
    assert (mean - fpr) * (n + 1.0) == inc - fpr;
    Compared(mean - fpr, inc - fpr, n + 1.0);
    assert (fpr - mean) * (n + 1.0) == fpr - inc;
    Compared(fpr - mean, fpr - inc, n + 1.0);
  }

  lemma Compared(step: real, d: real, n: real)
    requires n > 0.0 && step * n == d
    ensures step > 0.00005 <==> 20000.0 * d > n
    ensures step < 0.00005 <==> 20000.0 * d < n
  {
    assert (step - 0.00005) * n == d - 0.00005 * n;
    SignOfProduct(step - 0.00005, n);
  }

  lemma SignOfProduct(x: real, n: real)
    requires n > 0.0
    ensures (x > 0.0 <==> x * n > 0.0) && (x < 0.0 <==> x * n < 0.0)
  {
  }

  /** Rounding returns to m units exactly within half a unit, and at half a unit if m is even. */
  lemma RoundKeepsIff(x: real, m: int)
    ensures Round4(x) == Units(m) <==>
            -0.00005 < x - Units(m) < 0.00005 || ((x - Units(m) == 0.00005 || Units(m) - x == 0.00005) && m % 2 == 0)
  {
    RoundIsNear(x);
    if -0.00005 < x - Units(m) < 0.00005 {
      RoundFinds(x, m);
    } else if x - Units(m) == 0.00005 {
      assert x / UNIT == m as real + 0.5 && (x / UNIT).Floor == m;
    } else if Units(m) - x == 0.00005 {
      assert x / UNIT == m as real - 0.5 && (x / UNIT).Floor == m - 1;
    }
  }

  /** Once neither verdict is heard, none ever is again; and that is the only way in which a rate freezes. */
  lemma RateIsFrozenIff(verdicts: seq<bool>, m: int)
    requires After(verdicts).fpr == Units(m)
    ensures (forall later :: After(verdicts + later).fpr == After(verdicts).fpr) <==>
            !Heard(After(verdicts), m, true) && !Heard(After(verdicts), m, false)
  {
    if !Heard(After(verdicts), m, true) && !Heard(After(verdicts), m, false) {
      forall later ensures After(verdicts + later).fpr == After(verdicts).fpr {
        UnheardStaysFrozen(verdicts, m, later);
      }
    } else {
      var v := Heard(After(verdicts), m, true);
      VerdictChangesRateIff(After(verdicts), m, v);
      assert (verdicts + [v])[..|verdicts|] == verdicts;
      assert After(verdicts + [v]).fpr != After(verdicts).fpr;
    }
  }

  lemma {:induction false} UnheardStaysFrozen(verdicts: seq<bool>, m: int, later: seq<bool>)
    requires After(verdicts).fpr == Units(m)
    requires !Heard(After(verdicts), m, true) && !Heard(After(verdicts), m, false)
    ensures After(verdicts + later).fpr == After(verdicts).fpr
    decreases |later|
  {
    if later == [] {
      assert verdicts + later == verdicts;
    } else {
      var n := |later| - 1;
      var before := verdicts + later[..n];
      UnheardStaysFrozen(verdicts, m, later[..n]);
      assert (verdicts + later)[..|verdicts| + n] == before;
      RateStaysInRange(verdicts);
      RateStaysInRange(before);
      VerdictChangesRateIff(After(before), m, later[n]);
    }
  }

  /** From 20000 verdicts on neither is heard, whatever the rate. */
  lemma RateIsFrozen(verdicts: seq<bool>, later: seq<bool>)
    requires |verdicts| >= 20000
    ensures After(verdicts + later).fpr == After(verdicts).fpr
  {
    RateStaysInRange(verdicts);
    var m: int :| After(verdicts).fpr == Units(m);
    UnheardStaysFrozen(verdicts, m, later);
  }

  /** Half as many can be enough: at a rate of one half, from 10000 verdicts on. */
  lemma HalfRateFreezesEarlier(verdicts: seq<bool>, later: seq<bool>)
    requires |verdicts| >= 10000 && After(verdicts).fpr == 0.5
    ensures After(verdicts + later).fpr == 0.5
  {
    RateStaysInRange(verdicts);
    assert 0.5 == Units(5000);
    UnheardStaysFrozen(verdicts, 5000, later);
  }

  // ---- The table ----

  datatype Counts = Counts(positives: nat, total: nat, fpr: real)

  /** What a column of four decimals keeps of a non-negative number: the nearest, ties upwards. */
  function Stored4(x: real): real {
    (x / UNIT + 0.5).Floor as real * UNIT
  }

  lemma StoredIsNear(x: real)
    ensures Multiple(Stored4(x)) && x - UNIT / 2.0 <= Stored4(x) <= x + UNIT / 2.0
  {
    var m := (x / UNIT + 0.5).Floor;
    assert x == (x / UNIT) * UNIT;
    assert Stored4(x) == Units(m);
  }

  lemma StoredWholes()
    ensures Stored4(0.0) == 0.0 && Stored4(1.0) == 1.0
  {
    assert 1.0 / UNIT == 10000.0 && 0.0 / UNIT == 0.0;
  }

  /** The counts, and what the column keeps of the quotient the statement computes from them; a first verdict inserts 1 or 0. */
  function TableWithVerdict(row: Option<Counts>, falsePositive: bool): Counts {
    if row.None? then Counts(Increment(falsePositive), 1, if falsePositive then 1.0 else 0.0)
    else
      var c := row.value;
      Counts(c.positives + Increment(falsePositive), c.total + 1,
             Stored4((c.positives + Increment(falsePositive)) as real / (c.total + 1) as real))
  }

  function TableAfter(verdicts: seq<bool>): Option<Counts> {
    if verdicts == [] then None
    else Some(TableWithVerdict(TableAfter(verdicts[..|verdicts| - 1]), verdicts[|verdicts| - 1]))
  }

  /** After every verdict the table holds the exact counts and their ratio, rounded once; the error never grows. */
  lemma {:induction false} TableRateIsExact(verdicts: seq<bool>)
    requires verdicts != []
    ensures var ratio := Positives(verdicts) as real / |verdicts| as real;
      && TableAfter(verdicts) == Some(Counts(Positives(verdicts), |verdicts|, Stored4(ratio)))
      && ratio - 0.00005 <= Stored4(ratio) <= ratio + 0.00005
  {
    StoredIsNear(Positives(verdicts) as real / |verdicts| as real);
    if |verdicts| > 1 {
      TableRateIsExact(verdicts[..|verdicts| - 1]);
    } else {
      assert verdicts[..0] == [];
      assert Positives(verdicts) == Increment(verdicts[0]);
      StoredWholes();
    }
  }

  // ---- Where the two part ----

  function Repeat(v: bool, n: nat): seq<bool> {
    seq(n, _ => v)
  }

  lemma {:induction false} NoPositives(n: nat)
    ensures After(Repeat(false, n)) == Rate(0.0, n) && Positives(Repeat(false, n)) == 0
  {
    if n > 0 {
      var m: nat := n - 1;
      var all := Repeat(false, n);
      NoPositives(m);
      assert all[..m] == Repeat(false, m) && !all[m];
      NothingStaysNothing(m);
    }
  }

  lemma NothingStaysNothing(n: nat)
    ensures WithVerdict(Rate(0.0, n), false) == Rate(0.0, n + 1)
  {
    MeanTimesTotal(Rate(0.0, n), false);
    RoundFinds(0.0, 0);
  }

  lemma {:induction false} PositivesAdd(verdicts: seq<bool>, n: nat)
    ensures Positives(verdicts + Repeat(true, n)) == Positives(verdicts) + n
    decreases n
  {
    var all := verdicts + Repeat(true, n);
    if n == 0 {
      assert all == verdicts;
    } else {
      PositivesAdd(verdicts, n - 1);
      assert all[..|all| - 1] == verdicts + Repeat(true, n - 1);
    }
  }

  /** After 20000 true alarms the in-memory rate stays 0 under any number of false ones; the table's ratio follows them. */
  lemma MemoryStopsListening(n: nat)
    ensures var verdicts := Repeat(false, 20000) + Repeat(true, n);
      && After(verdicts).fpr == 0.0
      && TableAfter(verdicts) == Some(Counts(n, 20000 + n, Stored4(n as real / (20000 + n) as real)))
  {
    var quiet := Repeat(false, 20000);
    NoPositives(20000);
    RateIsFrozen(quiet, Repeat(true, n));
    PositivesAdd(quiet, n);
    TableRateIsExact(quiet + Repeat(true, n));
  }
}
