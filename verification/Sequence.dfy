/** Identifiers handed out per day: PR-YYYYMMDD-NNNN for records, INC-YYYYMMDD-NNNN for tickets. */
module Sequences {
  import opened Decimals
  import opened Text

  datatype Kind = RecordId | TicketNumber

  function Prefix(kind: Kind): string {
    if kind.RecordId? then "PR" else "INC"
  }

  /** A day as digits. */
  predicate IsDate(date: string) {
    forall i :: 0 <= i < |date| ==> IsDigit(date[i])
  }

  function Label(prefix: string, date: string, n: nat): string {
    prefix + "-" + (date + "-" + Padded(n, 4))
  }

  type Counters = map<(string, string), nat>

  function Count(next: Counters, prefix: string, date: string): nat {
    if (prefix, date) in next then next[(prefix, date)] else 0
  }

  /** The two kinds of number are counted apart. */
  class SequenceStore {
    var next: Counters

    constructor ()
      ensures next == map[]
    {
      next := map[];
    }

    method Bump(prefix: string, date: string) returns (n: nat)
      modifies this
      ensures n == Count(old(next), prefix, date) + 1 && next == old(next)[(prefix, date) := n]
    {
      n := Count(next, prefix, date) + 1;
      next := next[(prefix, date) := n];
    }

    /** `date` is the day read once from the clock. */
    method Next(kind: Kind, date: string) returns (id: string)
      modifies this
      ensures Issues(old(next), Call(kind, date), id, next)
    {
      var n := Bump(Prefix(kind), date);
      id := Label(Prefix(kind), date, n);
    }
  }

  datatype Call = Call(kind: Kind, date: string)

  /** The call turns counters `before` into `after` and answers `id`. */
  predicate Issues(before: Counters, call: Call, id: string, after: Counters) {
    var n := Count(before, Prefix(call.kind), call.date) + 1;
    id == Label(Prefix(call.kind), call.date, n) && after == before[(Prefix(call.kind), call.date) := n]
  }

  /** A history of calls on a new store, with the counters between them and the answers given. */
  predicate IsHistory(calls: seq<Call>, counters: seq<Counters>, ids: seq<string>) {
    && |ids| == |calls| && |counters| == |calls| + 1 && counters[0] == map[]
    && (forall k :: 0 <= k < |calls| ==> IsDate(calls[k].date))
    && forall k :: 0 <= k < |calls| ==> Issues(counters[k], calls[k], ids[k], counters[k + 1])
  }

  lemma LabelDetermines(k: Kind, date: string, n: nat, k': Kind, date': string, n': nat)
    requires IsDate(date) && IsDate(date') && Label(Prefix(k), date, n) == Label(Prefix(k'), date', n')
    ensures k == k' && date == date' && n == n'
  {
    CutIsUnique(Prefix(k), date + "-" + Padded(n, 4), Prefix(k'), date' + "-" + Padded(n', 4), '-');
    CutIsUnique(date, Padded(n, 4), date', Padded(n', 4), '-');
    PaddedReadsBack(n, 4);
    PaddedReadsBack(n', 4);
    assert Prefix(RecordId)[0] == 'P' && Prefix(TicketNumber)[0] == 'I';
  }

  /** A number reads as its kind, its day and its count, the count in four digits or as many as it takes. */
  lemma LabelReads(kind: Kind, date: string, n: nat) returns (digits: string)
    ensures Label(Prefix(kind), date, n) == (if kind.RecordId? then "PR-" else "INC-") + (date + ("-" + digits))
    ensures |digits| >= 4 && (|digits| > 4 ==> digits[0] != '0')
    ensures (forall i :: 0 <= i < |digits| ==> IsDigit(digits[i])) && Value(digits) == n
  {
    digits := Padded(n, 4);
    PaddedReadsBack(n, 4);
    DecimalStarts(n);
    assert Prefix(kind) + "-" == if kind.RecordId? then "PR-" else "INC-";
    assert date + "-" + digits == date + ("-" + digits);
  }

  lemma {:induction false} CountersOnlyGrow(calls: seq<Call>, counters: seq<Counters>, ids: seq<string>, j: nat, k: nat, p: string, d: string)
    requires IsHistory(calls, counters, ids) && j <= k < |counters|
    ensures Count(counters[j], p, d) <= Count(counters[k], p, d)
    decreases k
  {
    if j < k {
      CountersOnlyGrow(calls, counters, ids, j, k - 1, p, d);
      assert Issues(counters[k - 1], calls[k - 1], ids[k - 1], counters[k]);
    }
  }

  /** How many of the first k calls ask for this kind of number on this day. */
  function Earlier(calls: seq<Call>, k: nat, call: Call): nat
    requires k <= |calls|
  {
    if k == 0 then 0 else Earlier(calls, k - 1, call) + if calls[k - 1] == call then 1 else 0
  }

  lemma {:induction false} CountersCount(calls: seq<Call>, counters: seq<Counters>, ids: seq<string>, k: nat, call: Call)
    requires IsHistory(calls, counters, ids) && k <= |calls|
    ensures Count(counters[k], Prefix(call.kind), call.date) == Earlier(calls, k, call)
  {
    if k > 0 {
      var m: nat := k - 1;
      CountersCount(calls, counters, ids, m, call);
      assert Issues(counters[m], calls[m], ids[m], counters[k]);
      assert Prefix(RecordId)[0] == 'P' && Prefix(TicketNumber)[0] == 'I';
    }
  }

  /** Numbers of one kind and day count up from one without a gap. */
  lemma NumbersCountUp(calls: seq<Call>, counters: seq<Counters>, ids: seq<string>, k: nat) returns (digits: string)
    requires IsHistory(calls, counters, ids) && k < |calls|
    ensures ids[k] == (if calls[k].kind.RecordId? then "PR-" else "INC-") + (calls[k].date + ("-" + digits))
    ensures |digits| >= 4 && (|digits| > 4 ==> digits[0] != '0')
    ensures (forall i :: 0 <= i < |digits| ==> IsDigit(digits[i])) && Value(digits) == Earlier(calls, k, calls[k]) + 1
  {
    CountersCount(calls, counters, ids, k, calls[k]);
    assert Issues(counters[k], calls[k], ids[k], counters[k + 1]);
    digits := LabelReads(calls[k].kind, calls[k].date, Earlier(calls, k, calls[k]) + 1);
  }

  /** No number is ever given out twice, whatever the days and however record and ticket calls mix. */
  lemma IdsAreDistinct(calls: seq<Call>, counters: seq<Counters>, ids: seq<string>, j: nat, k: nat)
    requires IsHistory(calls, counters, ids) && j < k < |ids|
    ensures ids[j] != ids[k]
  {
    var p, d := Prefix(calls[j].kind), calls[j].date;
    assert Issues(counters[j], calls[j], ids[j], counters[j + 1]) && Issues(counters[k], calls[k], ids[k], counters[k + 1]);
    CountersOnlyGrow(calls, counters, ids, j + 1, k, p, d);
    if ids[j] == ids[k] {
      LabelDetermines(calls[j].kind, d, Count(counters[j + 1], p, d),
                      calls[k].kind, calls[k].date, Count(counters[k], Prefix(calls[k].kind), calls[k].date) + 1);
    }
  }
}
