/**
 The measurement record one bee reports (`TesterResult`) and the fleet-wide
 merge of several of them (`get_aggregate_result`). Floating-point values
 are modelled as exact reals.
 */
module Tester {

  /** One bee's `ab` measurements, in the field order of `TesterResult`. */
  datatype TesterResult = TesterResult(
    concurrency: real,
    timeTaken: real,
    completeRequests: real,
    failedRequests: real,
    non2xxResponses: real,
    totalTransferred: real,
    requestsPerSecond: real,
    msPerRequest: real,
    fiftyPercent: real,
    ninetyPercent: real)

  /** The names of the record's fields, so that laws can be stated once for all of them. */
  datatype Field =
    | Concurrency | TimeTaken | CompleteRequests | FailedRequests | Non2xxResponses
    | TotalTransferred | RequestsPerSecond | MsPerRequest | FiftyPercent | NinetyPercent

  function Get(r: TesterResult, f: Field): real {
    match f
    case Concurrency => r.concurrency
    case TimeTaken => r.timeTaken
    case CompleteRequests => r.completeRequests
    case FailedRequests => r.failedRequests
    case Non2xxResponses => r.non2xxResponses
    case TotalTransferred => r.totalTransferred
    case RequestsPerSecond => r.requestsPerSecond
    case MsPerRequest => r.msPerRequest
    case FiftyPercent => r.fiftyPercent
    case NinetyPercent => r.ninetyPercent
  }

  /** Two records agreeing on every field are the same record. */
  lemma FieldsDetermineRecord(a: TesterResult, b: TesterResult)
    requires forall f :: Get(a, f) == Get(b, f)
    ensures a == b
  {
    assert Get(a, Concurrency) == Get(b, Concurrency);
    assert Get(a, TimeTaken) == Get(b, TimeTaken);
    assert Get(a, CompleteRequests) == Get(b, CompleteRequests);
    assert Get(a, FailedRequests) == Get(b, FailedRequests);
    assert Get(a, Non2xxResponses) == Get(b, Non2xxResponses);
    assert Get(a, TotalTransferred) == Get(b, TotalTransferred);
    assert Get(a, RequestsPerSecond) == Get(b, RequestsPerSecond);
    assert Get(a, MsPerRequest) == Get(b, MsPerRequest);
    assert Get(a, FiftyPercent) == Get(b, FiftyPercent);
    assert Get(a, NinetyPercent) == Get(b, NinetyPercent);
  }

  predicate NonNegative(r: TesterResult) {
    forall f :: Get(r, f) >= 0.0
  }

  // ---------------------------------------------------------------------
  // Per-field reductions over a list of records
  // ---------------------------------------------------------------------

  /** Python's `sum([r.f for r in rs])`. */
  function Sum(rs: seq<TesterResult>, f: Field): real {
    if |rs| == 0 then 0.0 else Get(rs[0], f) + Sum(rs[1..], f)
  }

  /** Python's `max([r.f for r in rs])`: at least every value, and one of them. */
  function Max(rs: seq<TesterResult>, f: Field): (m: real)
    requires |rs| > 0
    ensures forall i :: 0 <= i < |rs| ==> Get(rs[i], f) <= m
    ensures exists i :: 0 <= i < |rs| && Get(rs[i], f) == m
  {
    if |rs| == 1 then Get(rs[0], f)
    else
      var rest := Max(rs[1..], f);
      assert forall i :: 1 <= i < |rs| ==> rs[i] == rs[1..][i - 1];
      var j :| 0 <= j < |rs[1..]| && Get(rs[1..][j], f) == rest;
      assert rs[j + 1] == rs[1..][j];
      if Get(rs[0], f) >= rest then Get(rs[0], f) else rest
  }

  /** The smallest value of a field; used only to state the bounds of a mean. */
  ghost function Min(rs: seq<TesterResult>, f: Field): (m: real)
    requires |rs| > 0
    ensures forall i :: 0 <= i < |rs| ==> m <= Get(rs[i], f)
    ensures exists i :: 0 <= i < |rs| && Get(rs[i], f) == m
  {
    if |rs| == 1 then Get(rs[0], f)
    else
      var rest := Min(rs[1..], f);
      assert forall i :: 1 <= i < |rs| ==> rs[i] == rs[1..][i - 1];
      var j :| 0 <= j < |rs[1..]| && Get(rs[1..][j], f) == rest;
      assert rs[j + 1] == rs[1..][j];
      if Get(rs[0], f) <= rest then Get(rs[0], f) else rest
  }

  /** `sum(...) / len(results)`: the unweighted arithmetic mean. */
  function Mean(rs: seq<TesterResult>, f: Field): real
    requires |rs| > 0
  {
    Sum(rs, f) / |rs| as real
  }

  /** How `get_aggregate_result` combines one field across bees. */
  datatype Rule = Summed | Maximum | Averaged

  function RuleOf(f: Field): Rule {
    match f
    case TimeTaken => Maximum
    case MsPerRequest | FiftyPercent | NinetyPercent => Averaged
    case _ => Summed
  }

  function Combine(rs: seq<TesterResult>, f: Field): real
    requires |rs| > 0
  {
    match RuleOf(f)
    case Summed => Sum(rs, f)
    case Maximum => Max(rs, f)
    case Averaged => Mean(rs, f)
  }

  /**
   `get_aggregate_result`: the fleet-wide record. Python raises on an empty
   list (`max([])`, division by `len(results) == 0`), so at least one record
   is required.
   */
  function Aggregate(rs: seq<TesterResult>): (a: TesterResult)
    requires |rs| > 0
    ensures forall f :: Get(a, f) == Combine(rs, f)
  {
    TesterResult(
      concurrency := Sum(rs, Concurrency),
      timeTaken := Max(rs, TimeTaken),
      completeRequests := Sum(rs, CompleteRequests),
      failedRequests := Sum(rs, FailedRequests),
      non2xxResponses := Sum(rs, Non2xxResponses),
      totalTransferred := Sum(rs, TotalTransferred),
      requestsPerSecond := Sum(rs, RequestsPerSecond),
      msPerRequest := Mean(rs, MsPerRequest),
      fiftyPercent := Mean(rs, FiftyPercent),
      ninetyPercent := Mean(rs, NinetyPercent))
  }

  // ---------------------------------------------------------------------
  // Laws of the reductions
  // ---------------------------------------------------------------------

  /** Summing a concatenation sums the parts, so the sums are associative. */
  lemma {:induction false} SumAppend(a: seq<TesterResult>, b: seq<TesterResult>, f: Field)
    ensures Sum(a + b, f) == Sum(a, f) + Sum(b, f)
  {
    if |a| == 0 {
      assert a + b == b;
    } else {
      assert (a + b)[1..] == a[1..] + b;
      SumAppend(a[1..], b, f);
    }
  }

  /** The maximum of a concatenation is the larger of the parts' maxima. */
  lemma MaxAppend(a: seq<TesterResult>, b: seq<TesterResult>, f: Field)
    requires |a| > 0 && |b| > 0
    ensures Max(a + b, f) == (if Max(a, f) >= Max(b, f) then Max(a, f) else Max(b, f))
  {
    MaxAppendLower(a, b, f);
    MaxAppendUpper(a, b, f);
  }

  lemma MaxAppendLower(a: seq<TesterResult>, b: seq<TesterResult>, f: Field)
    requires |a| > 0 && |b| > 0
    ensures Max(a, f) <= Max(a + b, f) && Max(b, f) <= Max(a + b, f)
  {
    var ab := a + b;
    var ia :| 0 <= ia < |a| && Get(a[ia], f) == Max(a, f);
    var ib :| 0 <= ib < |b| && Get(b[ib], f) == Max(b, f);
    assert ab[ia] == a[ia];
    assert ab[|a| + ib] == b[ib];
  }

  lemma MaxAppendUpper(a: seq<TesterResult>, b: seq<TesterResult>, f: Field)
    requires |a| > 0 && |b| > 0
    ensures Max(a + b, f) <= Max(a, f) || Max(a + b, f) <= Max(b, f)
  {
    var ab := a + b;
    var i :| 0 <= i < |ab| && Get(ab[i], f) == Max(ab, f);
    if i < |a| {
      assert ab[i] == a[i];
    } else {
      assert ab[i] == b[i - |a|];
    }
  }

  /** Removing the element at `i` takes exactly its value out of a sum. */
  lemma SumRemove(b: seq<TesterResult>, i: nat, f: Field)
    requires i < |b|
    ensures Sum(b, f) == Get(b[i], f) + Sum(b[..i] + b[i + 1..], f)
  {
    assert b == b[..i] + ([b[i]] + b[i + 1..]);
    SumAppend(b[..i], [b[i]] + b[i + 1..], f);
    SumAppend(b[..i], b[i + 1..], f);
    assert ([b[i]] + b[i + 1..])[1..] == b[i + 1..];
  }

  lemma MultisetRemove(b: seq<TesterResult>, i: nat)
    requires i < |b|
    ensures multiset(b[..i] + b[i + 1..]) == multiset(b) - multiset{b[i]}
  {
    assert b == b[..i] + [b[i]] + b[i + 1..];
  }

  /** Matching the head of `a` with an equal element of its permutation `b` leaves permutations behind. */
  lemma PermutationHead(a: seq<TesterResult>, b: seq<TesterResult>) returns (i: nat)
    requires |a| > 0 && multiset(a) == multiset(b)
    ensures i < |b| && b[i] == a[0]
    ensures multiset(a[1..]) == multiset(b[..i] + b[i + 1..])
  {
    var x := a[0];
    assert x in multiset(a);
    assert x in multiset(b);
    i :| 0 <= i < |b| && b[i] == x;
    MultisetRemove(b, i);
    assert a == [x] + a[1..];
    assert multiset(a) == multiset{x} + multiset(a[1..]);
  }

  /** Sums do not depend on the order of the records. */
  lemma {:induction false} SumPermutation(a: seq<TesterResult>, b: seq<TesterResult>, f: Field)
    requires multiset(a) == multiset(b)
    ensures Sum(a, f) == Sum(b, f)
    decreases |a|
  {
    if |a| > 0 {
      var i := PermutationHead(a, b);
      SumPermutation(a[1..], b[..i] + b[i + 1..], f);
      SumRemove(b, i, f);
    } else {
      assert |b| == |multiset(b)| == 0;
    }
  }

  /** The maximum does not depend on the order of the records. */
  lemma MaxPermutation(a: seq<TesterResult>, b: seq<TesterResult>, f: Field)
    requires |a| > 0 && multiset(a) == multiset(b)
    ensures |b| > 0 && Max(a, f) == Max(b, f)
  {
    assert |b| == |multiset(b)| == |multiset(a)| == |a|;
    var i :| 0 <= i < |a| && Get(a[i], f) == Max(a, f);
    var j :| 0 <= j < |b| && Get(b[j], f) == Max(b, f);
    assert a[i] in multiset(b);
    var j' :| 0 <= j' < |b| && b[j'] == a[i];
    assert b[j] in multiset(a);
    var i' :| 0 <= i' < |a| && a[i'] == b[j];
  }

  /** `get_aggregate_result` does not depend on the order in which the bees' results arrive. */
  lemma AggregatePermutation(a: seq<TesterResult>, b: seq<TesterResult>)
    requires |a| > 0 && multiset(a) == multiset(b)
    ensures |b| > 0 && Aggregate(a) == Aggregate(b)
  {
    assert |b| == |multiset(b)| == |multiset(a)| == |a|;
    forall f ensures Get(Aggregate(a), f) == Get(Aggregate(b), f) {
      SumPermutation(a, b, f);
      MaxPermutation(a, b, f);
    }
    FieldsDetermineRecord(Aggregate(a), Aggregate(b));
  }

  /** Aggregating the results of a single bee gives that bee's record unchanged. */
  lemma AggregateSingleton(r: TesterResult)
    ensures Aggregate([r]) == r
  {
    forall f ensures Get(Aggregate([r]), f) == Get(r, f) {
      assert [r][1..] == [];
      assert Sum([r], f) == Get(r, f) + Sum([], f);
      assert Mean([r], f) == Sum([r], f) / 1.0;
    }
    FieldsDetermineRecord(Aggregate([r]), r);
  }

  lemma MeanTimesCount(rs: seq<TesterResult>, f: Field)
    requires |rs| > 0
    ensures Mean(rs, f) * |rs| as real == Sum(rs, f)
  {
    var n := |rs| as real;
    assert n > 0.0;
    assert (Sum(rs, f) / n) * n == Sum(rs, f);
  }

  /** The mean of a concatenation is the size-weighted combination of the parts' means. */
  lemma MeanAppend(a: seq<TesterResult>, b: seq<TesterResult>, f: Field)
    requires |a| > 0 && |b| > 0
    ensures Mean(a + b, f) * (|a| + |b|) as real == Mean(a, f) * |a| as real + Mean(b, f) * |b| as real
  {
    SumAppend(a, b, f);
    MeanTimesCount(a, f);
    MeanTimesCount(b, f);
    MeanTimesCount(a + b, f);
  }

  /** Aggregation is associative on the summed fields: the aggregate of a concatenation sums the parts' aggregates. */
  lemma AggregateAppendSummed(a: seq<TesterResult>, b: seq<TesterResult>, f: Field)
    requires |a| > 0 && |b| > 0 && RuleOf(f) == Summed
    ensures Get(Aggregate(a + b), f) == Get(Aggregate(a), f) + Get(Aggregate(b), f)
  {
    SumAppend(a, b, f);
  }

  /** Aggregation is associative on the maxed field: the aggregate of a concatenation takes the larger part. */
  lemma AggregateAppendMaximum(a: seq<TesterResult>, b: seq<TesterResult>, f: Field)
    requires |a| > 0 && |b| > 0 && RuleOf(f) == Maximum
    ensures Get(Aggregate(a + b), f) == (if Get(Aggregate(a), f) >= Get(Aggregate(b), f) then Get(Aggregate(a), f) else Get(Aggregate(b), f))
  {
    MaxAppend(a, b, f);
  }

  /** The averaged fields of the aggregate of a concatenation combine the parts' averages by size. */
  lemma AggregateAppendAveraged(a: seq<TesterResult>, b: seq<TesterResult>, f: Field)
    requires |a| > 0 && |b| > 0 && RuleOf(f) == Averaged
    ensures Get(Aggregate(a + b), f) * (|a| + |b|) as real == Get(Aggregate(a), f) * |a| as real + Get(Aggregate(b), f) * |b| as real
  {
    assert Get(Aggregate(a + b), f) == Mean(a + b, f);
    assert Get(Aggregate(a), f) == Mean(a, f);
    assert Get(Aggregate(b), f) == Mean(b, f);
    MeanAppend(a, b, f);
  }

  lemma {:induction false} SumBounds(rs: seq<TesterResult>, f: Field, lo: real, hi: real)
    requires forall i :: 0 <= i < |rs| ==> lo <= Get(rs[i], f) <= hi
    ensures |rs| as real * lo <= Sum(rs, f) <= |rs| as real * hi
  {
    if |rs| > 0 {
      var rest := rs[1..];
      assert forall i :: 0 <= i < |rest| ==> rest[i] == rs[i + 1];
      SumBounds(rest, f, lo, hi);
      var n := |rest| as real;
      assert Sum(rs, f) == Get(rs[0], f) + Sum(rest, f);
      assert |rs| as real * lo == n * lo + lo;
      assert |rs| as real * hi == n * hi + hi;
    }
  }

  lemma DivBounds(x: real, n: real, lo: real, hi: real)
    requires n > 0.0 && n * lo <= x <= n * hi
    ensures lo <= x / n <= hi
  {
    assert (x / n) * n == x;
  }

  /** Every averaged field of the aggregate lies between the smallest and largest input. */
  lemma MeanBounds(rs: seq<TesterResult>, f: Field)
    requires |rs| > 0
    ensures Min(rs, f) <= Mean(rs, f) <= Max(rs, f)
  {
    MeanWithin(rs, f, Min(rs, f), Max(rs, f));
  }

  lemma MeanWithin(rs: seq<TesterResult>, f: Field, lo: real, hi: real)
    requires |rs| > 0
    requires forall i :: 0 <= i < |rs| ==> lo <= Get(rs[i], f) <= hi
    ensures lo <= Mean(rs, f) <= hi
  {
    SumBounds(rs, f, lo, hi);
    DivBounds(Sum(rs, f), |rs| as real, lo, hi);
  }

  /** Summed fields of non-negative records are non-negative. */
  lemma {:induction false} SumNonNegative(rs: seq<TesterResult>, f: Field)
    requires forall i :: 0 <= i < |rs| ==> NonNegative(rs[i])
    ensures Sum(rs, f) >= 0.0
  {
    if |rs| > 0 {
      assert NonNegative(rs[0]);
      assert forall i :: 0 <= i < |rs[1..]| ==> rs[1..][i] == rs[i + 1];
      SumNonNegative(rs[1..], f);
    }
  }

  /** How each field of the aggregate relates to the inputs: the maximum dominates and is attained, a mean lies between the extremes, and non-negativity is kept. */
  lemma AggregateBounds(rs: seq<TesterResult>, f: Field)
    requires |rs| > 0
    ensures RuleOf(f) == Maximum ==> forall i :: 0 <= i < |rs| ==> Get(rs[i], f) <= Get(Aggregate(rs), f)
    ensures RuleOf(f) == Maximum ==> exists i :: 0 <= i < |rs| && Get(rs[i], f) == Get(Aggregate(rs), f)
    ensures RuleOf(f) == Averaged ==> Min(rs, f) <= Get(Aggregate(rs), f) <= Max(rs, f)
    ensures (forall i :: 0 <= i < |rs| ==> NonNegative(rs[i])) ==> Get(Aggregate(rs), f) >= 0.0
  {
    var v := Get(Aggregate(rs), f);
    assert v == Combine(rs, f);
    MeanBounds(rs, f);
    if forall i :: 0 <= i < |rs| ==> NonNegative(rs[i]) {
      SumNonNegative(rs, f);
      var j :| 0 <= j < |rs| && Get(rs[j], f) == Min(rs, f);
      assert NonNegative(rs[j]);
      assert Min(rs, f) >= 0.0;
    }
  }

  /** The sums and maximum asserted for the two-bee example of the upstream tests, with this version's unweighted means. */
  lemma AggregateTwoBees()
    ensures
      var a := TesterResult(93.0, 9.663, 12500.0, 0.0, 0.0, 2062500.0, 1293.53, 71.896, 69.0, 83.0);
      var b := TesterResult(100.0, 24.544, 62500.0, 24688.0, 37813.0, 16551810.0, 2546.4, 39.271, 26.0, 93.0);
      Aggregate([a, b]) == TesterResult(193.0, 24.544, 75000.0, 24688.0, 37813.0, 18614310.0, 3839.93, 55.5835, 47.5, 88.0)
  {
    var a := TesterResult(93.0, 9.663, 12500.0, 0.0, 0.0, 2062500.0, 1293.53, 71.896, 69.0, 83.0);
    var b := TesterResult(100.0, 24.544, 62500.0, 24688.0, 37813.0, 16551810.0, 2546.4, 39.271, 26.0, 93.0);
    assert [a, b][1..] == [b];
  }
}
