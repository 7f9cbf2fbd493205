/**
 * Aggregators: count, sum and average of a bucket, with the two-decimal
 * truncation, and the aggregator selector.
 */
module Aggregators {
  import opened Calendar
  import opened DataModel

  /** The three aggregators, as a closed choice. */
  datatype Aggregator = Count | Sum | Avg

  const SumAggregatorName: string := "Sum"
  const CountAggregatorName: string := "Count"
  const AvgAggregatorName: string := "Avg"

  /** `FromRequestAggregator`: the named aggregator; any other name means count. */
  function FromRequestAggregator(name: string): (a: Aggregator)
    ensures a == Sum <==> name == SumAggregatorName
    ensures a == Avg <==> name == AvgAggregatorName
    ensures a == Count <==> name != SumAggregatorName && name != AvgAggregatorName
  {
    if name == SumAggregatorName then Sum
    else if name == AvgAggregatorName then Avg
    else if name == CountAggregatorName then Count
    else Count
  }

  /** Go's float-to-int conversion: the integer part, rounding toward zero. */
  function Truncate(x: real): (n: int)
    ensures x >= 0.0 ==> 0 <= n && n as real <= x < n as real + 1.0
    ensures x < 0.0 ==> n <= 0 && n as real - 1.0 < x <= n as real
  {
    if x >= 0.0 then x.Floor else -((-x).Floor)
  }

  /** `r` has at most two decimals and lies less than a hundredth from `v`, on the zero side of `v`. */
  predicate TwoDecimalCut(v: real, r: real) {
    && (r * 100.0).Floor as real == r * 100.0
    && (v >= 0.0 ==> 0.0 <= v - r < 0.01)
    && (v < 0.0 ==> 0.0 <= r - v < 0.01)
  }

  /** `roundTo2DecimalPoints`: keep two decimals, dropping the rest toward zero. */
  function RoundTo2DecimalPoints(v: real): (r: real)
    ensures v >= 0.0 ==> 0.0 <= r <= v
    ensures v < 0.0 ==> v <= r <= 0.0
    ensures TwoDecimalCut(v, r)
  {
    Truncate(v * 100.0) as real / 100.0
  }

  /** The two-decimal cut of a value is unique: it is what `roundTo2DecimalPoints` returns. */
  lemma RoundUnique(v: real, r: real)
    requires TwoDecimalCut(v, r)
    ensures r == RoundTo2DecimalPoints(v)
  {
    var a := (r * 100.0).Floor;
    var n := Truncate(v * 100.0);
    if v >= 0.0 {
      assert a as real <= v * 100.0 < a as real + 1.0;
    } else {
      assert a as real - 1.0 < v * 100.0 <= a as real;
    }
    assert a == n;
  }

  /** Rounding a rounded value changes nothing. */
  lemma RoundIdempotent(v: real)
    ensures RoundTo2DecimalPoints(RoundTo2DecimalPoints(v)) == RoundTo2DecimalPoints(v)
  {
    var r := RoundTo2DecimalPoints(v);
    var n := Truncate(v * 100.0);
    assert r * 100.0 == n as real;
    assert Truncate(n as real) == n;
  }

  /** The sum of the record values, accumulated in input order. */
  function Total(rs: seq<MetricRecord>): real {
    if |rs| == 0 then 0.0 else Total(rs[..|rs| - 1]) + rs[|rs| - 1].value
  }

  /** The total of a concatenation is the sum of the totals. */
  lemma {:induction false} TotalAppend(a: seq<MetricRecord>, b: seq<MetricRecord>)
    ensures Total(a + b) == Total(a) + Total(b)
  {
    if |b| > 0 {
      TotalAppend(a, b[..|b| - 1]);
      assert (a + b)[..|a + b| - 1] == a + b[..|b| - 1];
    } else {
      assert a + b == a;
    }
  }

  /** Values within `[lo, hi]` have a total within `n·lo` and `n·hi`. */
  lemma {:induction false} TotalBounds(rs: seq<MetricRecord>, lo: real, hi: real)
    requires forall r :: r in rs ==> lo <= r.value <= hi
    ensures |rs| as real * lo <= Total(rs) <= |rs| as real * hi
  {
    if |rs| > 0 {
      TotalBounds(rs[..|rs| - 1], lo, hi);
      assert rs[|rs| - 1] in rs;
    }
  }

  function CountAggregator(timestamp: Instant, rs: seq<MetricRecord>): (p: TimeDataPoint)
    ensures p.timestamp == timestamp && p.value == |rs| as real
  {
    TimeDataPoint(timestamp, |rs| as real)
  }

  /** The truncated sum: two decimals, within a hundredth of the exact sum, on the zero side. */
  function SumAggregator(timestamp: Instant, rs: seq<MetricRecord>): (p: TimeDataPoint)
    ensures p.timestamp == timestamp
    ensures TwoDecimalCut(Total(rs), p.value)
  {
    TimeDataPoint(timestamp, RoundTo2DecimalPoints(Total(rs)))
  }

  /**
   * The truncated mean: two decimals, within a hundredth of the exact mean, on
   * the zero side; the quotient is cut, not the sum. An empty bucket would
   * divide by zero.
   */
  function AvgAggregator(timestamp: Instant, rs: seq<MetricRecord>): (p: TimeDataPoint)
    requires |rs| > 0
    ensures p.timestamp == timestamp
    ensures TwoDecimalCut(Total(rs) / |rs| as real, p.value)
  {
    TimeDataPoint(timestamp, RoundTo2DecimalPoints(Total(rs) / |rs| as real))
  }

  /** A mean of non-negative values in `[lo, hi]` is reported in `(lo - 0.01, hi]`. */
  lemma AvgWithinRange(timestamp: Instant, rs: seq<MetricRecord>, lo: real, hi: real)
    requires |rs| > 0 && 0.0 <= lo
    requires forall r :: r in rs ==> lo <= r.value <= hi
    ensures lo - 0.01 < AvgAggregator(timestamp, rs).value <= hi
  {
    TotalBounds(rs, lo, hi);
    QuotientBounds(Total(rs), |rs| as real, lo, hi);
  }

  lemma QuotientBounds(t: real, n: real, lo: real, hi: real)
    requires n > 0.0 && n * lo <= t <= n * hi
    ensures lo <= t / n <= hi
  {
    assert t / n - lo == (t - n * lo) / n;
    assert hi - t / n == (n * hi - t) / n;
  }

  /** The aggregator chosen by `a`, applied to one bucket. */
  function Aggregate(a: Aggregator, timestamp: Instant, rs: seq<MetricRecord>): (p: TimeDataPoint)
    requires a == Avg ==> |rs| > 0
    ensures p.timestamp == timestamp
  {
    match a
    case Count => CountAggregator(timestamp, rs)
    case Sum => SumAggregator(timestamp, rs)
    case Avg => AvgAggregator(timestamp, rs)
  }
}
