/**
 * Worked examples on concrete data: the two-decimal truncation and the three
 * aggregators over one bucket.
 */
module Scenarios {
  import opened Calendar
  import opened DataModel
  import opened Aggregators

  /** Truncation, not rounding: 12.349 and 12.341 both become 12.34, and -1.239 becomes -1.23. */
  lemma TruncatingRound()
    ensures RoundTo2DecimalPoints(12.349) == 12.34
    ensures RoundTo2DecimalPoints(12.341) == 12.34
    ensures RoundTo2DecimalPoints(-1.239) == -1.23
  {
    assert Truncate(1234.9) == 1234;
    assert Truncate(1234.1) == 1234;
    assert Truncate(-123.9) == -123;
  }

  /** Two records of one bucket: the sum is 30.75, the mean 15.375 is reported as 15.37, the count is 2. */
  lemma DailyBucket()
    ensures var d: Date := CivilDate(2024, 3, 13);
      var rs := [MetricRecord(1, Instant(d, 0), MetricName, 10.5), MetricRecord(2, Instant(d, 60), MetricName, 20.25)];
      var k := Instant(d, 0);
      && SumAggregator(k, rs).value == 30.75
      && AvgAggregator(k, rs).value == 15.37
      && CountAggregator(k, rs).value == 2.0
  {
    var d: Date := CivilDate(2024, 3, 13);
    var rs := [MetricRecord(1, Instant(d, 0), MetricName, 10.5), MetricRecord(2, Instant(d, 60), MetricName, 20.25)];
    var k := Instant(d, 0);
    assert rs[..1] == [rs[0]];
    assert Total(rs[..1]) == 10.5 by { assert rs[..1][..0] == []; }
    assert Total(rs) == 30.75;
    assert Truncate(3075.0) == 3075;
    assert Truncate(1537.5) == 1537;
  }
}
