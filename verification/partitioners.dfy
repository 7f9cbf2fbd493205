/**
 * Time partitioning: bucket-start functions for the daily, weekly and monthly
 * scales, the bucketing of a record sequence, and the scale selector.
 */
module Partitioners {
  import opened Calendar
  import opened DataModel
  import opened Seqs

  /** The three partitioners, as a closed choice. */
  datatype Scale = Daily | Weekly | Monthly

  const DailyScale: string := "Daily"
  const WeeklyScale: string := "Weekly"
  const MonthlyScale: string := "Monthly"

  /** `FromRequestScale`: the named scale; any other name means monthly. */
  function FromRequestScale(name: string): (s: Scale)
    ensures s == Daily <==> name == DailyScale
    ensures s == Weekly <==> name == WeeklyScale
    ensures s == Monthly <==> name != DailyScale && name != WeeklyScale
  {
    if name == DailyScale then Daily
    else if name == WeeklyScale then Weekly
    else if name == MonthlyScale then Monthly
    else Monthly
  }

  /** `startOfTheDay`: midnight of the same date, never after `t` and less than a day before it. */
  function StartOfTheDay(t: Instant): (r: Instant)
    ensures r.date == t.date && r.secondOfDay == 0
    ensures 0 <= Seconds(t) - Seconds(r) < 86400
  {
    Instant(t.date, 0)
  }

  /** The most recent Sunday not after `d`, found by stepping back one day at a time. */
  function WeekStart(d: Date): (r: Date)
    ensures Weekday(r) == 0
    ensures Ordinal(d) - Ordinal(r) == Weekday(d)
    decreases Weekday(d)
  {
    if Weekday(d) == 0 then d
    else
      PrevDayWeekday(d);
      var r := WeekStart(PrevDay(d));
      assert Ordinal(PrevDay(d)) - Ordinal(r) == Weekday(d) - 1;
      r
  }

  /** `startOfTheWeek`: midnight of the latest Sunday that is not after `t`. */
  function StartOfTheWeek(t: Instant): (r: Instant)
    ensures Weekday(r.date) == 0 && r.secondOfDay == 0
    ensures 0 <= Ordinal(t.date) - Ordinal(r.date) <= 6
    ensures Weekday(t.date) == 0 ==> r.date == t.date
  {
    Instant(WeekStart(t.date), 0)
  }

  /** `startOfTheMonth`: midnight of day 1 of the same year and month. */
  function StartOfTheMonth(t: Instant): (r: Instant)
    ensures r.date.year == t.date.year && r.date.month == t.date.month && r.date.day == 1
    ensures r.secondOfDay == 0
    ensures 0 <= Ordinal(t.date) - Ordinal(r.date) < 31
  {
    Instant(CivilDate(t.date.year, t.date.month, 1), 0)
  }

  /** The bucket start of `t` at the given scale. */
  function PartitionKey(scale: Scale, t: Instant): Instant {
    match scale
    case Daily => StartOfTheDay(t)
    case Weekly => StartOfTheWeek(t)
    case Monthly => StartOfTheMonth(t)
  }

  /** A bucket start is its own bucket start, at every scale. */
  lemma PartitionKeyIdempotent(scale: Scale, t: Instant)
    ensures PartitionKey(scale, PartitionKey(scale, t)) == PartitionKey(scale, t)
  {
  }

  /** A bucket start is never after the instant it was computed from. */
  lemma PartitionKeyNotAfter(scale: Scale, t: Instant)
    ensures !Before(t, PartitionKey(scale, t))
  {
    BeforeIsChronological(t, PartitionKey(scale, t));
  }

  /** The records of `rs` whose bucket start is `k`, in input order. */
  function Bucket(rs: seq<MetricRecord>, key: Instant -> Instant, k: Instant): seq<MetricRecord> {
    Filter(rs, (r: MetricRecord) => key(r.timestamp) == k)
  }

  /** `partitionByTime`: append each record, in input order, to the bucket of its key. */
  function PartitionByTime(rs: seq<MetricRecord>, key: Instant -> Instant): map<Instant, seq<MetricRecord>> {
    if |rs| == 0 then map[]
    else
      var m := PartitionByTime(rs[..|rs| - 1], key);
      var r := rs[|rs| - 1];
      var k := key(r.timestamp);
      m[k := (if k in m then m[k] else []) + [r]]
  }

  /**
   * A key is present exactly when some record maps to it, and its bucket holds
   * exactly the records that map to it, in input order.
   */
  lemma {:induction false} PartitionByTimeBuckets(rs: seq<MetricRecord>, key: Instant -> Instant)
    ensures forall k :: k in PartitionByTime(rs, key) <==> exists i :: 0 <= i < |rs| && key(rs[i].timestamp) == k
    ensures forall k :: k in PartitionByTime(rs, key) ==> PartitionByTime(rs, key)[k] == Bucket(rs, key, k)
  {
    if |rs| > 0 {
      var init := rs[..|rs| - 1];
      PartitionByTimeBuckets(init, key);
      forall k ensures k in PartitionByTime(rs, key) <==> exists i :: 0 <= i < |rs| && key(rs[i].timestamp) == k {
        if exists i :: 0 <= i < |init| && key(init[i].timestamp) == k {
          var i :| 0 <= i < |init| && key(init[i].timestamp) == k;
          assert rs[i] == init[i];
        }
        if exists i :: 0 <= i < |rs| && key(rs[i].timestamp) == k {
          var i :| 0 <= i < |rs| && key(rs[i].timestamp) == k;
          if i < |init| { assert rs[i] == init[i]; }
        }
      }
      forall k | k !in PartitionByTime(init, key) ensures Bucket(init, key, k) == [] {
        forall x | x in init ensures key(x.timestamp) != k {
          var i :| 0 <= i < |init| && init[i] == x;
        }
        FilterNone(init, (r: MetricRecord) => key(r.timestamp) == k);
      }
    }
  }

  /** Every bucket is non-empty. */
  lemma BucketsNonEmpty(rs: seq<MetricRecord>, key: Instant -> Instant)
    ensures forall k :: k in PartitionByTime(rs, key) ==> |PartitionByTime(rs, key)[k]| > 0
  {
    PartitionByTimeBuckets(rs, key);
    forall k | k in PartitionByTime(rs, key) ensures |PartitionByTime(rs, key)[k]| > 0 {
      var i :| 0 <= i < |rs| && key(rs[i].timestamp) == k;
      assert rs[i] in Bucket(rs, key, k);
    }
  }

  /**
   * The buckets are disjoint and together hold the input: every occurrence of a
   * record is in the bucket of its key and in no other bucket.
   */
  lemma PartitionIsPermutation(rs: seq<MetricRecord>, key: Instant -> Instant, x: MetricRecord)
    ensures x in rs ==> key(x.timestamp) in PartitionByTime(rs, key)
    ensures x in rs ==> multiset(PartitionByTime(rs, key)[key(x.timestamp)])[x] == multiset(rs)[x]
    ensures forall k :: k in PartitionByTime(rs, key) && k != key(x.timestamp) ==> x !in PartitionByTime(rs, key)[k]
  {
    PartitionByTimeBuckets(rs, key);
    FilterMultiset(rs, (r: MetricRecord) => key(r.timestamp) == key(x.timestamp), x);
  }

  /** The three partitioners of the source, selected by scale. */
  function Partition(scale: Scale, rs: seq<MetricRecord>): (m: map<Instant, seq<MetricRecord>>)
    ensures forall k :: k in m ==> |m[k]| > 0 && PartitionKey(scale, k) == k
    ensures forall k :: k in m <==> exists i :: 0 <= i < |rs| && PartitionKey(scale, rs[i].timestamp) == k
    ensures forall k :: k in m ==> m[k] == Bucket(rs, (t: Instant) => PartitionKey(scale, t), k)
  {
    var key := (t: Instant) => PartitionKey(scale, t);
    BucketsNonEmpty(rs, key);
    PartitionByTimeBuckets(rs, key);
    forall k | k in PartitionByTime(rs, key) ensures PartitionKey(scale, k) == k {
      var i :| 0 <= i < |rs| && key(rs[i].timestamp) == k;
      PartitionKeyIdempotent(scale, rs[i].timestamp);
    }
    PartitionByTime(rs, key)
  }
}
