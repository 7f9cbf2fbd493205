# Metric stream processor — a Dafny model

This project models the core of a small Go metric service. The service reads
an e-commerce CSV data set row by row. Each row becomes a metric record
(`id`, transaction date, the fixed metric name `online.spent`, the average
price) carrying up to five tags (`gender`, `location`, `product_category`,
`coupon_status`, `coupon_code`). The processor keeps three in-memory
structures:

- the collection of every ingested record;
- a two-level index, tag name → tag value → the records carrying that tag;
- a trie of every `name:value` filter string seen so far, used to suggest
  filters for a search term.

A query takes a conjunction of tag filters, a time scale (`Daily`, `Weekly`,
`Monthly`) and an aggregator (`Count`, `Sum`, `Avg`). It selects, from the
smallest of the filters' collections, the records whose id is indexed under
every filter, and partitions them into buckets keyed by the start of the day,
week (Sunday) or month. It aggregates each bucket into one data
point and returns the points in ascending time order.

Selection is by record id, not by record. If two ingested rows share an id
and carry different tags, a conjunction of their tags matches that id, so the
smallest collection's record with that id is returned even though no single
row carried every filter (`MetricProcessor.GetInputMetricsExact`,
`MetricProcessor.ResolvedRecordsCarryEveryTag`).

The model is functional: Go's pointer-mutating methods become functions from
the old value to the new one, and the processor state is passed explicitly.
The modules follow the Go packages:

| file | module | Go source |
|---|---|---|
| `wrappers.dfy` | `Wrappers` | `Option` and `Result`, standing in for Go's `(value, error)` pairs and nil pointers |
| `seqs.dfy` | `Seqs` | an order-preserving filter and duplicate-freedom, used as independent reference definitions |
| `calendar.dfy` | `Calendar` | the part of Go's `time` package the partitioners use: UTC civil dates, weekday, previous day, chronological order |
| `model.dfy` | `DataModel` | `internal/data/model.go`, with the constants of `internal/config/metadata.go` |
| `tagsearch.dfy` | `TagSearch` | `internal/processor/tagsearch.go` |
| `partitioners.dfy` | `Partitioners` | `internal/processor/paritioners.go` |
| `aggregators.dfy` | `Aggregators` | `internal/processor/aggregators.go` |
| `metricprocessor.dfy` | `MetricProcessor` | `internal/processor/metricprocessor.go` |
| `scenarios.dfy` | `Scenarios` | worked examples of truncation and aggregation on concrete values |

The two Go runtime panics that the core can reach are modelled as error values,
`IndexOutOfRange` and `NilDereference`:

- a filter string without `:` indexes past the end of the `strings.Split`
  result;
- a CSV row shorter than the columns it reads is indexed past its end;
- a single filter whose tag name is known but whose value is not makes
  `getInputMetrics` return a nil `*Metrics`, which `GetMetricDataPoints`
  then dereferences.

## Model

The functions that transcribe the Go code step by step have no row of their
own when a lemma states what they compute: `TagSearch.AddWord`,
`TagSearch.Traverse` and `TagSearch.ListWords` (rows `AddWordContains`,
`TraverseIsWalk`, `ListWordsExact`), `Partitioners.PartitionByTime`
(`PartitionByTimeBuckets`, `PartitionIsPermutation`), `MetricProcessor.Merge`
(`MergeExact`), `MetricProcessor.IngestRecord` (`IngestRecordEffect`,
`IngestRecordInv`), and `DataModel.IsRecordPresent`, `DataModel.MetricRecords`
and `DataModel.Len` (`PresentIffAdded`, `InsertionOrder`, `LenBound`).

| member | source | states |
|---|---|---|
| DataModel.NewMetrics | internal/data/model.go:94-99 | A new collection is consistent, holds no records and reports no id as present. |
| DataModel.AddRecord | internal/data/model.go:106-109 | Adding appends the record at the end of the list. Afterwards an id is present exactly when it was present before or is the new record's id. Consistency between the id set and the list is kept. |
| DataModel.PresentIffAdded | internal/data/model.go:101-115 | In a consistent collection, `IsRecordPresent(id)` holds exactly when some stored record has that id. |
| DataModel.InsertionOrder | internal/data/model.go:106-120 | Adding records one by one and then reading `MetricRecords` gives back exactly those records, in insertion order. |
| DataModel.LenBound | internal/data/model.go:122-124 | `Len` counts distinct ids. It is at most the number of stored records, and equal to it exactly when no id repeats. |
| DataModel.IdsCardinality | internal/data/model.go:122-124 | The number of distinct ids of a record list is at most its length, and equal to it exactly when the ids are pairwise distinct. |
| DataModel.DuplicateIdCountsOnce | internal/data/model.go:106-124 | Adding two records with the same id stores both records but gives `Len` 1. |
| DataModel.AsFilter | internal/data/model.go:150-152 | The filter string is the tag name, then `:`, then the tag value. |
| DataModel.Split | internal/data/model.go:130 | `strings.Split` returns at least one piece. It returns exactly one piece when the separator does not occur. No piece contains the separator. |
| DataModel.JoinSplit | internal/data/model.go:130 | Joining the pieces of a split with the separator gives back the original string. |
| DataModel.SplitJoin | internal/data/model.go:130 | Splitting a join of separator-free pieces gives back the pieces. |
| DataModel.NewTagForFiltering | internal/data/model.go:129-135 | Parsing succeeds exactly when the string contains `:`. Otherwise it panics with an index out of range. The parsed name and value contain no `:`. |
| DataModel.NewTagForFilteringPrefix | internal/data/model.go:129-135 | The parsed tag's filter form is a prefix of the input, ending at the input's end or at a further `:`. Text after a second `:` is dropped. |
| DataModel.FilterRoundTrip | internal/data/model.go:129-152 | For a tag whose name and value contain no `:`, parsing its filter form gives the tag back. |
| DataModel.FromRequestFilters | internal/data/model.go:20-26 | Conversion succeeds exactly when every filter contains `:`. It then yields one tag per filter, in request order, each being that filter's parse. |
| DataModel.FromRequestFiltersRoundTrip | internal/data/model.go:20-26 | Writing separator-free tags as filter strings and converting them back gives the same tags, in order. |
| DataModel.LastIndex | internal/data/model.go:172 | `strings.LastIndex` returns -1 exactly when the character is absent. Otherwise it returns a position holding that character with no later occurrence. |
| DataModel.IntegerPartCut | internal/data/model.go:172-175 | When a `.` occurs after position 0, the field is cut just before its last `.`. Otherwise the field is left whole. |
| DataModel.ParseInt | internal/data/model.go:168-177 | An empty field fails with the message "Metric value CSV field is empty". Otherwise the result is `Atoi` of the part before the last `.` (a leading `.` is not cut), and it succeeds exactly when `Atoi` does. |
| DataModel.ParseIntTruncates | internal/data/model.go:167-177 | "12.99" parses as 12, the same as "12": the fraction is dropped, not rounded. |
| DataModel.ParseFloat64 | internal/data/model.go:160-165 | An empty field fails with the message "Metric value CSV field is empty". Otherwise the result is the library float parse, and it succeeds exactly when that parse does. |
| DataModel.ParseDate | internal/data/model.go:180-185 | An empty field fails with the message "Metric timestamp field is empty". Otherwise the result is the library date parse, and it succeeds exactly when that parse does. |
| DataModel.TagSchemaShape | internal/config/metadata.go:14-35 | The five tag columns have distinct names and none lies beyond column 19, the `coupon_code` column. |
| DataModel.SelectTags | internal/data/model.go:45-57 | Every schema column with a non-empty field yields the tag (column name, field). Every yielded tag comes from such a column. |
| DataModel.SelectTagsDistinct | internal/data/model.go:45-57 | The selected tags have pairwise distinct names, as the keys of Go's `Tags` map do. |
| DataModel.FromCsvDataRecord | internal/data/model.go:29-65 | Id, date and value are read in that order. The first of them whose column lies past the row's end panics with an index out of range, and the first whose field does not parse returns that parse's error. A row that parses but ends before the last tag column panics in the tag loop. The result succeeds exactly when the row reaches every read column and the id, date and value fields all parse. The record is (id, date, `online.spent`, value). The tags are exactly the non-empty tag columns, with distinct names. |
| TagSearch.NewTrieNode | internal/processor/tagsearch.go:8-12 | A new trie contains no word. |
| TagSearch.AddWordContains | internal/processor/tagsearch.go:20-33 | After adding `w`, the trie contains exactly its former words plus `w`. |
| TagSearch.AddWordIdempotent | internal/processor/tagsearch.go:20-33 | Adding a word the trie already contains leaves the trie unchanged. |
| TagSearch.ContainsExtension | internal/processor/tagsearch.go:40-55 | The trie contains `p + u` exactly when the path `p` exists and the subtrie at its end contains `u`. |
| TagSearch.ListWordsExact | internal/processor/tagsearch.go:57-67 | `listWords` yields exactly the node's words prefixed by the partial word, each once. |
| TagSearch.TraverseIsWalk | internal/processor/tagsearch.go:40-55 | `traverse` gives the empty list when the path leaves the trie. Otherwise it lists the words below the end of the path, prefixed by the path. |
| TagSearch.GetWordsInSubtrie | internal/processor/tagsearch.go:36-67 | An unknown prefix gives the empty list. The result holds exactly the stored words starting with the search term, each once. |
| Partitioners.FromRequestScale | internal/processor/paritioners.go:19-30 | "Daily" selects days and "Weekly" selects weeks. Every other name, "Monthly" included, selects months. |
| Partitioners.StartOfTheDay | internal/processor/paritioners.go:77-80 | The key is midnight of the same date, less than a day before the instant. |
| Partitioners.WeekStart | internal/processor/paritioners.go:68-75 | Stepping back one day at a time reaches a Sunday exactly `Weekday(d)` days earlier. |
| Partitioners.StartOfTheWeek | internal/processor/paritioners.go:68-75 | The key is midnight of a Sunday zero to six days before the instant. A Sunday is its own week start. |
| Partitioners.StartOfTheMonth | internal/processor/paritioners.go:63-66 | The key is midnight of the first day of the instant's month and year, fewer than 31 days before it. |
| Partitioners.PartitionKeyIdempotent | internal/processor/paritioners.go:63-80 | A bucket start is its own bucket start, at every scale. |
| Partitioners.PartitionKeyNotAfter | internal/processor/paritioners.go:63-80 | No bucket start lies after the instant it was computed from. |
| Partitioners.PartitionByTimeBuckets | internal/processor/paritioners.go:46-59 | A key is present exactly when some record maps to it. Its bucket is exactly the records mapping to that key, in input order. |
| Partitioners.BucketsNonEmpty | internal/processor/paritioners.go:46-59 | Every bucket holds at least one record. |
| Partitioners.PartitionIsPermutation | internal/processor/paritioners.go:46-59 | Each input record sits in its own key's bucket, as many times as it occurs in the input, and in no other bucket. |
| Partitioners.Partition | internal/processor/paritioners.go:34-59 | The buckets at a scale are non-empty. Their keys are bucket starts, and are exactly the bucket starts of the input records. Each bucket holds exactly the input records whose bucket start is its key, in input order. |
| Aggregators.FromRequestAggregator | internal/processor/aggregators.go:14-25 | "Sum" selects the sum and "Avg" the mean. Every other name, "Count" included, selects the count. |
| Aggregators.Truncate | internal/processor/aggregators.go:50 | Go's float-to-int conversion: the integer part, rounded toward zero for positive and negative values. |
| Aggregators.RoundTo2DecimalPoints | internal/processor/aggregators.go:49-51 | The result has at most two decimals, lies between zero and the input, and is within 0.01 of it. |
| Aggregators.RoundIdempotent | internal/processor/aggregators.go:49-51 | Rounding a rounded value changes nothing. |
| Aggregators.RoundUnique | internal/processor/aggregators.go:49-51 | Any value with at most two decimals that lies less than 0.01 from `v`, on the zero side, is `roundTo2DecimalPoints(v)`. The cut is unique. |
| Aggregators.TotalAppend | internal/processor/aggregators.go:33-39 | The running sum of a concatenation is the sum of the running sums. |
| Aggregators.TotalBounds | internal/processor/aggregators.go:33-39 | If every value lies in `[lo, hi]`, the sum of n values lies in `[n*lo, n*hi]`. |
| Aggregators.CountAggregator | internal/processor/aggregators.go:29-31 | The point is at the bucket key. Its value is the number of records in the bucket, repeated ids included. |
| Aggregators.SumAggregator | internal/processor/aggregators.go:33-39 | The point is at the bucket key. Its value has at most two decimals and lies less than 0.01 from the exact sum, on the zero side. By `RoundUnique`, that is exactly the sum truncated toward zero to two decimals. |
| Aggregators.AvgAggregator | internal/processor/aggregators.go:41-47 | The point is at the bucket key. Its value has at most two decimals and lies less than 0.01 from the exact mean of the bucket, on the zero side: the mean is cut, not the sum. |
| Aggregators.AvgWithinRange | internal/processor/aggregators.go:41-47 | For non-negative values in `[lo, hi]`, the reported mean lies in `(lo - 0.01, hi]`. |
| Aggregators.Aggregate | internal/processor/aggregators.go:27 | Whichever aggregator is chosen, the point carries the bucket key as its timestamp. |
| MetricProcessor.NewInMemoryMetricStreamProcessor | internal/processor/metricprocessor.go:42-48 | A new processor satisfies the invariant, holds no records and indexes no tag. |
| MetricProcessor.IndexTag | internal/processor/metricprocessor.go:74-85 | The tag's collection (a new one if absent) gains the record. Every other tag's entry is unchanged. The known tag names grow by exactly the tag's name. |
| MetricProcessor.IndexTagsNames | internal/processor/metricprocessor.go:73-85 | After the tag loop, a name is known exactly when it was known before or is the name of one of the record's tags. |
| MetricProcessor.IndexTagsEffect | internal/processor/metricprocessor.go:73-90 | For distinct tags: each listed tag's collection gains the record, every other tag is unchanged, and the trie gains exactly the listed tags' filter strings. |
| MetricProcessor.IngestRecordEffect | internal/processor/metricprocessor.go:73-93 | Ingestion appends the record to the full collection. Each of its tags then holds the record, other tags are untouched, and the trie gains exactly the record's filter strings. The known tag names grow by exactly the names of its tags. |
| MetricProcessor.IngestRecordInv | internal/processor/metricprocessor.go:73-93 | Ingestion keeps the processor invariant. Every collection stays consistent. Every indexed collection is non-empty and holds only ingested records. Every known tag name has at least one value. The trie holds exactly the filter strings of the index. |
| MetricProcessor.Process | internal/processor/metricprocessor.go:66-96 | A row that fails to parse returns its error and changes nothing. Otherwise the record is appended, each of its tags indexes it, and every other tag is unchanged. |
| MetricProcessor.ProcessInv | internal/processor/metricprocessor.go:66-96 | `Process` keeps the processor invariant, whether the row is accepted or rejected. |
| MetricProcessor.ReplayRecords | internal/processor/metricprocessor.go:93 | After ingesting a history into a new processor, the full collection is that history's records, in arrival order. |
| MetricProcessor.ReplayIndex | internal/processor/metricprocessor.go:73-90 | After ingesting a history, tag `t` indexes id `id` exactly when some ingested row with that id carried `t`. |
| MetricProcessor.ReplayNames | internal/processor/metricprocessor.go:73-85 | After ingesting a history, a tag name is known exactly when some ingested row carried a tag of that name. |
| MetricProcessor.ResolveFilters | internal/processor/metricprocessor.go:146-159 | Gathering succeeds exactly when every filter names an indexed tag. It then returns each filter's collection, in filter order. |
| MetricProcessor.PickWithMinLength | internal/processor/metricprocessor.go:182-190 | The chosen collection has the least `Len`. It is the first with that length. |
| MetricProcessor.MergeExact | internal/processor/metricprocessor.go:164-177 | The merge keeps a pivot record exactly when its id is present in every collection. It holds only pivot records. |
| MetricProcessor.GetInputMetrics | internal/processor/metricprocessor.go:129-180 | No filter gives every record. One filter gives an empty collection for an unknown name, or nil when the name is known but the value is not. Two or more filters give an empty collection if any is unindexed. Otherwise they give the smallest collection's records whose ids are in every filter's collection, in that collection's order. |
| MetricProcessor.GetInputMetricsExact | internal/processor/metricprocessor.go:129-180 | With at least one filter and a non-nil result, an id is in the result exactly when every filter's collection holds it. Every returned record was ingested. |
| MetricProcessor.ResolvedRecordsCarryEveryTag | internal/processor/metricprocessor.go:129-180 | After ingesting a history, an id matches a set of filters exactly when, for each filter, some ingested row with that id carried it. |
| MetricProcessor.QueryInputNilIff | internal/processor/metricprocessor.go:129-180 | After ingesting a history, filter resolution gives nil exactly for a single filter whose name some row carried while no row carried the filter's tag. Every other query gets a collection. |
| MetricProcessor.InsertByTimestamp | internal/processor/metricprocessor.go:123-125 | Inserting a point into a list yields the list with that point added, nothing lost or duplicated. |
| MetricProcessor.SortByTimestamp | internal/processor/metricprocessor.go:123-125 | The sort is a permutation of its input. |
| MetricProcessor.InsertKeepsOrder | internal/processor/metricprocessor.go:123-125 | Inserting a point with a new timestamp into an ascending list keeps it strictly ascending. |
| MetricProcessor.SortByTimestampAscending | internal/processor/metricprocessor.go:123-125 | Points with distinct timestamps come out strictly ascending in time. |
| MetricProcessor.AggregatePartitions | internal/processor/metricprocessor.go:115-120 | In any map order, the loop yields one point per bucket: the bucket's key aggregated over the bucket. Every key appears and timestamps are distinct. |
| MetricProcessor.GetMetricDataPoints | internal/processor/metricprocessor.go:107-127 | A nil input collection panics. Otherwise every point is the aggregate of its own bucket of the selected records. The points are strictly ascending in time and cover every bucket. |
| MetricProcessor.OnePointPerBucket | internal/processor/metricprocessor.go:115-120 | Points with distinct timestamps, each at a bucket key and together covering every key, number exactly as many as the buckets. |
| MetricProcessor.QueryPointCount | internal/processor/metricprocessor.go:107-127 | A successful query result, strictly ascending with every point the aggregate of its bucket and every bucket covered, has exactly one point per bucket. |
| MetricProcessor.SortedPoints | internal/processor/metricprocessor.go:123-125 | Sorting the aggregated points keeps every point the aggregate of its bucket and keeps every bucket covered. The sorted points are strictly ascending in time. |
| MetricProcessor.GetMetricTagFilters | internal/processor/metricprocessor.go:99-103 | The suggestions are distinct. Under the invariant, they are exactly the known `name:value` filters starting with the search term. |
| Calendar.PrevDayWeekday | internal/processor/paritioners.go:70-71 | Going back one day (`AddDate(0, 0, -1)`) moves the weekday back by one, modulo seven. |
| Calendar.BeforeIsChronological | internal/processor/metricprocessor.go:123-125 | The order on instants used for sorting is elapsed time: one instant is before another exactly when it has fewer seconds since year 1. |
| Scenarios.TruncatingRound | internal/processor/aggregators.go:49-51 | 12.349 and 12.341 both become 12.34, and -1.239 becomes -1.23: the extra digits are dropped, not rounded. |
| Scenarios.DailyBucket | internal/processor/aggregators.go:29-47 | For values 10.5 and 20.25, the sum is 30.75, the mean 15.375 is reported as 15.37, and the count is 2. |

## Left out

- I/O and transport: the HTTP handler (`internal/api/handler.go`), the CSV reader and stream (`internal/data/reader.go`, `internal/data/stream.go`), the server and test-client mains, and the frontend. Reading rows, JSON encoding and HTTP status codes are outside the core.
- `internal/data/apimodel.go` is not part of this model. It declares a `TimeDataPoint` with an integer timestamp and a list of named `DataPoint` values. The code does not use that type as the aggregators' result. Here `TimeDataPoint` is a single pair of an instant and a value, and the `DataPoint` name is dropped.
- `strconv.Atoi`, `strconv.ParseFloat` and `time.Parse("2006-01-02", …)` are parameters of the model (`DataModel.Parsers`). Their text grammars are not modelled, only whether they succeed and what they return. `ParseFloat`'s unusual bit size 2 is treated like 64.
- Concurrency: the processor is a singleton that the Go code does not lock. The model threads its state through pure functions.
- IEEE-754 arithmetic: values are exact reals. `Aggregators.SumAggregator` and `Aggregators.AvgWithinRange` hold for exact sums, not for rounded floating-point sums, and `Aggregators.Truncate` does not model the int64 range of Go's `int` conversion.
- Aggregators.RoundTo2DecimalPoints: holds for exact reals only. In float64 the product `v*100` is itself rounded, so the truncation can lose a hundredth. For example, `0.29*100` evaluates to `28.999999999999996`, and Go's `roundTo2DecimalPoints(0.29)` gives 0.28.
- Aggregators.RoundIdempotent: holds for exact reals only. In float64 a second rounding can lower the value again: 0.295 gives 0.29, and 0.29 then gives 0.28.
- Aggregators.RoundUnique: holds for exact reals only, for the same reason.
- DataModel.ParseInt: `Atoi`'s int64 range is inside the `atoi` parameter and is not modelled separately.
- Aggregators.AvgAggregator: requires a non-empty bucket instead of modelling Go's NaN for 0/0. The query pipeline only aggregates non-empty buckets (`Partitioners.BucketsNonEmpty`), so the NaN case is unreachable there.
- Time: only UTC instants at second resolution, which is what date-only timestamps yield. Time zones, monotonic clock readings and sub-second parts are not modelled. The comparison in the sort (`Timestamp <`) is modelled as chronological order on instants (`Calendar.Before`).
- Go map iteration order:
  - the tag map of a row is taken in schema order;
  - the trie's children are listed in ascending character order;
  - the aggregation loop over buckets picks buckets in an unspecified order.
  The contracts do not depend on the order chosen, except that `TagSearch.GetWordsInSubtrie` fixes one listing order.
- Bytes versus characters: the trie is keyed by bytes in Go and by characters here. For non-ASCII filter strings, the listing order and the intermediate nodes differ. The set of words found does not.
- `MetricProcessor.GetMetricDataPoints` keeps the source's behaviour for a single filter whose name is known but whose value is not: `getInputMetrics` returns nil and the query panics (`NilDereference`) instead of returning no points.
- DataModel.ParseInt: the source comment says a fractional field is rounded, but the code drops the fraction. The model follows the code (`DataModel.ParseIntTruncates`).
- DataModel.ParseInt: an empty id field reports the message "Metric value CSV field is empty", the same text as an empty value field. The model keeps that text.
- The `sort.Slice` call sorts an array whose timestamps are pairwise distinct (they are distinct bucket keys). Because of that, its lack of stability does not matter, and the model sorts by insertion (`MetricProcessor.SortByTimestamp`).
