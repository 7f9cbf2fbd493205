/**
 * The in-memory metric processor: ingestion of CSV rows into the record
 * collection, the two-level tag index and the filter trie; resolution of a
 * conjunction of tag filters; and the query pipeline (partition, aggregate,
 * sort).
 */
module MetricProcessor {
  import opened Wrappers
  import opened Seqs
  import opened Calendar
  import opened DataModel
  import opened TagSearch
  import opened Partitioners
  import opened Aggregators

  /** tag name -> tag value -> the records carrying that tag. */
  type TagIndex = map<string, map<string, Metrics>>

  /** The processor state: every record, the tag index, and the catalog of known filters. */
  datatype Processor = Processor(allMetrics: Metrics, taggedMetrics: TagIndex, tagFilters: Trie)

  /** The records indexed under tag `t`, if any. */
  function Lookup(index: TagIndex, t: Tag): Option<Metrics> {
    if t.name in index && t.value in index[t.name] then Some(index[t.name][t.value]) else None
  }

  /** What `t` indexes, or an empty collection when it indexes nothing yet. */
  function Prior(index: TagIndex, t: Tag): Metrics {
    if Lookup(index, t).Some? then Lookup(index, t).value else NewMetrics()
  }

  /** `w` is the `name:value` form of some tag the index holds. */
  ghost predicate IsKnownFilter(index: TagIndex, w: string) {
    exists t :: Lookup(index, t).Some? && w == AsFilter(t)
  }

  /** A collection stored in the index: consistent, non-empty, and made of ingested records. */
  ghost predicate IndexedSet(p: Processor, m: Metrics) {
    m.Valid() && |MetricRecords(m)| > 0 && forall x :: x in MetricRecords(m) ==> x in MetricRecords(p.allMetrics)
  }

  /**
   * The processor invariant: every collection is consistent, every indexed
   * collection is non-empty and holds ingested records, every known tag name
   * has at least one value, and the trie stores exactly the filter strings of
   * the index.
   */
  ghost predicate Inv(p: Processor) {
    && p.allMetrics.Valid()
    && (forall n :: n in p.taggedMetrics ==> p.taggedMetrics[n] != map[])
    && (forall t :: Lookup(p.taggedMetrics, t).Some? ==> IndexedSet(p, Lookup(p.taggedMetrics, t).value))
    && (forall w :: Contains(p.tagFilters, w) <==> IsKnownFilter(p.taggedMetrics, w))
  }

  function NewInMemoryMetricStreamProcessor(): (p: Processor)
    ensures Inv(p)
    ensures MetricRecords(p.allMetrics) == []
    ensures forall t :: Lookup(p.taggedMetrics, t).None?
  {
    Processor(NewMetrics(), map[], NewTrieNode())
  }

  // ---------------------------------------------------------------------------
  // Ingestion

  /** One pass of the ingestion loop body: add `r` under tag `t`, creating the inner map and collection on demand. */
  function IndexTag(index: TagIndex, t: Tag, r: MetricRecord): (index': TagIndex)
    ensures Lookup(index', t) == Some(AddRecord(Prior(index, t), r))
    ensures forall u :: u != t ==> Lookup(index', u) == Lookup(index, u)
    ensures index'.Keys == index.Keys + {t.name}
  {
    var tagValueMap := if t.name in index then index[t.name] else map[];
    var taggedMetrics := if t.value in tagValueMap then tagValueMap[t.value] else NewMetrics();
    index[t.name := tagValueMap[t.value := AddRecord(taggedMetrics, r)]]
  }

  /** The ingestion loop over a record's tags: index the record and register each filter string. */
  function IndexTags(index: TagIndex, filters: Trie, tags: seq<Tag>, r: MetricRecord): (TagIndex, Trie)
    decreases |tags|
  {
    if |tags| == 0 then (index, filters)
    else IndexTags(IndexTag(index, tags[0], r), AddWord(filters, AsFilter(tags[0])), tags[1..], r)
  }

  /** The ingestion loop adds the record to the collection of each of its tags and leaves every other collection alone. */
  lemma {:induction false} IndexTagsIndex(index: TagIndex, filters: Trie, tags: seq<Tag>, r: MetricRecord)
    requires NoDuplicates(tags)
    ensures var index' := IndexTags(index, filters, tags, r).0;
      && (forall t :: t in tags ==> Lookup(index', t) == Some(AddRecord(Prior(index, t), r)))
      && (forall t :: t !in tags ==> Lookup(index', t) == Lookup(index, t))
    decreases |tags|
  {
    if |tags| > 0 {
      var t0 := tags[0];
      var index1 := IndexTag(index, t0, r);
      assert NoDuplicates(tags[1..]);
      assert t0 !in tags[1..];
      var rest := tags[1..];
      IndexTagsIndex(index1, AddWord(filters, AsFilter(t0)), rest, r);
      var index' := IndexTags(index, filters, tags, r).0;
      assert index' == IndexTags(index1, AddWord(filters, AsFilter(t0)), rest, r).0;
      forall t | t in tags ensures Lookup(index', t) == Some(AddRecord(Prior(index, t), r)) {
        if t == t0 {
          assert Lookup(index', t) == Lookup(index1, t);
        } else {
          assert t in rest && Prior(index1, t) == Prior(index, t);
        }
      }
      forall t | t !in tags ensures Lookup(index', t) == Lookup(index, t) {
        assert t != t0 && t !in rest;
      }
    }
  }

  /** The ingestion loop adds exactly the filter strings of the record's tags to the trie. */
  lemma {:induction false} IndexTagsFilters(index: TagIndex, filters: Trie, tags: seq<Tag>, r: MetricRecord)
    ensures var filters' := IndexTags(index, filters, tags, r).1;
      forall w :: Contains(filters', w) <==> Contains(filters, w) || exists t :: t in tags && w == AsFilter(t)
    decreases |tags|
  {
    if |tags| > 0 {
      var t0 := tags[0];
      var filters1 := AddWord(filters, AsFilter(t0));
      IndexTagsFilters(IndexTag(index, t0, r), filters1, tags[1..], r);
      forall w ensures Contains(filters1, w) <==> Contains(filters, w) || w == AsFilter(t0) {
        AddWordContains(filters, AsFilter(t0), w);
      }
      assert tags == [t0] + tags[1..];
    }
  }

  /** The tag names known after the ingestion loop are the old ones and the names of the record's tags. */
  lemma {:induction false} IndexTagsNames(index: TagIndex, filters: Trie, tags: seq<Tag>, r: MetricRecord)
    ensures forall n :: n in IndexTags(index, filters, tags, r).0 <==> n in index || exists t :: t in tags && t.name == n
    decreases |tags|
  {
    if |tags| > 0 {
      var t0 := tags[0];
      IndexTagsNames(IndexTag(index, t0, r), AddWord(filters, AsFilter(t0)), tags[1..], r);
      assert tags == [t0] + tags[1..];
    }
  }

  lemma IndexTagsEffect(index: TagIndex, filters: Trie, tags: seq<Tag>, r: MetricRecord)
    requires NoDuplicates(tags)
    ensures var (index', filters') := IndexTags(index, filters, tags, r);
      && (forall t :: t in tags ==> Lookup(index', t) == Some(AddRecord(Prior(index, t), r)))
      && (forall t :: t !in tags ==> Lookup(index', t) == Lookup(index, t))
      && (forall w :: Contains(filters', w) <==> Contains(filters, w) || exists t :: t in tags && w == AsFilter(t))
  {
    IndexTagsIndex(index, filters, tags, r);
    IndexTagsFilters(index, filters, tags, r);
  }

  /** Ingesting a parsed record: index it under each of its tags, then append it to all records. */
  function IngestRecord(p: Processor, r: MetricRecord, tags: seq<Tag>): Processor {
    var (index, filters) := IndexTags(p.taggedMetrics, p.tagFilters, tags, r);
    Processor(AddRecord(p.allMetrics, r), index, filters)
  }

  lemma DistinctNamesNoDuplicates(tags: seq<Tag>)
    requires DistinctNames(tags)
    ensures NoDuplicates(tags)
  {
  }

  /**
   * After ingestion the record is in every collection of its tags and in all
   * records; no other index entry changes; the new filter strings are exactly
   * those of its tags.
   */
  lemma IngestRecordEffect(p: Processor, r: MetricRecord, tags: seq<Tag>)
    requires DistinctNames(tags)
    ensures var p' := IngestRecord(p, r, tags);
      && MetricRecords(p'.allMetrics) == MetricRecords(p.allMetrics) + [r]
      && (forall t :: t in tags ==>
            && Lookup(p'.taggedMetrics, t).Some?
            && MetricRecords(Lookup(p'.taggedMetrics, t).value) == MetricRecords(Prior(p.taggedMetrics, t)) + [r]
            && IsRecordPresent(Lookup(p'.taggedMetrics, t).value, r.id))
      && (forall t :: t !in tags ==> Lookup(p'.taggedMetrics, t) == Lookup(p.taggedMetrics, t))
      && (forall w :: Contains(p'.tagFilters, w) <==> Contains(p.tagFilters, w) || exists t :: t in tags && w == AsFilter(t))
      && (forall n :: n in p'.taggedMetrics <==> n in p.taggedMetrics || exists t :: t in tags && t.name == n)
  {
    DistinctNamesNoDuplicates(tags);
    IndexTagsEffect(p.taggedMetrics, p.tagFilters, tags, r);
    IndexTagsNames(p.taggedMetrics, p.tagFilters, tags, r);
  }

  /** After ingestion every known tag name still has at least one value. */
  lemma IngestNamesHaveValues(p: Processor, r: MetricRecord, tags: seq<Tag>)
    requires forall n :: n in p.taggedMetrics ==> p.taggedMetrics[n] != map[]
    requires DistinctNames(tags)
    ensures var index' := IngestRecord(p, r, tags).taggedMetrics;
      forall n :: n in index' ==> index'[n] != map[]
  {
    var index' := IngestRecord(p, r, tags).taggedMetrics;
    IngestRecordEffect(p, r, tags);
    forall n | n in index' ensures index'[n] != map[] {
      var t: Tag;
      if n in p.taggedMetrics {
        var v :| v in p.taggedMetrics[n];
        t := Tag(n, v);
        assert Lookup(p.taggedMetrics, t).Some?;
      } else {
        t :| t in tags && t.name == n;
      }
      assert Lookup(index', t).Some?;
      assert t.value in index'[n];
    }
  }

  /** Ingestion keeps the processor invariant. */
  lemma IngestRecordInv(p: Processor, r: MetricRecord, tags: seq<Tag>)
    requires Inv(p) && DistinctNames(tags)
    ensures Inv(IngestRecord(p, r, tags))
  {
    var p' := IngestRecord(p, r, tags);
    IngestRecordEffect(p, r, tags);
    forall t | Lookup(p'.taggedMetrics, t).Some?
      ensures IndexedSet(p', Lookup(p'.taggedMetrics, t).value)
    {
      if t in tags {
        assert Lookup(p'.taggedMetrics, t).value == AddRecord(Prior(p.taggedMetrics, t), r) by {
          DistinctNamesNoDuplicates(tags);
          IndexTagsEffect(p.taggedMetrics, p.tagFilters, tags, r);
        }
      }
    }
    IngestNamesHaveValues(p, r, tags);
    forall w ensures Contains(p'.tagFilters, w) <==> IsKnownFilter(p'.taggedMetrics, w) {
      if IsKnownFilter(p'.taggedMetrics, w) {
        var t :| Lookup(p'.taggedMetrics, t).Some? && w == AsFilter(t);
        if t !in tags { assert IsKnownFilter(p.taggedMetrics, w); }
      }
      if IsKnownFilter(p.taggedMetrics, w) {
        var t :| Lookup(p.taggedMetrics, t).Some? && w == AsFilter(t);
        assert Lookup(p'.taggedMetrics, t).Some?;
      }
      if exists t :: t in tags && w == AsFilter(t) {
        var t :| t in tags && w == AsFilter(t);
        assert Lookup(p'.taggedMetrics, t).Some?;
      }
    }
  }

  /** The result of `Process`: the new state and the error returned, if any. */
  datatype Processed = Processed(state: Processor, err: Option<Error>)

  /**
   * `Process`: parse the row; on failure return the error and change nothing,
   * otherwise ingest the record and its tags.
   */
  function Process(p: Processor, row: seq<string>, parsers: Parsers): (r: Processed)
    ensures FromCsvDataRecord(row, parsers).Failure? ==>
      r == Processed(p, Some(FromCsvDataRecord(row, parsers).error))
    ensures FromCsvDataRecord(row, parsers).Success? ==>
      var parsed := FromCsvDataRecord(row, parsers).value;
      && r.err.None?
      && MetricRecords(r.state.allMetrics) == MetricRecords(p.allMetrics) + [parsed.record]
      && (forall t :: t in parsed.tags ==>
            Lookup(r.state.taggedMetrics, t).Some? && IsRecordPresent(Lookup(r.state.taggedMetrics, t).value, parsed.record.id))
      && (forall t :: t !in parsed.tags ==> Lookup(r.state.taggedMetrics, t) == Lookup(p.taggedMetrics, t))
  {
    match FromCsvDataRecord(row, parsers)
    case Failure(e) => Processed(p, Some(e))
    case Success(parsed) =>
      IngestRecordEffect(p, parsed.record, parsed.tags);
      Processed(IngestRecord(p, parsed.record, parsed.tags), None)
  }

  /** `Process` keeps the processor invariant, whether the row is accepted or rejected. */
  lemma ProcessInv(p: Processor, row: seq<string>, parsers: Parsers)
    requires Inv(p)
    ensures Inv(Process(p, row, parsers).state)
  {
    if FromCsvDataRecord(row, parsers).Success? {
      var parsed := FromCsvDataRecord(row, parsers).value;
      IngestRecordInv(p, parsed.record, parsed.tags);
    }
  }

  /** The processor `p` after ingesting `entries`, in order. */
  function ReplayOnto(p: Processor, entries: seq<Parsed>): Processor {
    if |entries| == 0 then p
    else
      var e := entries[|entries| - 1];
      IngestRecord(ReplayOnto(p, entries[..|entries| - 1]), e.record, e.tags)
  }

  /** A new processor after ingesting `entries`, in order. */
  function Replay(entries: seq<Parsed>): Processor {
    ReplayOnto(NewInMemoryMetricStreamProcessor(), entries)
  }

  /** Some ingested entry with record id `id` carried tag `t`. */
  ghost predicate Carries(entries: seq<Parsed>, t: Tag, id: int) {
    exists k :: 0 <= k < |entries| && entries[k].record.id == id && t in entries[k].tags
  }

  /** The collection of tag `t` exists and holds id `id`. */
  ghost predicate Indexed(index: TagIndex, t: Tag, id: int) {
    Lookup(index, t).Some? && IsRecordPresent(Lookup(index, t).value, id)
  }

  /** After ingesting a history, the processor invariant holds. */
  lemma {:induction false} ReplayInv(entries: seq<Parsed>)
    requires forall k :: 0 <= k < |entries| ==> DistinctNames(entries[k].tags)
    ensures Inv(Replay(entries))
  {
    if |entries| > 0 {
      var init := entries[..|entries| - 1];
      var e := entries[|entries| - 1];
      ReplayInv(init);
      IngestRecordInv(Replay(init), e.record, e.tags);
    }
  }

  /** After ingesting a history, all records are kept, in ingestion order. */
  lemma {:induction false} ReplayRecords(entries: seq<Parsed>)
    ensures |MetricRecords(Replay(entries).allMetrics)| == |entries|
    ensures forall k :: 0 <= k < |entries| ==> MetricRecords(Replay(entries).allMetrics)[k] == entries[k].record
  {
    if |entries| > 0 {
      var init := entries[..|entries| - 1];
      ReplayRecords(init);
      assert MetricRecords(Replay(entries).allMetrics) == MetricRecords(Replay(init).allMetrics) + [entries[|entries| - 1].record];
    }
  }

  /** After ingesting a history, every record is in the collection of each tag it carried and in no other. */
  lemma {:induction false} ReplayIndex(entries: seq<Parsed>)
    requires forall k :: 0 <= k < |entries| ==> DistinctNames(entries[k].tags)
    ensures forall t, id :: Indexed(Replay(entries).taggedMetrics, t, id) <==> Carries(entries, t, id)
    decreases |entries|, 1
  {
    forall t, id ensures Indexed(Replay(entries).taggedMetrics, t, id) <==> Carries(entries, t, id) {
      ReplayIndexAt(entries, t, id);
    }
  }

  lemma {:induction false} ReplayIndexAt(entries: seq<Parsed>, t: Tag, id: int)
    requires forall k :: 0 <= k < |entries| ==> DistinctNames(entries[k].tags)
    ensures Indexed(Replay(entries).taggedMetrics, t, id) <==> Carries(entries, t, id)
    decreases |entries|, 0
  {
    if |entries| == 0 {
      return;
    }
    var init := entries[..|entries| - 1];
    ReplayIndex(init);
    var e := entries[|entries| - 1];
    var p := Replay(init);
    assert Replay(entries) == IngestRecord(p, e.record, e.tags);
    var index := p.taggedMetrics;
    var index' := Replay(entries).taggedMetrics;
    DistinctNamesNoDuplicates(e.tags);
    IndexTagsEffect(index, p.tagFilters, e.tags, e.record);
    CarriesSnoc(entries, t, id);
    if t in e.tags {
      assert IsRecordPresent(Prior(index, t), id) <==> Carries(init, t, id) by {
        assert Indexed(index, t, id) <==> Carries(init, t, id);
      }
    } else {
      assert Indexed(index', t, id) <==> Indexed(index, t, id);
    }
  }

  /** Some ingested entry carried a tag named `n`. */
  ghost predicate NameSeen(entries: seq<Parsed>, n: string) {
    exists k, t :: 0 <= k < |entries| && t in entries[k].tags && t.name == n
  }

  /** After ingesting a history, a tag name is known exactly when some ingested row carried a tag of that name. */
  lemma {:induction false} ReplayNames(entries: seq<Parsed>)
    ensures forall n :: n in Replay(entries).taggedMetrics <==> NameSeen(entries, n)
  {
    if |entries| > 0 {
      var init := entries[..|entries| - 1];
      var e := entries[|entries| - 1];
      var p := Replay(init);
      ReplayNames(init);
      IndexTagsNames(p.taggedMetrics, p.tagFilters, e.tags, e.record);
      forall n ensures NameSeen(entries, n) <==> NameSeen(init, n) || exists t :: t in e.tags && t.name == n {
        NameSeenSnoc(entries, n);
      }
    }
  }

  lemma NameSeenSnoc(entries: seq<Parsed>, n: string)
    requires |entries| > 0
    ensures NameSeen(entries, n) <==>
      NameSeen(entries[..|entries| - 1], n) || exists t :: t in entries[|entries| - 1].tags && t.name == n
  {
    var init := entries[..|entries| - 1];
    if NameSeen(init, n) {
      var k, t :| 0 <= k < |init| && t in init[k].tags && t.name == n;
      assert entries[k] == init[k];
    }
    if NameSeen(entries, n) {
      var k, t :| 0 <= k < |entries| && t in entries[k].tags && t.name == n;
      if k < |init| { assert init[k] == entries[k]; }
    }
  }

  lemma CarriesSnoc(entries: seq<Parsed>, t: Tag, id: int)
    requires |entries| > 0
    ensures var e := entries[|entries| - 1];
      Carries(entries, t, id) <==> Carries(entries[..|entries| - 1], t, id) || (e.record.id == id && t in e.tags)
  {
    var init := entries[..|entries| - 1];
    if Carries(init, t, id) {
      var k :| 0 <= k < |init| && init[k].record.id == id && t in init[k].tags;
      assert entries[k] == init[k];
    }
    if Carries(entries, t, id) {
      var k :| 0 <= k < |entries| && entries[k].record.id == id && t in entries[k].tags;
      if k < |init| { assert init[k] == entries[k]; }
    }
  }

  // ---------------------------------------------------------------------------
  // Filter resolution

  /** The collections of all filters, or nothing as soon as one filter misses. */
  function ResolveFilters(index: TagIndex, filters: seq<Tag>): (r: Option<seq<Metrics>>)
    ensures r.Some? <==> forall i :: 0 <= i < |filters| ==> Lookup(index, filters[i]).Some?
    ensures r.Some? ==> |r.value| == |filters|
    ensures r.Some? ==> forall i :: 0 <= i < |filters| ==> r.value[i] == Lookup(index, filters[i]).value
  {
    if |filters| == 0 then Some([])
    else
      match Lookup(index, filters[0])
      case None => None
      case Some(m) =>
        match ResolveFilters(index, filters[1..])
        case None => None
        case Some(ms) => Some([m] + ms)
  }

  /** `pickWithMinLength`: the position of the first collection of least `Len`. */
  function PickWithMinLength(ms: seq<Metrics>): (k: nat)
    requires |ms| > 0
    ensures k < |ms|
    ensures forall j :: 0 <= j < |ms| ==> Len(ms[k]) <= Len(ms[j])
    ensures forall j :: 0 <= j < k ==> Len(ms[j]) > Len(ms[k])
  {
    if |ms| == 1 then 0
    else
      var k := PickWithMinLength(ms[..|ms| - 1]);
      if Len(ms[|ms| - 1]) < Len(ms[k]) then |ms| - 1 else k
  }

  /** The id is present in every collection. */
  predicate PresentInAll(ms: seq<Metrics>, id: int) {
    forall i :: 0 <= i < |ms| ==> IsRecordPresent(ms[i], id)
  }

  /** The merge loop: the pivot's records present in every collection, kept in pivot order. */
  function Merge(pivot: seq<MetricRecord>, ms: seq<Metrics>): (m: Metrics)
    ensures m.Valid()
    ensures MetricRecords(m) == Filter(pivot, (x: MetricRecord) => PresentInAll(ms, x.id))
  {
    if |pivot| == 0 then NewMetrics()
    else
      var merged := Merge(pivot[..|pivot| - 1], ms);
      var x := pivot[|pivot| - 1];
      if PresentInAll(ms, x.id) then AddRecord(merged, x) else merged
  }

  /**
   * `getInputMetrics`: all records for no filter; a direct lookup for one
   * (nil when the name is known but the value is not); otherwise empty on any
   * miss, else the merge over the smallest collection.
   */
  function GetInputMetrics(p: Processor, filters: seq<Tag>): (r: Option<Metrics>)
    ensures |filters| == 0 ==> r == Some(p.allMetrics)
    ensures |filters| == 1 && filters[0].name !in p.taggedMetrics ==> r == Some(NewMetrics())
    ensures |filters| == 1 && filters[0].name in p.taggedMetrics ==> r == Lookup(p.taggedMetrics, filters[0])
    ensures |filters| >= 2 ==> r.Some?
    ensures |filters| >= 2 && (exists i :: 0 <= i < |filters| && Lookup(p.taggedMetrics, filters[i]).None?) ==>
      r == Some(NewMetrics())
    ensures |filters| >= 2 && ResolveFilters(p.taggedMetrics, filters).Some? ==>
      var ms := ResolveFilters(p.taggedMetrics, filters).value;
      MetricRecords(r.value) == Filter(MetricRecords(ms[PickWithMinLength(ms)]), (x: MetricRecord) => PresentInAll(ms, x.id))
  {
    if |filters| == 0 then Some(p.allMetrics)
    else if |filters| == 1 then
      var t := filters[0];
      if t.name !in p.taggedMetrics then Some(NewMetrics())
      else if t.value !in p.taggedMetrics[t.name] then None
      else Some(p.taggedMetrics[t.name][t.value])
    else
      match ResolveFilters(p.taggedMetrics, filters)
      case None => Some(NewMetrics())
      case Some(ms) => Some(Merge(MetricRecords(ms[PickWithMinLength(ms)]), ms))
  }

  /** The record id satisfies every filter: each filter's collection exists and holds it. */
  ghost predicate MatchesAll(index: TagIndex, filters: seq<Tag>, id: int) {
    forall i :: 0 <= i < |filters| ==> Lookup(index, filters[i]).Some? && IsRecordPresent(Lookup(index, filters[i]).value, id)
  }

  /**
   * Filter resolution is sound and complete: for one or more filters, an id
   * is in the result exactly when it is in the collection of every filter, and
   * every returned record is an ingested one.
   */
  lemma GetInputMetricsExact(p: Processor, filters: seq<Tag>)
    requires Inv(p) && |filters| >= 1
    requires GetInputMetrics(p, filters).Some?
    ensures GetInputMetrics(p, filters).value.Valid()
    ensures forall id :: IsRecordPresent(GetInputMetrics(p, filters).value, id) <==> MatchesAll(p.taggedMetrics, filters, id)
    ensures forall x :: x in MetricRecords(GetInputMetrics(p, filters).value) ==> x in MetricRecords(p.allMetrics)
  {
    var index := p.taggedMetrics;
    if |filters| >= 2 {
      match ResolveFilters(index, filters)
      case None =>
        forall id ensures !MatchesAll(index, filters, id) {
          var i :| 0 <= i < |filters| && Lookup(index, filters[i]).None?;
        }
      case Some(ms) =>
        var k := PickWithMinLength(ms);
        forall i | 0 <= i < |ms| ensures IndexedSet(p, ms[i]) {
          assert ms[i] == Lookup(index, filters[i]).value;
        }
        MergeExact(ms, k);
        forall id ensures MatchesAll(index, filters, id) <==> PresentInAll(ms, id) {
        }
    }
  }

  /** The merge over any one of the collections yields exactly the ids present in all of them. */
  lemma MergeExact(ms: seq<Metrics>, k: nat)
    requires k < |ms|
    requires forall i :: 0 <= i < |ms| ==> ms[i].Valid()
    ensures forall id :: IsRecordPresent(Merge(MetricRecords(ms[k]), ms), id) <==> PresentInAll(ms, id)
    ensures forall x :: x in MetricRecords(Merge(MetricRecords(ms[k]), ms)) ==> x in MetricRecords(ms[k])
  {
    var r := Merge(MetricRecords(ms[k]), ms);
    forall id ensures IsRecordPresent(r, id) <==> PresentInAll(ms, id) {
      PresentIffAdded(r, id);
      if IsRecordPresent(r, id) {
        var j :| 0 <= j < |MetricRecords(r)| && MetricRecords(r)[j].id == id;
        assert MetricRecords(r)[j] in MetricRecords(r);
      }
      if PresentInAll(ms, id) {
        PresentIffAdded(ms[k], id);
        var j :| 0 <= j < |MetricRecords(ms[k])| && MetricRecords(ms[k])[j].id == id;
        assert MetricRecords(ms[k])[j] in MetricRecords(r);
      }
    }
  }

  /**
   * Over an ingested history, resolving one or more filters yields exactly the
   * ids of records that carried every filter's tag.
   */
  lemma ResolvedRecordsCarryEveryTag(entries: seq<Parsed>, filters: seq<Tag>)
    requires forall k :: 0 <= k < |entries| ==> DistinctNames(entries[k].tags)
    requires |filters| >= 1 && GetInputMetrics(Replay(entries), filters).Some?
    ensures forall id :: IsRecordPresent(GetInputMetrics(Replay(entries), filters).value, id) <==>
      forall i :: 0 <= i < |filters| ==> Carries(entries, filters[i], id)
  {
    var p := Replay(entries);
    ReplayInv(entries);
    ReplayIndex(entries);
    GetInputMetricsExact(p, filters);
    forall id ensures MatchesAll(p.taggedMetrics, filters, id) <==> forall i :: 0 <= i < |filters| ==> Carries(entries, filters[i], id) {
      assert MatchesAll(p.taggedMetrics, filters, id) <==> forall i :: 0 <= i < |filters| ==> Indexed(p.taggedMetrics, filters[i], id);
    }
  }

  /**
   * Over an ingested history, filter resolution fails (the nil collection that
   * the query then dereferences) exactly for a single filter whose tag name
   * some row carried while no row carried the filter's tag itself.
   */
  lemma QueryInputNilIff(entries: seq<Parsed>, filters: seq<Tag>)
    requires forall k :: 0 <= k < |entries| ==> DistinctNames(entries[k].tags)
    ensures GetInputMetrics(Replay(entries), filters).None? <==>
      |filters| == 1 && NameSeen(entries, filters[0].name) && forall id :: !Carries(entries, filters[0], id)
  {
    var p := Replay(entries);
    ReplayInv(entries);
    ReplayIndex(entries);
    ReplayNames(entries);
    if |filters| == 1 {
      var t := filters[0];
      if Lookup(p.taggedMetrics, t).Some? {
        var m := Lookup(p.taggedMetrics, t).value;
        assert IndexedSet(p, m);
        var x := MetricRecords(m)[0];
        PresentIffAdded(m, x.id);
        assert Indexed(p.taggedMetrics, t, x.id);
      }
    }
  }

  // ---------------------------------------------------------------------------
  // Query

  /** Points strictly ascending by timestamp. */
  ghost predicate StrictlyAscending(ps: seq<TimeDataPoint>) {
    forall i, j :: 0 <= i < j < |ps| ==> Before(ps[i].timestamp, ps[j].timestamp)
  }

  ghost predicate DistinctTimestamps(ps: seq<TimeDataPoint>) {
    forall i, j :: 0 <= i < j < |ps| ==> ps[i].timestamp != ps[j].timestamp
  }

  /** Insert `p` before the first point that is not earlier than it. */
  function InsertByTimestamp(p: TimeDataPoint, ps: seq<TimeDataPoint>): (r: seq<TimeDataPoint>)
    ensures multiset(r) == multiset(ps) + multiset{p}
  {
    if |ps| == 0 then [p]
    else
      assert ps == [ps[0]] + ps[1..];
      if Before(ps[0].timestamp, p.timestamp) then [ps[0]] + InsertByTimestamp(p, ps[1..])
      else [p] + ps
  }

  /** The final `sort.Slice` by timestamp, as an insertion sort. */
  function SortByTimestamp(ps: seq<TimeDataPoint>): (r: seq<TimeDataPoint>)
    ensures multiset(r) == multiset(ps)
  {
    if |ps| == 0 then []
    else
      assert ps == [ps[0]] + ps[1..];
      InsertByTimestamp(ps[0], SortByTimestamp(ps[1..]))
  }

  /** A point earlier than every point of an ascending sequence can be put in front. */
  lemma AscendingCons(p: TimeDataPoint, ps: seq<TimeDataPoint>)
    requires StrictlyAscending(ps)
    requires forall q :: q in ps ==> Before(p.timestamp, q.timestamp)
    ensures StrictlyAscending([p] + ps)
  {
    var r := [p] + ps;
    forall i, j | 0 <= i < j < |r| ensures Before(r[i].timestamp, r[j].timestamp) {
      assert r[j] == ps[j - 1];
      if i == 0 {
        assert ps[j - 1] in ps;
      } else {
        assert r[i] == ps[i - 1];
      }
    }
  }

  /** The head of an ascending sequence is earlier than every later point. */
  lemma HeadFirst(ps: seq<TimeDataPoint>)
    requires |ps| > 0 && StrictlyAscending(ps)
    ensures StrictlyAscending(ps[1..])
    ensures forall q :: q in ps[1..] ==> Before(ps[0].timestamp, q.timestamp)
  {
    forall q | q in ps[1..] ensures Before(ps[0].timestamp, q.timestamp) {
      var j :| 0 <= j < |ps[1..]| && ps[1..][j] == q;
      assert ps[j + 1] == q;
    }
  }

  lemma {:induction false} InsertKeepsOrder(p: TimeDataPoint, ps: seq<TimeDataPoint>)
    requires StrictlyAscending(ps)
    requires forall q :: q in ps ==> q.timestamp != p.timestamp
    ensures StrictlyAscending(InsertByTimestamp(p, ps))
  {
    if |ps| == 0 {
      return;
    }
    HeadFirst(ps);
    var rest := ps[1..];
    if Before(ps[0].timestamp, p.timestamp) {
      InsertKeepsOrder(p, rest);
      var tail := InsertByTimestamp(p, rest);
      forall q | q in tail ensures Before(ps[0].timestamp, q.timestamp) {
        assert q in multiset(tail);
      }
      AscendingCons(ps[0], tail);
    } else {
      assert ps[0] in ps;
      BeforeTotal(p.timestamp, ps[0].timestamp);
      forall q | q in ps ensures Before(p.timestamp, q.timestamp) {
        if q != ps[0] {
          assert q in rest by {
            var j :| 0 <= j < |ps| && ps[j] == q;
            assert rest[j - 1] == q;
          }
          BeforeTransitive(p.timestamp, ps[0].timestamp, q.timestamp);
        }
      }
      AscendingCons(p, ps);
    }
  }

  /** Sorting points with distinct timestamps yields them strictly ascending. */
  lemma {:induction false} SortByTimestampAscending(ps: seq<TimeDataPoint>)
    requires DistinctTimestamps(ps)
    ensures StrictlyAscending(SortByTimestamp(ps))
  {
    if |ps| > 0 {
      var rest := ps[1..];
      assert DistinctTimestamps(rest) by {
        forall i, j | 0 <= i < j < |rest| ensures rest[i].timestamp != rest[j].timestamp {
          assert rest[i] == ps[i + 1] && rest[j] == ps[j + 1];
        }
      }
      SortByTimestampAscending(rest);
      forall q | q in SortByTimestamp(rest) ensures q.timestamp != ps[0].timestamp {
        assert q in multiset(SortByTimestamp(rest));
        var j :| 0 <= j < |rest| && rest[j] == q;
        assert ps[j + 1] == q;
      }
      InsertKeepsOrder(ps[0], SortByTimestamp(rest));
    }
  }

  /** Every point is the aggregate of its own bucket. */
  ghost predicate PointsOf(parts: map<Instant, seq<MetricRecord>>, agg: Aggregator, ps: seq<TimeDataPoint>)
    requires forall k :: k in parts ==> |parts[k]| > 0
  {
    forall i :: 0 <= i < |ps| ==> ps[i].timestamp in parts && ps[i] == Aggregate(agg, ps[i].timestamp, parts[ps[i].timestamp])
  }

  /** The aggregation loop: one point per bucket, visiting the buckets in an unspecified order. */
  method AggregatePartitions(parts: map<Instant, seq<MetricRecord>>, agg: Aggregator) returns (ps: seq<TimeDataPoint>)
    requires forall k :: k in parts ==> |parts[k]| > 0
    ensures PointsOf(parts, agg, ps)
    ensures forall k :: k in parts ==> exists i :: 0 <= i < |ps| && ps[i].timestamp == k
    ensures DistinctTimestamps(ps)
  {
    ps := [];
    var remaining := parts.Keys;
    while remaining != {}
      invariant remaining <= parts.Keys
      invariant PointsOf(parts, agg, ps)
      invariant forall i :: 0 <= i < |ps| ==> ps[i].timestamp !in remaining
      invariant forall k :: k in parts && k !in remaining ==> exists i :: 0 <= i < |ps| && ps[i].timestamp == k
      invariant DistinctTimestamps(ps)
      decreases |remaining|
    {
      var k :| k in remaining;
      var before := ps;
      ps := ps + [Aggregate(agg, k, parts[k])];
      remaining := remaining - {k};
      assert ps[|before|].timestamp == k;
      assert forall i :: 0 <= i < |before| ==> ps[i] == before[i];
    }
  }

  /**
   * `GetMetricDataPoints`: resolve the filters, partition the records, aggregate
   * each bucket and sort by timestamp. A nil collection from the one-filter
   * lookup is dereferenced and panics.
   */
  method GetMetricDataPoints(p: Processor, filters: seq<Tag>, scale: Scale, agg: Aggregator)
    returns (r: Result<seq<TimeDataPoint>, Error>)
    ensures r.Failure? <==> GetInputMetrics(p, filters).None?
    ensures r.Failure? ==> r.error == NilDereference
    ensures r.Success? ==>
      var parts := Partition(scale, MetricRecords(GetInputMetrics(p, filters).value));
      && StrictlyAscending(r.value)
      && PointsOf(parts, agg, r.value)
      && forall k :: k in parts ==> exists i :: 0 <= i < |r.value| && r.value[i].timestamp == k
  {
    var metrics := GetInputMetrics(p, filters);
    if metrics.None? {
      return Failure(NilDereference);
    }
    var parts := Partition(scale, MetricRecords(metrics.value));
    var points := AggregatePartitions(parts, agg);
    SortedPoints(parts, agg, points);
    return Success(SortByTimestamp(points));
  }

  /** Reordering the points keeps every point the aggregate of its bucket. */
  lemma PointsOfPermutation(parts: map<Instant, seq<MetricRecord>>, agg: Aggregator, a: seq<TimeDataPoint>, b: seq<TimeDataPoint>)
    requires forall k :: k in parts ==> |parts[k]| > 0
    requires multiset(a) == multiset(b) && PointsOf(parts, agg, a)
    ensures PointsOf(parts, agg, b)
  {
    forall i | 0 <= i < |b| ensures b[i].timestamp in parts && b[i] == Aggregate(agg, b[i].timestamp, parts[b[i].timestamp]) {
      assert b[i] in multiset(a);
      var j :| 0 <= j < |a| && a[j] == b[i];
    }
  }

  /** Reordering the points keeps a point for every bucket. */
  lemma CoverPermutation(keys: set<Instant>, a: seq<TimeDataPoint>, b: seq<TimeDataPoint>)
    requires multiset(a) == multiset(b)
    requires forall k :: k in keys ==> exists i :: 0 <= i < |a| && a[i].timestamp == k
    ensures forall k :: k in keys ==> exists i :: 0 <= i < |b| && b[i].timestamp == k
  {
    forall k | k in keys ensures exists i :: 0 <= i < |b| && b[i].timestamp == k {
      var i :| 0 <= i < |a| && a[i].timestamp == k;
      assert a[i] in multiset(b);
      var j :| 0 <= j < |b| && b[j] == a[i];
    }
  }

  /** Sorting the aggregated points keeps one point per bucket and orders them strictly by time. */
  lemma SortedPoints(parts: map<Instant, seq<MetricRecord>>, agg: Aggregator, points: seq<TimeDataPoint>)
    requires forall k :: k in parts ==> |parts[k]| > 0
    requires PointsOf(parts, agg, points) && DistinctTimestamps(points)
    requires forall k :: k in parts ==> exists i :: 0 <= i < |points| && points[i].timestamp == k
    ensures var sorted := SortByTimestamp(points);
      && StrictlyAscending(sorted)
      && PointsOf(parts, agg, sorted)
      && forall k :: k in parts ==> exists i :: 0 <= i < |sorted| && sorted[i].timestamp == k
  {
    var sorted := SortByTimestamp(points);
    SortByTimestampAscending(points);
    PointsOfPermutation(parts, agg, points, sorted);
    CoverPermutation(parts.Keys, points, sorted);
  }

  /** The timestamps of a list of points. */
  function Stamps(ps: seq<TimeDataPoint>): set<Instant> {
    set i | 0 <= i < |ps| :: ps[i].timestamp
  }

  /** Points with pairwise distinct timestamps have as many timestamps as points. */
  lemma {:induction false} StampsSize(ps: seq<TimeDataPoint>)
    requires DistinctTimestamps(ps)
    ensures |Stamps(ps)| == |ps|
  {
    if |ps| > 0 {
      var init := ps[..|ps| - 1];
      var last := ps[|ps| - 1];
      assert DistinctTimestamps(init) by {
        forall i, j | 0 <= i < j < |init| ensures init[i].timestamp != init[j].timestamp {
          assert init[i] == ps[i] && init[j] == ps[j];
        }
      }
      StampsSize(init);
      assert Stamps(ps) == Stamps(init) + {last.timestamp} by {
        forall x | x in Stamps(ps) ensures x in Stamps(init) + {last.timestamp} {
          var i :| 0 <= i < |ps| && ps[i].timestamp == x;
          if i < |ps| - 1 { assert init[i] == ps[i]; }
        }
        forall x | x in Stamps(init) ensures x in Stamps(ps) {
          var i :| 0 <= i < |init| && init[i].timestamp == x;
          assert ps[i] == init[i];
        }
      }
      forall i | 0 <= i < |init| ensures init[i].timestamp != last.timestamp {
        assert init[i] == ps[i];
      }
    }
  }

  /**
   * A query result has exactly one point per bucket: points with distinct
   * timestamps, each at a bucket key and together covering every key, are as
   * many as the buckets.
   */
  lemma OnePointPerBucket(parts: map<Instant, seq<MetricRecord>>, ps: seq<TimeDataPoint>)
    requires DistinctTimestamps(ps)
    requires forall i :: 0 <= i < |ps| ==> ps[i].timestamp in parts
    requires forall k :: k in parts ==> exists i :: 0 <= i < |ps| && ps[i].timestamp == k
    ensures |ps| == |parts|
  {
    StampsSize(ps);
    assert Stamps(ps) == parts.Keys;
  }

  /** Strictly ascending points have distinct timestamps. */
  lemma AscendingDistinct(ps: seq<TimeDataPoint>)
    requires StrictlyAscending(ps)
    ensures DistinctTimestamps(ps)
  {
    forall i, j | 0 <= i < j < |ps| ensures ps[i].timestamp != ps[j].timestamp {
      assert Before(ps[i].timestamp, ps[j].timestamp);
    }
  }

  /**
   * What `GetMetricDataPoints` ensures on success fixes the number of points:
   * strictly ascending points, each the aggregate of its bucket and covering
   * every bucket, are exactly one per bucket.
   */
  lemma QueryPointCount(parts: map<Instant, seq<MetricRecord>>, agg: Aggregator, ps: seq<TimeDataPoint>)
    requires forall k :: k in parts ==> |parts[k]| > 0
    requires StrictlyAscending(ps) && PointsOf(parts, agg, ps)
    requires forall k :: k in parts ==> exists i :: 0 <= i < |ps| && ps[i].timestamp == k
    ensures |ps| == |parts|
  {
    AscendingDistinct(ps);
    OnePointPerBucket(parts, ps);
  }

  /** `GetMetricTagFilters`: the known filter strings starting with `searchTerm`. */
  function GetMetricTagFilters(p: Processor, searchTerm: string): (r: seq<string>)
    ensures NoDuplicates(r)
    ensures Inv(p) ==> forall x :: x in r <==>
      |searchTerm| <= |x| && x[..|searchTerm|] == searchTerm && IsKnownFilter(p.taggedMetrics, x)
  {
    GetWordsInSubtrie(p.tagFilters, searchTerm)
  }
}
