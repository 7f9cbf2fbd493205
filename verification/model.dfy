/**
 * The data model of the metric service: metric records, the record collection
 * `Metrics`, tags and their `name:value` filter form, the CSV-field parsers and
 * the extraction of a record and its tags from a CSV row.
 */
module DataModel {
  import opened Wrappers
  import opened Calendar

  /** Errors the data layer returns, plus the two Go runtime panics the core can reach. */
  datatype Error =
    | EmptyField(message: string)   // an empty CSV field, with the message the source returns
    | Unparsable(field: string)     // the library parser rejected the text it was handed
    | IndexOutOfRange               // panic: slice index beyond the row or the split result
    | NilDereference                // panic: a nil *Metrics was dereferenced

  /** One metric sample. Ingested once and never changed. */
  datatype MetricRecord = MetricRecord(id: int, timestamp: Instant, name: string, value: real)

  /** One output point of a query: a bucket start and its aggregated value. */
  datatype TimeDataPoint = TimeDataPoint(timestamp: Instant, value: real)

  // ---------------------------------------------------------------------------
  // Record collection

  /**
   * An append-only list of records together with the set of their ids; the set
   * stands for the Go presence map, whose values carry no information.
   */
  datatype Metrics = Metrics(presence: set<int>, records: seq<MetricRecord>) {
    /** The presence set holds exactly the ids of the listed records. */
    predicate Valid() {
      presence == Ids(records)
    }
  }

  function Ids(rs: seq<MetricRecord>): set<int> {
    set i | 0 <= i < |rs| :: rs[i].id
  }

  function NewMetrics(): (m: Metrics)
    ensures m.Valid()
    ensures MetricRecords(m) == [] && Len(m) == 0
    ensures forall id :: !IsRecordPresent(m, id)
  {
    Metrics({}, [])
  }

  /** Appends `r` and marks its id present. A repeated id is appended again. */
  function AddRecord(m: Metrics, r: MetricRecord): (m': Metrics)
    ensures MetricRecords(m') == MetricRecords(m) + [r]
    ensures forall id :: IsRecordPresent(m', id) <==> IsRecordPresent(m, id) || id == r.id
    ensures m.Valid() ==> m'.Valid()
  {
    assert Ids(m.records + [r]) == Ids(m.records) + {r.id} by {
      var rs := m.records + [r];
      forall id | id in Ids(rs) ensures id in Ids(m.records) + {r.id} {
        var i :| 0 <= i < |rs| && rs[i].id == id;
        if i < |m.records| { assert m.records[i] == rs[i]; }
      }
      forall id | id in Ids(m.records) ensures id in Ids(rs) {
        var i :| 0 <= i < |m.records| && m.records[i].id == id;
        assert rs[i] == m.records[i];
      }
      assert rs[|m.records|] == r;
    }
    Metrics(m.presence + {r.id}, m.records + [r])
  }

  function IsRecordPresent(m: Metrics, id: int): bool {
    id in m.presence
  }

  function MetricRecords(m: Metrics): seq<MetricRecord> {
    m.records
  }

  /** The number of distinct ids, not the number of appended records. */
  function Len(m: Metrics): nat {
    |m.presence|
  }

  /** Presence is "some record with this id was added". */
  lemma PresentIffAdded(m: Metrics, id: int)
    requires m.Valid()
    ensures IsRecordPresent(m, id) <==> exists i :: 0 <= i < |MetricRecords(m)| && MetricRecords(m)[i].id == id
  {
    if IsRecordPresent(m, id) {
      var i :| 0 <= i < |m.records| && m.records[i].id == id;
      assert MetricRecords(m)[i].id == id;
    }
  }

  /** The collection obtained by adding `rs` one by one to an empty one. */
  function FromRecords(rs: seq<MetricRecord>): (m: Metrics)
    ensures m.Valid()
  {
    if |rs| == 0 then NewMetrics() else AddRecord(FromRecords(rs[..|rs| - 1]), rs[|rs| - 1])
  }

  /** Records come back in insertion order, every one of them. */
  lemma {:induction false} InsertionOrder(rs: seq<MetricRecord>)
    ensures MetricRecords(FromRecords(rs)) == rs
  {
    if |rs| > 0 {
      InsertionOrder(rs[..|rs| - 1]);
      assert rs == rs[..|rs| - 1] + [rs[|rs| - 1]];
    }
  }

  ghost predicate DistinctIds(rs: seq<MetricRecord>) {
    forall i, j :: 0 <= i < j < |rs| ==> rs[i].id != rs[j].id
  }

  /** The ids of a list with one more record. */
  lemma IdsSnoc(rs: seq<MetricRecord>, r: MetricRecord)
    ensures Ids(rs + [r]) == Ids(rs) + {r.id}
  {
    assert AddRecord(Metrics(Ids(rs), rs), r).records == rs + [r];
  }

  /** One more record keeps the ids distinct exactly when its id is new. */
  lemma DistinctIdsSnoc(rs: seq<MetricRecord>, r: MetricRecord)
    ensures DistinctIds(rs + [r]) <==> DistinctIds(rs) && r.id !in Ids(rs)
  {
    var s := rs + [r];
    if DistinctIds(s) {
      forall i, j | 0 <= i < j < |rs| ensures rs[i].id != rs[j].id {
        assert s[i] == rs[i] && s[j] == rs[j];
      }
      forall i | 0 <= i < |rs| ensures rs[i].id != r.id {
        assert s[i] == rs[i] && s[|rs|] == r;
      }
    }
    if DistinctIds(rs) && r.id !in Ids(rs) {
      forall i, j | 0 <= i < j < |s| ensures s[i].id != s[j].id {
        assert s[i] == rs[i];
        if j < |rs| {
          assert s[j] == rs[j];
        } else {
          assert rs[i].id in Ids(rs);
        }
      }
    }
  }

  /** There are never more distinct ids than records, and as many exactly when ids do not repeat. */
  lemma {:induction false} IdsCardinality(rs: seq<MetricRecord>)
    ensures |Ids(rs)| <= |rs|
    ensures |Ids(rs)| == |rs| <==> DistinctIds(rs)
  {
    if |rs| > 0 {
      var init, last := rs[..|rs| - 1], rs[|rs| - 1];
      assert rs == init + [last];
      IdsCardinality(init);
      IdsSnoc(init, last);
      DistinctIdsSnoc(init, last);
    }
  }

  /** `Len` never exceeds the number of records, and equals it exactly when ids are distinct. */
  lemma LenBound(m: Metrics)
    requires m.Valid()
    ensures Len(m) <= |MetricRecords(m)|
    ensures Len(m) == |MetricRecords(m)| <==> DistinctIds(MetricRecords(m))
  {
    IdsCardinality(m.records);
  }

  /** Adding two records with one id lists both but counts one. */
  lemma DuplicateIdCountsOnce(r1: MetricRecord, r2: MetricRecord)
    requires r1.id == r2.id
    ensures var m := AddRecord(AddRecord(NewMetrics(), r1), r2);
      MetricRecords(m) == [r1, r2] && Len(m) == 1
  {
    var m := AddRecord(AddRecord(NewMetrics(), r1), r2);
    assert m.presence == {r1.id};
  }

  // ---------------------------------------------------------------------------
  // Tags and filters

  /** A tag name and value; written `name:value` when used as a filter. */
  datatype Tag = Tag(name: string, value: string)

  const FilterSeparator: char := ':'

  function AsFilter(t: Tag): (f: string)
    ensures |f| == |t.name| + 1 + |t.value|
    ensures f[..|t.name|] == t.name && f[|t.name|] == FilterSeparator && f[|t.name| + 1..] == t.value
  {
    t.name + [FilterSeparator] + t.value
  }

  /** `strings.Split`: the maximal separator-free pieces between separators. */
  function Split(s: string, sep: char): (parts: seq<string>)
    ensures |parts| >= 1
    ensures |parts| == 1 <==> sep !in s
    ensures forall i :: 0 <= i < |parts| ==> sep !in parts[i]
  {
    if |s| == 0 then [""]
    else
      var rest := Split(s[1..], sep);
      assert sep in s <==> s[0] == sep || sep in s[1..] by {
        assert s == [s[0]] + s[1..];
      }
      if s[0] == sep then [""] + rest
      else [[s[0]] + rest[0]] + rest[1..]
  }

  /** `strings.Join`: the pieces with one separator between neighbours. */
  function Join(parts: seq<string>, sep: char): (s: string)
    requires |parts| >= 1
  {
    if |parts| == 1 then parts[0] else parts[0] + [sep] + Join(parts[1..], sep)
  }

  /** Joining the pieces of a split gives back the string. */
  lemma {:induction false} JoinSplit(s: string, sep: char)
    ensures Join(Split(s, sep), sep) == s
  {
    if |s| > 0 {
      JoinSplit(s[1..], sep);
      var rest := Split(s[1..], sep);
      if s[0] != sep && |rest| > 1 {
        assert Join(rest, sep) == rest[0] + [sep] + Join(rest[1..], sep);
        assert rest[1..][1..] == rest[2..];
      }
    }
  }

  /** A separator-free string splits into itself. */
  lemma {:induction false} SplitPlain(a: string, sep: char)
    requires sep !in a
    ensures Split(a, sep) == [a]
  {
    if |a| > 0 {
      SplitPlain(a[1..], sep);
      assert [a[0]] + a[1..] == a;
    }
  }

  /** A separator-free prefix followed by a separator becomes the first piece. */
  lemma {:induction false} SplitAt(a: string, sep: char, b: string)
    requires sep !in a
    ensures Split(a + [sep] + b, sep) == [a] + Split(b, sep)
  {
    var s := a + [sep] + b;
    if |a| == 0 {
      assert s == [sep] + b;
      assert s[1..] == b;
    } else {
      SplitAt(a[1..], sep, b);
      assert s[0] == a[0] && s[0] != sep;
      assert s[1..] == a[1..] + [sep] + b;
      var rest := Split(s[1..], sep);
      assert rest == [a[1..]] + Split(b, sep);
      assert rest[0] == a[1..] && rest[1..] == Split(b, sep);
      assert [a[0]] + a[1..] == a;
    }
  }

  /** Splitting separator-free pieces joined by the separator gives the pieces back. */
  lemma {:induction false} SplitJoin(parts: seq<string>, sep: char)
    requires |parts| >= 1
    requires forall i :: 0 <= i < |parts| ==> sep !in parts[i]
    ensures Split(Join(parts, sep), sep) == parts
  {
    if |parts| == 1 {
      SplitPlain(parts[0], sep);
    } else {
      SplitJoin(parts[1..], sep);
      SplitAt(parts[0], sep, Join(parts[1..], sep));
      assert parts == [parts[0]] + parts[1..];
    }
  }

  /**
   * `NewTagForFiltering`: pieces 0 and 1 of the split on `:`. A string without
   * `:` has a single piece, and indexing piece 1 panics.
   */
  function NewTagForFiltering(s: string): (r: Result<Tag, Error>)
    ensures r.Success? <==> FilterSeparator in s
    ensures r.Failure? ==> r.error == IndexOutOfRange
    ensures r.Success? ==> FilterSeparator !in r.value.name && FilterSeparator !in r.value.value
  {
    var parts := Split(s, FilterSeparator);
    if |parts| < 2 then Failure(IndexOutOfRange) else Success(Tag(parts[0], parts[1]))
  }

  /** A parsed filter is a prefix of its string, cut at the end or at a further `:`. */
  lemma NewTagForFilteringPrefix(s: string)
    requires NewTagForFiltering(s).Success?
    ensures var f := AsFilter(NewTagForFiltering(s).value);
      |f| <= |s| && s[..|f|] == f && (|f| == |s| || s[|f|] == FilterSeparator)
  {
    var parts := Split(s, FilterSeparator);
    JoinSplit(s, FilterSeparator);
    var tail := parts[1..];
    if |tail| == 1 {
      assert s == parts[0] + [FilterSeparator] + parts[1];
    } else {
      assert Join(tail, FilterSeparator) == tail[0] + [FilterSeparator] + Join(tail[1..], FilterSeparator);
      assert s == parts[0] + [FilterSeparator] + parts[1] + [FilterSeparator] + Join(tail[1..], FilterSeparator);
    }
  }

  /** A tag whose name and value contain no `:` survives the filter round trip. */
  lemma FilterRoundTrip(t: Tag)
    requires FilterSeparator !in t.name && FilterSeparator !in t.value
    ensures NewTagForFiltering(AsFilter(t)) == Success(t)
  {
    SplitAt(t.name, FilterSeparator, t.value);
    SplitPlain(t.value, FilterSeparator);
  }

  /** One tag per request filter, in request order; the first filter without `:` panics. */
  function FromRequestFilters(filters: seq<string>): (r: Result<seq<Tag>, Error>)
    ensures r.Success? <==> forall i :: 0 <= i < |filters| ==> FilterSeparator in filters[i]
    ensures r.Success? ==> |r.value| == |filters|
    ensures r.Success? ==> forall i :: 0 <= i < |filters| ==> NewTagForFiltering(filters[i]) == Success(r.value[i])
  {
    if |filters| == 0 then Success([])
    else
      match NewTagForFiltering(filters[0])
      case Failure(e) => Failure(e)
      case Success(t) =>
        match FromRequestFilters(filters[1..])
        case Failure(e) => Failure(e)
        case Success(ts) => Success([t] + ts)
  }

  /** Filters written from separator-free tags come back as those tags, in order. */
  lemma FromRequestFiltersRoundTrip(ts: seq<Tag>)
    requires forall i :: 0 <= i < |ts| ==> FilterSeparator !in ts[i].name && FilterSeparator !in ts[i].value
    ensures FromRequestFilters(seq(|ts|, i requires 0 <= i < |ts| => AsFilter(ts[i]))) == Success(ts)
  {
    var fs := seq(|ts|, i requires 0 <= i < |ts| => AsFilter(ts[i]));
    forall i | 0 <= i < |ts| ensures NewTagForFiltering(fs[i]) == Success(ts[i]) {
      FilterRoundTrip(ts[i]);
    }
    var r := FromRequestFilters(fs);
    assert r.Success?;
    assert r.value == ts;
  }

  // ---------------------------------------------------------------------------
  // CSV field parsing

  /**
   * The library parsers the source delegates to (`strconv.Atoi`,
   * `strconv.ParseFloat`, `time.Parse` with layout "2006-01-02"), as
   * partial functions.
   */
  datatype Parsers = Parsers(
    atoi: string -> Option<int>,
    parseFloat: string -> Option<real>,
    parseDate: string -> Option<Instant>)

  const EmptyValueMessage: string := "Metric value CSV field is empty"
  const EmptyTimestampMessage: string := "Metric timestamp field is empty"

  /** `strings.LastIndex` for one character: -1 when absent. */
  function LastIndex(s: string, c: char): (k: int)
    ensures -1 <= k < |s|
    ensures k == -1 <==> c !in s
    ensures k >= 0 ==> s[k] == c
    ensures forall j :: k < j < |s| ==> s[j] != c
  {
    if |s| == 0 then -1
    else if s[|s| - 1] == c then |s| - 1
    else LastIndex(s[..|s| - 1], c)
  }

  /**
   * What `parseInt` hands to `strconv.Atoi`: the field with its last `.` and
   * everything after it dropped, when that `.` is not the first character.
   */
  function IntegerPart(s: string): (r: string)
    ensures |r| <= |s| && r == s[..|r|]
  {
    var dot := LastIndex(s, '.');
    if dot > 0 then s[..dot] else s
  }

  /** A dot after the first character cuts the field at the last such dot; otherwise it is kept whole. */
  lemma IntegerPartCut(s: string)
    ensures (exists k :: 0 < k < |s| && s[k] == '.') ==>
      && 0 < |IntegerPart(s)| < |s|
      && s[|IntegerPart(s)|] == '.'
      && forall j :: |IntegerPart(s)| < j < |s| ==> s[j] != '.'
    ensures (forall k :: 0 < k < |s| ==> s[k] != '.') ==> IntegerPart(s) == s
  {
    var dot := LastIndex(s, '.');
    if exists k :: 0 < k < |s| && s[k] == '.' {
      var k :| 0 < k < |s| && s[k] == '.';
      assert dot >= k;
    }
  }

  /** `parseInt`: rejects an empty field, otherwise truncates at the last dot and calls `Atoi`. */
  function ParseInt(s: string, atoi: string -> Option<int>): (r: Result<int, Error>)
    ensures |s| == 0 ==> r == Failure(EmptyField(EmptyValueMessage))
    ensures |s| > 0 ==> (r.Success? <==> atoi(IntegerPart(s)).Some?)
    ensures r.Success? ==> r.value == atoi(IntegerPart(s)).value
  {
    if |s| == 0 then Failure(EmptyField(EmptyValueMessage))
    else match atoi(IntegerPart(s))
      case None => Failure(Unparsable(IntegerPart(s)))
      case Some(n) => Success(n)
  }

  /** The fraction is dropped, not rounded: "12.99" is read as "12". */
  lemma ParseIntTruncates(atoi: string -> Option<int>)
    ensures ParseInt("12.99", atoi) == ParseInt("12", atoi)
  {
    assert LastIndex("12.99", '.') == 2 by {
      assert "12.99"[..4][..3][2] == '.';
    }
    assert LastIndex("12", '.') == -1;
    assert IntegerPart("12.99") == "12.99"[..2] == "12";
    assert IntegerPart("12") == "12";
  }

  function ParseFloat64(s: string, parseFloat: string -> Option<real>): (r: Result<real, Error>)
    ensures |s| == 0 ==> r == Failure(EmptyField(EmptyValueMessage))
    ensures |s| > 0 ==> (r.Success? <==> parseFloat(s).Some?)
    ensures r.Success? ==> r.value == parseFloat(s).value
  {
    if |s| == 0 then Failure(EmptyField(EmptyValueMessage))
    else match parseFloat(s)
      case None => Failure(Unparsable(s))
      case Some(v) => Success(v)
  }

  function ParseDate(s: string, parseDate: string -> Option<Instant>): (r: Result<Instant, Error>)
    ensures |s| == 0 ==> r == Failure(EmptyField(EmptyTimestampMessage))
    ensures |s| > 0 ==> (r.Success? <==> parseDate(s).Some?)
    ensures r.Success? ==> r.value == parseDate(s).value
  {
    if |s| == 0 then Failure(EmptyField(EmptyTimestampMessage))
    else match parseDate(s)
      case None => Failure(Unparsable(s))
      case Some(t) => Success(t)
  }

  // ---------------------------------------------------------------------------
  // CSV rows

  /** A tag column of the data set. */
  datatype TagColumn = TagColumn(name: string, column: nat)

  const MetricName: string := "online.spent"
  const MetricIdColumn: nat := 0
  const MetricTimestampColumn: nat := 6
  const MetricValueColumn: nat := 11

  /** The fixed tag schema. */
  const TagSchema: seq<TagColumn> := [
    TagColumn("gender", 2),
    TagColumn("location", 3),
    TagColumn("product_category", 9),
    TagColumn("coupon_status", 13),
    TagColumn("coupon_code", 19)
  ]

  /** Index of the last column the row extraction reads. */
  const LastTagColumn: nat := 19

  lemma TagSchemaShape()
    ensures forall e :: e in TagSchema ==> e.column <= LastTagColumn
    ensures TagColumn("coupon_code", LastTagColumn) in TagSchema
    ensures forall i, j :: 0 <= i < j < |TagSchema| ==> TagSchema[i].name != TagSchema[j].name
  {
  }

  ghost predicate DistinctNames(tags: seq<Tag>) {
    forall i, j :: 0 <= i < j < |tags| ==> tags[i].name != tags[j].name
  }

  /** The tags of a row: one per schema column whose field is non-empty, in schema order. */
  function SelectTags(row: seq<string>, schema: seq<TagColumn>): (tags: seq<Tag>)
    requires forall e :: e in schema ==> e.column < |row|
    ensures forall t :: t in tags ==> |t.value| > 0 && exists e :: e in schema && t == Tag(e.name, row[e.column])
    ensures forall e :: e in schema && |row[e.column]| > 0 ==> Tag(e.name, row[e.column]) in tags
  {
    if |schema| == 0 then []
    else
      var e := schema[0];
      (if |row[e.column]| > 0 then [Tag(e.name, row[e.column])] else []) + SelectTags(row, schema[1..])
  }

  /** A tag whose name is new to a list of distinct names can be put in front. */
  lemma DistinctNamesCons(t: Tag, rest: seq<Tag>)
    requires DistinctNames(rest)
    requires forall u :: u in rest ==> u.name != t.name
    ensures DistinctNames([t] + rest)
  {
    var s := [t] + rest;
    forall i, j | 0 <= i < j < |s| ensures s[i].name != s[j].name {
      assert s[j] == rest[j - 1];
      if i > 0 {
        assert s[i] == rest[i - 1];
      } else {
        assert s[j] in rest;
      }
    }
  }

  /** The tags selected by the later schema entries carry none of the first entry's name. */
  lemma SelectTagsLaterNames(row: seq<string>, schema: seq<TagColumn>)
    requires |schema| > 0
    requires forall e :: e in schema ==> e.column < |row|
    requires forall i, j :: 0 <= i < j < |schema| ==> schema[i].name != schema[j].name
    ensures forall t :: t in SelectTags(row, schema[1..]) ==> t.name != schema[0].name
  {
    forall t | t in SelectTags(row, schema[1..]) ensures t.name != schema[0].name {
      var f :| f in schema[1..] && t == Tag(f.name, row[f.column]);
      var k :| 0 <= k < |schema[1..]| && schema[1..][k] == f;
      assert schema[k + 1] == f;
    }
  }

  /** Distinct schema names give distinct tag names. */
  lemma {:induction false} SelectTagsDistinct(row: seq<string>, schema: seq<TagColumn>)
    requires forall e :: e in schema ==> e.column < |row|
    requires forall i, j :: 0 <= i < j < |schema| ==> schema[i].name != schema[j].name
    ensures DistinctNames(SelectTags(row, schema))
  {
    if |schema| > 0 {
      var e := schema[0];
      var rest := SelectTags(row, schema[1..]);
      SelectTagsDistinct(row, schema[1..]);
      if |row[e.column]| > 0 {
        SelectTagsLaterNames(row, schema);
        DistinctNamesCons(Tag(e.name, row[e.column]), rest);
      } else {
        assert SelectTags(row, schema) == rest;
      }
    }
  }

  /** A parsed row: the record and its tags. */
  datatype Parsed = Parsed(record: MetricRecord, tags: seq<Tag>)

  /**
   * `FromCsvDataRecord`: id, timestamp and value are read and parsed in that
   * order, the first failure is returned; a row too short for the column being
   * read panics.
   */
  function FromCsvDataRecord(row: seq<string>, parsers: Parsers): (r: Result<Parsed, Error>)
    ensures |row| <= MetricIdColumn ==> r == Failure(IndexOutOfRange)
    ensures |row| > MetricIdColumn ==> ParseInt(row[MetricIdColumn], parsers.atoi).Failure? ==>
      r == Failure(ParseInt(row[MetricIdColumn], parsers.atoi).error)
    ensures MetricIdColumn < |row| <= MetricTimestampColumn ==> ParseInt(row[MetricIdColumn], parsers.atoi).Success? ==>
      r == Failure(IndexOutOfRange)
    ensures |row| > MetricTimestampColumn ==> ParseInt(row[MetricIdColumn], parsers.atoi).Success? ==>
      ParseDate(row[MetricTimestampColumn], parsers.parseDate).Failure? ==>
      r == Failure(ParseDate(row[MetricTimestampColumn], parsers.parseDate).error)
    ensures MetricTimestampColumn < |row| <= MetricValueColumn ==> ParseInt(row[MetricIdColumn], parsers.atoi).Success? ==>
      ParseDate(row[MetricTimestampColumn], parsers.parseDate).Success? ==>
      r == Failure(IndexOutOfRange)
    ensures |row| > MetricValueColumn ==> ParseInt(row[MetricIdColumn], parsers.atoi).Success? ==>
      ParseDate(row[MetricTimestampColumn], parsers.parseDate).Success? ==>
      ParseFloat64(row[MetricValueColumn], parsers.parseFloat).Failure? ==>
      r == Failure(ParseFloat64(row[MetricValueColumn], parsers.parseFloat).error)
    ensures MetricValueColumn < |row| <= LastTagColumn ==> ParseInt(row[MetricIdColumn], parsers.atoi).Success? ==>
      ParseDate(row[MetricTimestampColumn], parsers.parseDate).Success? ==>
      ParseFloat64(row[MetricValueColumn], parsers.parseFloat).Success? ==>
      r == Failure(IndexOutOfRange)
    ensures r.Success? <==>
      && |row| > LastTagColumn
      && ParseInt(row[MetricIdColumn], parsers.atoi).Success?
      && ParseDate(row[MetricTimestampColumn], parsers.parseDate).Success?
      && ParseFloat64(row[MetricValueColumn], parsers.parseFloat).Success?
    ensures r.Success? ==> r.value.record == MetricRecord(
      ParseInt(row[MetricIdColumn], parsers.atoi).value,
      ParseDate(row[MetricTimestampColumn], parsers.parseDate).value,
      MetricName,
      ParseFloat64(row[MetricValueColumn], parsers.parseFloat).value)
    ensures r.Success? ==> DistinctNames(r.value.tags)
    ensures r.Success? ==> forall e :: e in TagSchema ==>
      (Tag(e.name, row[e.column]) in r.value.tags <==> |row[e.column]| > 0)
    ensures r.Success? ==> forall t :: t in r.value.tags ==> exists e :: e in TagSchema && t == Tag(e.name, row[e.column])
  {
    TagSchemaShape();
    if |row| <= MetricIdColumn then Failure(IndexOutOfRange)
    else
      var id :- ParseInt(row[MetricIdColumn], parsers.atoi);
      if |row| <= MetricTimestampColumn then Failure(IndexOutOfRange)
      else
        var timestamp :- ParseDate(row[MetricTimestampColumn], parsers.parseDate);
        if |row| <= MetricValueColumn then Failure(IndexOutOfRange)
        else
          var value :- ParseFloat64(row[MetricValueColumn], parsers.parseFloat);
          if |row| <= LastTagColumn then Failure(IndexOutOfRange)
          else
            SelectTagsDistinct(row, TagSchema);
            Success(Parsed(MetricRecord(id, timestamp, MetricName, value), SelectTags(row, TagSchema)))
  }
}
