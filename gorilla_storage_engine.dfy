/** The Gorilla engine of the core module's storage package: database to
    measurement to hex bucket id to a series, where a series is one
    compressor over its own buffer and a count of the points written.
    Tags play no part in where a series lives. */
module GorillaEngine {
  import Seqs
  import opened Wrappers
  import opened JavaInt
  import opened JavaString
  import opened LexOrder
  import opened TimeUtils
  import opened GorillaReader
  import opened GorillaWriter
  import opened Predicates
  import opened DataPoints
  import opened Buckets
  import Series
  import MemEngine

  // ---------------------------------------------------------------------
  // Reading a series over a time range

  /** A `readPair` that finds a pair used up one of the snapshot's pairs. */
  lemma FoundCounts(s: Decoder, bits: seq<bool>)
    requires Emit(Advance(s, bits)).Some?
    ensures Remaining(s) > 0 && Remaining(Advance(s, bits)) == Remaining(s) - 1
  {
    AdvanceCounts(s, bits);
  }

  /** `readPair(startTime, endTime)` of the compressor's reader, whose
      source is not part of this model: pairs are read until one lies in
      the range, both ends included, and `null` comes back when the
      reader's own `readPair` returns it. */
  function NextInRange(s: Decoder, bits: seq<bool>, tp: Between): (r: (Option<Pair>, Decoder))
    ensures r.0.Some? ==> Apply(tp, r.0.value.timestamp) && Remaining(r.1) < Remaining(s)
    decreases Remaining(s)
  {
    var s' := Advance(s, bits);
    match Emit(s')
    case None => (None, s')
    case Some(q) =>
      FoundCounts(s, bits);
      if Apply(tp, q.timestamp) then (Some(q), s') else NextInRange(s', bits, tp)
  }

  /** What the loop of `seriesToDataPoints` gathers: every point the range
      `readPair` returns before its first `null`. */
  function RangeRead(s: Decoder, bits: seq<bool>, tp: Between): (r: seq<DataPoint>)
    ensures forall i :: 0 <= i < |r| ==> Apply(tp, r[i].timestamp) && r[i] == Point(r[i].timestamp, r[i].value)
    decreases Remaining(s)
  {
    var (o, s') := NextInRange(s, bits, tp);
    if o.None? then [] else [Point(o.value.timestamp, o.value.value)] + RangeRead(s', bits, tp)
  }

  /** When every read before the count runs out finds a pair, the range
      reads keep exactly the pairs in the range, in order. */
  lemma {:induction false} RangeReadFound(s: Decoder, bits: seq<bool>, tp: Between, pairs: seq<Pair>)
    requires Remaining(s) == |pairs| && DecodePairs(s, bits, |pairs|) == Found(pairs)
    ensures RangeRead(s, bits, tp) == Selected(pairs, Some(tp), None, false)
    decreases |pairs|
  {
    if pairs == [] {
      ExhaustedReadsNothing(s, bits);
    } else {
      var s' := Advance(s, bits);
      AdvanceCounts(s, bits);
      DecodeCons(s, bits, |pairs|);
      assert Found(pairs) == [Some(pairs[0])] + Found(pairs[1..]);
      assert Emit(s') == Some(pairs[0]);
      RangeReadFound(s', bits, tp, pairs[1..]);
      if !Apply(tp, pairs[0].timestamp) {
        assert NextInRange(s, bits, tp) == NextInRange(s', bits, tp);
      }
    }
  }

  // ---------------------------------------------------------------------
  // The series

  /** What the inner `TimeSeries` holds: its kind, its compressor and the
      count of points written, which is an `int`. */
  datatype Compressed = Compressed(fp: bool, writer: Encoder, count: int32)

  /** `new TimeSeries(fp, headerTimestamp)`. */
  function NewCompressed(fp: bool, headerTimestamp: int64): Compressed {
    Compressed(fp, NewEncoder(headerTimestamp), 0)
  }

  /** `addDatapoint`, either overload: one `addValue`, then `count++`. */
  function Appended(c: Compressed, timestamp: int64, value: int64): Compressed {
    c.(writer := AddValue(c.writer, Pair(timestamp, value)), count := Wrap32(c.count + 1))
  }

  /** A series holds exactly `pairs` under `header`: its compressor wrote
      them after the header, and the count is their number as an `int`. */
  predicate Holds(c: Compressed, header: int64, pairs: seq<Pair>) {
    c.writer == Encode(NewEncoder(header), pairs) && c.count == Wrap32(|pairs|)
  }

  /** A new series holds nothing yet. */
  lemma NewHolds(fp: bool, header: int64)
    ensures Holds(NewCompressed(fp, header), header, []) && NewCompressed(fp, header).fp == fp
  {
  }

  /** Each `addDatapoint` appends one pair to what the series holds, and
      keeps its kind. */
  lemma AppendedHolds(c: Compressed, header: int64, pairs: seq<Pair>, timestamp: int64, value: int64)
    requires Holds(c, header, pairs)
    ensures Holds(Appended(c, timestamp, value), header, pairs + [Pair(timestamp, value)])
    ensures Appended(c, timestamp, value).fp == c.fp
  {
    EncodeSnoc(NewEncoder(header), pairs, Pair(timestamp, value));
    Wrap32Add(|pairs|, 1);
  }

  /** The points a reader over the series returns within the range. */
  function ReadRange(c: Compressed, tp: Between): seq<DataPoint> {
    RangeRead(Start(c.writer.out, 0, c.count), c.writer.out, tp)
  }

  /** Reading a series that holds in-window pairs, fewer than 2^31 of them,
      returns exactly those inside the range, in append order. */
  lemma ReadsBack(c: Compressed, header: int64, pairs: seq<Pair>, tp: Between)
    requires Holds(c, header, pairs) && InSpan(header, pairs) && |pairs| <= INT_MAX
    ensures ReadRange(c, tp) == Selected(pairs, Some(tp), None, false)
  {
    NarrowFits(|pairs|);
    FreshEncodable(header, pairs);
    DecodesWritten(header, pairs, c.writer.out);
    RangeReadFound(Start(c.writer.out, 0, |pairs|), c.writer.out, tp, pairs);
  }

  /** The decoder, told their number, reads back the pairs written. */
  lemma DecodesWritten(header: int64, pairs: seq<Pair>, bits: seq<bool>)
    requires Encodable(NewEncoder(header), pairs) && |pairs| <= INT_MAX
    requires bits == Encode(NewEncoder(header), pairs).out
    ensures Remaining(Start(bits, 0, |pairs|)) == |pairs|
    ensures DecodePairs(Start(bits, 0, |pairs|), bits, |pairs|) == Found(pairs)
  {
    assert bits[..|bits|] == bits;
    EncodeDecode(header, pairs, bits, 0);
    assert Found(pairs) + Nulls(0) == Found(pairs);
  }

  /** A reader over the bits written and the count at this moment. */
  method NewReader(bits: seq<bool>, count: int32) returns (reader: Reader)
    ensures fresh(reader) && fresh(reader.input) && reader.input.bits == bits
    ensures reader.State() == Start(bits, 0, count)
  {
    var input := new BitInput(bits);
    reader := new Reader(input, count);
  }

  /** The range `readPair` as a loop over the reader's `readPair`. */
  method ReadPairIn(reader: Reader, startTime: int64, endTime: int64) returns (p: Option<DataPoint>)
    modifies reader, reader.input
    ensures var (o, s') := NextInRange(old(reader.State()), reader.input.bits, Between(startTime, endTime));
      reader.State() == s' && p == (if o.Some? then Some(Point(o.value.timestamp, o.value.value)) else None)
  {
    ghost var tp := Between(startTime, endTime);
    while true
      invariant NextInRange(old(reader.State()), reader.input.bits, tp) == NextInRange(reader.State(), reader.input.bits, tp)
      decreases Remaining(reader.State())
    {
      ghost var s := reader.State();
      var q := reader.ReadPair();
      if q.None? {
        return None;
      }
      if startTime <= q.value.timestamp <= endTime {
        return Some(Point(q.value.timestamp, q.value.value));
      }
      FoundCounts(s, reader.input.bits);
    }
  }

  /** `seriesToDataPoints`: a reader over the series' snapshot is asked
      for points in the range until it returns `null`; each one is
      appended. */
  method SeriesToDataPoints(points: seq<DataPoint>, c: Compressed, startTime: int64, endTime: int64)
    returns (r: seq<DataPoint>)
    ensures r == points + ReadRange(c, Between(startTime, endTime))
  {
    ghost var tp := Between(startTime, endTime);
    var reader := NewReader(c.writer.out, c.count);
    r := points;
    while true
      invariant fresh(reader) && fresh(reader.input) && reader.input.bits == c.writer.out
      invariant points + ReadRange(c, tp) == r + RangeRead(reader.State(), c.writer.out, tp)
      decreases Remaining(reader.State())
    {
      var point := ReadPairIn(reader, startTime, endTime);
      if point.None? {
        break;
      }
      r := r + [point.value];
    }
  }

  /** The inner `TimeSeries`. */
  class TimeSeries {
    const fp: bool
    var writer: Encoder
    var count: int32

    function Value(): Compressed
      reads this
    {
      Compressed(fp, writer, count)
    }

    constructor (fp: bool, headerTimestamp: int64)
      ensures Value() == NewCompressed(fp, headerTimestamp)
    {
      this.fp := fp;
      writer := NewEncoder(headerTimestamp);
      count := 0;
    }

    /** `addDatapoint`, either overload; a `double` arrives as its bits. */
    method AddDatapoint(timestamp: int64, value: int64)
      modifies this
      ensures Value() == Appended(old(Value()), timestamp, value)
    {
      writer := AddValue(writer, Pair(timestamp, value));
      count := Wrap32(count + 1);
    }

    /** `getReader`: the buffer rewound and the count taken now; later
        appends change neither. */
    method GetReader() returns (reader: Reader)
      ensures fresh(reader) && reader.input.bits == writer.out
      ensures reader.State() == Start(writer.out, 0, count)
    {
      reader := NewReader(writer.out, count);
    }

    function IsFp(): bool
      reads this
    {
      fp
    }
  }

  // ---------------------------------------------------------------------
  // The engine on values

  type Store = map<string, map<string, map<string, Compressed>>>

  /** `getOrCreateTimeSeries` and `addDatapoint`: the bucket id in hex is
      the row key, an unknown unit throws before anything changes, a
      missing series is created with kind `fp` and the timestamp as its
      header; when `checkFp` holds, as in `writeDataPoint`, a point of the
      other kind is refused with `PerformantException` after the maps
      were created. */
  function Wrote(d: Store, db: string, measurementName: string, unit: TimeUnit, timestamp: int64, value: int64,
                 fp: bool, checkFp: bool): (Outcome<JavaException>, Store)
  {
    match Series.BucketKey(unit, timestamp)
    case Failure(e) => (Fail(e), d)
    case Success(key) =>
      var p := MemEngine.Path(db, measurementName, key);
      var before := if MemEngine.In3(d, p) then MemEngine.At3(d, p) else NewCompressed(fp, timestamp);
      if checkFp && before.fp != fp then (Fail(PerformantException), MemEngine.Put3(d, p, before))
      else (Pass, MemEngine.Put3(d, p, Appended(before, timestamp, value)))
  }

  /** An unknown unit changes nothing; otherwise a write touches only the
      series of its bucket, which exists afterwards, and only a point of
      the other kind under `checkFp` is refused. */
  lemma WroteFrame(d: Store, db: string, measurementName: string, unit: TimeUnit, timestamp: int64, value: int64,
                   fp: bool, checkFp: bool)
    ensures var (r, d') := Wrote(d, db, measurementName, unit, timestamp, value, fp, checkFp);
      var key := Series.BucketKey(unit, timestamp);
      (key.Failure? ==> r == Fail(IllegalArgumentException) && d' == d) &&
      (key.Success? ==>
        var p := MemEngine.Path(db, measurementName, key.value);
        MemEngine.In3(d', p) &&
        (r.Fail? ==> r == Fail(PerformantException) && checkFp) &&
        (forall q :: q != p ==> (MemEngine.In3(d', q) <==> MemEngine.In3(d, q))) &&
        (forall q :: q != p && MemEngine.In3(d, q) ==> MemEngine.At3(d', q) == MemEngine.At3(d, q)))
  {
    var key := Series.BucketKey(unit, timestamp);
    if key.Success? {
      var p := MemEngine.Path(db, measurementName, key.value);
      var before := if MemEngine.In3(d, p) then MemEngine.At3(d, p) else NewCompressed(fp, timestamp);
      MemEngine.Put3Spec(d, p, before);
      MemEngine.Put3Spec(d, p, Appended(before, timestamp, value));
    }
  }

  /** The series a write lands in: an existing one keeps its kind, refuses
      the point exactly when `checkFp` holds and the kinds differ, and
      otherwise gets it appended; a new one has kind `fp`, takes the point,
      and holds it alone under the point's timestamp as header. */
  lemma WroteSeries(d: Store, db: string, measurementName: string, unit: TimeUnit, timestamp: int64, value: int64,
                    fp: bool, checkFp: bool, key: string)
    requires Series.BucketKey(unit, timestamp) == Success(key)
    ensures var (r, d') := Wrote(d, db, measurementName, unit, timestamp, value, fp, checkFp);
      var p := MemEngine.Path(db, measurementName, key);
      MemEngine.In3(d', p) &&
      (MemEngine.In3(d, p) ==>
         (r.Fail? <==> checkFp && MemEngine.At3(d, p).fp != fp) &&
         MemEngine.At3(d', p).fp == MemEngine.At3(d, p).fp &&
         MemEngine.At3(d', p) == (if r.Pass? then Appended(MemEngine.At3(d, p), timestamp, value) else MemEngine.At3(d, p))) &&
      (!MemEngine.In3(d, p) ==>
         MemEngine.At3(d', p).fp == fp &&
         r.Pass? &&
         Holds(MemEngine.At3(d', p), timestamp, [Pair(timestamp, value)]))
  {
    var p := MemEngine.Path(db, measurementName, key);
    var before := if MemEngine.In3(d, p) then MemEngine.At3(d, p) else NewCompressed(fp, timestamp);
    MemEngine.Put3Spec(d, p, before);
    MemEngine.Put3Spec(d, p, Appended(before, timestamp, value));
    AppendedHolds(NewCompressed(fp, timestamp), timestamp, [], timestamp, value);
    assert [] + [Pair(timestamp, value)] == [Pair(timestamp, value)];
  }

  /** The points of the listed series, one after another. */
  function ReadKeys(seriesMap: map<string, Compressed>, ks: seq<string>, tp: Between): (r: seq<DataPoint>)
    requires forall i :: 0 <= i < |ks| ==> ks[i] in seriesMap
    ensures forall i :: 0 <= i < |r| ==> Apply(tp, r[i].timestamp) && !r[i].isFp
  {
    if ks == [] then []
    else ReadKeys(seriesMap, ks[..|ks| - 1], tp) + ReadRange(seriesMap[ks[|ks| - 1]], tp)
  }

  /** The bucket key a millisecond query bound falls in. */
  function QueryKey(time: int64): string {
    ToHexString(Series.MillisId(time))
  }

  /** `queryDataPoints` on a measurement's series: a negative start reads
      every series over the whole `long` range, any other start the range
      of bucket keys. */
  ghost function Answer(seriesMap: map<string, Compressed>, startTime: int64, endTime: int64)
    : Result<seq<DataPoint>, JavaException>
  {
    if startTime <= -1 then Success(ScanAll(seriesMap)) else ScanRange(seriesMap, startTime, endTime)
  }

  /** Every series in key order, over the whole `long` range. */
  ghost function ScanAll(seriesMap: map<string, Compressed>): seq<DataPoint> {
    SortedKeysMembers(seriesMap.Keys);
    ReadKeys(seriesMap, SortedKeys(seriesMap.Keys), Between(LONG_MIN, LONG_MAX))
  }

  /** The series from the start's bucket key to every key extending the
      end's, in key order, read over the range: `subMap` throws
      `IllegalArgumentException` when its bounds are out of order, and an
      empty key range falls back to the series under the start key. */
  ghost function ScanRange(seriesMap: map<string, Compressed>, startTime: int64, endTime: int64)
    : Result<seq<DataPoint>, JavaException>
  {
    var startKey, endKey := QueryKey(startTime), QueryKey(endTime) + [Series.MAX_CHAR];
    var tp := Between(startTime, endTime);
    if Less(endKey, startKey) then Failure(IllegalArgumentException)
    else
      var range := Series.KeyRange(seriesMap.Keys, startKey, endKey);
      if range == {} then Success(if startKey in seriesMap then ReadRange(seriesMap[startKey], tp) else [])
      else
        SortedKeysMembers(range);
        Success(ReadKeys(seriesMap, SortedKeys(range), tp))
  }

  /** `queryDataPoints`: an unknown database or measurement gives no
      points. */
  ghost function Queried(d: Store, db: string, measurementName: string, startTime: int64, endTime: int64)
    : Result<seq<DataPoint>, JavaException>
  {
    if db in d && measurementName in d[db] then Answer(d[db][measurementName], startTime, endTime)
    else Success([])
  }

  /** Every point a query returns lies in the range, both ends included,
      unless the start is negative, and none is floating point. */
  lemma QueryBounds(d: Store, db: string, measurementName: string, startTime: int64, endTime: int64)
    ensures var r := Queried(d, db, measurementName, startTime, endTime);
      r.Success? ==> forall i :: 0 <= i < |r.value| ==>
        !r.value[i].isFp && (startTime > -1 ==> startTime <= r.value[i].timestamp <= endTime)
  {
  }

  /** Hex keys never contain `Character.MAX_VALUE`, so when the key range
      is empty the fallback finds no series under the start key. */
  lemma FallbackFindsNothing(keys: set<string>, startTime: int64, endTime: int64)
    requires !Less(QueryKey(endTime) + [Series.MAX_CHAR], QueryKey(startTime))
    requires Series.KeyRange(keys, QueryKey(startTime), QueryKey(endTime) + [Series.MAX_CHAR]) == {}
    ensures QueryKey(startTime) !in keys
  {
    var s, e := QueryKey(startTime), QueryKey(endTime) + [Series.MAX_CHAR];
    assert s != e by {
      assert e[|e| - 1] == Series.MAX_CHAR;
      assert HexValue(Series.MAX_CHAR) < 0;
      assert 0 <= HexValue(s[|s| - 1]);
    }
    LessTotal(s, e);
  }

  /** `writeDataPoint` files a point under its timestamp read as
      nanoseconds, while the query reads its bounds as milliseconds: a
      point written at 4096000 into an empty engine lands under bucket
      key "0", and a query over exactly that instant looks from key
      "1000" and finds nothing. */
  lemma WriteAndQueryDisagree(db: string, measurementName: string, value: int64, fp: bool)
    ensures var d := Wrote(map[], db, measurementName, NANOSECONDS, 4096000, value, fp, true).1;
      MemEngine.In3(d, MemEngine.Path(db, measurementName, "0")) &&
      Queried(d, db, measurementName, 4096000, 4096000) == Success([])
  {
    WrittenKey();
    QueriedKey();
    var d: Store := Wrote(map[], db, measurementName, NANOSECONDS, 4096000, value, fp, true).1;
    assert d[db][measurementName].Keys == {"0"};
    StartKeyAboveEnd();
    assert Series.KeyRange({"0"}, "1000", "1000" + [Series.MAX_CHAR]) == {} by {
      assert Less("0", "1000");
    }
    assert "1000" !in d[db][measurementName];
    assert ScanRange(d[db][measurementName], 4096000, 4096000) == Success([]);
  }

  /** Nanosecond 4096000 lies in bucket 0, key "0". */
  lemma WrittenKey()
    ensures Series.BucketKey(NANOSECONDS, 4096000) == Success("0")
  {
    assert Div(4096000, 1000 * 1000 * 1000) == 0;
    assert TimeBucket(NANOSECONDS, 4096000, Series.TIME_BUCKET_CONSTANT) == Success(0);
    assert Digits(0, 16) == "0";
  }

  /** Millisecond 4096000 is second 4096, key "1000". */
  lemma QueriedKey()
    ensures QueryKey(4096000) == "1000"
  {
    assert Div(4096000, 1000) == 4096;
    assert Series.MillisId(4096000) == 4096;
    assert Digits(4096, 16) == Digits(256, 16) + "0";
    assert Digits(256, 16) == Digits(16, 16) + "0";
    assert Digits(16, 16) == "10";
  }

  /** The range from "1000" to "1000" and `Character.MAX_VALUE` is not
      reversed. */
  lemma StartKeyAboveEnd()
    ensures !Less("1000" + [Series.MAX_CHAR], "1000")
  {
    assert ("1000" + [Series.MAX_CHAR])[..4] == "1000";
    PrefixLess("1000", "1000" + [Series.MAX_CHAR]);
    LessAsymmetric("1000", "1000" + [Series.MAX_CHAR]);
  }

  class GorillaStorageEngine {
    var databaseMap: Store

    /** `configure`: no databases. */
    constructor ()
      ensures databaseMap == map[]
    {
      databaseMap := map[];
    }

    /** `getMeasurementsLike`: an unknown database throws
        `NullPointerException`. */
    method GetMeasurementsLike(db: string, partialMeasurementName: string) returns (r: Result<set<string>, JavaException>)
      ensures db !in databaseMap ==> r == Failure(NullPointerException)
      ensures db in databaseMap ==>
        r.Success? && forall m :: m in r.value <==> m in databaseMap[db] && Contains(m, Trim(partialMeasurementName))
      ensures db in databaseMap && Trim(partialMeasurementName) == [] ==> r == Success(databaseMap[db].Keys)
    {
      if db !in databaseMap {
        return Failure(NullPointerException);
      }
      var filtered := MemEngine.MeasurementsLike(databaseMap[db].Keys, partialMeasurementName);
      r := Success(filtered);
    }

    /** `getOrCreateTimeSeries`: the database, measurement and series
        under the hex bucket id are each created when missing, a missing
        series with kind `fp` and the timestamp as header; the tags are
        not used. */
    method GetOrCreateTimeSeries(db: string, measurementName: string, tags: seq<string>, unit: TimeUnit,
                                 timestamp: int64, fp: bool) returns (r: Result<MemEngine.Path, JavaException>)
      modifies this
      ensures !Converts(unit) ==> r == Failure(IllegalArgumentException) && databaseMap == old(databaseMap)
      ensures Converts(unit) ==>
        r == Success(MemEngine.Path(db, measurementName, Series.BucketKey(unit, timestamp).value)) &&
        MemEngine.In3(databaseMap, r.value) &&
        databaseMap == MemEngine.Put3(old(databaseMap), r.value,
          if MemEngine.In3(old(databaseMap), r.value) then MemEngine.At3(old(databaseMap), r.value)
          else NewCompressed(fp, timestamp))
    {
      var rowKey := Series.BucketKey(unit, timestamp);
      if rowKey.Failure? {
        return Failure(rowKey.error);
      }
      var p := MemEngine.Path(db, measurementName, rowKey.value);
      var measurementMap := if db in databaseMap then databaseMap[db] else map[];
      var seriesMap := if measurementName in measurementMap then measurementMap[measurementName] else map[];
      if p.rowKey in seriesMap {
        MemEngine.Put3Same(databaseMap, p);
      } else {
        seriesMap := seriesMap[p.rowKey := NewCompressed(fp, timestamp)];
      }
      databaseMap := databaseMap[db := measurementMap[measurementName := seriesMap]];
      r := Success(p);
    }

    /** `addDatapoint` on the series under `p`. */
    method AddToSeries(p: MemEngine.Path, timestamp: int64, value: int64)
      requires MemEngine.In3(databaseMap, p)
      modifies this
      ensures databaseMap == MemEngine.Put3(old(databaseMap), p, Appended(MemEngine.At3(old(databaseMap), p), timestamp, value))
    {
      databaseMap := MemEngine.Put3(databaseMap, p, Appended(MemEngine.At3(databaseMap, p), timestamp, value));
    }

    /** `writeDataPoint`, with the point's series name, kind, timestamp
        and value as parameters: the bucket is computed as if the
        timestamp were in nanoseconds, and a point of the other kind than
        its series is refused. */
    method WriteDataPoint(db: string, seriesName: string, tags: seq<string>, isFp: bool, timestamp: int64, value: int64)
      returns (r: Outcome<JavaException>)
      modifies this
      ensures (r, databaseMap) == Wrote(old(databaseMap), db, seriesName, NANOSECONDS, timestamp, value, isFp, true)
    {
      var p := GetOrCreateTimeSeries(db, seriesName, tags, NANOSECONDS, timestamp, isFp);
      ghost var created := databaseMap;
      if isFp != MemEngine.At3(databaseMap, p.value).fp {
        return Fail(PerformantException);
      }
      AddToSeries(p.value, timestamp, value);
      r := Pass;
      MemEngine.Put3Twice(old(databaseMap), p.value, MemEngine.At3(created, p.value),
        Appended(MemEngine.At3(created, p.value), timestamp, value));
    }

    /** Both `writeSeries` overloads: the `long` one creates a missing
        series as integer, the `double` one as floating point; neither
        checks the kind of a series that exists. */
    method WriteSeries(db: string, measurementName: string, tags: seq<string>, unit: TimeUnit, timestamp: int64,
                       value: int64, fp: bool) returns (r: Outcome<JavaException>)
      modifies this
      ensures (r, databaseMap) == Wrote(old(databaseMap), db, measurementName, unit, timestamp, value, fp, false)
    {
      var p := GetOrCreateTimeSeries(db, measurementName, tags, unit, timestamp, fp);
      if p.Failure? {
        return Fail(p.error);
      }
      ghost var created := databaseMap;
      AddToSeries(p.value, timestamp, value);
      r := Pass;
      MemEngine.Put3Twice(old(databaseMap), p.value, MemEngine.At3(created, p.value),
        Appended(MemEngine.At3(created, p.value), timestamp, value));
    }

    /** `queryDataPoints`, whose tag argument plays no part. */
    method QueryDataPoints(db: string, measurementName: string, startTime: int64, endTime: int64, tags: seq<string>)
      returns (r: Result<seq<DataPoint>, JavaException>)
      ensures r == Queried(databaseMap, db, measurementName, startTime, endTime)
    {
      if db !in databaseMap || measurementName !in databaseMap[db] {
        return Success([]);
      }
      r := QuerySeries(databaseMap[db][measurementName], startTime, endTime);
    }

    /** The body of `queryDataPoints` once the measurement is found. */
    static method QuerySeries(seriesMap: map<string, Compressed>, startTime: int64, endTime: int64)
      returns (r: Result<seq<DataPoint>, JavaException>)
      ensures r == Answer(seriesMap, startTime, endTime)
    {
      if startTime <= -1 {
        var keys := OrderedKeys(seriesMap.Keys);
        SortedKeysMembers(seriesMap.Keys);
        var points := ReadSeries(seriesMap, keys, LONG_MIN, LONG_MAX);
        return Success(points);
      }
      r := QueryRange(seriesMap, startTime, endTime);
    }

    /** A query from a start that is not negative. */
    static method QueryRange(seriesMap: map<string, Compressed>, startTime: int64, endTime: int64)
      returns (r: Result<seq<DataPoint>, JavaException>)
      ensures r == ScanRange(seriesMap, startTime, endTime)
    {
      var startTsBucket := QueryKey(startTime);
      var endTsBucket := QueryKey(endTime);
      var endKey := endTsBucket + [Series.MAX_CHAR];
      if Less(endKey, startTsBucket) {
        return Failure(IllegalArgumentException);
      }
      var range := Series.KeyRange(seriesMap.Keys, startTsBucket, endKey);
      if range == {} {
        var points := [];
        if startTsBucket in seriesMap {
          points := SeriesToDataPoints(points, seriesMap[startTsBucket], startTime, endTime);
          assert points == ReadRange(seriesMap[startTsBucket], Between(startTime, endTime));
        }
        return Success(points);
      }
      var keys := OrderedKeys(range);
      SortedKeysMembers(range);
      var points := ReadSeries(seriesMap, keys, startTime, endTime);
      r := Success(points);
    }

    /** The loop over the series of a key range, in key order. */
    static method ReadSeries(seriesMap: map<string, Compressed>, keys: seq<string>, startTime: int64, endTime: int64)
      returns (points: seq<DataPoint>)
      requires forall i :: 0 <= i < |keys| ==> keys[i] in seriesMap
      ensures points == ReadKeys(seriesMap, keys, Between(startTime, endTime))
    {
      points := [];
      for i := 0 to |keys|
        invariant points == ReadKeys(seriesMap, keys[..i], Between(startTime, endTime))
      {
        Seqs.TakeOfTake(keys, i);
        points := SeriesToDataPoints(points, seriesMap[keys[i]], startTime, endTime);
      }
      Seqs.TakeAll(keys);
    }

    /** `getDatabases`. */
    method GetDatabases() returns (r: set<string>)
      ensures forall db :: db in r <==> db in databaseMap
    {
      r := databaseMap.Keys;
    }

    /** `getAllMeasurementsForDb`: an unknown database throws
        `NullPointerException`. */
    method GetAllMeasurementsForDb(db: string) returns (r: Result<set<string>, JavaException>)
      ensures db !in databaseMap ==> r == Failure(NullPointerException)
      ensures db in databaseMap ==> r.Success? && forall m :: m in r.value <==> m in databaseMap[db]
    {
      if db !in databaseMap {
        return Failure(NullPointerException);
      }
      r := Success(databaseMap[db].Keys);
    }

    /** `deleteAllData`: every database goes. */
    method DeleteAllData()
      modifies this
      ensures databaseMap == map[]
    {
      databaseMap := map[];
    }

    /** `checkIfExists`. */
    method CheckIfExists(db: string) returns (b: bool)
      ensures b <==> db in databaseMap
    {
      b := db in databaseMap;
    }

    /** `dropDatabase`: only that database goes. */
    method DropDatabase(db: string)
      modifies this
      ensures databaseMap == old(databaseMap) - {db}
    {
      databaseMap := databaseMap - {db};
    }
  }
}
