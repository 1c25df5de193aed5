/** The Gorilla engine of the core module's `storage.gorilla` package:
    database to measurement to hex bucket id to a series. Each series is
    one compressed run with its kind, read through a value predicate; the
    time predicate of a query is switched off, so a query returns whole
    series, chosen by their bucket keys. Tags play no part. */
module BucketEngine {
  import Seqs
  import Bits
  import opened Wrappers
  import opened JavaInt
  import opened JavaString
  import opened LexOrder
  import opened TimeUtils
  import opened GorillaReader
  import opened GorillaWriter
  import opened Predicates
  import opened DataPoints
  import opened Buckets
  import Series
  import MemEngine
  import GorillaEngine

  // ---------------------------------------------------------------------
  // The series

  /** The series `new TimeSeries(fp, headerTimestamp)` creates, whose
      source is not part of this model: the kind of its points, its
      header, a compressor started at the header, and the count its
      `getReader` hands to the reader. */
  datatype FpSeries = FpSeries(fp: bool, header: int64, writer: Encoder, count: int32)

  function NewSeries(fp: bool, headerTimestamp: int64): FpSeries {
    FpSeries(fp, headerTimestamp, NewEncoder(headerTimestamp), 0)
  }

  /** `addDatapoint`, either overload: one `addValue`, then `count++`. It
      declares no exception (the engine's test calls it from a method
      that throws nothing), so it refuses no timestamp. */
  function AddedTo(c: FpSeries, timestamp: int64, value: int64): FpSeries {
    c.(writer := AddValue(c.writer, Pair(timestamp, value)), count := Wrap32(c.count + 1))
  }

  /** A series holds exactly `pairs`: its compressor wrote them after the
      header, and its count is their number as an `int`. */
  predicate Holds(c: FpSeries, pairs: seq<Pair>) {
    c.writer == Encode(NewEncoder(c.header), pairs) && c.count == Wrap32(|pairs|)
  }

  /** A new series holds nothing and has the kind and header asked for. */
  lemma NewHolds(fp: bool, header: int64)
    ensures Holds(NewSeries(fp, header), []) && NewSeries(fp, header).fp == fp && NewSeries(fp, header).header == header
  {
  }

  /** Every append, whatever its timestamp, leaves the series holding the
      point after the others; its kind and header never change. */
  lemma AddedHolds(c: FpSeries, pairs: seq<Pair>, timestamp: int64, value: int64)
    requires Holds(c, pairs)
    ensures Holds(AddedTo(c, timestamp, value), pairs + [Pair(timestamp, value)])
    ensures AddedTo(c, timestamp, value).fp == c.fp && AddedTo(c, timestamp, value).header == c.header
  {
    EncodeSnoc(NewEncoder(c.header), pairs, Pair(timestamp, value));
    Wrap32Add(|pairs|, 1);
  }

  /** Everything `seriesToDataPoints` appends for one series: its reader,
      given no time predicate, drained through the value predicate. The
      reader's points carry no kind, so they read as integer points. */
  function SeriesRead(c: FpSeries, vp: Option<Between>): seq<DataPoint> {
    Series.BucketRead(Series.Snap(c.writer.out, c.count), None, vp, false)
  }

  /** A series holding in-window pairs, fewer than 2^31 of them, reads back
      exactly those whose value the predicate accepts, in append order. */
  lemma ReadsBack(c: FpSeries, pairs: seq<Pair>, vp: Option<Between>)
    requires Holds(c, pairs) && InSpan(c.header, pairs) && |pairs| <= INT_MAX
    ensures SeriesRead(c, vp) == Selected(pairs, None, vp, false)
  {
    NarrowFits(|pairs|);
    ReaderReturnsAppended(c.header, pairs, c.writer.out, None, vp, false);
  }

  /** `seriesToDataPoints`: `readPair` until the reader throws
      `IOException`; every non-null point is appended. */
  method SeriesToDataPoints(points: seq<DataPoint>, c: FpSeries, vp: Option<Between>) returns (r: seq<DataPoint>)
    ensures r == points + SeriesRead(c, vp)
  {
    var reader := new BucketReader(c.writer.out, c.count, None, vp);
    ghost var all := SeriesRead(c, vp);
    ghost var rest := all;
    r := points;
    while true
      invariant reader.bits == c.writer.out
      invariant reader.timePredicate == None && reader.valuePredicate == vp
      invariant rest == Drain(reader.state, reader.bits, None, vp, false)
      invariant r + rest == points + all
      decreases Remaining(reader.state)
    {
      ghost var s := reader.state;
      var p := reader.ReadPair();
      ReadStepDrain(s, reader.bits, None, vp, false, p);
      if p.Failure? {
        break;
      }
      ghost var head := if p.value.Some? then [WithFp(p.value.value, false)] else [];
      Series.Shift(points + all, r, head, rest, Drain(reader.state, reader.bits, None, vp, false));
      rest := Drain(reader.state, reader.bits, None, vp, false);
      if p.value.Some? {
        r := r + [p.value.value];
      } else {
        assert r + head == r;
      }
    }
    assert r + [] == r;
  }

  // ---------------------------------------------------------------------
  // The engine on values

  type Store = map<string, map<string, map<string, FpSeries>>>

  /** `getOrCreateTimeSeries` and `addDatapoint`: the bucket id in hex is
      the row key, an unknown unit throws before anything changes, a
      missing series is created with kind `fp` and the timestamp as its
      header; when `checkFp` holds, as in `writeDataPoint`, a point of the
      other kind is refused with `PerformantException` after the maps were
      created; any other point is appended. */
  function Wrote(d: Store, db: string, measurementName: string, unit: TimeUnit, timestamp: int64, value: int64,
                 fp: bool, checkFp: bool): (Outcome<JavaException>, Store)
  {
    match Series.BucketKey(unit, timestamp)
    case Failure(e) => (Fail(e), d)
    case Success(key) =>
      var p := MemEngine.Path(db, measurementName, key);
      var before := if MemEngine.In3(d, p) then MemEngine.At3(d, p) else NewSeries(fp, timestamp);
      if checkFp && before.fp != fp then (Fail(PerformantException), MemEngine.Put3(d, p, before))
      else (Pass, MemEngine.Put3(d, p, AddedTo(before, timestamp, value)))
  }

  /** An unknown unit changes nothing; otherwise a write touches only the
      series of its bucket, which exists afterwards. */
  lemma WroteFrame(d: Store, db: string, measurementName: string, unit: TimeUnit, timestamp: int64, value: int64,
                   fp: bool, checkFp: bool)
    ensures var (r, d') := Wrote(d, db, measurementName, unit, timestamp, value, fp, checkFp);
      var key := Series.BucketKey(unit, timestamp);
      (key.Failure? ==> r == Fail(IllegalArgumentException) && d' == d) &&
      (key.Success? ==>
        var p := MemEngine.Path(db, measurementName, key.value);
        MemEngine.In3(d', p) &&
        (forall q :: q != p ==> (MemEngine.In3(d', q) <==> MemEngine.In3(d, q))) &&
        (forall q :: q != p && MemEngine.In3(d, q) ==> MemEngine.At3(d', q) == MemEngine.At3(d, q)))
  {
    var key := Series.BucketKey(unit, timestamp);
    if key.Success? {
      var p := MemEngine.Path(db, measurementName, key.value);
      var before := if MemEngine.In3(d, p) then MemEngine.At3(d, p) else NewSeries(fp, timestamp);
      MemEngine.Put3Spec(d, p, before);
      MemEngine.Put3Spec(d, p, AddedTo(before, timestamp, value));
    }
  }

  /** The series a write lands in, once its key is known: a point of the
      other kind under `checkFp` is refused with `PerformantException`,
      and any other, at whatever timestamp, is appended to what the series
      held; a missing series is first created with kind `fp` and the
      timestamp as header. The kind of a series never changes. */
  lemma WroteSeries(d: Store, db: string, measurementName: string, unit: TimeUnit, timestamp: int64, value: int64,
                    fp: bool, checkFp: bool, key: string, pairs: seq<Pair>)
    requires Series.BucketKey(unit, timestamp) == Success(key)
    requires var p := MemEngine.Path(db, measurementName, key);
      if MemEngine.In3(d, p) then Holds(MemEngine.At3(d, p), pairs) else pairs == []
    ensures var (r, d') := Wrote(d, db, measurementName, unit, timestamp, value, fp, checkFp);
      var p := MemEngine.Path(db, measurementName, key);
      var before := if MemEngine.In3(d, p) then MemEngine.At3(d, p) else NewSeries(fp, timestamp);
      MemEngine.In3(d', p) && MemEngine.At3(d', p).fp == before.fp &&
      (r.Fail? <==> checkFp && before.fp != fp) &&
      (r.Fail? ==> r == Fail(PerformantException) && MemEngine.At3(d', p) == before) &&
      (r.Pass? ==> Holds(MemEngine.At3(d', p), pairs + [Pair(timestamp, value)]))
  {
    var p := MemEngine.Path(db, measurementName, key);
    var before := if MemEngine.In3(d, p) then MemEngine.At3(d, p) else NewSeries(fp, timestamp);
    AddedHolds(before, pairs, timestamp, value);
    MemEngine.Put3Spec(d, p, before);
    MemEngine.Put3Spec(d, p, AddedTo(before, timestamp, value));
  }

  /** The points of the listed series, one after another. */
  function ReadKeys(seriesMap: map<string, FpSeries>, ks: seq<string>, vp: Option<Between>): (r: seq<DataPoint>)
    requires forall i :: 0 <= i < |ks| ==> ks[i] in seriesMap
    ensures forall i :: 0 <= i < |r| ==> Accepts(vp, r[i].value) && !r[i].isFp
  {
    if ks == [] then []
    else ReadKeys(seriesMap, ks[..|ks| - 1], vp) + SeriesRead(seriesMap[ks[|ks| - 1]], vp)
  }

  /** `queryDataPoints` on a measurement's series: the keys from the start
      bound's bucket up to every key that extends the end bound's bucket,
      `IllegalArgumentException` when those keys are out of order, the
      series under the start key when the range is empty, and every series
      read whole through the value predicate. */
  ghost function Answer(seriesMap: map<string, FpSeries>, startTime: int64, endTime: int64, vp: Option<Between>)
    : Result<seq<DataPoint>, JavaException>
  {
    var startKey, endKey := GorillaEngine.QueryKey(startTime), GorillaEngine.QueryKey(endTime) + [Series.MAX_CHAR];
    if Less(endKey, startKey) then Failure(IllegalArgumentException)
    else
      var range := Series.KeyRange(seriesMap.Keys, startKey, endKey);
      if range == {} then Success(if startKey in seriesMap then SeriesRead(seriesMap[startKey], vp) else [])
      else
        SortedKeysMembers(range);
        Success(ReadKeys(seriesMap, SortedKeys(range), vp))
  }

  /** An unknown database or measurement gives no points. */
  ghost function Queried(d: Store, db: string, measurementName: string, startTime: int64, endTime: int64,
                         vp: Option<Between>): Result<seq<DataPoint>, JavaException>
  {
    if db in d && measurementName in d[db] then Answer(d[db][measurementName], startTime, endTime, vp)
    else Success([])
  }

  /** Every point a query returns passes the value predicate and reads as
      an integer point. */
  lemma QueryValues(d: Store, db: string, measurementName: string, startTime: int64, endTime: int64, vp: Option<Between>)
    ensures var r := Queried(d, db, measurementName, startTime, endTime, vp);
      r.Success? ==> forall i :: 0 <= i < |r.value| ==> Accepts(vp, r.value[i].value) && !r.value[i].isFp
  {
  }

  /** The time range selects series by bucket key only: with the time
      predicate switched off, a point written at millisecond 1000 comes
      back from a query over [0, 0]. */
  lemma QueryIgnoresTimeRange(db: string, measurementName: string, value: int64)
    ensures var d := Wrote(map[], db, measurementName, MILLISECONDS, 1000, value, false, false).1;
      Queried(d, db, measurementName, 0, 0, None) == Success([Point(1000, value)])
  {
    var c := AddedTo(NewSeries(false, 1000), 1000, value);
    FirstBucketKeys();
    assert Wrote(map[], db, measurementName, MILLISECONDS, 1000, value, false, false).1 ==
      map[db := map[measurementName := map["0" := c]]];
    AnswerOneKey(c);
    ReadFirst(1000, value);
  }

  /** Millisecond 1000 and millisecond 0 both lie in the bucket keyed "0". */
  lemma FirstBucketKeys()
    ensures Series.BucketKey(MILLISECONDS, 1000) == Success("0")
    ensures GorillaEngine.QueryKey(0) == "0"
  {
    ZeroBucket(1000);
    ZeroBucket(0);
  }

  lemma ZeroBucket(t: int64)
    requires 0 <= t < 4096000
    ensures Series.BucketKey(MILLISECONDS, t) == Success("0") && GorillaEngine.QueryKey(t) == "0"
  {
    MillisBucket(t);
    assert t / 1000 / 4096 == 0;
    assert TimeBucket(MILLISECONDS, t, Series.TIME_BUCKET_CONSTANT) == Success(0);
    assert ToHexString(0) == "0" by {
      assert Unsigned32(0) == 0;
      assert Digits(0, 16) == "0";
    }
  }

  /** A query over [0, 0] reads the series keyed "0" whole. */
  lemma AnswerOneKey(c: FpSeries)
    requires GorillaEngine.QueryKey(0) == "0"
    ensures Answer(map["0" := c], 0, 0, None) == Success(SeriesRead(c, None))
  {
    var e := "0" + [Series.MAX_CHAR];
    assert Less("0", e) by {
      assert e[..1] == "0";
      PrefixLess("0", e);
    }
    LessAsymmetric("0", e);
    assert map["0" := c].Keys == {"0"};
    assert Series.KeyRange({"0"}, "0", e) == {"0"};
    SortedKeysUnique(["0"], {"0"});
    assert SortedKeys({"0"}) == ["0"];
    assert ReadKeys(map["0" := c], ["0"], None) == [] + SeriesRead(c, None);
    assert [] + SeriesRead(c, None) == SeriesRead(c, None);
    assert Answer(map["0" := c], 0, 0, None) == Success(ReadKeys(map["0" := c], ["0"], None));
  }

  /** The first point of a new series reads back as itself. */
  lemma ReadFirst(t: int64, value: int64)
    ensures SeriesRead(AddedTo(NewSeries(false, t), t, value), None) == [Point(t, value)]
  {
    var c := AddedTo(NewSeries(false, t), t, value);
    var pairs := [Pair(t, value)];
    AddedHolds(NewSeries(false, t), [], t, value);
    assert [] + pairs == pairs;
    Bits.Pow2Constants();
    ReadsBack(c, pairs, None);
    SelectAll(pairs, false);
  }

  /** `ReadKeys` keeps every point of each series it reads. */
  lemma {:induction false} ReadKeysHas(seriesMap: map<string, FpSeries>, ks: seq<string>, vp: Option<Between>, j: nat)
    requires forall i :: 0 <= i < |ks| ==> ks[i] in seriesMap
    requires j < |ks|
    ensures forall x :: x in SeriesRead(seriesMap[ks[j]], vp) ==> x in ReadKeys(seriesMap, ks, vp)
  {
    var init := ks[..|ks| - 1];
    if j < |init| {
      assert init[j] == ks[j];
      ReadKeysHas(seriesMap, init, vp, j);
    }
  }

  /** The other direction of `QueryValues`: when the bucket keys of the
      bounds are in order, a series whose key lies from the start bound's
      key up to the keys that extend the end bound's key is read whole,
      every point its reader yields being returned. */
  lemma AnswerFinds(seriesMap: map<string, FpSeries>, a: int64, b: int64, vp: Option<Between>, k: string)
    requires !Less(GorillaEngine.QueryKey(b) + [Series.MAX_CHAR], GorillaEngine.QueryKey(a))
    requires k in seriesMap && LessEq(GorillaEngine.QueryKey(a), k) && Less(k, GorillaEngine.QueryKey(b) + [Series.MAX_CHAR])
    ensures Answer(seriesMap, a, b, vp).Success?
    ensures forall x :: x in SeriesRead(seriesMap[k], vp) ==> x in Answer(seriesMap, a, b, vp).value
  {
    var range := Series.KeyRange(seriesMap.Keys, GorillaEngine.QueryKey(a), GorillaEngine.QueryKey(b) + [Series.MAX_CHAR]);
    assert k in range;
    SortedKeysMembers(range);
    var ks := SortedKeys(range);
    var j :| 0 <= j < |ks| && ks[j] == k;
    ReadKeysHas(seriesMap, ks, vp, j);
  }

  /** A later bucket: ids one width or more apart floor to distinct
      multiples of the width. */
  lemma FloorApart(x: nat, y: nat, fx: int, fy: int)
    requires x + 4096 <= y && fx == (x / 4096) * 4096 && fy == (y / 4096) * 4096
    ensures fx < fy
  {
  }

  /** Two millisecond timestamps a bucket width or more apart, both of
      eight-digit bucket ids, fall in distinct buckets whose keys are in
      the order of the timestamps. */
  lemma ApartKeys(t: int64, t': int64)
    requires Series.EightDigitMillis(t) && Series.EightDigitMillis(t') && t + 1000 * 4096 <= t'
    ensures Series.BucketKey(MILLISECONDS, t) == Success(GorillaEngine.QueryKey(t))
    ensures Series.BucketKey(MILLISECONDS, t') == Success(GorillaEngine.QueryKey(t'))
    ensures Less(GorillaEngine.QueryKey(t), GorillaEngine.QueryKey(t'))
  {
    IdsApart(t, t');
    Series.EightDigitId(t);
    Series.HexKeyOrder(Series.MillisId(t), Series.MillisId(t'));
  }

  lemma IdsApart(t: int64, t': int64)
    requires 0 <= t && t + 1000 * 4096 <= t' < 1000 * TWO_31
    ensures Series.MillisId(t) < Series.MillisId(t')
  {
    Series.MillisIdIs(t);
    Series.MillisIdIs(t');
    SecondsApart(t, t');
    FloorApart(t / 1000, t' / 1000, Series.MillisId(t), Series.MillisId(t'));
  }

  lemma SecondsApart(a: nat, b: nat)
    requires a + 1000 * 4096 <= b
    ensures a / 1000 + 4096 <= b / 1000
  {
    var q, r := a / 1000, a % 1000;
    assert a + 1000 * 4096 == 1000 * (q + 4096) + r;
  }

  /** Two writes 400 minutes apart, read back over exactly their span,
      return the two points in timestamp order, for every start time from
      July 1978 up to 400 minutes before January 2038. */
  lemma FourHundredMinutes(db: string, measurementName: string, ts: int64)
    requires Series.EightDigitMillis(ts) && Series.EightDigitMillis(ts + 400 * 60000)
    ensures var d1 := Wrote(map[], db, measurementName, MILLISECONDS, ts, 1, false, false).1;
      var d2 := Wrote(d1, db, measurementName, MILLISECONDS, ts + 400 * 60000, 4, false, false).1;
      Queried(d2, db, measurementName, ts, ts + 400 * 60000, None) == Success([Point(ts, 1), Point(ts + 400 * 60000, 4)])
  {
    var t' := ts + 400 * 60000;
    ApartKeys(ts, t');
    var k, k' := GorillaEngine.QueryKey(ts), GorillaEngine.QueryKey(t');
    var c, c' := AddedTo(NewSeries(false, ts), ts, 1), AddedTo(NewSeries(false, t'), t', 4);
    LessIrreflexive(k);
    TwoWrites(db, measurementName, ts, t', k, k', c, c');
    TwoKeys(map[k := c, k' := c'], k, k', c, c', ts, t');
    ReadFirst(ts, 1);
    ReadFirst(t', 4);
    assert [Point(ts, 1)] + [Point(t', 4)] == [Point(ts, 1), Point(t', 4)];
  }

  /** A write in a known bucket, without the kind check, puts the series
      with the point appended, or a new series holding it. */
  lemma WroteAppends(d: Store, p: MemEngine.Path, t: int64, value: int64)
    requires Series.BucketKey(MILLISECONDS, t) == Success(p.rowKey)
    ensures Wrote(d, p.db, p.measurement, MILLISECONDS, t, value, false, false).1 ==
      MemEngine.Put3(d, p, AddedTo(if MemEngine.In3(d, p) then MemEngine.At3(d, p) else NewSeries(false, t), t, value))
  {
  }

  /** The store after the two writes: one series per bucket, each holding
      its one point. */
  lemma TwoWrites(db: string, measurementName: string, t: int64, t': int64, k: string, k': string, c: FpSeries, c': FpSeries)
    requires Series.BucketKey(MILLISECONDS, t) == Success(k) && Series.BucketKey(MILLISECONDS, t') == Success(k') && k != k'
    requires c == AddedTo(NewSeries(false, t), t, 1) && c' == AddedTo(NewSeries(false, t'), t', 4)
    ensures var d1 := Wrote(map[], db, measurementName, MILLISECONDS, t, 1, false, false).1;
      Wrote(d1, db, measurementName, MILLISECONDS, t', 4, false, false).1 == map[db := map[measurementName := map[k := c, k' := c']]]
  {
    var p, p' := MemEngine.Path(db, measurementName, k), MemEngine.Path(db, measurementName, k');
    WroteAppends(map[], p, t, 1);
    var d1 := map[db := map[measurementName := map[k := c]]];
    assert MemEngine.Put3(map[], p, c) == d1;
    WroteAppends(d1, p', t', 4);
    assert !MemEngine.In3(d1, p');
    var series := map[k := c, k' := c'];
    assert d1[db][measurementName][k' := c'] == series;
    assert d1[db][measurementName := series] == map[measurementName := series];
    assert d1[db := map[measurementName := series]] == map[db := map[measurementName := series]];
  }

  /** A query from the earlier of two keys to the later reads both
      series, the earlier key first. */
  lemma TwoKeys(seriesMap: map<string, FpSeries>, k: string, k': string, c: FpSeries, c': FpSeries, a: int64, b: int64)
    requires seriesMap == map[k := c, k' := c'] && Less(k, k')
    requires GorillaEngine.QueryKey(a) == k && GorillaEngine.QueryKey(b) == k'
    ensures Answer(seriesMap, a, b, None) == Success(SeriesRead(c, None) + SeriesRead(c', None))
  {
    var e := k' + [Series.MAX_CHAR];
    assert Less(k', e) by {
      assert e[..|k'|] == k';
      PrefixLess(k', e);
    }
    LessTransitive(k, k', e);
    LessAsymmetric(k, e);
    LessIrreflexive(k);
    TwoKeyRange(seriesMap, k, k', e);
    var range := Series.KeyRange(seriesMap.Keys, k, e);
    assert k in range;
    SortedKeysUnique([k, k'], {k, k'});
    assert SortedKeys(range) == [k, k'];
    assert Answer(seriesMap, a, b, None) == Success(ReadKeys(seriesMap, [k, k'], None));
    assert ReadKeys(seriesMap, [k, k'], None) == ReadKeys(seriesMap, [k], None) + SeriesRead(c', None);
    assert ReadKeys(seriesMap, [k], None) == [] + SeriesRead(c, None) == SeriesRead(c, None);
  }

  lemma TwoKeyRange(seriesMap: map<string, FpSeries>, k: string, k': string, e: string)
    requires seriesMap.Keys == {k, k'} && Less(k, k') && Less(k, e) && Less(k', e)
    ensures Series.KeyRange(seriesMap.Keys, k, e) == {k, k'}
  {
  }

  class GorillaStorageEngine {
    var databaseMap: Store

    /** `configure`: no databases. */
    constructor ()
      ensures databaseMap == map[]
    {
      databaseMap := map[];
    }

    /** `getMeasurementsLike`: an unknown database throws
        `NullPointerException`. */
    method GetMeasurementsLike(db: string, partialMeasurementName: string) returns (r: Result<set<string>, JavaException>)
      ensures db !in databaseMap ==> r == Failure(NullPointerException)
      ensures db in databaseMap ==>
        r.Success? && forall m :: m in r.value <==> m in databaseMap[db] && Contains(m, Trim(partialMeasurementName))
      ensures db in databaseMap && Trim(partialMeasurementName) == [] ==> r == Success(databaseMap[db].Keys)
    {
      if db !in databaseMap {
        return Failure(NullPointerException);
      }
      var filtered := MemEngine.MeasurementsLike(databaseMap[db].Keys, partialMeasurementName);
      r := Success(filtered);
    }

    /** `getOrCreateTimeSeries`: the database, measurement and series
        under the hex bucket id are each created when missing, a missing
        series with kind `fp` and the timestamp as header. */
    method GetOrCreateTimeSeries(db: string, measurementName: string, tags: seq<string>, unit: TimeUnit,
                                 timestamp: int64, fp: bool) returns (r: Result<MemEngine.Path, JavaException>)
      modifies this
      ensures !Converts(unit) ==> r == Failure(IllegalArgumentException) && databaseMap == old(databaseMap)
      ensures Converts(unit) ==>
        r == Success(MemEngine.Path(db, measurementName, Series.BucketKey(unit, timestamp).value)) &&
        MemEngine.In3(databaseMap, r.value) &&
        databaseMap == MemEngine.Put3(old(databaseMap), r.value,
          if MemEngine.In3(old(databaseMap), r.value) then MemEngine.At3(old(databaseMap), r.value)
          else NewSeries(fp, timestamp))
    {
      var rowKey := Series.BucketKey(unit, timestamp);
      if rowKey.Failure? {
        return Failure(rowKey.error);
      }
      var p := MemEngine.Path(db, measurementName, rowKey.value);
      var measurementMap := if db in databaseMap then databaseMap[db] else map[];
      var seriesMap := if measurementName in measurementMap then measurementMap[measurementName] else map[];
      if p.rowKey in seriesMap {
        MemEngine.Put3Same(databaseMap, p);
      } else {
        seriesMap := seriesMap[p.rowKey := NewSeries(fp, timestamp)];
      }
      databaseMap := databaseMap[db := measurementMap[measurementName := seriesMap]];
      r := Success(p);
    }

    /** `addDatapoint` on the series under `p`. */
    method AddToSeries(p: MemEngine.Path, timestamp: int64, value: int64)
      requires MemEngine.In3(databaseMap, p)
      modifies this
      ensures databaseMap == MemEngine.Put3(old(databaseMap), p, AddedTo(MemEngine.At3(old(databaseMap), p), timestamp, value))
    {
      var c := MemEngine.At3(databaseMap, p);
      databaseMap := MemEngine.Put3(databaseMap, p, AddedTo(c, timestamp, value));
    }

    /** `writeDataPoint`, with the point's series name, kind, timestamp
        and value as parameters: the bucket is computed as if the
        timestamp were in nanoseconds, and a point of the other kind than
        its series is refused. */
    method WriteDataPoint(db: string, seriesName: string, tags: seq<string>, isFp: bool, timestamp: int64, value: int64)
      returns (r: Outcome<JavaException>)
      modifies this
      ensures (r, databaseMap) == Wrote(old(databaseMap), db, seriesName, NANOSECONDS, timestamp, value, isFp, true)
    {
      var p := GetOrCreateTimeSeries(db, seriesName, tags, NANOSECONDS, timestamp, isFp);
      ghost var created := databaseMap;
      if isFp != MemEngine.At3(databaseMap, p.value).fp {
        return Fail(PerformantException);
      }
      AddToSeries(p.value, timestamp, value);
      r := Pass;
      MemEngine.Put3Twice(old(databaseMap), p.value, MemEngine.At3(created, p.value),
        AddedTo(MemEngine.At3(created, p.value), timestamp, value));
    }

    /** Both `writeSeries` overloads: the `long` one creates a missing
        series as integer, the `double` one as floating point; neither
        checks the kind of a series that exists. */
    method WriteSeries(db: string, measurementName: string, tags: seq<string>, unit: TimeUnit, timestamp: int64,
                       value: int64, fp: bool) returns (r: Outcome<JavaException>)
      modifies this
      ensures (r, databaseMap) == Wrote(old(databaseMap), db, measurementName, unit, timestamp, value, fp, false)
    {
      var p := GetOrCreateTimeSeries(db, measurementName, tags, unit, timestamp, fp);
      if p.Failure? {
        return Fail(p.error);
      }
      ghost var created := databaseMap;
      AddToSeries(p.value, timestamp, value);
      r := Pass;
      MemEngine.Put3Twice(old(databaseMap), p.value, MemEngine.At3(created, p.value),
        AddedTo(MemEngine.At3(created, p.value), timestamp, value));
    }

    /** `queryDataPoints`, whose tag argument plays no part. */
    method QueryDataPoints(db: string, measurementName: string, startTime: int64, endTime: int64, tags: seq<string>,
                           valuePredicate: Option<Between>) returns (r: Result<seq<DataPoint>, JavaException>)
      ensures r == Queried(databaseMap, db, measurementName, startTime, endTime, valuePredicate)
    {
      if db !in databaseMap || measurementName !in databaseMap[db] {
        return Success([]);
      }
      r := QuerySeries(databaseMap[db][measurementName], startTime, endTime, valuePredicate);
    }

    /** The body of `queryDataPoints` once the measurement is found. */
    static method QuerySeries(seriesMap: map<string, FpSeries>, startTime: int64, endTime: int64, vp: Option<Between>)
      returns (r: Result<seq<DataPoint>, JavaException>)
      ensures r == Answer(seriesMap, startTime, endTime, vp)
    {
      var startTsBucket := GorillaEngine.QueryKey(startTime);
      var endTsBucket := GorillaEngine.QueryKey(endTime);
      var endKey := endTsBucket + [Series.MAX_CHAR];
      if Less(endKey, startTsBucket) {
        return Failure(IllegalArgumentException);
      }
      var range := Series.KeyRange(seriesMap.Keys, startTsBucket, endKey);
      if range == {} {
        var points := [];
        if startTsBucket in seriesMap {
          points := SeriesToDataPoints(points, seriesMap[startTsBucket], vp);
          assert points == SeriesRead(seriesMap[startTsBucket], vp);
        }
        return Success(points);
      }
      var keys := OrderedKeys(range);
      SortedKeysMembers(range);
      var points := ReadSeries(seriesMap, keys, vp);
      r := Success(points);
    }

    /** The loop over the series of a key range, in key order. */
    static method ReadSeries(seriesMap: map<string, FpSeries>, keys: seq<string>, vp: Option<Between>)
      returns (points: seq<DataPoint>)
      requires forall i :: 0 <= i < |keys| ==> keys[i] in seriesMap
      ensures points == ReadKeys(seriesMap, keys, vp)
    {
      points := [];
      for i := 0 to |keys|
        invariant points == ReadKeys(seriesMap, keys[..i], vp)
      {
        Seqs.TakeOfTake(keys, i);
        points := SeriesToDataPoints(points, seriesMap[keys[i]], vp);
      }
      Seqs.TakeAll(keys);
    }

    /** `getDatabases`. */
    method GetDatabases() returns (r: set<string>)
      ensures forall db :: db in r <==> db in databaseMap
    {
      r := databaseMap.Keys;
    }

    /** `getAllMeasurementsForDb`: an unknown database throws
        `NullPointerException`. */
    method GetAllMeasurementsForDb(db: string) returns (r: Result<set<string>, JavaException>)
      ensures db !in databaseMap ==> r == Failure(NullPointerException)
      ensures db in databaseMap ==> r.Success? && forall m :: m in r.value <==> m in databaseMap[db]
    {
      if db !in databaseMap {
        return Failure(NullPointerException);
      }
      r := Success(databaseMap[db].Keys);
    }

    /** `deleteAllData`: every database goes. */
    method DeleteAllData()
      modifies this
      ensures databaseMap == map[]
    {
      databaseMap := map[];
    }

    /** `checkIfExists`. */
    method CheckIfExists(db: string) returns (b: bool)
      ensures b <==> db in databaseMap
    {
      b := db in databaseMap;
    }

    /** `dropDatabase`: only that database goes. */
    method DropDatabase(db: string)
      modifies this
      ensures databaseMap == old(databaseMap) - {db}
    {
      databaseMap := databaseMap - {db};
    }
  }
}
