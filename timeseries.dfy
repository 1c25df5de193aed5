/** `TimeSeries`: the buckets of one series in a sorted map keyed by the
    hex rendering of each bucket's id, the start of its 4096-second window.
    Writes are routed to the bucket of their window, created on first use;
    a range query reads the buckets whose keys fall in a key range,
    through an inclusive time predicate. */
module Series {
  import opened Wrappers
  import opened JavaInt
  import opened JavaString
  import opened LexOrder
  import opened Bits
  import opened TimeUtils
  import opened GorillaReader
  import opened Predicates
  import opened DataPoints
  import opened Buckets
  import opened GorillaWriter

  /** `TIME_BUCKET_CONSTANT`: the width of a bucket, in seconds. */
  const TIME_BUCKET_CONSTANT: int32 := 4096

  /** `Character.MAX_VALUE`. */
  const MAX_CHAR: char := '￿'

  /** What a reader over a bucket sees: the bits written and the count. */
  datatype Snap = Snap(bits: seq<bool>, count: int32)

  /** Everything `seriesToDataPoints` appends for one bucket. */
  function BucketRead(s: Snap, tp: Option<Between>, vp: Option<Between>, fp: bool): seq<DataPoint> {
    Drain(Start(s.bits, 0, s.count), s.bits, tp, vp, fp)
  }

  /** The buckets listed in `ks`, read one after another. */
  function ReadAll(m: map<string, Snap>, ks: seq<string>, tp: Option<Between>, vp: Option<Between>, fp: bool): (r: seq<DataPoint>)
    requires forall i :: 0 <= i < |ks| ==> ks[i] in m
    ensures forall i :: 0 <= i < |r| ==> r[i].isFp == fp && Accepts(tp, r[i].timestamp) && Accepts(vp, r[i].value)
  {
    if ks == [] then []
    else ReadAll(m, ks[..|ks| - 1], tp, vp, fp) + BucketRead(m[ks[|ks| - 1]], tp, vp, fp)
  }

  /** The keys of `subMap(from, to)`: from inclusive, to exclusive. */
  function KeyRange(keys: set<string>, from: string, to: string): (r: set<string>)
    ensures forall k :: k in r <==> k in keys && LessEq(from, k) && Less(k, to)
  {
    set k | k in keys && LessEq(from, k) && Less(k, to)
  }

  /** The bucket id a timestamp is routed to, as a map key. */
  function BucketKey(unit: TimeUnit, timestamp: int64): (r: Result<string, JavaException>)
    ensures r.Failure? <==> !Converts(unit)
    ensures r.Failure? ==> r.error == IllegalArgumentException
    ensures r.Success? ==> r.value == ToHexString(TimeBucket(unit, timestamp, TIME_BUCKET_CONSTANT).value)
  {
    var bucket :- TimeBucket(unit, timestamp, TIME_BUCKET_CONSTANT);
    Success(ToHexString(bucket))
  }

  /** The bucket of a millisecond timestamp; the conversion cannot fail. */
  function MillisId(timestamp: int64): int32 {
    TimeBucket(MILLISECONDS, timestamp, TIME_BUCKET_CONSTANT).value
  }

  /** The first key scanned: one bucket width below the start's bucket, in
      `int` arithmetic. */
  function StartKey(start: int64): string {
    ToHexString(Wrap32(MillisId(start) - TIME_BUCKET_CONSTANT))
  }

  /** The key the scan stops before: the end bucket's hex followed by the
      largest `char`, which bounds every key that extends that hex. */
  function EndKey(end: int64): (r: string)
    ensures forall k: string {:trigger Less(k, r)} ::
      (k == ToHexString(MillisId(end)) ||
       (|k| > |ToHexString(MillisId(end))| && k[..|ToHexString(MillisId(end))|] == ToHexString(MillisId(end)) &&
        k[|ToHexString(MillisId(end))|] < MAX_CHAR)) ==> Less(k, r)
  {
    var hex := ToHexString(MillisId(end));
    var r := hex + [MAX_CHAR];
    forall k: string | k == hex || (|k| > |hex| && k[..|hex|] == hex && k[|hex|] < MAX_CHAR)
      ensures Less(k, r)
    {
      if k == hex {
        assert r[..|hex|] == hex;
        PrefixLess(hex, r);
      } else {
        ExtensionLess(hex, k, MAX_CHAR);
      }
    }
    r
  }

  /** `queryDataPoints` on the buckets' snapshots: the bounds are put in
      order, `subMap` with a start key above the end key throws
      `IllegalArgumentException`, an empty key range falls back to the
      bucket under the start key, and every bucket read goes through the
      inclusive time predicate. */
  ghost function Query(m: map<string, Snap>, startTime: int64, endTime: int64, vp: Option<Between>, fp: bool): Result<seq<DataPoint>, JavaException> {
    var tp := Ordered(startTime, endTime);
    var startKey, endKey := StartKey(tp.startTs), EndKey(tp.endTs);
    if Less(endKey, startKey) then Failure(IllegalArgumentException)
    else Success(Scan(m, tp, startKey, endKey, vp, fp))
  }

  /** The buckets of `subMap(startKey, endKey)` read in key order, or, when
      there are none, the bucket under `startKey` if there is one. */
  ghost function Scan(m: map<string, Snap>, tp: Between, startKey: string, endKey: string, vp: Option<Between>, fp: bool): seq<DataPoint> {
    var range := KeyRange(m.Keys, startKey, endKey);
    if range == {} then
      if startKey in m then BucketRead(m[startKey], Some(tp), vp, fp) else []
    else
      SortedKeysSpec(range);
      ReadAll(m, SortedKeys(range), Some(tp), vp, fp)
  }

  /** A reversed range gives the same answer as the range put right. */
  lemma QuerySymmetric(m: map<string, Snap>, a: int64, b: int64, vp: Option<Between>, fp: bool)
    ensures Query(m, a, b, vp, fp) == Query(m, b, a, vp, fp)
  {
    OrderedSymmetric(a, b);
  }

  /** Every point returned lies between the two bounds, both included,
      passes the value predicate and carries the series' `fp`. */
  lemma QueryBounds(m: map<string, Snap>, a: int64, b: int64, vp: Option<Between>, fp: bool)
    ensures var r := Query(m, a, b, vp, fp);
      r.Success? ==> forall i :: 0 <= i < |r.value| ==>
        (a <= r.value[i].timestamp <= b || b <= r.value[i].timestamp <= a) &&
        Accepts(vp, r.value[i].value) && r.value[i].isFp == fp
  {
  }

  /** A query inside the first bucket of the epoch throws: one width below
      bucket 0 is -4096, whose hex `fffff000` sorts after the end key `0`
      followed by `Character.MAX_VALUE`, so `subMap` refuses the range even
      where the bucket under `0` holds points. */
  lemma FirstBucketQueryThrows(m: map<string, Snap>, a: int64, b: int64, vp: Option<Between>, fp: bool)
    requires 0 <= a < 1000 * 4096 && 0 <= b < 1000 * 4096
    ensures Query(m, a, b, vp, fp) == Failure(IllegalArgumentException)
  {
    var tp := Ordered(a, b);
    FirstBucketKeys(tp.startTs);
    FirstBucketKeys(tp.endTs);
    HexBelowZero();
    assert EndKey(tp.endTs)[0] == '0' && StartKey(tp.startTs)[0] == 'f';
  }

  /** In the first bucket the start key is the hex of -4096 and the end key
      `0` followed by `Character.MAX_VALUE`. */
  lemma FirstBucketKeys(t: int64)
    requires 0 <= t < 1000 * 4096
    ensures StartKey(t) == ToHexString(-4096) && EndKey(t) == "0" + [MAX_CHAR]
  {
    MillisBucket(t);
    assert t / 1000 < 4096;
    assert MillisId(t) == 0;
    NarrowFits(-4096);
    assert ToHexString(0) == "0";
  }

  /** The hex of -4096 starts with `f`. */
  lemma HexBelowZero()
    ensures ToHexString(-4096)[0] == 'f'
  {
    assert Unsigned32(-4096) == 0xffff_f000;
    assert Digits(0xffff_f000, 16) == "fffff000";
  }

  /** Hex keys never contain `Character.MAX_VALUE`, so the start key differs
      from the end key, and when the key range is empty the fallback finds
      no bucket under the start key. */
  lemma FallbackFindsNothing(keys: set<string>, startTime: int64, endTime: int64)
    requires !Less(EndKey(endTime), StartKey(startTime))
    requires KeyRange(keys, StartKey(startTime), EndKey(endTime)) == {}
    ensures StartKey(startTime) !in keys
  {
    var s, e := StartKey(startTime), EndKey(endTime);
    LessTotal(s, e);
  }

  // ---------------------------------------------------------------------
  // Key order and time order

  function Pow16(k: nat): (r: nat)
    ensures r >= 1
  {
    if k == 0 then 1 else 16 * Pow16(k - 1)
  }

  /** A number from 16^k up to 16^(k+1) has k + 1 hex digits. */
  lemma {:induction false} DigitsLength(n: nat, k: nat)
    requires Pow16(k) <= n < 16 * Pow16(k)
    ensures |Digits(n, 16)| == k + 1
  {
    if k > 0 {
      var p := Pow16(k - 1);
      assert 16 * p <= n < 256 * p;
      DigitsLength(n / 16, k - 1);
    }
  }

  /** A number of two or more hex digits is its quotient's digits and
      one more. */
  lemma DigitsStep(n: nat)
    requires n >= 16
    ensures Digits(n, 16) == Digits(n / 16, 16) + [DigitChar(n % 16)]
  {
  }

  lemma DigitsSingle(n: nat)
    requires n < 16
    ensures Digits(n, 16) == [DigitChar(n)]
  {
  }

  /** Two strings that differ only in a last character compare as it does. */
  lemma LastLess(p: string, x: char, y: char)
    requires x < y
    ensures Less(p + [x], p + [y])
  {
    var a, b := p + [x], p + [y];
    assert a[..|p|] == p == b[..|p|];
    SameLengthLess(a, b, |p|);
  }

  lemma DigitCharOrder(d: nat, e: nat)
    requires d < e < 16
    ensures DigitChar(d) < DigitChar(e)
  {
  }

  /** Hex renderings of the same length compare as the numbers do. */
  lemma {:induction false} DigitsOrder(n: nat, m: nat)
    requires n < m && |Digits(n, 16)| == |Digits(m, 16)|
    ensures Less(Digits(n, 16), Digits(m, 16))
    decreases m
  {
    if m < 16 {
      DigitCharOrder(n, m);
      DigitsSingle(n);
      DigitsSingle(m);
    } else {
      DigitsStep(m);
      if n < 16 {
        DigitsSingle(n);
        assert false;
      }
      DigitsStep(n);
      var q, q' := n / 16, m / 16;
      var x, y := DigitChar(n % 16), DigitChar(m % 16);
      if q < q' {
        DigitsOrder(q, q');
        SnocLess(Digits(q, 16), Digits(q', 16), x, y);
      } else {
        DigitCharOrder(n % 16, m % 16);
        LastLess(Digits(q, 16), x, y);
      }
    }
  }

  /** From one bucket width above 16^7 on, an id and the id one width
      below it have eight hex digits. */
  const EIGHT_DIGIT_ID: int := 0x1000_1000

  /** A millisecond timestamp from July 1978 up to January 2038: its
      bucket id is an `int` of eight hex digits, and so is the id one
      width below it. */
  predicate EightDigitMillis(t: int64) {
    1000 * EIGHT_DIGIT_ID <= t < 1000 * TWO_31
  }

  /** Among ids of eight hex digits, `String` order on keys is the order
      of the ids. */
  lemma HexKeyOrder(x: int32, y: int32)
    requires 0x1000_0000 <= x < y
    ensures Less(ToHexString(x), ToHexString(y))
  {
    assert Pow16(7) == 0x1000_0000;
    assert IsInt(y);
    DigitsLength(x, 7);
    DigitsLength(y, 7);
    DigitsOrder(x, y);
  }

  /** A later millisecond timestamp never has an earlier bucket, and the
      bucket id is in whole seconds of bucket width. */
  lemma MillisIdOrder(t: int64, t': int64)
    requires 0 <= t <= t' < 1000 * TWO_31
    ensures MillisId(t) == (t / 1000 / 4096) * 4096 && MillisId(t) <= MillisId(t')
  {
    MillisBucket(t);
    MillisBucket(t');
  }

  /** An eight-digit timestamp has an id of eight hex digits. */
  lemma EightDigitId(t: int64)
    requires EightDigitMillis(t)
    ensures EIGHT_DIGIT_ID <= MillisId(t)
  {
    MillisBucket(t);
    assert t / 1000 >= EIGHT_DIGIT_ID;
  }

  /** The start key is below the key of any later timestamp. */
  lemma StartBelow(s: int64, t: int64)
    requires EightDigitMillis(s) && s <= t < 1000 * TWO_31
    ensures Less(StartKey(s), ToHexString(MillisId(t)))
  {
    EightDigitId(s);
    MillisIdOrder(s, t);
    var below := MillisId(s) - TIME_BUCKET_CONSTANT;
    NarrowFits(below);
    HexKeyOrder(below, MillisId(t));
  }

  /** The key of a timestamp is below the end key of any later one. */
  lemma BelowEnd(t: int64, e: int64)
    requires EightDigitMillis(t) && t <= e < 1000 * TWO_31
    ensures Less(ToHexString(MillisId(t)), EndKey(e))
  {
    var k, hex := ToHexString(MillisId(t)), ToHexString(MillisId(e));
    MillisIdOrder(t, e);
    if MillisId(t) < MillisId(e) {
      EightDigitId(t);
      HexKeyOrder(MillisId(t), MillisId(e));
      assert Less(hex, EndKey(e));
      LessTransitive(k, hex, EndKey(e));
    } else {
      assert k == hex;
    }
  }

  /** A timestamp between two eight-digit bounds is in a bucket whose key
      `subMap` scans: above the start key, below the end key, and the
      start key is not above the end key. */
  lemma KeyInRange(s: int64, e: int64, t: int64)
    requires EightDigitMillis(s) && EightDigitMillis(e) && s <= t <= e
    ensures !Less(EndKey(e), StartKey(s))
    ensures Less(StartKey(s), ToHexString(MillisId(t))) && Less(ToHexString(MillisId(t)), EndKey(e))
  {
    StartBelow(s, t);
    BelowEnd(t, e);
    LessTransitive(StartKey(s), ToHexString(MillisId(t)), EndKey(e));
    LessAsymmetric(StartKey(s), EndKey(e));
  }

  /** `ReadAll` keeps every point of each bucket it reads. */
  lemma {:induction false} ReadAllHas(m: map<string, Snap>, ks: seq<string>, tp: Option<Between>, vp: Option<Between>,
                                      fp: bool, j: nat)
    requires forall i :: 0 <= i < |ks| ==> ks[i] in m
    requires j < |ks|
    ensures forall x :: x in BucketRead(m[ks[j]], tp, vp, fp) ==> x in ReadAll(m, ks, tp, vp, fp)
  {
    var init := ks[..|ks| - 1];
    if j < |init| {
      assert init[j] == ks[j];
      ReadAllHas(m, init, tp, vp, fp, j);
    }
  }

  /** The other direction of `QueryBounds`, for one bucket: when the keys
      are in order and a bucket's key lies in the scanned range, the
      query succeeds and returns every point that bucket yields through
      the predicates. */
  lemma QueryFinds(m: map<string, Snap>, a: int64, b: int64, vp: Option<Between>, fp: bool, k: string)
    requires !Less(EndKey(Ordered(a, b).endTs), StartKey(Ordered(a, b).startTs))
    requires k in m && LessEq(StartKey(Ordered(a, b).startTs), k) && Less(k, EndKey(Ordered(a, b).endTs))
    ensures Query(m, a, b, vp, fp).Success?
    ensures forall x :: x in BucketRead(m[k], Some(Ordered(a, b)), vp, fp) ==> x in Query(m, a, b, vp, fp).value
  {
    var tp := Ordered(a, b);
    var range := KeyRange(m.Keys, StartKey(tp.startTs), EndKey(tp.endTs));
    assert k in range;
    SortedKeysSpec(range);
    var ks := SortedKeys(range);
    var j :| 0 <= j < |ks| && ks[j] == k;
    ReadAllHas(m, ks, Some(tp), vp, fp, j);
  }

  /** Reads one bucket to the end through the predicates and appends what
      it yields, each point stamped with `isFp`; the reader's
      `IOException` ends the loop. */
  method SeriesToDataPoints(points: seq<DataPoint>, bucket: TimeSeriesBucket,
                            tp: Option<Between>, vp: Option<Between>, isFp: bool) returns (r: seq<DataPoint>)
    ensures r == points + BucketRead(Snap(bucket.writer.out, bucket.count), tp, vp, isFp)
  {
    var reader := bucket.GetReader(tp, vp);
    ghost var all := BucketRead(Snap(bucket.writer.out, bucket.count), tp, vp, isFp);
    ghost var rest := all;
    r := points;
    while true
      invariant reader.bits == bucket.writer.out
      invariant reader.timePredicate == tp && reader.valuePredicate == vp
      invariant rest == Drain(reader.state, reader.bits, tp, vp, isFp)
      invariant r + rest == points + all
      decreases Remaining(reader.state)
    {
      ghost var s := reader.state;
      var p := reader.ReadPair();
      ReadStepDrain(s, reader.bits, tp, vp, isFp, p);
      if p.Failure? {
        break;
      }
      ghost var head := if p.value.Some? then [WithFp(p.value.value, isFp)] else [];
      Shift(points + all, r, head, rest, Drain(reader.state, reader.bits, tp, vp, isFp));
      rest := Drain(reader.state, reader.bits, tp, vp, isFp);
      if p.value.Some? {
        r := r + [WithFp(p.value.value, isFp)];
      } else {
        assert r + head == r;
      }
    }
    assert r + [] == r;
  }

  lemma Shift<T>(total: seq<T>, done: seq<T>, head: seq<T>, rest: seq<T>, rest': seq<T>)
    requires total == done + rest && rest == head + rest'
    ensures total == (done + head) + rest'
  {
  }

  /** What `addDataPoint` does to the pairs a series holds under each bucket
      key: the outcome, and the pairs afterwards. An unknown unit changes
      nothing; otherwise the point's key is present afterwards, holding the
      point appended unless it is older than the key's last one. */
  function Added(c: map<string, seq<Pair>>, unit: TimeUnit, timestamp: int64, value: int64)
    : (Outcome<JavaException>, map<string, seq<Pair>>)
  {
    var bucketKey := BucketKey(unit, timestamp);
    if bucketKey.Failure? then (Fail(bucketKey.error), c)
    else
      var key := bucketKey.value;
      var before := if key in c then c[key] else [];
      if timestamp < LastTimestamp(before) then (Fail(RejectException), c[key := before])
      else (Pass, c[key := before + [Pair(timestamp, value)]])
  }

  /** An unknown unit changes nothing; otherwise the point's key is
      present afterwards, no other key moves, and the key's pairs gain the
      point as their last one unless it is older than their last one, in
      which case they stay as they were. */
  lemma AddedSpec(c: map<string, seq<Pair>>, unit: TimeUnit, timestamp: int64, value: int64)
    ensures var (r, c') := Added(c, unit, timestamp, value);
      var bucketKey := BucketKey(unit, timestamp);
      (!Converts(unit) ==> r == Fail(IllegalArgumentException) && c' == c) &&
      (Converts(unit) ==>
        var key := bucketKey.value;
        var before := if key in c then c[key] else [];
        c'.Keys == c.Keys + {key} &&
        (forall k :: k in c && k != key ==> c'[k] == c[k]) &&
        (timestamp < LastTimestamp(before) ==> r == Fail(RejectException) && c'[key] == before) &&
        (timestamp >= LastTimestamp(before) ==> r == Pass && c'[key] == before + [Pair(timestamp, value)]))
  {
  }

  /** The cases of `addDataPoint` once the unit is known to convert. */
  lemma AddedCases(c: map<string, seq<Pair>>, c': map<string, seq<Pair>>, r: Outcome<JavaException>,
                  unit: TimeUnit, timestamp: int64, value: int64)
    requires Converts(unit)
    requires var key := BucketKey(unit, timestamp).value;
      var before := if key in c then c[key] else [];
      (timestamp < LastTimestamp(before) ==> r == Fail(RejectException) && c' == c[key := before]) &&
      (timestamp >= LastTimestamp(before) ==> r == Pass && c' == c[key := before + [Pair(timestamp, value)]])
    ensures (r, c') == Added(c, unit, timestamp, value)
  {
  }

  /** Writing a key twice keeps the second value. */
  lemma UpdateOverUpdate<K, V>(m: map<K, V>, m': map<K, V>, k: K, v: V)
    requires m' == m || (k in m' && m' == m[k := m'[k]])
    ensures m'[k := v] == m[k := v]
  {
  }

  /** A series as a value: whether it holds `double`s, and per bucket key
      the bucket's header and the pairs appended to it. */
  datatype SeriesState = SeriesState(fp: bool, headers: map<string, int64>, contents: map<string, seq<Pair>>)

  /** What a reader of each bucket of a series state would see: the bits
      the compressor wrote from the header on, and the count in `int`
      arithmetic. */
  function SnapsOf(st: SeriesState): (m: map<string, Snap>)
    ensures m.Keys == st.contents.Keys
  {
    map k | k in st.contents ::
      Snap(Encode(NewEncoder(if k in st.headers then st.headers[k] else 0), st.contents[k]).out, Wrap32(|st.contents[k]|))
  }

  /** `addDataPoint` on a series state: the pairs change as `Added` says,
      and a key met for the first time gets a bucket whose header is the
      point's timestamp, kept even when the point is refused. */
  function AddedState(st: SeriesState, unit: TimeUnit, timestamp: int64, value: int64): (Outcome<JavaException>, SeriesState) {
    var (r, c) := Added(st.contents, unit, timestamp, value);
    var bucketKey := BucketKey(unit, timestamp);
    var headers := if bucketKey.Success? && bucketKey.value !in st.contents then st.headers[bucketKey.value := timestamp] else st.headers;
    (r, SeriesState(st.fp, headers, c))
  }

  /** The header of each bucket in a bucket map. */
  function Headers(bucketMap: map<string, TimeSeriesBucket>): (h: map<string, int64>)
    ensures h.Keys == bucketMap.Keys
  {
    map k | k in bucketMap :: bucketMap[k].header
  }

  lemma HeadersPut(bucketMap: map<string, TimeSeriesBucket>, key: string, b: TimeSeriesBucket)
    ensures Headers(bucketMap[key := b]) == Headers(bucketMap)[key := b.header]
  {
  }

  /** A header for every key with pairs and none for any other. */
  predicate Headed(st: SeriesState) {
    st.headers.Keys == st.contents.Keys
  }

  /** A write keeps every key headed, never moves an existing header and
      never changes the kind. */
  lemma AddedStateHeaded(st: SeriesState, unit: TimeUnit, timestamp: int64, value: int64)
    requires Headed(st)
    ensures var st' := AddedState(st, unit, timestamp, value).1;
      Headed(st') && st'.fp == st.fp &&
      forall k :: k in st.headers ==> k in st'.headers && st'.headers[k] == st.headers[k]
  {
    AddedSpec(st.contents, unit, timestamp, value);
  }

  /** A millisecond timestamp whose seconds fit an `int`, the range in
      which bucket ids do not wrap. */
  predicate Millis(t: int64) {
    0 <= t < 1000 * TWO_31
  }

  /** The bucket id of a millisecond timestamp, as arithmetic. */
  function MillisBucketId(t: int64): int32
    requires Millis(t)
  {
    t / 1000 / 4096 * 4096
  }

  lemma MillisIdIs(t: int64)
    requires Millis(t)
    ensures MillisId(t) == MillisBucketId(t)
  {
    MillisBucket(t);
  }

  /** The bucket under `key` after writes in milliseconds: its header and
      every pair it holds are timestamps of that bucket, the pairs are the
      ones the bucket admitted, and none is before the header. */
  predicate RoutedBucket(key: string, header: int64, pairs: seq<Pair>) {
    Millis(header) && key == ToHexString(MillisBucketId(header)) && pairs != [] && Admitted(pairs) &&
    forall i :: 0 <= i < |pairs| ==>
      Millis(pairs[i].timestamp) && key == ToHexString(MillisBucketId(pairs[i].timestamp)) && header <= pairs[i].timestamp
  }

  /** Every bucket of a series is routed. */
  predicate Routed(st: SeriesState) {
    Headed(st) && forall k :: k in st.contents ==> RoutedBucket(k, st.headers[k], st.contents[k])
  }

  /** A millisecond write keeps a series routed, whether it is appended
      or refused. */
  lemma AddedStateRouted(st: SeriesState, timestamp: int64, value: int64)
    requires Routed(st) && Millis(timestamp)
    ensures Routed(AddedState(st, MILLISECONDS, timestamp, value).1)
  {
    var key := ToHexString(MillisId(timestamp));
    MillisIdIs(timestamp);
    var before := if key in st.contents then st.contents[key] else [];
    var header := if key in st.contents then st.headers[key] else timestamp;
    var after := if timestamp < LastTimestamp(before) then before else before + [Pair(timestamp, value)];
    AddedMillis(st, timestamp, value);
    if after != before {
      AppendRouted(key, header, before, Pair(timestamp, value));
    }
    RoutedPut(st, key, header, after);
  }

  /** A millisecond write on a headed series puts the bucket under the
      point's key back with its header, or the point's timestamp for a new
      key, and its pairs with the point appended unless it is older. */
  lemma AddedMillis(st: SeriesState, timestamp: int64, value: int64)
    requires Headed(st)
    ensures var key := ToHexString(MillisId(timestamp));
      var before := if key in st.contents then st.contents[key] else [];
      var header := if key in st.contents then st.headers[key] else timestamp;
      var after := if timestamp < LastTimestamp(before) then before else before + [Pair(timestamp, value)];
      AddedState(st, MILLISECONDS, timestamp, value).1 == SeriesState(st.fp, st.headers[key := header], st.contents[key := after])
  {
    var key := ToHexString(MillisId(timestamp));
    assert BucketKey(MILLISECONDS, timestamp) == Success(key);
  }

  /** Putting a routed bucket under its key, with the header it already
      has if any, keeps a series routed. */
  lemma RoutedPut(st: SeriesState, key: string, header: int64, pairs: seq<Pair>)
    requires Routed(st) && RoutedBucket(key, header, pairs)
    requires key in st.headers ==> st.headers[key] == header
    ensures Routed(SeriesState(st.fp, st.headers[key := header], st.contents[key := pairs]))
  {
    var st' := SeriesState(st.fp, st.headers[key := header], st.contents[key := pairs]);
    forall k | k in st'.contents
      ensures RoutedBucket(k, st'.headers[k], st'.contents[k])
    {
      if k != key {
        assert st'.headers[k] == st.headers[k] && st'.contents[k] == st.contents[k];
        assert RoutedBucket(k, st.headers[k], st.contents[k]);
      }
    }
  }

  /** An admitted millisecond pair of the bucket appended to it keeps it
      routed; a new bucket is headed by that pair. */
  lemma AppendRouted(key: string, header: int64, before: seq<Pair>, p: Pair)
    requires Millis(p.timestamp) && key == ToHexString(MillisBucketId(p.timestamp)) && p.timestamp >= LastTimestamp(before)
    requires if before == [] then header == p.timestamp else RoutedBucket(key, header, before)
    ensures RoutedBucket(key, header, before + [p])
  {
    var after := before + [p];
    assert after[..|before|] == before;
    assert forall i :: 0 <= i < |before| ==> after[i] == before[i];
    if before != [] {
      assert header <= before[|before| - 1].timestamp;
    }
  }

  /** The pairs of a routed bucket are in its header's window, so the
      compressor can encode them. */
  lemma RoutedInSpan(key: string, header: int64, pairs: seq<Pair>)
    requires RoutedBucket(key, header, pairs)
    ensures InSpan(header, pairs)
  {
    AdmittedOrdered(pairs);
    Pow2Constants();
    forall i | 0 <= i < |pairs|
      ensures pairs[i].timestamp < header + Pow2(FIRST_DELTA_BITS)
    {
      var t := pairs[i].timestamp;
      HexInjective(MillisBucketId(header), MillisBucketId(t));
      assert t / 1000 / 4096 == header / 1000 / 4096;
    }
  }

  /** `Selected` keeps every pair both predicates accept. */
  lemma {:induction false} SelectedHas(pairs: seq<Pair>, tp: Option<Between>, vp: Option<Between>, fp: bool, p: Pair)
    requires p in pairs && Accepts(tp, p.timestamp) && Accepts(vp, p.value)
    ensures WithFp(Point(p.timestamp, p.value), fp) in Selected(pairs, tp, vp, fp)
  {
    if pairs[0] != p {
      SelectedHas(pairs[1..], tp, vp, fp, p);
    }
  }

  /** A reader of a routed bucket yields every pair it holds that the
      predicates accept. */
  lemma PairRead(key: string, header: int64, pairs: seq<Pair>, tp: Option<Between>, vp: Option<Between>, fp: bool, p: Pair)
    requires RoutedBucket(key, header, pairs) && |pairs| <= INT_MAX
    requires p in pairs && Accepts(tp, p.timestamp) && Accepts(vp, p.value)
    ensures WithFp(Point(p.timestamp, p.value), fp) in
      BucketRead(Snap(Encode(NewEncoder(header), pairs).out, Wrap32(|pairs|)), tp, vp, fp)
  {
    RoutedInSpan(key, header, pairs);
    NarrowFits(|pairs|);
    ReaderReturnsAppended(header, pairs, Encode(NewEncoder(header), pairs).out, tp, vp, fp);
    SelectedHas(pairs, tp, vp, fp, p);
  }

  /** The other direction of `QueryBounds` for a series written in
      milliseconds: a stored pair between the bounds whose value passes
      the predicate is returned, once both bounds are eight-digit
      timestamps and its bucket holds fewer than 2^31 pairs. */
  lemma QueryFindsStored(st: SeriesState, a: int64, b: int64, vp: Option<Between>, k: string, p: Pair)
    requires Routed(st) && EightDigitMillis(a) && EightDigitMillis(b)
    requires k in st.contents && p in st.contents[k] && |st.contents[k]| <= INT_MAX
    requires (a <= p.timestamp <= b || b <= p.timestamp <= a) && Accepts(vp, p.value)
    ensures Query(SnapsOf(st), a, b, vp, st.fp).Success?
    ensures WithFp(Point(p.timestamp, p.value), st.fp) in Query(SnapsOf(st), a, b, vp, st.fp).value
  {
    var tp := Ordered(a, b);
    var m := SnapsOf(st);
    var pairs := st.contents[k];
    assert RoutedBucket(k, st.headers[k], pairs);
    var j :| 0 <= j < |pairs| && pairs[j] == p;
    MillisIdIs(p.timestamp);
    assert k == ToHexString(MillisId(p.timestamp));
    KeyInRange(tp.startTs, tp.endTs, p.timestamp);
    QueryFinds(m, a, b, vp, st.fp, k);
    assert m[k] == Snap(Encode(NewEncoder(st.headers[k]), pairs).out, Wrap32(|pairs|));
    PairRead(k, st.headers[k], pairs, Some(tp), vp, st.fp, p);
  }

  /** `queryDataPoints` of a series held as a value: the steps of
      `TimeSeries.QueryDataPoints` on what its buckets' readers see. */
  method QueryState(st: SeriesState, startTime: int64, endTime: int64, valuePredicate: Option<Between>)
    returns (r: Result<seq<DataPoint>, JavaException>)
    ensures r == Query(SnapsOf(st), startTime, endTime, valuePredicate, st.fp)
  {
    var m := SnapsOf(st);
    var tp := Ordered(startTime, endTime);
    var startKey, endKey := StartKey(tp.startTs), EndKey(tp.endTs);
    if Less(endKey, startKey) {
      return Failure(IllegalArgumentException);
    }
    var range := KeyRange(m.Keys, startKey, endKey);
    var keys := OrderedKeys(range);
    SortedKeysSpec(range);
    if keys == [] {
      r := Success(if startKey in m then BucketRead(m[startKey], Some(tp), valuePredicate, st.fp) else []);
    } else {
      r := Success(ReadAll(m, keys, Some(tp), valuePredicate, st.fp));
    }
  }

  class TimeSeries {
    const fp: bool
    var bucketMap: map<string, TimeSeriesBucket>
    ghost var contents: map<string, seq<Pair>>     // the pairs appended under each key

    /** Each key has its own bucket, every bucket is consistent and
        belongs to this series, and `contents` holds each bucket's pairs. */
    ghost predicate Valid()
      reads this, bucketMap.Values
    {
      contents.Keys == bucketMap.Keys &&
      (forall k, k' :: k in bucketMap && k' in bucketMap && k != k' ==> bucketMap[k] != bucketMap[k']) &&
      (forall k :: k in bucketMap ==> bucketMap[k].Valid() && bucketMap[k].points == contents[k] && bucketMap[k].owner == this)
    }

    /** What a reader of each bucket would see now. */
    ghost function Snaps(): map<string, Snap>
      reads this, bucketMap.Values
    {
      map k | k in bucketMap :: Snap(bucketMap[k].writer.out, bucketMap[k].count)
    }

    /** The series as a value. */
    ghost function State(): (st: SeriesState)
      reads this
      ensures st.fp == fp && st.contents == contents && st.headers.Keys == bucketMap.Keys
    {
      SeriesState(fp, Headers(bucketMap), contents)
    }

    /** Readers see what the series' value says they see. */
    lemma SnapsAgree()
      requires Valid()
      ensures Snaps() == SnapsOf(State())
    {
    }

    /** What `AddDataPoint` promises about the pairs and the buckets is
        the value-level write: the series' value after the call is what
        `AddedState` gives for its value before. */
    twostate lemma AddedAgrees(r: Outcome<JavaException>, unit: TimeUnit, timestamp: int64, value: int64)
      requires old(contents.Keys == bucketMap.Keys)
      requires (r, contents) == Added(old(contents), unit, timestamp, value)
      requires !Converts(unit) ==> bucketMap == old(bucketMap)
      requires Converts(unit) ==>
        var key := BucketKey(unit, timestamp).value;
        key in bucketMap &&
        (key in old(bucketMap) ==> bucketMap == old(bucketMap)) &&
        (key !in old(bucketMap) ==> bucketMap[key].header == timestamp && bucketMap == old(bucketMap)[key := bucketMap[key]])
      ensures (r, State()) == AddedState(old(State()), unit, timestamp, value)
    {
      if Converts(unit) {
        var key := BucketKey(unit, timestamp).value;
        if key !in old(bucketMap) {
          HeadersPut(old(bucketMap), key, bucketMap[key]);
        }
      }
    }

    /** `fp` is fixed here; no method changes it. */
    constructor (fp: bool)
      ensures this.fp == fp && bucketMap == map[] && contents == map[] && Valid()
    {
      this.fp := fp;
      bucketMap := map[];
      contents := map[];
    }

    /** `isFp`. */
    function IsFp(): (b: bool)
      ensures b == fp
    {
      fp
    }

    /** The bounds after the three-XOR swap of `queryDataPoints`. */
    static method OrderBounds(a: int64, b: int64) returns (p: Between)
      ensures p == Ordered(a, b)
    {
      var s, e := a, b;
      if s > e {
        XorSwap(a, b);
        s := Xor(s, e);
        e := Xor(e, s);
        s := Xor(s, e);
      }
      p := Between(s, e);
    }

    /** The buckets under `keys`, each read to the end in turn. */
    method ReadBuckets(keys: seq<string>, tp: Option<Between>, vp: Option<Between>) returns (points: seq<DataPoint>)
      requires forall i :: 0 <= i < |keys| ==> keys[i] in bucketMap
      ensures forall i :: 0 <= i < |keys| ==> keys[i] in Snaps()
      ensures points == ReadAll(Snaps(), keys, tp, vp, fp)
    {
      ghost var m := Snaps();
      points := [];
      var i := 0;
      while i < |keys|
        invariant 0 <= i <= |keys|
        invariant points == ReadAll(m, keys[..i], tp, vp, fp)
      {
        assert keys[..i + 1][..i] == keys[..i];
        points := SeriesToDataPoints(points, bucketMap[keys[i]], tp, vp, fp);
        i := i + 1;
      }
      assert keys[..|keys|] == keys;
    }

    /** The reads of `queryDataPoints` once the keys are known. */
    method ScanBuckets(tp: Between, startKey: string, endKey: string, vp: Option<Between>) returns (points: seq<DataPoint>)
      ensures points == Scan(Snaps(), tp, startKey, endKey, vp, fp)
    {
      ghost var m := Snaps();
      var range := KeyRange(bucketMap.Keys, startKey, endKey);
      assert range == KeyRange(m.Keys, startKey, endKey);
      var keys := OrderedKeys(range);
      SortedKeysSpec(range);
      if keys == [] {
        points := [];
        if startKey in bucketMap {
          points := SeriesToDataPoints(points, bucketMap[startKey], Some(tp), vp, fp);
        }
      } else {
        points := ReadBuckets(keys, Some(tp), vp);
      }
    }

    /** `queryDataPoints`: the three-XOR swap puts the bounds in order, the
        keys are the hex of the buckets one width below the start and of
        the end, and `subMap` refuses a start key above the end key. */
    method QueryDataPoints(startTime: int64, endTime: int64, valuePredicate: Option<Between>)
      returns (r: Result<seq<DataPoint>, JavaException>)
      ensures r == Query(Snaps(), startTime, endTime, valuePredicate, fp)
    {
      var tp := OrderBounds(startTime, endTime);
      var startKey, endKey := StartKey(tp.startTs), EndKey(tp.endTs);
      if Less(endKey, startKey) {
        return Failure(IllegalArgumentException);
      }
      var points := ScanBuckets(tp, startKey, endKey, valuePredicate);
      return Success(points);
    }

    /** Both `addDataPoint` overloads (a `double` arrives as its bits): the
        point goes to the bucket of its window, which is created with the
        point's timestamp as header when the key is new. A refusal by the
        bucket propagates unchanged; a new bucket stays in the map even
        then. An unknown unit throws before anything changes. */
    method AddDataPoint(unit: TimeUnit, timestamp: int64, value: int64) returns (r: Outcome<JavaException>)
      requires Valid()
      modifies this, bucketMap.Values
      ensures Valid()
      ensures (r, contents) == Added(old(contents), unit, timestamp, value)
      ensures !Converts(unit) ==> bucketMap == old(bucketMap)
      ensures Converts(unit) ==>
        var key := BucketKey(unit, timestamp).value;
        key in bucketMap &&
        (key in old(bucketMap) ==> bucketMap == old(bucketMap)) &&
        (key !in old(bucketMap) ==> fresh(bucketMap[key]) && bucketMap[key].header == timestamp &&
                                    bucketMap == old(bucketMap)[key := bucketMap[key]])
    {
      var bucketKey := BucketKey(unit, timestamp);
      if bucketKey.Failure? {
        return Fail(bucketKey.error);
      }
      var key := bucketKey.value;
      var b := GetOrCreate(key, timestamp);
      ghost var c0 := contents;
      r := AppendTo(key, b, timestamp, value);
      UpdateOverUpdate(old(contents), c0, key, contents[key]);
      AddedCases(old(contents), contents, r, unit, timestamp, value);

    }

    /** The bucket's own `addDataPoint`, with `contents` following it. */
    method AppendTo(key: string, b: TimeSeriesBucket, timestamp: int64, value: int64) returns (r: Outcome<JavaException>)
      requires Valid() && key in bucketMap && b == bucketMap[key]
      modifies this, b
      ensures Valid() && bucketMap == old(bucketMap)
      ensures timestamp < LastTimestamp(old(contents)[key]) ==>
        r == Fail(RejectException) && contents == old(contents)
      ensures timestamp >= LastTimestamp(old(contents)[key]) ==>
        r == Pass && contents == old(contents)[key := old(contents)[key] + [Pair(timestamp, value)]]
    {
      assert b.Valid() && b.points == contents[key];
      r := b.AddDataPoint(timestamp, value);
      contents := contents[key := b.points];
      forall k | k in bucketMap && k != key
        ensures bucketMap[k].Valid() && bucketMap[k].points == contents[k]
      {
        assert bucketMap[k] != b;
      }
      if r != Pass {
        assert contents == old(contents);
      }
    }

    /** The bucket under `key`, created with `timestamp` as its header and
        put in the map when there is none. */
    method GetOrCreate(key: string, timestamp: int64) returns (b: TimeSeriesBucket)
      requires Valid()
      modifies this
      ensures Valid() && key in bucketMap && b == bucketMap[key]
      ensures key in old(bucketMap) ==> bucketMap == old(bucketMap) && contents == old(contents)
      ensures key !in old(bucketMap) ==>
        fresh(b) && b.header == timestamp && b.points == [] && b.lastTs == 0 &&
        bucketMap == old(bucketMap)[key := b] && contents == old(contents)[key := []]
    {
      if key in bucketMap {
        b := bucketMap[key];
      } else {
        b := new TimeSeriesBucket(timestamp, this);
        bucketMap := bucketMap[key := b];
        contents := contents[key := []];
      }
    }
  }
}
