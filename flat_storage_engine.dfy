/** The Gorilla engine of the `sidewinder-core` storage package: one flat
    sorted map from a row key, the series name, `_` and the hex bucket id,
    to a series that is a compressor over its own buffer. The database name
    and the tags play no part, and the series' count is never raised, so
    every reader it hands out is told there are no pairs. */
module FlatEngine {
  import opened Wrappers
  import opened JavaInt
  import opened JavaString
  import opened TimeUtils
  import opened GorillaReader
  import opened GorillaWriter
  import Series
  import GorillaEngine

  // ---------------------------------------------------------------------
  // The series

  /** What the inner `TimeSeries` holds: its compressor and its count. */
  datatype Held = Held(writer: Encoder, count: int32)

  /** `new TimeSeries(headerTimestamp)`. */
  function NewHeld(headerTimestamp: int64): Held {
    Held(NewEncoder(headerTimestamp), 0)
  }

  /** `addDatapoint`, either overload: one `addValue`; `count` stays. */
  function Appended(c: Held, timestamp: int64, value: int64): Held {
    c.(writer := AddValue(c.writer, Pair(timestamp, value)))
  }

  /** A series holds `pairs` under `header`: its compressor wrote them
      after the header, and its count is still 0. */
  predicate Holds(c: Held, header: int64, pairs: seq<Pair>) {
    c.writer == Encode(NewEncoder(header), pairs) && c.count == 0
  }

  /** Each `addDatapoint` appends one pair to what the series holds and
      leaves the count at 0. */
  lemma AppendedHolds(c: Held, header: int64, pairs: seq<Pair>, timestamp: int64, value: int64)
    requires Holds(c, header, pairs)
    ensures Holds(Appended(c, timestamp, value), header, pairs + [Pair(timestamp, value)])
  {
    EncodeSnoc(NewEncoder(header), pairs, Pair(timestamp, value));
  }

  /** A reader told there are no pairs returns `null` on its first
      `readPair`, whatever the buffer holds. */
  lemma ZeroCountReadsNothing(c: Held, bits: seq<bool>)
    requires c.count == 0
    ensures Emit(Advance(Start(bits, 0, c.count), bits)) == None
  {
    ExhaustedReadsNothing(Start(bits, 0, c.count), bits);
  }

  /** The inner `TimeSeries`. */
  class TimeSeries {
    var writer: Encoder
    var count: int32

    function Value(): Held
      reads this
    {
      Held(writer, count)
    }

    constructor (headerTimestamp: int64)
      ensures Value() == NewHeld(headerTimestamp)
    {
      writer := NewEncoder(headerTimestamp);
      count := 0;
    }

    /** `addDatapoint`, either overload; a `double` arrives as its bits. */
    method AddDatapoint(timestamp: int64, value: int64)
      modifies this
      ensures Value() == Appended(old(Value()), timestamp, value)
    {
      writer := AddValue(writer, Pair(timestamp, value));
    }

    /** `getReader`: the buffer rewound and the count taken now. */
    method GetReader() returns (reader: Reader)
      ensures fresh(reader) && reader.input.bits == writer.out
      ensures reader.State() == Start(writer.out, 0, count)
    {
      reader := GorillaEngine.NewReader(writer.out, count);
    }
  }

  // ---------------------------------------------------------------------
  // Row keys

  /** The row key of a series name and a bucket id. */
  function RowKeyOf(seriesName: string, bucket: int32): string {
    seriesName + "_" + ToHexString(bucket)
  }

  /** Hex digits never include `_`, so a row key names one series and one
      bucket: the last `_` splits it. */
  lemma RowKeyInjective(n1: string, b1: int32, n2: string, b2: int32)
    requires RowKeyOf(n1, b1) == RowKeyOf(n2, b2)
    ensures n1 == n2 && b1 == b2
  {
    var k := RowKeyOf(n1, b1);
    if |n1| < |n2| {
      HexAfterName(n1, b1, |n2|);
      assert false;
    } else if |n2| < |n1| {
      HexAfterName(n2, b2, |n1|);
      assert false;
    } else {
      assert n1 == k[..|n1|] == n2;
      assert ToHexString(b1) == k[|n1| + 1..] == ToHexString(b2);
      HexInjective(b1, b2);
    }
  }

  /** After the name and the `_`, a row key holds only hex digits. */
  lemma HexAfterName(n: string, b: int32, i: nat)
    requires |n| < i < |RowKeyOf(n, b)|
    ensures RowKeyOf(n, b)[i] != '_'
  {
    assert RowKeyOf(n, b)[i] == ToHexString(b)[i - |n| - 1];
    assert HexValue(ToHexString(b)[i - |n| - 1]) >= 0;
  }

  /** The row key of a write: an unknown unit throws. */
  function RowKey(seriesName: string, unit: TimeUnit, timestamp: int64): (r: Result<string, JavaException>)
    ensures r.Failure? ==> r.error == IllegalArgumentException
  {
    var bucket :- TimeBucket(unit, timestamp, Series.TIME_BUCKET_CONSTANT);
    Success(RowKeyOf(seriesName, bucket))
  }

  // ---------------------------------------------------------------------
  // The engine on values

  /** `getOrCreateTimeSeries` and `addDatapoint`: a missing series is
      created with the timestamp as its header. */
  function Wrote(m: map<string, Held>, seriesName: string, unit: TimeUnit, timestamp: int64, value: int64)
    : (Outcome<JavaException>, map<string, Held>)
  {
    match RowKey(seriesName, unit, timestamp)
    case Failure(e) => (Fail(e), m)
    case Success(key) =>
      var before := if key in m then m[key] else NewHeld(timestamp);
      (Pass, m[key := Appended(before, timestamp, value)])
  }

  /** An unknown unit changes nothing; otherwise the write touches the
      series of its row key alone: an existing one gets the pair after the
      ones it holds, a new one holds just this pair under its timestamp. */
  lemma WroteSpec(m: map<string, Held>, seriesName: string, unit: TimeUnit, timestamp: int64, value: int64,
                  header: int64, pairs: seq<Pair>)
    ensures var (r, m') := Wrote(m, seriesName, unit, timestamp, value);
      var key := RowKey(seriesName, unit, timestamp);
      (r.Fail? <==> !Converts(unit)) &&
      (key.Failure? ==> r == Fail(IllegalArgumentException) && m' == m) &&
      (key.Success? ==>
        m'.Keys == m.Keys + {key.value} &&
        (forall k :: k in m && k != key.value ==> m'[k] == m[k]) &&
        (key.value in m && Holds(m[key.value], header, pairs) ==>
           Holds(m'[key.value], header, pairs + [Pair(timestamp, value)])) &&
        (key.value !in m ==> Holds(m'[key.value], timestamp, [Pair(timestamp, value)])))
  {
    var key := RowKey(seriesName, unit, timestamp);
    if key.Success? {
      if key.value in m && Holds(m[key.value], header, pairs) {
        AppendedHolds(m[key.value], header, pairs, timestamp, value);
      }
      AppendedHolds(NewHeld(timestamp), timestamp, [], timestamp, value);
      assert [] + [Pair(timestamp, value)] == [Pair(timestamp, value)];
    }
  }

  /** Every series' count is 0. */
  predicate CountsZero(m: map<string, Held>) {
    forall k :: k in m ==> m[k].count == 0
  }

  /** No write raises a count, so every reader of every series this engine
      hands out reads nothing. */
  lemma WroteKeepsCountsZero(m: map<string, Held>, seriesName: string, unit: TimeUnit, timestamp: int64, value: int64)
    requires CountsZero(m)
    ensures CountsZero(Wrote(m, seriesName, unit, timestamp, value).1)
  {
  }

  class GorillaStorageEngine {
    var seriesMap: map<string, Held>

    /** `configure`: no series. */
    constructor ()
      ensures seriesMap == map[] && CountsZero(seriesMap)
    {
      seriesMap := map[];
    }

    /** `getOrCreateTimeSeries`: the series under the row key, created with
        the timestamp as header when missing; the database name and the
        tags are not used. */
    method GetOrCreateTimeSeries(db: string, seriesName: string, tags: seq<string>, unit: TimeUnit, timestamp: int64)
      returns (r: Result<string, JavaException>)
      modifies this
      ensures r == RowKey(seriesName, unit, timestamp)
      ensures r.Failure? ==> seriesMap == old(seriesMap)
      ensures r.Success? ==>
        seriesMap == old(seriesMap)[r.value := if r.value in old(seriesMap) then old(seriesMap)[r.value] else NewHeld(timestamp)]
    {
      r := RowKey(seriesName, unit, timestamp);
      if r.Success? && r.value !in seriesMap {
        seriesMap := seriesMap[r.value := NewHeld(timestamp)];
      }
    }

    /** Both `writeSeries` overloads: they differ only in how the value
        reaches the compressor, and a `double` arrives here as its bits. */
    method WriteSeries(db: string, seriesName: string, tags: seq<string>, unit: TimeUnit, timestamp: int64, value: int64)
      returns (r: Outcome<JavaException>)
      modifies this
      ensures (r, seriesMap) == Wrote(old(seriesMap), seriesName, unit, timestamp, value)
      ensures old(CountsZero(seriesMap)) ==> CountsZero(seriesMap)
    {
      var key := GetOrCreateTimeSeries(db, seriesName, tags, unit, timestamp);
      if key.Failure? {
        return Fail(key.error);
      }
      ghost var before := if key.value in old(seriesMap) then old(seriesMap)[key.value] else NewHeld(timestamp);
      assert seriesMap[key.value] == before;
      seriesMap := seriesMap[key.value := Appended(seriesMap[key.value], timestamp, value)];
      assert seriesMap == old(seriesMap)[key.value := Appended(before, timestamp, value)];
      r := Pass;
      if CountsZero(old(seriesMap)) {
        WroteKeepsCountsZero(old(seriesMap), seriesName, unit, timestamp, value);
      }
    }

    /** `getDatabases`: not implemented, `null`. */
    method GetDatabases() returns (r: Option<set<string>>)
      ensures r == None
    {
      r := None;
    }

    /** `getSeries`: not implemented, `null`. */
    method GetSeries(db: string) returns (r: Option<set<string>>)
      ensures r == None
    {
      r := None;
    }

    /** `checkIfExists`: not implemented, always `false`. */
    method CheckIfExists(db: string) returns (b: bool)
      ensures !b
    {
      b := false;
    }

    /** `deleteAllData` and `truncateDatabase`: not implemented; although
        free to reset the engine, neither changes the series it holds. */
    method DeleteAllData()
      modifies this
      ensures seriesMap == old(seriesMap)
    {
    }

    method TruncateDatabase(db: string)
      modifies this
      ensures seriesMap == old(seriesMap)
    {
    }
  }
}
