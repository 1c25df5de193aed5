/** `TimeSeriesBucket`: an append-only Gorilla-compressed run of points that
    refuses a timestamp older than the last one, and the reader it hands
    out, which works on a snapshot of the compressed bits and of the count.

    The bucket's writer is the compressor of `GorillaWriter`; the reader
    decodes with `GorillaReader`'s decoder, skips a pair that a predicate
    refuses and throws `IOException` once the snapshot's count is used up. */
module Buckets {
  import opened Wrappers
  import opened JavaInt
  import opened GorillaReader
  import opened GorillaWriter
  import opened Predicates
  import opened DataPoints

  // ---------------------------------------------------------------------
  // What a reader returns

  /** A decoded pair as the reader hands it out: `null` at the end of the
      stream or when the time predicate refuses its timestamp or the value
      predicate its value. */
  function Filter(o: Option<Pair>, tp: Option<Between>, vp: Option<Between>): (r: Option<DataPoint>)
    ensures r.Some? <==> o.Some? && Accepts(tp, o.value.timestamp) && Accepts(vp, o.value.value)
    ensures r.Some? ==> r.value == Point(o.value.timestamp, o.value.value)
  {
    match o
    case None => None
    case Some(q) =>
      if Accepts(tp, q.timestamp) && Accepts(vp, q.value) then Some(Point(q.timestamp, q.value)) else None
  }

  /** How many more pairs the snapshot holds. */
  function Remaining(s: Decoder): nat {
    if s.counter < s.pairCount then s.pairCount - s.counter else 0
  }

  /** One `readPair`: `IOException` once the snapshot's count is used up,
      else the next pair through the predicates. */
  function ReadStep(s: Decoder, bits: seq<bool>, tp: Option<Between>, vp: Option<Between>): Result<Option<DataPoint>, JavaException> {
    if Remaining(s) == 0 then Failure(IOException) else Success(Filter(Emit(Advance(s, bits)), tp, vp))
  }

  /** The points `seriesToDataPoints` keeps from a run of `readPair`
      results: the non-null ones, in order, each stamped with `fp`. */
  function Collect(os: seq<Option<Pair>>, tp: Option<Between>, vp: Option<Between>, fp: bool): (r: seq<DataPoint>)
    ensures |r| <= |os|
    ensures forall i :: 0 <= i < |r| ==>
      r[i].isFp == fp && Accepts(tp, r[i].timestamp) && Accepts(vp, r[i].value) &&
      r[i].seriesName.None? && r[i].tags.None?
  {
    if os == [] then []
    else
      var rest := Collect(os[1..], tp, vp, fp);
      match Filter(os[0], tp, vp)
      case None => rest
      case Some(p) => [WithFp(p, fp)] + rest
  }

  /** Everything a fresh reader over a snapshot yields before it throws. */
  function Drain(s: Decoder, bits: seq<bool>, tp: Option<Between>, vp: Option<Between>, fp: bool): seq<DataPoint> {
    Collect(DecodePairs(s, bits, Remaining(s)), tp, vp, fp)
  }

  /** The results of one read, as `seriesToDataPoints` keeps them. */
  function Yielded(o: Option<Pair>, tp: Option<Between>, vp: Option<Between>, fp: bool): seq<DataPoint> {
    match Filter(o, tp, vp)
    case None => []
    case Some(p) => [WithFp(p, fp)]
  }

  lemma CollectCons(o: Option<Pair>, os: seq<Option<Pair>>, tp: Option<Between>, vp: Option<Between>, fp: bool)
    ensures Collect([o] + os, tp, vp, fp) == Yielded(o, tp, vp, fp) + Collect(os, tp, vp, fp)
  {
    assert ([o] + os)[1..] == os;
  }

  /** One read and then the rest. */
  lemma DrainStep(s: Decoder, bits: seq<bool>, tp: Option<Between>, vp: Option<Between>, fp: bool)
    requires Remaining(s) > 0
    ensures Remaining(Advance(s, bits)) == Remaining(s) - 1
    ensures Drain(s, bits, tp, vp, fp) ==
      Yielded(Emit(Advance(s, bits)), tp, vp, fp) + Drain(Advance(s, bits), bits, tp, vp, fp)
  {
    AdvanceCounts(s, bits);
    var n := Remaining(s);
    DecodeCons(s, bits, n);
    DrainCons(Drain(s, bits, tp, vp, fp), DecodePairs(s, bits, n), Advance(s, bits), bits, n, tp, vp, fp);
  }

  /** What one `readPair` result means for the rest of the drain: an
      `IOException` ends it, a pair comes first, a `null` adds nothing. */
  lemma ReadStepDrain(s: Decoder, bits: seq<bool>, tp: Option<Between>, vp: Option<Between>, fp: bool,
                      r: Result<Option<DataPoint>, JavaException>)
    requires r == ReadStep(s, bits, tp, vp)
    ensures r.Failure? ==> Drain(s, bits, tp, vp, fp) == []
    ensures r.Success? ==>
      Remaining(Advance(s, bits)) < Remaining(s) &&
      Drain(s, bits, tp, vp, fp) ==
        (if r.value.Some? then [WithFp(r.value.value, fp)] else []) + Drain(Advance(s, bits), bits, tp, vp, fp)
  {
    if r.Success? {
      DrainStep(s, bits, tp, vp, fp);
    }
  }

  lemma DrainCons(r: seq<DataPoint>, os: seq<Option<Pair>>, s': Decoder, bits: seq<bool>, n: nat,
                  tp: Option<Between>, vp: Option<Between>, fp: bool)
    requires n > 0 && Remaining(s') == n - 1
    requires os == [Emit(s')] + DecodePairs(s', bits, n - 1) && r == Collect(os, tp, vp, fp)
    ensures r == Yielded(Emit(s'), tp, vp, fp) + Drain(s', bits, tp, vp, fp)
  {
    CollectCons(Emit(s'), DecodePairs(s', bits, n - 1), tp, vp, fp);
  }

  /** The pairs a reader over them keeps, as data points stamped with
      `fp`. */
  function Selected(pairs: seq<Pair>, tp: Option<Between>, vp: Option<Between>, fp: bool): seq<DataPoint> {
    if pairs == [] then []
    else
      var rest := Selected(pairs[1..], tp, vp, fp);
      var q := pairs[0];
      if Accepts(tp, q.timestamp) && Accepts(vp, q.value) then [WithFp(Point(q.timestamp, q.value), fp)] + rest
      else rest
  }

  /** With no predicates nothing is dropped: the same timestamps and values
      in the same order. */
  lemma {:induction false} SelectAll(pairs: seq<Pair>, fp: bool)
    ensures |Selected(pairs, None, None, fp)| == |pairs|
    ensures forall i :: 0 <= i < |pairs| ==>
      Selected(pairs, None, None, fp)[i] == DataPoint(fp, None, None, pairs[i].timestamp, pairs[i].value)
  {
    if pairs != [] {
      SelectAll(pairs[1..], fp);
    }
  }

  lemma {:induction false} CollectFound(pairs: seq<Pair>, tp: Option<Between>, vp: Option<Between>, fp: bool)
    ensures Collect(Found(pairs), tp, vp, fp) == Selected(pairs, tp, vp, fp)
  {
    if pairs != [] {
      assert Found(pairs)[1..] == Found(pairs[1..]);
      CollectFound(pairs[1..], tp, vp, fp);
    }
  }

  /** A reader over what the compressor wrote for in-window pairs, told
      their number, returns exactly the pairs its predicates accept, in
      append order. */
  lemma ReaderReturnsAppended(header: int64, pairs: seq<Pair>, bits: seq<bool>,
                              tp: Option<Between>, vp: Option<Between>, fp: bool)
    requires InSpan(header, pairs) && |pairs| <= INT_MAX
    requires Prefix(Encode(NewEncoder(header), pairs).out, bits)
    ensures Drain(Start(bits, 0, |pairs|), bits, tp, vp, fp) == Selected(pairs, tp, vp, fp)
  {
    FreshEncodable(header, pairs);
    EncodeDecode(header, pairs, bits, 0);
    DrainFound(Start(bits, 0, |pairs|), bits, pairs, tp, vp, fp);
  }

  lemma DrainFound(s: Decoder, bits: seq<bool>, pairs: seq<Pair>, tp: Option<Between>, vp: Option<Between>, fp: bool)
    requires Remaining(s) == |pairs|
    requires DecodePairs(s, bits, |pairs| + 0) == Found(pairs) + Nulls(0)
    ensures Drain(s, bits, tp, vp, fp) == Selected(pairs, tp, vp, fp)
  {
    assert Found(pairs) + Nulls(0) == Found(pairs);
    CollectFound(pairs, tp, vp, fp);
  }

  // ---------------------------------------------------------------------
  // The bucket

  /** The last timestamp appended, 0 before any. */
  function LastTimestamp(pairs: seq<Pair>): int64 {
    if pairs == [] then 0 else pairs[|pairs| - 1].timestamp
  }

  /** What the `lastTs` check lets into a bucket: each pair at or after
      the last one before it, the first at or after 0. */
  predicate Admitted(pairs: seq<Pair>)
    decreases |pairs|
  {
    pairs == [] ||
    (Admitted(pairs[..|pairs| - 1]) && LastTimestamp(pairs[..|pairs| - 1]) <= pairs[|pairs| - 1].timestamp)
  }

  /** So the timestamps of a bucket are never negative and never go down. */
  lemma {:induction false} AdmittedOrdered(pairs: seq<Pair>)
    requires Admitted(pairs)
    ensures forall i :: 0 <= i < |pairs| ==> 0 <= pairs[i].timestamp
    ensures forall i, j :: 0 <= i < j < |pairs| ==> pairs[i].timestamp <= pairs[j].timestamp
    decreases |pairs|
  {
    if pairs != [] {
      var init := pairs[..|pairs| - 1];
      AdmittedOrdered(init);
      assert forall i :: 0 <= i < |init| ==> pairs[i] == init[i];
    }
  }

  class TimeSeriesBucket {
    const header: int64
    var writer: Encoder
    var count: int32
    var lastTs: int64
    ghost var points: seq<Pair>     // every pair appended, in order
    ghost const owner: object       // the series whose map holds this bucket

    /** The writer has encoded exactly the appended pairs, `count` counts
        them in `int` arithmetic and `lastTs` is the last one's timestamp. */
    ghost predicate Valid()
      reads this
    {
      writer == Encode(NewEncoder(header), points) &&
      count == Wrap32(|points|) &&
      lastTs == LastTimestamp(points) &&
      Admitted(points)
    }

    /** The header timestamp goes to the writer once, here. */
    constructor (headerTimestamp: int64, ghost owner: object)
      ensures header == headerTimestamp && writer == NewEncoder(headerTimestamp) && this.owner == owner
      ensures count == 0 && lastTs == 0 && points == []
      ensures Valid()
    {
      header := headerTimestamp;
      this.owner := owner;
      writer := NewEncoder(headerTimestamp);
      count := 0;
      lastTs := 0;
      points := [];
    }

    /** Both `addDataPoint` overloads: a timestamp older than the last one
        is refused and nothing changes; any other is appended, counted and
        becomes the last timestamp. A `double` arrives as its bits. */
    method AddDataPoint(timestamp: int64, value: int64) returns (r: Outcome<JavaException>)
      modifies this
      ensures timestamp < old(lastTs) ==> r == Fail(RejectException) && unchanged(this)
      ensures timestamp >= old(lastTs) ==>
        r == Pass &&
        writer == Encode(old(writer), [Pair(timestamp, value)]) &&
        count == Wrap32(old(count) + 1) &&
        lastTs == timestamp &&
        points == old(points) + [Pair(timestamp, value)]
      ensures old(Valid()) ==> Valid() && (r == Pass <==> timestamp >= LastTimestamp(old(points)))
    {
      if timestamp < lastTs {
        return Fail(RejectException);
      }
      var p := Pair(timestamp, value);
      if Valid() {
        AppendKeepsValid(header, points, writer, count, lastTs, p);
      }
      r := Pass;
      EncodeOne(writer, p);
      writer := AddValue(writer, p);
      count := Wrap32(count + 1);
      lastTs := timestamp;
      points := points + [p];
    }

    /** A reader over a snapshot of the bits written so far and of the
        count at this moment; later appends do not reach it. */
    method GetReader(timePredicate: Option<Between>, valuePredicate: Option<Between>) returns (reader: BucketReader)
      ensures fresh(reader)
      ensures reader.bits == writer.out && reader.state == Start(writer.out, 0, count)
      ensures reader.timePredicate == timePredicate && reader.valuePredicate == valuePredicate
    {
      reader := new BucketReader(writer.out, count, timePredicate, valuePredicate);
    }

    /** `getCount`: the number of appended points, while it fits an `int`. */
    function GetCount(): (c: int32)
      reads this
      ensures Valid() && |points| <= INT_MAX ==> c == |points|
    {
      NarrowFits(|points|);
      count
    }
  }

  /** An accepted append keeps the writer, the count and the last
      timestamp in step with the appended pairs. */
  lemma AppendKeepsValid(header: int64, pairs: seq<Pair>, writer: Encoder, count: int32, lastTs: int64, p: Pair)
    requires writer == Encode(NewEncoder(header), pairs) && count == Wrap32(|pairs|)
    requires lastTs == LastTimestamp(pairs) && Admitted(pairs) && p.timestamp >= lastTs
    ensures AddValue(writer, p) == Encode(NewEncoder(header), pairs + [p])
    ensures Wrap32(count + 1) == Wrap32(|pairs + [p]|)
    ensures LastTimestamp(pairs + [p]) == p.timestamp && Admitted(pairs + [p])
  {
    EncodeSnoc(NewEncoder(header), pairs, p);
    Wrap32Add(|pairs|, 1);
    assert (pairs + [p])[..|pairs|] == pairs;
  }

  /** A valid bucket's snapshot, read to the end, yields every appended
      point in append order, for in-window timestamps. */
  lemma BucketRoundTrip(header: int64, writer: Encoder, count: int32, points: seq<Pair>, fp: bool)
    requires writer == Encode(NewEncoder(header), points) && count == Wrap32(|points|)
    requires InSpan(header, points) && |points| <= INT_MAX
    ensures count == |points|
    ensures Drain(Start(writer.out, 0, count), writer.out, None, None, fp) == Selected(points, None, None, fp)
  {
    NarrowFits(|points|);
    ReaderReturnsAppended(header, points, writer.out, None, None, fp);
  }

  /** The reader handed out by `getReader`. Its bits and count are fixed at
      construction; only the decoder's state moves. */
  class BucketReader {
    const bits: seq<bool>
    const timePredicate: Option<Between>
    const valuePredicate: Option<Between>
    var state: Decoder

    constructor (bits: seq<bool>, count: int32, timePredicate: Option<Between>, valuePredicate: Option<Between>)
      ensures this.bits == bits && state == Start(bits, 0, count)
      ensures this.timePredicate == timePredicate && this.valuePredicate == valuePredicate
    {
      this.bits := bits;
      this.timePredicate := timePredicate;
      this.valuePredicate := valuePredicate;
      state := Start(bits, 0, count);
    }

    /** `readPair`: the next pair through the predicates, and `IOException`
        with nothing consumed once the count is used up. */
    method ReadPair() returns (r: Result<Option<DataPoint>, JavaException>)
      modifies this
      ensures r == ReadStep(old(state), bits, timePredicate, valuePredicate)
      ensures state == if r.Failure? then old(state) else Advance(old(state), bits)
    {
      if Remaining(state) == 0 {
        return Failure(IOException);
      }
      state := Advance(state, bits);
      r := Success(Filter(Emit(state), timePredicate, valuePredicate));
    }
  }
}
