/** What both `SeriesDataPointDecoder`s read: a four-byte count, then for
    each point a four-byte name length, the name's bytes, an eight-byte
    timestamp, a flag byte and eight value bytes, as the encoder writes
    them. A negative length stands for a bad point and ends the batch;
    a read past the readable bytes throws Netty's replay signal. The two
    decoders differ only in the point they build from what they read. */
module PointWire {
  import opened Wrappers
  import opened JavaInt
  import opened ByteUtils
  import opened DataPoints
  import opened ByteBufs
  import opened PointEncoder

  /** What `decodeBufToDPoint` reads of one point: the name's bytes, the
      timestamp, the flag and the eight bytes of the value, which
      `readDouble` and `readLong` read alike. */
  datatype Record = Record(name: seq<byte>, timestamp: int64, flag: byte, raw: int64)

  /** One read: the record, or none when the length is negative, and the
      position after the bytes it consumed. */
  datatype Decoded = Decoded(record: Option<Record>, next: nat)

  /** The reads of `decodeBufToDPoint` at `pos`. */
  function RecordAt(data: seq<byte>, pos: nat): (r: Result<Decoded, JavaException>)
    ensures r.Failure? ==> r.error == ReplaySignal
  {
    if pos + 4 > |data| then Failure(ReplaySignal)
    else
      var len := IntAt(data, pos).value;
      if len < 0 then Success(Decoded(None, pos + 4))
      else if pos + 21 + len > |data| then Failure(ReplaySignal)
      else
        Success(Decoded(Some(Record(BytesAt(data, pos + 4, len).value, LongAt(data, pos + 4 + len).value,
                                    ByteAt(data, pos + 12 + len).value, LongAt(data, pos + 13 + len).value)),
                        pos + 21 + len))
  }

  /** A read throws exactly when the bytes run out before the length or
      before the end of the point it announces; a negative length reads
      four bytes and gives none; a record takes 21 bytes besides its name,
      whose length is the one read. */
  lemma RecordAtSpec(data: seq<byte>, pos: nat)
    ensures var r := RecordAt(data, pos);
      (r.Failure? <==>
         pos + 4 > |data| || (IntAt(data, pos).value >= 0 && pos + 21 + IntAt(data, pos).value > |data|)) &&
      (r.Success? ==> (r.value.record.None? <==> IntAt(data, pos).value < 0)) &&
      (r.Success? && r.value.record.None? ==> r.value.next == pos + 4) &&
      (r.Success? && r.value.record.Some? ==>
         IntAt(data, pos) == Success(|r.value.record.value.name|) &&
         r.value.next == pos + 21 + |r.value.record.value.name|)
  {
  }

  /** The record `encodeDPointToBuf` writes for a point with a name. */
  function RecordOf(p: DataPoint, cs: Charset): Record
    requires p.seriesName.Some?
  {
    Record(cs.encode(p.seriesName.value), p.timestamp, if p.isFp then FLAG_DOUBLE else FLAG_LONG, p.value)
  }

  /** Points with names whose bytes an `int` length can count. */
  predicate AllFit(ps: seq<DataPoint>, cs: Charset) {
    forall i :: 0 <= i < |ps| ==> ps[i].seriesName.Some? && |cs.encode(ps[i].seriesName.value)| <= INT_MAX
  }

  /** What the encoder writes for one point reads back as its record,
      wherever it sits and whatever follows it. */
  lemma RecordRoundTrip(data: seq<byte>, pos: nat, p: DataPoint, cs: Charset)
    requires p.seriesName.Some? && |cs.encode(p.seriesName.value)| <= INT_MAX
    requires pos + |PointBytes(p, cs)| <= |data| && data[pos..pos + |PointBytes(p, cs)|] == PointBytes(p, cs)
    ensures RecordAt(data, pos) == Success(Decoded(Some(RecordOf(p, cs)), pos + |PointBytes(p, cs)|))
  {
    var name := cs.encode(p.seriesName.value);
    var n := |name|;
    NarrowFits(n);
    var f: byte := if p.isFp then FLAG_DOUBLE else FLAG_LONG;
    var pb := PointBytes(p, cs);
    PointSlices(p, cs);
    SliceIn(data, pos, pb, 0, 4);
    SliceIn(data, pos, pb, 4, 4 + n);
    SliceIn(data, pos, pb, 4 + n, 12 + n);
    SliceIn(data, pos, pb, 12 + n, 13 + n);
    SliceIn(data, pos, pb, 13 + n, 21 + n);
    assert IntAt(data, pos) == Success(n);
    assert BytesAt(data, pos + 4, n) == Success(name);
    assert LongAt(data, pos + 4 + n) == Success(p.timestamp);
    assert ByteAt(data, pos + 12 + n) == Success(f);
    assert LongAt(data, pos + 13 + n) == Success(p.value);
    RecordOfReads(data, pos, n, name, p.timestamp, f, p.value);
  }

  /** The five parts of a point's bytes, where they sit. */
  lemma PointSlices(p: DataPoint, cs: Charset)
    requires p.seriesName.Some?
    ensures var name := cs.encode(p.seriesName.value); var n := |name|; var pb := PointBytes(p, cs);
      |pb| == 21 + n && pb[..4] == IntBytes(Wrap32(n)) && pb[4..4 + n] == name &&
      pb[4 + n..12 + n] == LongToBytes(p.timestamp) &&
      pb[12 + n..13 + n] == [if p.isFp then FLAG_DOUBLE else FLAG_LONG] && pb[13 + n..21 + n] == LongToBytes(p.value)
  {
  }

  /** A slice of a slice. */
  lemma SliceIn(data: seq<byte>, pos: nat, x: seq<byte>, a: nat, b: nat)
    requires pos + |x| <= |data| && data[pos..pos + |x|] == x && a <= b <= |x|
    ensures data[pos + a..pos + b] == x[a..b]
  {
    forall k | 0 <= k < b - a ensures data[pos + a..pos + b][k] == x[a..b][k] {
      assert data[pos + a + k] == data[pos..pos + |x|][a + k];
    }
  }

  /** The two halves of a slice. */
  lemma SliceSplit(data: seq<byte>, pos: nat, h: seq<byte>, t: seq<byte>)
    requires pos + |h| + |t| <= |data| && data[pos..pos + |h| + |t|] == h + t
    ensures data[pos..pos + |h|] == h && data[pos + |h|..pos + |h| + |t|] == t
  {
    SliceIn(data, pos, h + t, 0, |h|);
    SliceIn(data, pos, h + t, |h|, |h| + |t|);
    assert (h + t)[..|h|] == h && (h + t)[|h|..] == t;
  }

  /** Five reads that succeed make a record. */
  lemma RecordOfReads(d: seq<byte>, q: nat, n: int32, name: seq<byte>, timestamp: int64, flag: byte, raw: int64)
    requires n >= 0 && IntAt(d, q) == Success(n) && BytesAt(d, q + 4, n) == Success(name)
    requires LongAt(d, q + 4 + n) == Success(timestamp) && ByteAt(d, q + 12 + n) == Success(flag)
    requires LongAt(d, q + 13 + n) == Success(raw)
    ensures RecordAt(d, q) == Success(Decoded(Some(Record(name, timestamp, flag, raw)), q + 21 + n))
  {
  }

  /** Bytes that arrive behind the end change no read that succeeded. */
  lemma RecordAtExtended(data: seq<byte>, more: seq<byte>, pos: nat)
    requires RecordAt(data, pos).Success?
    ensures RecordAt(data + more, pos) == RecordAt(data, pos)
  {
    BytesAtExtended(data, more, pos, 4);
    var len := IntAt(data, pos).value;
    if len >= 0 {
      BytesAtExtended(data, more, pos + 4, len);
      BytesAtExtended(data, more, pos + 4 + len, 8);
      BytesAtExtended(data, more, pos + 12 + len, 1);
      BytesAtExtended(data, more, pos + 13 + len, 8);
    }
  }

  /** One call of `decodeBufToDPoint` at each position. */
  type Read = nat -> Result<Decoded, JavaException>

  /** The reads of the bytes `data`. */
  function Reads(data: seq<byte>): Read {
    (p: nat) => RecordAt(data, p)
  }

  /** Where a batch of reads ends: the points read, whether they ended
      normally or by an exception, and the position reached. */
  datatype Batch = Batch(points: seq<DataPoint>, outcome: Outcome<JavaException>, next: nat)

  /** The loop of `decode` over `n` more points from `pos`, `build` making a
      point of each record: a negative length stops it normally, a read
      that throws stops it with that exception, where the read was. */
  function PointsFrom(read: Read, pos: nat, n: nat, build: Record -> DataPoint): (r: Batch)
    ensures |r.points| <= n
    ensures r.outcome.Fail? ==> read(r.next) == Failure(r.outcome.error)
    decreases n
  {
    if n == 0 then Batch([], Pass, pos)
    else match read(pos)
      case Failure(e) => Batch([], Fail(e), pos)
      case Success(Decoded(None, next)) => Batch([], Pass, next)
      case Success(Decoded(Some(rec), next)) =>
        var rest := PointsFrom(read, next, n - 1, build);
        Batch([build(rec)] + rest.points, rest.outcome, rest.next)
  }

  /** One point read, and the rest of the batch after it. */
  lemma PointsFromStep(read: Read, pos: nat, n: nat, build: Record -> DataPoint, rec: Record, next: nat)
    requires n > 0 && read(pos) == Success(Decoded(Some(rec), next))
    ensures var rest := PointsFrom(read, next, n - 1, build);
      PointsFrom(read, pos, n, build) == Batch([build(rec)] + rest.points, rest.outcome, rest.next)
  {
  }

  /** `decode`: the count, then at most that many points; a count of zero
      or less reads none. */
  function Decoding(data: seq<byte>, pos: nat, build: Record -> DataPoint): (r: Batch)
    ensures r.outcome.Fail? ==> r.outcome.error == ReplaySignal
    ensures IntAt(data, pos).Failure? ==> r == Batch([], Fail(ReplaySignal), pos)
    ensures IntAt(data, pos).Success? ==> |r.points| <= if IntAt(data, pos).value > 0 then IntAt(data, pos).value else 0
  {
    match IntAt(data, pos)
    case Failure(e) => Batch([], Fail(e), pos)
    case Success(count) => PointsFrom(Reads(data), pos + 4, if count > 0 then count else 0, build)
  }

  /** Names the charset reads back as they were written. */
  predicate NamesRoundTrip(ps: seq<DataPoint>, cs: Charset) {
    forall i :: 0 <= i < |ps| ==> ps[i].seriesName.Some? && cs.decode(cs.encode(ps[i].seriesName.value)) == ps[i].seriesName.value
  }

  /** The points `build` makes of the records of named points. */
  function Rebuilt(ps: seq<DataPoint>, cs: Charset, build: Record -> DataPoint): (r: seq<DataPoint>)
    requires forall i :: 0 <= i < |ps| ==> ps[i].seriesName.Some?
    ensures |r| == |ps|
  {
    if ps == [] then [] else [build(RecordOf(ps[0], cs))] + Rebuilt(ps[1..], cs, build)
  }

  /** Point `i` is made of the record of the `i`-th point. */
  lemma {:induction false} RebuiltAt(ps: seq<DataPoint>, cs: Charset, build: Record -> DataPoint, i: nat)
    requires forall j :: 0 <= j < |ps| ==> ps[j].seriesName.Some?
    requires i < |ps|
    ensures Rebuilt(ps, cs, build)[i] == build(RecordOf(ps[i], cs))
    decreases i
  {
    if i > 0 {
      assert ps[1..][i - 1] == ps[i];
      RebuiltAt(ps[1..], cs, build, i - 1);
    }
  }

  lemma RebuiltCons(ps: seq<DataPoint>, cs: Charset, build: Record -> DataPoint)
    requires ps != [] && forall i :: 0 <= i < |ps| ==> ps[i].seriesName.Some?
    ensures Rebuilt(ps, cs, build) == [build(RecordOf(ps[0], cs))] + Rebuilt(ps[1..], cs, build)
  {
  }

  /** `read` finds the records of the named points `ps` one after another
      from `pos`, each where the one before it ends. */
  predicate ReadsRecords(read: Read, pos: nat, ps: seq<DataPoint>, cs: Charset)
    requires forall i :: 0 <= i < |ps| ==> ps[i].seriesName.Some?
    decreases |ps|
  {
    ps == [] ||
    (read(pos) == Success(Decoded(Some(RecordOf(ps[0], cs)), pos + |PointBytes(ps[0], cs)|)) &&
     assert forall i :: 0 <= i < |ps| - 1 ==> ps[1..][i] == ps[i + 1];
     ReadsRecords(read, pos + |PointBytes(ps[0], cs)|, ps[1..], cs))
  }

  /** The records of what the encoder writes for named points, one after
      another, are read one after another. */
  lemma {:induction false} RecordsWritten(data: seq<byte>, pos: nat, ps: seq<DataPoint>, cs: Charset)
    requires AllFit(ps, cs)
    requires pos + |AllBytes(ps, cs)| <= |data| && data[pos..pos + |AllBytes(ps, cs)|] == AllBytes(ps, cs)
    ensures ReadsRecords(Reads(data), pos, ps, cs)
    decreases |ps|
  {
    if ps != [] {
      var head, tail := PointBytes(ps[0], cs), AllBytes(ps[1..], cs);
      assert AllBytes(ps, cs) == head + tail;
      SliceSplit(data, pos, head, tail);
      RecordRoundTrip(data, pos, ps[0], cs);
      assert forall i :: 0 <= i < |ps| - 1 ==> ps[1..][i] == ps[i + 1];
      RecordsWritten(data, pos + |head|, ps[1..], cs);
    }
  }

  /** The loop reads back a point for every record found one after
      another, ends normally and stops where the last record ends. */
  lemma {:induction false} PointsRoundTrip(read: Read, pos: nat, ps: seq<DataPoint>, cs: Charset,
                                          build: Record -> DataPoint)
    requires forall i :: 0 <= i < |ps| ==> ps[i].seriesName.Some?
    requires ReadsRecords(read, pos, ps, cs)
    ensures PointsFrom(read, pos, |ps|, build) == Batch(Rebuilt(ps, cs, build), Pass, pos + |AllBytes(ps, cs)|)
    decreases |ps|
  {
    if ps != [] {
      var next := pos + |PointBytes(ps[0], cs)|;
      PointsFromStep(read, pos, |ps|, build, RecordOf(ps[0], cs), next);
      assert forall i :: 0 <= i < |ps| - 1 ==> ps[1..][i] == ps[i + 1];
      PointsRoundTrip(read, next, ps[1..], cs, build);
      RebuiltCons(ps, cs, build);
    }
  }

  /** `decode` of what `encode` wrote for points that all have names: as
      many points as were written, in order, each made from its record,
      and nothing after them read. */
  lemma ListRoundTrip(ps: seq<DataPoint>, cs: Charset, rest: seq<byte>, build: Record -> DataPoint)
    requires |ps| <= INT_MAX && AllFit(ps, cs)
    ensures Encoded(ps, cs).1 == Pass
    ensures Decoding(Encoded(ps, cs).0 + rest, 0, build) == Batch(Rebuilt(ps, cs, build), Pass, |Encoded(ps, cs).0|)
  {
    assert ps[..|ps|] == ps;
    var all := AllBytes(ps, cs);
    var data := Encoded(ps, cs).0 + rest;
    assert data[0..4 + |all|] == IntBytes(|ps|) + all;
    SliceSplit(data, 0, IntBytes(|ps|), all);
    assert IntAt(data, 0) == Success(|ps|);
    RecordsWritten(data, 4, ps, cs);
    PointsRoundTrip(Reads(data), 4, ps, cs, build);
  }

  /** What a retry with more bytes reads, against what a read before it
      did: a batch that ended normally is read the same, and a batch cut
      short by an exception is read again from the same points. */
  predicate Extends(a: Batch, b: Batch) {
    (a.outcome.Pass? ==> b == a) &&
    (a.outcome.Fail? ==> |a.points| <= |b.points| && b.points[..|a.points|] == a.points)
  }

  /** Reads that agree wherever the first succeeds leave a finished batch
      as it was, and a batch cut short yields its points again first. */
  lemma {:induction false} PointsFromExtended(read: Read, read': Read, pos: nat, n: nat, build: Record -> DataPoint)
    requires forall p :: read(p).Success? ==> read'(p) == read(p)
    ensures Extends(PointsFrom(read, pos, n, build), PointsFrom(read', pos, n, build))
    decreases n
  {
    if n > 0 && read(pos).Success? {
      var d := read(pos).value;
      if d.record.Some? {
        var rec := d.record.value;
        PointsFromStep(read, pos, n, build, rec, d.next);
        PointsFromStep(read', pos, n, build, rec, d.next);
        PointsFromExtended(read, read', d.next, n - 1, build);
        ExtendsCons(build(rec), PointsFrom(read, d.next, n - 1, build), PointsFrom(read', d.next, n - 1, build));
      }
    }
  }

  lemma ExtendsCons(x: DataPoint, a: Batch, b: Batch)
    requires Extends(a, b)
    ensures Extends(Batch([x] + a.points, a.outcome, a.next), Batch([x] + b.points, b.outcome, b.next))
  {
    if a.outcome.Fail? {
      assert ([x] + b.points)[..|a.points| + 1] == [x] + b.points[..|a.points|];
    }
  }

  /** The same for the whole of `decode`: a `ReplayingDecoder` that runs
      it again once more bytes have arrived gets the points of the run
      that ran out first, and a run that finished is not changed by bytes
      behind it. */
  lemma DecodingExtended(data: seq<byte>, more: seq<byte>, pos: nat, build: Record -> DataPoint)
    ensures Extends(Decoding(data, pos, build), Decoding(data + more, pos, build))
  {
    if IntAt(data, pos).Success? {
      BytesAtExtended(data, more, pos, 4);
      var count := IntAt(data, pos).value;
      forall p | Reads(data)(p).Success? ensures Reads(data + more)(p) == Reads(data)(p) {
        RecordAtExtended(data, more, p);
      }
      PointsFromExtended(Reads(data), Reads(data + more), pos + 4, if count > 0 then count else 0, build);
    }
  }

  /** A read made into a point by `build`: `null` for a negative length. */
  function Built(d: Result<Decoded, JavaException>, build: Record -> DataPoint): Result<Option<DataPoint>, JavaException> {
    match d
    case Failure(e) => Failure(e)
    case Success(Decoded(None, _)) => Success(None)
    case Success(Decoded(Some(rec), _)) => Success(Some(build(rec)))
  }

  // ---------------------------------------------------------------------
  // The reads on the buffer

  /** The reads of `decodeBufToDPoint`. Only the flag tells `readDouble`
      from `readLong`; both take the same eight bytes. */
  method ReadRecord(buf: ByteBuf) returns (r: Result<Decoded, JavaException>)
    requires buf.Valid()
    modifies buf
    ensures buf.Valid() && buf.data == old(buf.data)
    ensures r == RecordAt(buf.data, old(buf.readerIndex))
    ensures r.Success? ==> buf.readerIndex == r.value.next
  {
    var len := buf.ReadInt();
    if len.Failure? {
      return Failure(len.error);
    }
    if len.value < 0 {
      return Success(Decoded(None, buf.readerIndex));
    }
    var name := buf.ReadBytes(len.value);
    if name.Failure? {
      return Failure(name.error);
    }
    var timestamp := buf.ReadLong();
    if timestamp.Failure? {
      return Failure(timestamp.error);
    }
    var flag := buf.ReadByte();
    if flag.Failure? {
      return Failure(flag.error);
    }
    var raw := buf.ReadLong();
    if raw.Failure? {
      return Failure(raw.error);
    }
    r := Success(Decoded(Some(Record(name.value, timestamp.value, flag.value, raw.value)), buf.readerIndex));
  }

  /** The loop both decoders' `decode` run: the count, then one point after
      another into the output until a bad one, or the replay signal. */
  method DecodeWith(buf: ByteBuf, build: Record -> DataPoint) returns (points: seq<DataPoint>, r: Outcome<JavaException>)
    requires buf.Valid()
    modifies buf
    ensures buf.Valid() && buf.data == old(buf.data)
    ensures var b := Decoding(buf.data, old(buf.readerIndex), build);
      points == b.points && r == b.outcome && (r.Pass? ==> buf.readerIndex == b.next)
  {
    var count := buf.ReadInt();
    if count.Failure? {
      return [], Fail(count.error);
    }
    var n: nat := if count.value > 0 then count.value else 0;
    points, r := ReadPoints(buf, n, build);
  }

  /** The loop over the count. */
  method ReadPoints(buf: ByteBuf, n: nat, build: Record -> DataPoint) returns (points: seq<DataPoint>, r: Outcome<JavaException>)
    requires buf.Valid()
    modifies buf
    ensures buf.Valid() && buf.data == old(buf.data)
    ensures var b := PointsFrom(Reads(buf.data), old(buf.readerIndex), n, build);
      points == b.points && r == b.outcome && (r.Pass? ==> buf.readerIndex == b.next)
  {
    ghost var total := PointsFrom(Reads(buf.data), buf.readerIndex, n, build);
    ghost var tail := total;
    points := [];
    for i := 0 to n
      invariant buf.Valid() && buf.data == old(buf.data)
      invariant tail == PointsFrom(Reads(buf.data), buf.readerIndex, n - i, build)
      invariant total == Batch(points + tail.points, tail.outcome, tail.next)
    {
      var d := ReadStep(buf, n - i, build);
      if d.Failure? {
        assert points + [] == points;
        return points, Fail(d.error);
      }
      if d.value.None? {
        assert points + [] == points;
        return points, Pass;
      }
      ghost var after := PointsFrom(Reads(buf.data), buf.readerIndex, n - i - 1, build);
      AppendStep(total, points, d.value.value, tail, after);
      points := points + [d.value.value];
      tail := after;
    }
    assert points + [] == points;
    r := Pass;
  }

  lemma AppendStep(total: Batch, points: seq<DataPoint>, x: DataPoint, tail: Batch, after: Batch)
    requires total == Batch(points + tail.points, tail.outcome, tail.next)
    requires tail == Batch([x] + after.points, after.outcome, after.next)
    ensures total == Batch((points + [x]) + after.points, after.outcome, after.next)
  {
    assert points + ([x] + after.points) == (points + [x]) + after.points;
  }

  /** One turn of the loop: the next point, and what the rest of the batch
      reads after it. */
  method ReadStep(buf: ByteBuf, k: nat, build: Record -> DataPoint) returns (r: Result<Option<DataPoint>, JavaException>)
    requires buf.Valid() && k > 0
    modifies buf
    ensures buf.Valid() && buf.data == old(buf.data)
    ensures var before := PointsFrom(Reads(buf.data), old(buf.readerIndex), k, build);
      var after := PointsFrom(Reads(buf.data), buf.readerIndex, k - 1, build);
      (r.Failure? ==> before == Batch([], Fail(r.error), old(buf.readerIndex))) &&
      (r.Success? && r.value.None? ==> before == Batch([], Pass, buf.readerIndex)) &&
      (r.Success? && r.value.Some? ==> before == Batch([r.value.value] + after.points, after.outcome, after.next))
  {
    var d := ReadRecord(buf);
    r := Built(d, build);
  }
}

/** `ingress.binary.SeriesDataPointDecoder`: a flag `'0'` gives a point
    built with the `double` constructor and marked floating point; any
    other flag a point built with the `long` constructor. The tags are
    `null`, and the name is decoded with the platform's charset. */
module BinaryDecoder {
  import opened Wrappers
  import opened JavaInt
  import opened DataPoints
  import opened ByteBufs
  import opened PointEncoder
  import opened PointWire

  /** The point made of a record. The `double` constructor stores
      `doubleToLongBits` of the value read, so a NaN read comes out as the
      canonical NaN. */
  function PointOf(rec: Record, cs: Charset): (p: DataPoint)
    ensures p.isFp <==> rec.flag == FLAG_DOUBLE
    ensures p.seriesName == Some(cs.decode(rec.name)) && p.tags == None && p.timestamp == rec.timestamp
    ensures p.value == if p.isFp then DoubleToLongBits(rec.raw) else rec.raw
  {
    var seriesName := cs.decode(rec.name);
    if rec.flag == FLAG_DOUBLE then WithFp(NamedDouble(seriesName, None, rec.timestamp, rec.raw), true)
    else Named(seriesName, None, rec.timestamp, rec.raw)
  }

  function Build(cs: Charset): Record -> DataPoint {
    rec => PointOf(rec, cs)
  }

  /** `decodeBufToDPoint`: `null` for a negative length. */
  method DecodeBufToDPoint(buf: ByteBuf, cs: Charset) returns (r: Result<Option<DataPoint>, JavaException>)
    requires buf.Valid()
    modifies buf
    ensures buf.Valid() && buf.data == old(buf.data)
    ensures r == Built(RecordAt(buf.data, old(buf.readerIndex)), Build(cs))
    ensures r.Success? ==> buf.readerIndex == RecordAt(buf.data, old(buf.readerIndex)).value.next
  {
    var d := ReadRecord(buf);
    if d.Failure? {
      return Failure(d.error);
    }
    if d.value.record.None? {
      return Success(None);
    }
    var rec := d.value.record.value;
    var seriesName := cs.decode(rec.name);
    var dp: DataPoint;
    if rec.flag == FLAG_DOUBLE {
      dp := NamedDouble(seriesName, None, rec.timestamp, rec.raw);
      dp := WithFp(dp, true);
    } else {
      dp := Named(seriesName, None, rec.timestamp, rec.raw);
    }
    r := Success(Some(dp));
  }

  /** `decode`: the points go to the output in the order read. */
  method Decode(buf: ByteBuf, cs: Charset) returns (output: seq<DataPoint>, r: Outcome<JavaException>)
    requires buf.Valid()
    modifies buf
    ensures buf.Valid() && buf.data == old(buf.data)
    ensures var b := Decoding(buf.data, old(buf.readerIndex), Build(cs));
      output == b.points && r == b.outcome && (r.Pass? ==> buf.readerIndex == b.next)
  {
    output, r := DecodeWith(buf, Build(cs));
  }

  /** What comes out of a point sent through the encoder and this decoder:
      its kind, name and timestamp; the tags are lost, and a `double`
      value comes back as `doubleToLongBits` of itself. */
  function Received(p: DataPoint): DataPoint {
    DataPoint(p.isFp, p.seriesName, None, p.timestamp, if p.isFp then DoubleToLongBits(p.value) else p.value)
  }

  /** The encoder and this decoder agree: every named point comes back as
      `Received` of itself, in order, and the whole input is consumed. */
  lemma DecodeEncoded(ps: seq<DataPoint>, cs: Charset, rest: seq<byte>)
    requires |ps| <= INT_MAX && AllFit(ps, cs) && NamesRoundTrip(ps, cs)
    ensures var b := Decoding(Encoded(ps, cs).0 + rest, 0, Build(cs));
      b.outcome == Pass && b.next == |Encoded(ps, cs).0| && |b.points| == |ps| &&
      forall i :: 0 <= i < |ps| ==> b.points[i] == Received(ps[i])
  {
    ListRoundTrip(ps, cs, rest, Build(cs));
    var rebuilt := Rebuilt(ps, cs, Build(cs));
    forall i | 0 <= i < |ps| ensures rebuilt[i] == Received(ps[i]) {
      RebuiltAt(ps, cs, Build(cs), i);
      assert rebuilt[i] == PointOf(RecordOf(ps[i], cs), cs);
    }
  }

  /** Untagged points whose `double` values are already canonical come back
      exactly. */
  lemma DecodeEncodedExactly(ps: seq<DataPoint>, cs: Charset, rest: seq<byte>)
    requires |ps| <= INT_MAX && AllFit(ps, cs) && NamesRoundTrip(ps, cs)
    requires forall i :: 0 <= i < |ps| ==> ps[i].tags == None && (ps[i].isFp ==> !IsNaN(ps[i].value))
    ensures Decoding(Encoded(ps, cs).0 + rest, 0, Build(cs)).points == ps
  {
    DecodeEncoded(ps, cs, rest);
  }
}

/** `netty.SeriesDataPointDecoder`: like the binary decoder, except that it
    builds every point with a three-argument constructor, the `double`
    one for flag `'0'` and the `long` one otherwise, and sets no flag
    itself. Neither constructor is part of this model: they are
    parameters, and the `double` one receives the bits read. */
module NettyDecoder {
  import opened Wrappers
  import opened JavaInt
  import opened DataPoints
  import opened ByteBufs
  import opened PointEncoder
  import opened PointWire

  /** `new DataPoint(seriesName, timestamp, double)` and
      `new DataPoint(seriesName, timestamp, long)`. */
  datatype Constructors = Constructors(ofDouble: (string, int64, int64) -> DataPoint,
                                       ofLong: (string, int64, int64) -> DataPoint)

  function PointOf(rec: Record, cs: Charset, c: Constructors): DataPoint {
    var seriesName := cs.decode(rec.name);
    if rec.flag == FLAG_DOUBLE then c.ofDouble(seriesName, rec.timestamp, rec.raw)
    else c.ofLong(seriesName, rec.timestamp, rec.raw)
  }

  function Build(cs: Charset, c: Constructors): Record -> DataPoint {
    rec => PointOf(rec, cs, c)
  }

  /** `decodeBufToDPoint`: `null` for a negative length. */
  method DecodeBufToDPoint(buf: ByteBuf, cs: Charset, c: Constructors) returns (r: Result<Option<DataPoint>, JavaException>)
    requires buf.Valid()
    modifies buf
    ensures buf.Valid() && buf.data == old(buf.data)
    ensures r == Built(RecordAt(buf.data, old(buf.readerIndex)), Build(cs, c))
    ensures r.Success? ==> buf.readerIndex == RecordAt(buf.data, old(buf.readerIndex)).value.next
  {
    var d := ReadRecord(buf);
    if d.Failure? {
      return Failure(d.error);
    }
    if d.value.record.None? {
      return Success(None);
    }
    var rec := d.value.record.value;
    var seriesName := cs.decode(rec.name);
    if rec.flag == FLAG_DOUBLE {
      r := Success(Some(c.ofDouble(seriesName, rec.timestamp, rec.raw)));
    } else {
      r := Success(Some(c.ofLong(seriesName, rec.timestamp, rec.raw)));
    }
  }

  /** `decode`: the points go to the output in the order read. */
  method Decode(buf: ByteBuf, cs: Charset, c: Constructors) returns (output: seq<DataPoint>, r: Outcome<JavaException>)
    requires buf.Valid()
    modifies buf
    ensures buf.Valid() && buf.data == old(buf.data)
    ensures var b := Decoding(buf.data, old(buf.readerIndex), Build(cs, c));
      output == b.points && r == b.outcome && (r.Pass? ==> buf.readerIndex == b.next)
  {
    output, r := DecodeWith(buf, Build(cs, c));
  }

  /** The encoder's flag picks the constructor: a floating-point point is
      rebuilt by the `double` one and any other by the `long` one, from
      its name, timestamp and value bits. */
  lemma DecodeEncoded(ps: seq<DataPoint>, cs: Charset, c: Constructors, rest: seq<byte>)
    requires |ps| <= INT_MAX && AllFit(ps, cs) && NamesRoundTrip(ps, cs)
    ensures var b := Decoding(Encoded(ps, cs).0 + rest, 0, Build(cs, c));
      b.outcome == Pass && |b.points| == |ps| &&
      forall i :: 0 <= i < |ps| ==>
        b.points[i] == if ps[i].isFp then c.ofDouble(ps[i].seriesName.value, ps[i].timestamp, ps[i].value)
        else c.ofLong(ps[i].seriesName.value, ps[i].timestamp, ps[i].value)
  {
    ListRoundTrip(ps, cs, rest, Build(cs, c));
    var rebuilt := Rebuilt(ps, cs, Build(cs, c));
    forall i | 0 <= i < |ps|
      ensures rebuilt[i] == if ps[i].isFp then c.ofDouble(ps[i].seriesName.value, ps[i].timestamp, ps[i].value)
                            else c.ofLong(ps[i].seriesName.value, ps[i].timestamp, ps[i].value)
    {
      RebuiltAt(ps, cs, Build(cs, c), i);
      assert rebuilt[i] == PointOf(RecordOf(ps[i], cs), cs, c);
    }
  }
}
