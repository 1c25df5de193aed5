/** `SeriesDataPointEncoder`: a list of points as a four-byte count and
    then, point after point, the length of the series name's bytes, those
    bytes, the timestamp, a flag character and the value. */
module PointEncoder {
  import opened Wrappers
  import opened JavaInt
  import opened ByteUtils
  import opened DataPoints
  import opened ByteBufs
  import Seqs

  /** The platform's default charset, not part of this model:
      `String.getBytes()` and `new String(byte[])`. */
  datatype Charset = Charset(encode: string -> seq<byte>, decode: seq<byte> -> string)

  /** `'0'`, the flag of a floating-point value. */
  const FLAG_DOUBLE: byte := 48

  /** `'1'`, the flag of an integer value. */
  const FLAG_LONG: byte := 49

  /** What `encodeDPointToBuf` writes for a point that has a name. */
  function PointBytes(p: DataPoint, cs: Charset): (r: seq<byte>)
    requires p.seriesName.Some?
  {
    var name := cs.encode(p.seriesName.value);
    IntBytes(Wrap32(|name|)) + name + LongToBytes(p.timestamp) +
    [if p.isFp then FLAG_DOUBLE else FLAG_LONG] + LongToBytes(p.value)
  }

  /** Every point takes 21 bytes besides its name's, and its flag sits
      after the length, the name and the timestamp. */
  lemma PointLayout(p: DataPoint, cs: Charset)
    requires p.seriesName.Some?
    ensures var name := cs.encode(p.seriesName.value); var r := PointBytes(p, cs);
      |r| == 21 + |name| &&
      r[4..4 + |name|] == name &&
      r[12 + |name|] == (if p.isFp then FLAG_DOUBLE else FLAG_LONG)
  {
  }

  /** How many points from the front have a name. */
  function NamedPrefix(ps: seq<DataPoint>): (r: nat)
    ensures r <= |ps|
    ensures forall j :: 0 <= j < r ==> ps[j].seriesName.Some?
    ensures r < |ps| ==> ps[r].seriesName.None?
  {
    if ps == [] || ps[0].seriesName.None? then 0 else 1 + NamedPrefix(ps[1..])
  }

  /** The bytes of named points, one after another. */
  function AllBytes(ps: seq<DataPoint>, cs: Charset): seq<byte>
    requires forall j :: 0 <= j < |ps| ==> ps[j].seriesName.Some?
  {
    if ps == [] then [] else PointBytes(ps[0], cs) + AllBytes(ps[1..], cs)
  }

  lemma {:induction false} AllBytesSnoc(ps: seq<DataPoint>, p: DataPoint, cs: Charset)
    requires forall j :: 0 <= j < |ps| ==> ps[j].seriesName.Some?
    requires p.seriesName.Some?
    ensures AllBytes(ps + [p], cs) == AllBytes(ps, cs) + PointBytes(p, cs)
  {
    if ps == [] {
      assert [] + [p] == [p];
    } else {
      assert (ps + [p])[1..] == ps[1..] + [p];
      AllBytesSnoc(ps[1..], p, cs);
    }
  }

  /** What `encode` writes and how it ends: the count, then every point up
      to the first without a name, whose `getBytes` throws. */
  function Encoded(ps: seq<DataPoint>, cs: Charset): (seq<byte>, Outcome<JavaException>)
    requires |ps| <= INT_MAX
  {
    var n := NamedPrefix(ps);
    (IntBytes(|ps|) + AllBytes(ps[..n], cs), if n < |ps| then Fail(NullPointerException) else Pass)
  }

  /** `encode` stops at the `i`-th point when that is the first without a
      name, or when there is none. */
  lemma EncodedUpTo(ps: seq<DataPoint>, i: nat, cs: Charset)
    requires |ps| <= INT_MAX && i <= |ps|
    requires forall j :: 0 <= j < i ==> ps[j].seriesName.Some?
    requires i < |ps| ==> ps[i].seriesName.None?
    ensures Encoded(ps, cs).0 == IntBytes(|ps|) + AllBytes(ps[..i], cs)
    ensures Encoded(ps, cs).1 == if i < |ps| then Fail(NullPointerException) else Pass
  {
    assert NamedPrefix(ps) == i;
  }

  lemma EncodedStep(ps: seq<DataPoint>, i: nat, cs: Charset)
    requires i < |ps| && forall j :: 0 <= j <= i ==> ps[j].seriesName.Some?
    ensures AllBytes(ps[..i + 1], cs) == AllBytes(ps[..i], cs) + PointBytes(ps[i], cs)
  {
    AllBytesSnoc(ps[..i], ps[i], cs);
    assert ps[..i + 1] == ps[..i] + [ps[i]];
  }

  /** `encodeDPointToBuf`. */
  method EncodeDPointToBuf(buf: ByteBuf, p: DataPoint, cs: Charset) returns (r: Outcome<JavaException>)
    modifies buf
    ensures buf.readerIndex == old(buf.readerIndex)
    ensures p.seriesName.None? ==> r == Fail(NullPointerException) && buf.data == old(buf.data)
    ensures p.seriesName.Some? ==> r == Pass && buf.data == old(buf.data) + PointBytes(p, cs)
  {
    if p.seriesName.None? {
      return Fail(NullPointerException);
    }
    var bytes := cs.encode(p.seriesName.value);
    buf.WriteInt(Wrap32(|bytes|));
    buf.WriteBytes(bytes);
    buf.WriteLong(p.timestamp);
    if p.isFp {
      buf.WriteByte(FLAG_DOUBLE);
      buf.WriteLong(p.value);
    } else {
      buf.WriteByte(FLAG_LONG);
      buf.WriteLong(p.value);
    }
    Seqs.ConcatAssoc6(old(buf.data), IntBytes(Wrap32(|bytes|)), bytes, LongToBytes(p.timestamp),
      [if p.isFp then FLAG_DOUBLE else FLAG_LONG], LongToBytes(p.value));
    r := Pass;
  }

  /** `encode`: a Java list holds at most `Integer.MAX_VALUE` elements. */
  method Encode(dataPoints: seq<DataPoint>, buf: ByteBuf, cs: Charset) returns (r: Outcome<JavaException>)
    requires |dataPoints| <= INT_MAX
    modifies buf
    ensures buf.readerIndex == old(buf.readerIndex)
    ensures buf.data == old(buf.data) + Encoded(dataPoints, cs).0 && r == Encoded(dataPoints, cs).1
  {
    var size := |dataPoints|;
    buf.WriteInt(size);
    r := EncodePoints(dataPoints, buf, cs);
    Seqs.ConcatAssoc(old(buf.data), IntBytes(size), AllBytes(dataPoints[..NamedPrefix(dataPoints)], cs));
  }

  /** The loop of `encode`: every point up to the first without a name. */
  method EncodePoints(dataPoints: seq<DataPoint>, buf: ByteBuf, cs: Charset) returns (r: Outcome<JavaException>)
    modifies buf
    ensures buf.readerIndex == old(buf.readerIndex)
    ensures buf.data == old(buf.data) + AllBytes(dataPoints[..NamedPrefix(dataPoints)], cs)
    ensures r == if NamedPrefix(dataPoints) < |dataPoints| then Fail(NullPointerException) else Pass
  {
    ghost var start := buf.data;
    assert dataPoints[..0] == [];
    for i := 0 to |dataPoints|
      invariant i <= NamedPrefix(dataPoints)
      invariant buf.data == start + AllBytes(dataPoints[..i], cs)
      invariant buf.readerIndex == old(buf.readerIndex)
    {
      r := EncodeNext(buf, dataPoints, i, cs, start);
      if r.Fail? {
        return;
      }
    }
    r := Pass;
  }

  /** One turn of `encode`'s loop: the next point goes after the ones
      before it. */
  method EncodeNext(buf: ByteBuf, ps: seq<DataPoint>, i: nat, cs: Charset, ghost start: seq<byte>)
    returns (r: Outcome<JavaException>)
    requires i <= NamedPrefix(ps) && i < |ps|
    requires buf.data == start + AllBytes(ps[..i], cs)
    modifies buf
    ensures buf.readerIndex == old(buf.readerIndex)
    ensures r.Fail? ==> r == Fail(NullPointerException) && buf.data == old(buf.data) && i == NamedPrefix(ps)
    ensures r.Pass? ==> i < NamedPrefix(ps) && buf.data == start + AllBytes(ps[..i + 1], cs)
  {
    r := EncodeDPointToBuf(buf, ps[i], cs);
    if r.Pass? {
      EncodedStep(ps, i, cs);
      Seqs.ConcatAssoc(start, AllBytes(ps[..i], cs), PointBytes(ps[i], cs));
    }
  }
}
