/** Netty's `ByteBuf` as the point codecs use it: bytes appended at the
    writer index, consumed from the reader index. Integers are big-endian
    two's complement. Inside a `ReplayingDecoder` a read that needs more
    bytes than are readable does not return: it throws the decoder's replay
    signal. */
module ByteBufs {
  import opened Wrappers
  import opened JavaInt
  import opened ByteUtils

  // ---------------------------------------------------------------------
  // Reads at a position, as values

  /** The `n` bytes at `pos`, or the replay signal when fewer remain. */
  function BytesAt(data: seq<byte>, pos: nat, n: nat): (r: Result<seq<byte>, JavaException>)
    ensures r.Success? <==> pos + n <= |data|
    ensures r.Success? ==> |r.value| == n
    ensures r.Failure? ==> r.error == ReplaySignal
  {
    if pos + n <= |data| then Success(data[pos..pos + n]) else Failure(ReplaySignal)
  }

  /** `readInt` at `pos`. */
  function IntAt(data: seq<byte>, pos: nat): (r: Result<int32, JavaException>)
    ensures r.Success? <==> pos + 4 <= |data|
    ensures r.Failure? ==> r.error == ReplaySignal
  {
    var b :- BytesAt(data, pos, 4);
    Success(Wrap32(FromBigEndian(b)))
  }

  /** `readLong` at `pos`; `readDouble` reads the same eight bytes as the
      bits of a `double`. */
  function LongAt(data: seq<byte>, pos: nat): (r: Result<int64, JavaException>)
    ensures r.Success? <==> pos + 8 <= |data|
    ensures r.Failure? ==> r.error == ReplaySignal
  {
    var b :- BytesAt(data, pos, 8);
    Success(Wrap64(FromBigEndian(b)))
  }

  /** `readByte` at `pos`, as the unsigned value of the byte. */
  function ByteAt(data: seq<byte>, pos: nat): (r: Result<byte, JavaException>)
    ensures r.Success? <==> pos + 1 <= |data|
    ensures r.Failure? ==> r.error == ReplaySignal
  {
    var b :- BytesAt(data, pos, 1);
    Success(b[0])
  }

  /** A read that succeeds reads the same once more bytes have arrived
      behind the buffer's end. */
  lemma BytesAtExtended(data: seq<byte>, more: seq<byte>, pos: nat, n: nat)
    requires pos + n <= |data|
    ensures BytesAt(data + more, pos, n) == BytesAt(data, pos, n)
  {
    assert (data + more)[pos..pos + n] == data[pos..pos + n];
  }

  /** What `writeInt` appends reads back at its position. */
  lemma IntBytesRead(prefix: seq<byte>, x: int32, rest: seq<byte>)
    ensures IntAt(prefix + IntBytes(x) + rest, |prefix|) == Success(x)
  {
    assert (prefix + IntBytes(x) + rest)[|prefix|..|prefix| + 4] == IntBytes(x);
  }

  /** What `writeLong` appends reads back at its position. */
  lemma LongBytesRead(prefix: seq<byte>, x: int64, rest: seq<byte>)
    ensures LongAt(prefix + LongToBytes(x) + rest, |prefix|) == Success(x)
  {
    assert (prefix + LongToBytes(x) + rest)[|prefix|..|prefix| + 8] == LongToBytes(x);
  }

  class ByteBuf {
    var data: seq<byte>
    var readerIndex: nat

    ghost predicate Valid()
      reads this
    {
      readerIndex <= |data|
    }

    /** A buffer holding `initial`, nothing read yet. */
    constructor (initial: seq<byte>)
      ensures data == initial && readerIndex == 0 && Valid()
    {
      data := initial;
      readerIndex := 0;
    }

    /** `writeInt`. */
    method WriteInt(x: int32)
      modifies this
      ensures data == old(data) + IntBytes(x) && readerIndex == old(readerIndex)
    {
      data := data + IntBytes(x);
    }

    /** `writeLong`; `writeDouble` writes the raw bits of the `double` the
        same way. */
    method WriteLong(x: int64)
      modifies this
      ensures data == old(data) + LongToBytes(x) && readerIndex == old(readerIndex)
    {
      data := data + LongToBytes(x);
    }

    /** `writeByte`: the low eight bits. */
    method WriteByte(x: int)
      modifies this
      ensures data == old(data) + [LowByte(x)] && readerIndex == old(readerIndex)
    {
      data := data + [LowByte(x)];
    }

    /** `writeBytes`. */
    method WriteBytes(b: seq<byte>)
      modifies this
      ensures data == old(data) + b && readerIndex == old(readerIndex)
    {
      data := data + b;
    }

    /** `readBytes` into an array of `n` bytes. */
    method ReadBytes(n: nat) returns (r: Result<seq<byte>, JavaException>)
      requires Valid()
      modifies this
      ensures Valid() && data == old(data)
      ensures r == BytesAt(data, old(readerIndex), n)
      ensures readerIndex == if r.Success? then old(readerIndex) + n else old(readerIndex)
    {
      if readerIndex + n <= |data| {
        r := Success(data[readerIndex..readerIndex + n]);
        readerIndex := readerIndex + n;
      } else {
        r := Failure(ReplaySignal);
      }
    }

    /** `readInt`. */
    method ReadInt() returns (r: Result<int32, JavaException>)
      requires Valid()
      modifies this
      ensures Valid() && data == old(data)
      ensures r == IntAt(data, old(readerIndex))
      ensures readerIndex == if r.Success? then old(readerIndex) + 4 else old(readerIndex)
    {
      var b := ReadBytes(4);
      if b.Failure? {
        return Failure(b.error);
      }
      r := Success(Wrap32(FromBigEndian(b.value)));
    }

    /** `readLong`, and `readDouble` as the bits it reads. */
    method ReadLong() returns (r: Result<int64, JavaException>)
      requires Valid()
      modifies this
      ensures Valid() && data == old(data)
      ensures r == LongAt(data, old(readerIndex))
      ensures readerIndex == if r.Success? then old(readerIndex) + 8 else old(readerIndex)
    {
      var b := ReadBytes(8);
      if b.Failure? {
        return Failure(b.error);
      }
      r := Success(Wrap64(FromBigEndian(b.value)));
    }

    /** `readByte`. */
    method ReadByte() returns (r: Result<byte, JavaException>)
      requires Valid()
      modifies this
      ensures Valid() && data == old(data)
      ensures r == ByteAt(data, old(readerIndex))
      ensures readerIndex == if r.Success? then old(readerIndex) + 1 else old(readerIndex)
    {
      var b := ReadBytes(1);
      if b.Failure? {
        return Failure(b.error);
      }
      r := Success(b.value[0]);
    }
  }
}
