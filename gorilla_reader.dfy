/** The Gorilla decompressor of `gorillac/Reader.java`: it reads a 64-bit
    block header, then a fixed number of (timestamp, value) pairs, the
    timestamps as deltas of deltas behind a variable-length control prefix
    and the values as XORs with the previous value.

    The decoder's state is a datatype and each private method of the Java
    class is a function on it; the `Reader` class below keeps the Java fields
    and its methods are proved to move them exactly as those functions do.
    The bit input, which is not part of this model, is a bit string with a
    cursor; a bit past the end of the string reads as 0. */
module GorillaReader {
  import opened Wrappers
  import opened JavaInt
  import opened Bits

  /** The width of the first timestamp's offset from the block header. */
  const FIRST_DELTA_BITS: nat := 27

  /** `Pair`: a timestamp and the 64-bit pattern of a value. */
  datatype Pair = Pair(timestamp: int64, value: int64)

  // ---------------------------------------------------------------------
  // The bit input

  /** The bit at index `i`; positions past the end hold 0. */
  function Bit(bits: seq<bool>, i: nat): bool {
    i < |bits| && bits[i]
  }

  /** The `n` bits from `pos` on as a number, most significant first, as
      `getLong` accumulates them. */
  function ReadBits(bits: seq<bool>, pos: nat, n: nat): nat {
    if n == 0 then 0 else 2 * ReadBits(bits, pos, n - 1) + (if Bit(bits, pos + n - 1) then 1 else 0)
  }

  /** `x` lies in `bits` at `pos`. */
  predicate At(bits: seq<bool>, pos: nat, x: seq<bool>) {
    pos + |x| <= |bits| && bits[pos..pos + |x|] == x
  }

  /** Reading the bits of a string that lies at `pos` gives the number it
      denotes. */
  lemma {:induction false} ReadBitsAt(bits: seq<bool>, pos: nat, x: seq<bool>)
    requires At(bits, pos, x)
    ensures ReadBits(bits, pos, |x|) == BitsToNat(x)
  {
    if x != [] {
      var y := x[..|x| - 1];
      assert bits[pos..pos + |y|] == bits[pos..pos + |x|][..|y|];
      ReadBitsAt(bits, pos, y);
      assert bits[pos..pos + |x|][|y|] == bits[pos + |y|];
    }
  }

  lemma AtSplit(bits: seq<bool>, pos: nat, x: seq<bool>, y: seq<bool>)
    requires At(bits, pos, x + y)
    ensures At(bits, pos, x) && At(bits, pos + |x|, y)
  {
    assert bits[pos..pos + |x|] == (x + y)[..|x|] == x;
    assert bits[pos + |x|..pos + |x| + |y|] == (x + y)[|x|..] == y;
  }

  /** The number of bits `getLong(n)` reads: none when `n` is not
      positive. */
  function Width(n: int): nat {
    if n > 0 then n else 0
  }

  /** `getLong(n)`: the next `n` bits as a `long`. */
  function GetLongAt(bits: seq<bool>, pos: nat, n: int): int64 {
    Wrap64(ReadBits(bits, pos, Width(n)))
  }

  lemma GetLongOf(bits: seq<bool>, pos: nat, x: seq<bool>)
    requires At(bits, pos, x)
    ensures GetLongAt(bits, pos, |x|) == FieldValue(x)
  {
    ReadBitsAt(bits, pos, x);
  }

  /** A field of fewer than 64 bits reads as the number it denotes. */
  lemma ShortFieldValue(x: seq<bool>)
    requires |x| < 64
    ensures FieldValue(x) == BitsToNat(x) < Pow2(|x|)
  {
    BitsToNatBound(x);
    Pow2Monotone(|x|, 63);
    Pow2Constants();
  }

  /** A bit of a string lying at `pos`. */
  lemma AtBit(bits: seq<bool>, pos: nat, x: seq<bool>, k: nat)
    requires At(bits, pos, x) && k < |x|
    ensures Bit(bits, pos + k) == x[k]
  {
    assert bits[pos..pos + |x|][k] == bits[pos + k];
  }

  // ---------------------------------------------------------------------
  // Decoder state and steps

  datatype Decoder = Decoder(
    pos: nat,              // the bit input's cursor
    leading: int,          // storedLeadingZeros
    trailing: int,         // storedTrailingZeros
    value: int64,          // storedVal
    timestamp: int64,      // storedTimestamp
    delta: int64,          // storedDelta
    block: int64,          // blockTimestamp
    endOfStream: bool,
    pairCount: int32,
    counter: int)

  /** The constructor: the fields take their initial values and the header
      is read as `blockTimestamp`. */
  function Start(bits: seq<bool>, pos: nat, pairCount: int32): Decoder {
    Decoder(pos + 64, INT_MAX, 0, 0, 0, 0, GetLongAt(bits, pos, 64), false, pairCount, 0)
  }

  /** `bitsToRead`: the width of the delta-of-delta field announced by the
      control prefix `0`, `10`, `110`, `1110` or `1111` ... */
  function ControlWidth(bits: seq<bool>, pos: nat): nat {
    if !Bit(bits, pos) then 0
    else if !Bit(bits, pos + 1) then 7
    else if !Bit(bits, pos + 2) then 9
    else if !Bit(bits, pos + 3) then 12
    else 32
  }

  /** ... and the number of bits that prefix takes. */
  function ControlSize(bits: seq<bool>, pos: nat): nat {
    if !Bit(bits, pos) then 1
    else if !Bit(bits, pos + 1) then 2
    else if !Bit(bits, pos + 2) then 3
    else 4
  }

  /** An "unsigned" 7, 9 or 12-bit field turned back into a signed one. */
  function ToSigned(raw: int, n: nat): int
    requires n >= 1
  {
    if raw > Pow2(n - 1) then raw - Pow2(n) else raw
  }

  /** The last two statements of `nextTimestamp`: the delta grows by the
      delta of delta and the timestamp by the new delta. */
  function AddDelta(s: Decoder, pos: nat, dd: int): Decoder {
    var delta := Wrap64(s.delta + dd);
    s.(pos := pos, delta := delta, timestamp := Wrap64(delta + s.timestamp))
  }

  /** `nextTimestamp`: the control prefix, then the field it announces. */
  function DecodeTimestamp(s: Decoder, bits: seq<bool>): Decoder {
    DeltaOfDelta(s, bits, s.pos + ControlSize(bits, s.pos), ControlWidth(bits, s.pos))
  }

  /** A 32-bit field of all ones at `pos` marks the end of the stream. */
  predicate EndMarker(bits: seq<bool>, pos: nat, toRead: nat) {
    toRead == 32 && Wrap32(GetLongAt(bits, pos, 32)) == -1
  }

  /** The delta of delta that a field of `toRead` bits at `pos` stands for:
      a 7, 9 or 12-bit field is sign-adjusted, and the result is cast to
      `int`. */
  function FieldDelta(bits: seq<bool>, pos: nat, toRead: nat): int {
    if toRead == 0 then 0
    else
      var raw := GetLongAt(bits, pos, toRead);
      Wrap32(if toRead != 32 then ToSigned(raw, toRead) else raw)
  }

  /** The rest of `nextTimestamp`, once the control prefix has announced a
      field of `toRead` bits at `pos`. */
  function DeltaOfDelta(s: Decoder, bits: seq<bool>, pos: nat, toRead: nat): Decoder {
    if EndMarker(bits, pos, toRead) then s.(pos := pos + 32, endOfStream := true)
    else AddDelta(s, pos + toRead, FieldDelta(bits, pos, toRead))
  }

  /** After a value control `11`: the 5-bit leading count and the 6-bit
      significant count, 0 standing for 64, give the new leading and
      trailing counts. A 6-bit field is below 128, so the `(byte)` cast
      keeps it. */
  function LoadWindow(s: Decoder, bits: seq<bool>): Decoder {
    var leading := Wrap32(GetLongAt(bits, s.pos, 5));
    var sig := GetLongAt(bits, s.pos + 5, 6);
    var significant := if sig == 0 then 64 else sig;
    s.(pos := s.pos + 11, leading := leading, trailing := Wrap32(64 - significant - leading))
  }

  /** The end of `nextValue`: the next `64 - leading - trailing` bits,
      shifted left by trailing, are XORed into the stored value. The shift
      distance of Java's `<<` on a `long` is taken modulo 64. */
  function ReadValue(s: Decoder, bits: seq<bool>): Decoder {
    var n := Wrap32(64 - s.leading - s.trailing);
    s.(pos := s.pos + Width(n),
       value := Xor(s.value, ShiftLeft(GetLongAt(bits, s.pos, n), s.trailing % 64)))
  }

  /** `nextValue`: control `0` keeps the value, `10` keeps the window and
      `11` loads a new one. */
  function DecodeValue(s: Decoder, bits: seq<bool>): Decoder {
    if !Bit(bits, s.pos) then s.(pos := s.pos + 1)
    else if !Bit(bits, s.pos + 1) then ReadValue(s.(pos := s.pos + 2), bits)
    else ReadValue(LoadWindow(s.(pos := s.pos + 2), bits), bits)
  }

  /** The first pair: a `FIRST_DELTA_BITS`-wide offset from the header and a
      raw 64-bit value. */
  function DecodeFirst(s: Decoder, bits: seq<bool>): Decoder {
    var delta := GetLongAt(bits, s.pos, FIRST_DELTA_BITS);
    s.(pos := s.pos + FIRST_DELTA_BITS + 64, delta := delta,
       value := GetLongAt(bits, s.pos + FIRST_DELTA_BITS, 64),
       timestamp := Wrap64(s.block + delta))
  }

  /** `next`: the first pair is recognised by a stored timestamp of 0; every
      later pair is a timestamp then a value. Once `pairCount` pairs are read
      the stream has ended. */
  function Advance(s: Decoder, bits: seq<bool>): Decoder {
    if s.counter < s.pairCount then
      var s' :=
        if s.timestamp == 0 then DecodeFirst(s, bits)
        else DecodeValue(DecodeTimestamp(s, bits), bits);
      s'.(counter := s'.counter + 1)
    else
      s.(endOfStream := true)
  }

  /** What `readPair` returns after `next`: the stored pair, or `null` once
      the stream has ended. */
  function Emit(s: Decoder): Option<Pair> {
    if s.endOfStream then None else Some(Pair(s.timestamp, s.value))
  }

  /** The results of `k` successive `readPair` calls from state `s`. */
  function DecodePairs(s: Decoder, bits: seq<bool>, k: nat): seq<Option<Pair>>
    decreases k, 1
  {
    if k == 0 then [] else DecodeNext(s, bits, k)
  }

  /** One `readPair` and then `k - 1` more. Kept apart from `DecodePairs` so
      that unfolding a run of calls one step does not also unfold `next`. */
  function DecodeNext(s: Decoder, bits: seq<bool>, k: nat): seq<Option<Pair>>
    requires k > 0
    decreases k, 0
  {
    var s' := Advance(s, bits);
    [Emit(s')] + DecodePairs(s', bits, k - 1)
  }

  // ---------------------------------------------------------------------
  // What the decoder promises

  /** `k` calls are one call and then `k - 1` more. */
  lemma DecodeCons(s: Decoder, bits: seq<bool>, k: nat)
    requires k > 0
    ensures DecodePairs(s, bits, k) == [Emit(Advance(s, bits))] + DecodePairs(Advance(s, bits), bits, k - 1)
  {
    assert DecodePairs(s, bits, k) == DecodeNext(s, bits, k);
  }

  /** Construction reads exactly the 64-bit header, as `blockTimestamp`, and
      nothing else; no pair has been read yet. */
  lemma StartReadsHeader(bits: seq<bool>, pos: nat, h: int64, pairCount: int32)
    requires At(bits, pos, Word(h))
    ensures Start(bits, pos, pairCount).block == h
    ensures Start(bits, pos, pairCount).pos == pos + 64
    ensures Start(bits, pos, pairCount).counter == 0
    ensures !Start(bits, pos, pairCount).endOfStream
  {
    GetLongOf(bits, pos, Word(h));
    FromWordRoundTrip(Word(h));
    WordRoundTrip(h);
  }

  /** Once `pairCount` pairs have been read, `readPair` returns `null`,
      reads no bit and changes nothing but the end-of-stream flag. */
  lemma ExhaustedReadsNothing(s: Decoder, bits: seq<bool>)
    requires s.counter >= s.pairCount
    ensures Advance(s, bits) == s.(endOfStream := true)
    ensures Emit(Advance(s, bits)) == None
  {
  }

  /** Each `next` before the count is reached counts one pair; none changes
      the count of pairs expected. */
  lemma AdvanceCounts(s: Decoder, bits: seq<bool>)
    ensures Advance(s, bits).pairCount == s.pairCount
    ensures s.counter < s.pairCount ==> Advance(s, bits).counter == s.counter + 1
  {
    if s.counter < s.pairCount && s.timestamp != 0 {
      var t := DecodeTimestamp(s, bits);
      assert t.counter == s.counter && t.pairCount == s.pairCount;
      var v := DecodeValue(t, bits);
      assert v.counter == t.counter && v.pairCount == t.pairCount;
    }
  }

  /** The end of the stream is final: `next` never clears the flag. */
  lemma EndIsFinal(s: Decoder, bits: seq<bool>)
    requires s.endOfStream
    ensures Advance(s, bits).endOfStream
  {
  }

  /** `k` calls that all return `null`. */
  function Nulls(k: nat): (r: seq<Option<Pair>>)
    ensures |r| == k && forall i :: 0 <= i < k ==> r[i] == None
  {
    seq(k, _ => None)
  }

  /** Once the stream has ended, every further `readPair` returns `null`. */
  lemma {:induction false} EndedStaysNull(s: Decoder, bits: seq<bool>, k: nat)
    requires s.endOfStream
    ensures DecodePairs(s, bits, k) == Nulls(k)
    decreases k
  {
    if k > 0 {
      var s' := Advance(s, bits);
      EndIsFinal(s, bits);
      EndedStaysNull(s', bits, k - 1);
      DecodeCons(s, bits, k);
    }
  }

  /** So with `pairCount` pairs read, and in particular with `pairCount` = 0
      from the start, every call returns `null`. */
  lemma ExhaustedStaysNull(s: Decoder, bits: seq<bool>, k: nat)
    requires s.counter >= s.pairCount
    ensures DecodePairs(s, bits, k) == Nulls(k)
  {
    if k > 0 {
      var s' := Advance(s, bits);
      EndedStaysNull(s', bits, k - 1);
      DecodeCons(s, bits, k);
    }
  }

  /** The first pair is the header plus a `FIRST_DELTA_BITS`-wide offset,
      and the next 64 bits as the value. */
  lemma FirstPair(s: Decoder, bits: seq<bool>, d: seq<bool>, v: int64)
    requires |d| == FIRST_DELTA_BITS && At(bits, s.pos, d) && At(bits, s.pos + FIRST_DELTA_BITS, Word(v))
    ensures DecodeFirst(s, bits) ==
      s.(pos := s.pos + FIRST_DELTA_BITS + 64, delta := FieldValue(d), value := v,
         timestamp := Wrap64(s.block + FieldValue(d)))
  {
    GetLongOf(bits, s.pos, d);
    GetLongOf(bits, s.pos + FIRST_DELTA_BITS, Word(v));
    FromWordRoundTrip(Word(v));
    WordRoundTrip(v);
  }

  /** The control prefix that announces each field width. */
  function ControlBits(toRead: nat): seq<bool> {
    if toRead == 0 then [false]
    else if toRead == 7 then [true, false]
    else if toRead == 9 then [true, true, false]
    else if toRead == 12 then [true, true, true, false]
    else [true, true, true, true]
  }

  predicate IsWidth(n: nat) {
    n == 0 || n == 7 || n == 9 || n == 12 || n == 32
  }

  /** `bitsToRead` reads exactly the control prefix, which is at most four
      bits ending at the first 0, and returns the width it announces. */
  lemma ControlRoundTrip(bits: seq<bool>, pos: nat, toRead: nat)
    requires IsWidth(toRead) && At(bits, pos, ControlBits(toRead))
    ensures ControlWidth(bits, pos) == toRead
    ensures ControlSize(bits, pos) == |ControlBits(toRead)|
  {
    var c := ControlBits(toRead);
    AtBit(bits, pos, c, 0);
    if |c| > 1 { AtBit(bits, pos, c, 1); }
    if |c| > 2 { AtBit(bits, pos, c, 2); }
    if |c| > 3 { AtBit(bits, pos, c, 3); }
  }

  /** A control prefix followed by a field: `bitsToRead` reads the prefix
      and the field lies right after it. */
  lemma ControlThen(bits: seq<bool>, pos: nat, n: nat, f: seq<bool>)
    requires IsWidth(n) && At(bits, pos, ControlBits(n) + f)
    ensures ControlWidth(bits, pos) == n
    ensures ControlSize(bits, pos) == |ControlBits(n)|
    ensures At(bits, pos + |ControlBits(n)|, f)
  {
    AtSplit(bits, pos, ControlBits(n), f);
    ControlRoundTrip(bits, pos, n);
  }

  /** The delta of delta in an `n`-bit field: a negative one is stored as
      its `n`-bit two's complement. */
  function SignedField(dd: int, n: nat): seq<bool>
    requires dd + Pow2(n) >= 0
  {
    NatToBits(if dd < 0 then dd + Pow2(n) else dd, n)
  }

  predicate FitsField(dd: int, n: nat) {
    n >= 1 && 0 < dd + Pow2(n - 1) && dd <= Pow2(n - 1)
  }

  /** The sign adjustment undoes the two's complement: a raw value above
      2^(n-1) has 2^n subtracted. */
  lemma SignedFieldRoundTrip(dd: int, n: nat)
    requires FitsField(dd, n) && n <= 12
    ensures ToSigned(BitsToNat(SignedField(dd, n)), n) == dd
    ensures Wrap32(dd) == dd
  {
    var h := Pow2(n - 1);
    assert h <= 2048 by {
      Pow2Monotone(n - 1, 11);
      Pow2Small();
    }
    assert Pow2(n) == 2 * h;
    var raw := if dd < 0 then dd + 2 * h else dd;
    assert BitsToNat(SignedField(dd, n)) == raw by {
      NatToBitsToNat(raw, n);
    }
    NarrowFits(dd);
  }

  /** A 32-bit field holds an `int` as its unsigned reading. */
  lemma WideFieldRoundTrip(dd: int)
    requires IsInt(dd)
    ensures Wrap32(BitsToNat(NatToBits(Unsigned32(dd), 32))) == dd
  {
    Pow2Half();
    NatToBitsToNat(Unsigned32(dd), 32);
  }

  /** Once the control prefix is read, the rest of `nextTimestamp` reads
      at the cursor it is given, whatever the state held before. */
  lemma PositionOverwritten(s: Decoder, q: nat, bits: seq<bool>, toRead: nat)
    ensures DeltaOfDelta(s.(pos := q), bits, q, toRead) == DeltaOfDelta(s, bits, q, toRead)
  {
  }

  /** A timestamp control bit 0 repeats the last delta. */
  lemma TimestampRepeats(s: Decoder, bits: seq<bool>)
    requires !Bit(bits, s.pos)
    ensures DecodeTimestamp(s, bits) ==
      s.(pos := s.pos + 1, timestamp := Wrap64(s.delta + s.timestamp))
  {
  }

  /** `nextTimestamp` reads the control prefix and then the field right
      after it. */
  lemma TimestampControl(s: Decoder, bits: seq<bool>, n: nat, f: seq<bool>)
    requires IsWidth(n) && At(bits, s.pos, ControlBits(n) + f)
    ensures DecodeTimestamp(s, bits) == DeltaOfDelta(s, bits, s.pos + |ControlBits(n)|, n)
    ensures At(bits, s.pos + |ControlBits(n)|, f)
  {
    ControlThen(bits, s.pos, n, f);
  }

  /** After a 7, 9 or 12-bit control the raw field is turned back into a
      signed delta of delta, which is added to the delta. */
  lemma TimestampNarrow(s: Decoder, bits: seq<bool>, p: nat, n: nat, f: seq<bool>)
    requires (n == 7 || n == 9 || n == 12) && |f| == n && At(bits, p, f)
    ensures DeltaOfDelta(s, bits, p, n) == AddDelta(s, p + n, Wrap32(ToSigned(BitsToNat(f), n)))
  {
    assert GetLongAt(bits, p, n) == BitsToNat(f) by {
      GetLongOf(bits, p, f);
      ShortFieldValue(f);
    }
  }

  /** After a 32-bit control a field of all ones ends the stream and moves
      neither delta nor timestamp; any other value is the delta of delta as
      an `int`. */
  lemma TimestampWide(s: Decoder, bits: seq<bool>, p: nat, f: seq<bool>)
    requires |f| == 32 && At(bits, p, f)
    ensures Wrap32(BitsToNat(f)) == -1 ==>
      DeltaOfDelta(s, bits, p, 32) == s.(pos := p + 32, endOfStream := true)
    ensures Wrap32(BitsToNat(f)) != -1 ==>
      DeltaOfDelta(s, bits, p, 32) == AddDelta(s, p + 32, Wrap32(BitsToNat(f)))
  {
    assert GetLongAt(bits, p, 32) == BitsToNat(f) by {
      GetLongOf(bits, p, f);
      ShortFieldValue(f);
    }
  }

  /** A delta of delta that fits a 7, 9 or 12-bit field, behind the control
      prefix that announces that width, is added to the delta and the new
      delta to the timestamp. */
  lemma TimestampUpdate(s: Decoder, bits: seq<bool>, n: nat, dd: int)
    requires (n == 7 || n == 9 || n == 12) && FitsField(dd, n)
    requires At(bits, s.pos, ControlBits(n) + SignedField(dd, n))
    ensures DecodeTimestamp(s, bits) == AddDelta(s, s.pos + |ControlBits(n)| + n, dd)
  {
    var f := SignedField(dd, n);
    var p := s.pos + |ControlBits(n)|;
    TimestampControl(s, bits, n, f);
    SignedFieldRoundTrip(dd, n);
    TimestampNarrow(s, bits, p, n, f);
    Chain(s, bits, p, n, Wrap32(ToSigned(BitsToNat(f), n)), dd);
  }
  lemma Chain(s: Decoder, bits: seq<bool>, p: nat, n: nat, x: int, dd: int)
    requires x == dd
    requires DecodeTimestamp(s, bits) == DeltaOfDelta(s, bits, p, n)
    requires DeltaOfDelta(s, bits, p, n) == AddDelta(s, p + n, x)
    ensures DecodeTimestamp(s, bits) == AddDelta(s, p + n, dd)
  {}

  /** A 32-bit delta of delta other than -1 is added the same way. */
  lemma TimestampUpdateWide(s: Decoder, bits: seq<bool>, dd: int)
    requires IsInt(dd) && dd != -1
    requires At(bits, s.pos, ControlBits(32) + NatToBits(Unsigned32(dd), 32))
    ensures DecodeTimestamp(s, bits) == AddDelta(s, s.pos + 36, dd)
  {
    var f := NatToBits(Unsigned32(dd), 32);
    TimestampControl(s, bits, 32, f);
    WideFieldRoundTrip(dd);
    TimestampWide(s, bits, s.pos + 4, f);
  }

  /** A 32-bit field of all ones ends the stream: neither delta nor
      timestamp moves, and the pair read is `null`. */
  lemma AllOnesEndsStream(s: Decoder, bits: seq<bool>)
    requires s.counter < s.pairCount && s.timestamp != 0
    requires At(bits, s.pos, ControlBits(32) + NatToBits(TWO_32 - 1, 32))
    ensures DecodeTimestamp(s, bits) == s.(pos := s.pos + 36, endOfStream := true)
    ensures Emit(Advance(s, bits)) == None
  {
    var f := NatToBits(TWO_32 - 1, 32);
    TimestampControl(s, bits, 32, f);
    EndMarkerField(TWO_32 - 1);
    TimestampWide(s, bits, s.pos + 4, f);
    EndSurvivesValue(s, bits);
  }

  lemma EndMarkerField(x: nat)
    requires x == TWO_32 - 1
    ensures Wrap32(BitsToNat(NatToBits(x, 32))) == -1
  {
    Pow2Half();
    NatToBitsToNat(x, 32);
    var y := BitsToNat(NatToBits(x, 32));
    assert y == x;
    AllOnesInt(y);
  }

  /** `nextValue` still runs after `nextTimestamp` has found the end of the
      stream, but it leaves the flag set. */
  lemma EndSurvivesValue(s: Decoder, bits: seq<bool>)
    requires s.counter < s.pairCount && s.timestamp != 0
    requires DecodeTimestamp(s, bits).endOfStream
    ensures Emit(Advance(s, bits)) == None
  {
    var t := DecodeTimestamp(s, bits);
    assert DecodeValue(t, bits).endOfStream;
  }

  /** A value control bit 0 keeps the previous value. */
  lemma ValueRepeats(s: Decoder, bits: seq<bool>)
    requires !Bit(bits, s.pos)
    ensures DecodeValue(s, bits) == s.(pos := s.pos + 1)
  {
  }

  /** The `64 - leading - trailing` bits of the stored window, shifted left
      by trailing, are XORed into the previous value. */
  lemma ValueRead(s: Decoder, bits: seq<bool>, mid: seq<bool>)
    requires 0 <= s.leading && 0 <= s.trailing < 64 && |mid| == 64 - s.leading - s.trailing
    requires At(bits, s.pos, mid)
    ensures ReadValue(s, bits) ==
      s.(pos := s.pos + |mid|, value := Xor(s.value, ShiftLeft(FieldValue(mid), s.trailing)))
  {
    var n := Wrap32(64 - s.leading - s.trailing);
    assert n == |mid| && Width(n) == |mid|;
    assert GetLongAt(bits, s.pos, n) == FieldValue(mid) by {
      GetLongOf(bits, s.pos, mid);
    }
    assert s.trailing % 64 == s.trailing;
  }

  /** The new window: a 5-bit leading count, and a 6-bit significant count
      standing for 64 when it is 0; trailing is what is left. */
  lemma WindowLoad(s: Decoder, bits: seq<bool>, a: seq<bool>, b: seq<bool>)
    requires |a| == 5 && |b| == 6 && At(bits, s.pos, a) && At(bits, s.pos + 5, b)
    ensures LoadWindow(s, bits) ==
      s.(pos := s.pos + 11, leading := BitsToNat(a),
         trailing := 64 - (if BitsToNat(b) == 0 then 64 else BitsToNat(b)) - BitsToNat(a))
  {
    var l: int, g: int := BitsToNat(a), BitsToNat(b);
    assert l < 32 && g < 64 by {
      BitsToNatBound(a);
      BitsToNatBound(b);
      Pow2Small();
    }
    assert GetLongAt(bits, s.pos, 5) == l by {
      GetLongOf(bits, s.pos, a);
      ShortFieldValue(a);
    }
    assert GetLongAt(bits, s.pos + 5, 6) == g by {
      GetLongOf(bits, s.pos + 5, b);
      ShortFieldValue(b);
    }
    NarrowFits(l);
    NarrowFits(64 - (if g == 0 then 64 else g) - l);
  }

  /** Control `10` reuses the stored leading and trailing counts. */
  lemma ValueSameWindow(s: Decoder, bits: seq<bool>, mid: seq<bool>)
    requires 0 <= s.leading && 0 <= s.trailing < 64 && |mid| == 64 - s.leading - s.trailing
    requires At(bits, s.pos, [true, false]) && At(bits, s.pos + 2, mid)
    ensures DecodeValue(s, bits) ==
      s.(pos := s.pos + 2 + |mid|, value := Xor(s.value, ShiftLeft(FieldValue(mid), s.trailing)))
  {
    AtBit(bits, s.pos, [true, false], 0);
    AtBit(bits, s.pos, [true, false], 1);
    ValueRead(s.(pos := s.pos + 2), bits, mid);
  }

  /** Control `11` loads a 5-bit leading count and a 6-bit significant count
      (0 standing for 64), sets trailing = 64 - significant - leading, and
      XORs the next `significant` bits, shifted left by trailing, into the
      previous value. */
  lemma ValueNewWindow(s: Decoder, bits: seq<bool>, a: seq<bool>, b: seq<bool>, mid: seq<bool>)
    requires At(bits, s.pos, [true, true])
    requires |a| == 5 && At(bits, s.pos + 2, a) && |b| == 6 && At(bits, s.pos + 7, b)
    requires BitsToNat(a) + |mid| <= 64 && 0 < |mid|
    requires |mid| == (if BitsToNat(b) == 0 then 64 else BitsToNat(b))
    requires At(bits, s.pos + 13, mid)
    ensures DecodeValue(s, bits) ==
      s.(pos := s.pos + 13 + |mid|, leading := BitsToNat(a), trailing := 64 - |mid| - BitsToNat(a),
         value := Xor(s.value, ShiftLeft(FieldValue(mid), 64 - |mid| - BitsToNat(a))))
  {
    var w := s.(pos := s.pos + 2);
    var l := LoadWindow(w, bits);
    assert DecodeValue(s, bits) == ReadValue(l, bits) by {
      AtBit(bits, s.pos, [true, true], 0);
      AtBit(bits, s.pos, [true, true], 1);
    }
    var lead, trail := BitsToNat(a), 64 - |mid| - BitsToNat(a);
    assert l == w.(pos := s.pos + 13, leading := lead, trailing := trail) by {
      WindowLoad(w, bits, a, b);
    }
    ValueRead(l, bits, mid);
  }

  // ---------------------------------------------------------------------
  // The classes

  /** The bit input: a fixed bit string and a cursor. */
  class BitInput {
    const bits: seq<bool>
    var pos: nat

    constructor (bits: seq<bool>)
      ensures this.bits == bits && pos == 0
    {
      this.bits := bits;
      pos := 0;
    }

    /** `readBit`. */
    method ReadBit() returns (b: bool)
      modifies this
      ensures b == Bit(bits, old(pos)) && pos == old(pos) + 1
    {
      b := Bit(bits, pos);
      pos := pos + 1;
    }

    /** `getLong(n)`: `n` bits, most significant first. */
    method GetLong(n: int) returns (v: int64)
      modifies this
      ensures v == GetLongAt(bits, old(pos), n) && pos == old(pos) + Width(n)
    {
      var k := Width(n);
      var acc: nat := 0;
      var i := 0;
      while i < k
        invariant 0 <= i <= k && pos == old(pos) + i
        invariant acc == ReadBits(bits, old(pos), i)
      {
        var b := ReadBit();
        acc := 2 * acc + (if b then 1 else 0);
        i := i + 1;
      }
      v := Wrap64(acc);
    }
  }

  class Reader {
    var storedLeadingZeros: int
    var storedTrailingZeros: int
    var storedVal: int64
    var storedTimestamp: int64
    var storedDelta: int64
    var blockTimestamp: int64
    var endOfStream: bool
    const input: BitInput
    const pairCount: int32
    var counter: int

    ghost function State(): Decoder
      reads this, input
    {
      Decoder(input.pos, storedLeadingZeros, storedTrailingZeros, storedVal, storedTimestamp,
        storedDelta, blockTimestamp, endOfStream, pairCount, counter)
    }

    constructor (input: BitInput, pairCount: int32)
      modifies input
      ensures this.input == input
      ensures State() == Start(input.bits, old(input.pos), pairCount)
    {
      storedLeadingZeros := INT_MAX;
      storedTrailingZeros := 0;
      storedVal := 0;
      storedTimestamp := 0;
      storedDelta := 0;
      blockTimestamp := 0;
      endOfStream := false;
      this.input := input;
      this.pairCount := pairCount;
      counter := 0;
      new;
      ReadHeader();
    }

    method ReadHeader()
      modifies this, input
      ensures State() == old(State()).(pos := old(input.pos) + 64,
        block := GetLongAt(input.bits, old(input.pos), 64))
    {
      blockTimestamp := input.GetLong(64);
    }

    method ReadPair() returns (p: Option<Pair>)
      modifies this, input
      ensures State() == Advance(old(State()), input.bits)
      ensures p == Emit(State())
    {
      Next();
      if endOfStream {
        return None;
      }
      return Some(Pair(storedTimestamp, storedVal));
    }

    method Next()
      modifies this, input
      ensures State() == Advance(old(State()), input.bits)
    {
      if counter < pairCount {
        if storedTimestamp == 0 {
          storedDelta := input.GetLong(FIRST_DELTA_BITS);
          storedVal := input.GetLong(64);
          storedTimestamp := Wrap64(blockTimestamp + storedDelta);
        } else {
          NextTimestamp();
          NextValue();
        }
        counter := counter + 1;
      } else {
        endOfStream := true;
      }
    }

    /** The control prefix, read one bit at a time: the loop stops at the
        first 0 or after four 1s. */
    method BitsToRead() returns (toRead: nat)
      modifies input
      ensures toRead == ControlWidth(input.bits, old(input.pos))
      ensures input.pos == old(input.pos) + ControlSize(input.bits, old(input.pos))
    {
      var val := 0;
      var i := 0;
      while i < 4
        invariant 0 <= i <= 4 && input.pos == old(input.pos) + i
        invariant val == Pow2(i) - 1
        invariant forall k :: old(input.pos) <= k < old(input.pos) + i ==> Bit(input.bits, k)
      {
        val := val * 2;
        var bit := input.ReadBit();
        if bit {
          val := val + 1;  // `val |= 1` on an even value
        } else {
          break;
        }
        i := i + 1;
      }
      toRead := 0;
      if val == 0x02 {
        toRead := 7;
      } else if val == 0x06 {
        toRead := 9;
      } else if val == 0x0e {
        toRead := 12;
      } else if val == 0x0F {
        toRead := 32;
      }
    }

    method NextTimestamp()
      modifies this, input
      ensures State() == DecodeTimestamp(old(State()), input.bits)
    {
      ghost var s := State();
      var toRead := BitsToRead();
      ghost var p := input.pos;
      ReadDeltaOfDelta(toRead);
      PositionOverwritten(s, p, input.bits, toRead);
    }

    /** The part of `nextTimestamp` after `bitsToRead`. */
    method ReadDeltaOfDelta(toRead: nat)
      modifies this, input
      ensures State() == DeltaOfDelta(old(State()), input.bits, old(input.pos), toRead)
    {
      ghost var s, p := State(), input.pos;
      var deltaDelta := 0;
      if toRead > 0 {
        deltaDelta := input.GetLong(toRead);
        if toRead == 32 {
          if Wrap32(deltaDelta) == -1 {
            endOfStream := true;
            return;
          }
        } else {
          if deltaDelta > Pow2(toRead - 1) {
            deltaDelta := deltaDelta - Pow2(toRead);
          }
        }
        deltaDelta := Wrap32(deltaDelta);
      }
      assert !EndMarker(input.bits, p, toRead) && deltaDelta == FieldDelta(input.bits, p, toRead);
      var delta := Wrap64(storedDelta + deltaDelta);
      storedDelta := delta;
      storedTimestamp := Wrap64(delta + storedTimestamp);
    }

    method NextValue()
      modifies this, input
      ensures State() == DecodeValue(old(State()), input.bits)
    {
      ghost var s := State();
      var control := input.ReadBit();
      if control {
        var newWindow := input.ReadBit();
        ghost var w := s.(pos := s.pos + 2);
        if newWindow {
          ReadWindowCounts();
          w := LoadWindow(w, input.bits);
        }
        assert State() == w;
        ReadValueBits();
      }
    }

    /** After control `11`: the new leading and trailing counts. */
    method ReadWindowCounts()
      modifies this, input
      ensures State() == LoadWindow(old(State()), input.bits)
    {
      var l := input.GetLong(5);
      storedLeadingZeros := Wrap32(l);
      // the `(byte)` cast keeps a 6-bit field
      var significantBits := input.GetLong(6);
      if significantBits == 0 {
        significantBits := 64;
      }
      storedTrailingZeros := Wrap32(64 - significantBits - storedLeadingZeros);
    }

    /** The meaningful bits of the XOR, put back in place and XORed into the
        stored value. */
    method ReadValueBits()
      modifies this, input
      ensures State() == ReadValue(old(State()), input.bits)
    {
      var value := input.GetLong(Wrap32(64 - storedLeadingZeros - storedTrailingZeros));
      value := ShiftLeft(value, storedTrailingZeros % 64);
      value := Xor(storedVal, value);
      storedVal := value;
    }
  }
}
