/** The Gorilla compressor whose output `GorillaReader` decodes. The writer
    class is not part of this model; this module writes out the encoding the
    decoder expects, as Facebook's Gorilla paper describes it and as the
    decoder reads it: a 64-bit header, a first pair as a 27-bit offset from
    the header and a raw 64-bit value, then every later timestamp as a delta
    of deltas behind a control prefix and every later value as its XOR with
    the previous value, inside a window of leading and trailing zeros.

    The main result is the round trip: decoding the bits of any encodable
    sequence of pairs returns the same pairs in order, then `null`. */
module GorillaWriter {
  import opened Wrappers
  import opened JavaInt
  import opened Bits
  import opened GorillaReader

  /** The compressor's state: the bits written so far and the fields the
      decoder keeps in step with. */
  datatype Encoder = Encoder(
    out: seq<bool>,
    block: int64,       // the header timestamp
    timestamp: int64,   // the last timestamp written, 0 before the first
    delta: int64,       // the last delta written
    value: int64,       // the last value written
    leading: nat,       // the stored window of leading zeros ...
    trailing: nat)      // ... and of trailing zeros

  /** A new compressor has written only the header. Its window matches the
      decoder's initial one: no value can reuse it. */
  function NewEncoder(header: int64): (e: Encoder)
    ensures e.out == Word(header) && e.block == header && e.timestamp == 0
  {
    Encoder(Word(header), header, 0, 0, 0, INT_MAX, 0)
  }

  /** `writeBits(v, n)`: the low `n` bits of `v`, none when `n` is not
      positive. */
  function WriteBits(v: int64, n: int): (r: seq<bool>)
    ensures |r| == Width(n)
  {
    LowBits(v, Width(n))
  }

  /** The first pair: the offset from the header in `FIRST_DELTA_BITS` bits,
      then the raw value. */
  function WriteFirst(e: Encoder, p: Pair): (r: Encoder)
    ensures |r.out| > |e.out| && r.out[..|e.out|] == e.out
    ensures r.block == e.block && r.timestamp == p.timestamp && r.value == p.value
    ensures r.delta == Wrap64(p.timestamp - e.block)
  {
    var delta := Wrap64(p.timestamp - e.block);
    var out := e.out + LowBits(delta, FIRST_DELTA_BITS) + Word(p.value);
    assert out[..|e.out|] == e.out;
    e.(out := out, delta := delta, timestamp := p.timestamp, value := p.value)
  }

  /** The delta of delta a timestamp would be written as. */
  function DeltaOfDeltaOf(e: Encoder, ts: int64): int64 {
    Wrap64(Wrap64(ts - e.timestamp) - e.delta)
  }

  /** The narrowest field that holds a delta of delta: none for 0, then 7, 9
      and 12 bits for the ranges the control prefixes stand for, else 32. */
  function FieldWidth(dd: int): (n: nat)
    ensures IsWidth(n)
    ensures n == 0 <==> dd == 0
    ensures n == 7 || n == 9 || n == 12 ==> FitsField(dd, n)
  {
    Pow2Small();
    if dd == 0 then 0
    else if -63 <= dd <= 64 then 7
    else if -255 <= dd <= 256 then 9
    else if -2047 <= dd <= 2048 then 12
    else 32
  }

  /** A later timestamp: the control prefix for its field width, then the
      delta of delta in that many bits. */
  function CompressTimestamp(e: Encoder, ts: int64): (r: Encoder)
    ensures |r.out| >= |e.out| && r.out[..|e.out|] == e.out
    ensures r.block == e.block && r.timestamp == ts && r.delta == Wrap64(ts - e.timestamp)
  {
    var delta := Wrap64(ts - e.timestamp);
    var dd := DeltaOfDeltaOf(e, ts);
    var n := FieldWidth(dd);
    var out := e.out + ControlBits(n) + LowBits(dd, n);
    assert out[..|e.out|] == e.out;
    e.(out := out, delta := delta, timestamp := ts)
  }

  /** `Long.numberOfLeadingZeros`. */
  function LeadingZeros(x: int64): (r: nat)
    ensures r + BitLength(Unsigned64(x)) == 64
  {
    BitLengthWord(Unsigned64(x));
    64 - BitLength(Unsigned64(x))
  }

  /** The leading-zero count the compressor stores: at most 31, so that it
      fits the 5-bit field. */
  function LeadingCount(x: int64): (r: nat)
    ensures r <= 31 && r <= LeadingZeros(x)
  {
    var lz := LeadingZeros(x);
    if lz >= 32 then 31 else lz
  }

  /** A later value: `0` when it equals the previous one; `10` and the
      meaningful bits of the XOR when they fit the stored window; otherwise
      `11`, a 5-bit leading count, a 6-bit significant count and the
      meaningful bits, and the window is replaced. The shift distance of
      `>>>` is taken modulo 64, as Java does. */
  function CompressValue(e: Encoder, v: int64): (r: Encoder)
    ensures |r.out| > |e.out| && r.out[..|e.out|] == e.out
    ensures r.block == e.block && r.timestamp == e.timestamp && r.delta == e.delta
    ensures r.value == v
  {
    var x := Xor(e.value, v);
    if x == 0 then e.(out := e.out + [false], value := v)
    else
      var lead := LeadingCount(x);
      var trail := TrailingZerosOf(Unsigned64(x), 64);
      if lead >= e.leading && trail >= e.trailing then
        var mid := WriteBits(ShiftRightUnsigned(x, e.trailing % 64), 64 - e.leading - e.trailing);
        assert (e.out + [true, false] + mid)[..|e.out|] == e.out;
        e.(out := e.out + [true, false] + mid, value := v)
      else
        var sig := 64 - lead - trail;
        var mid := WriteBits(ShiftRightUnsigned(x, trail % 64), sig);
        var out := e.out + [true, true] + WriteBits(lead, 5) + WriteBits(sig, 6) + mid;
        assert out[..|e.out|] == e.out;
        e.(out := out, leading := lead, trailing := trail, value := v)
  }

  /** `addValue`: the first pair is recognised by a stored timestamp of 0,
      as the decoder recognises it. */
  function AddValue(e: Encoder, p: Pair): (r: Encoder)
    ensures |r.out| > |e.out| && r.out[..|e.out|] == e.out
    ensures r.block == e.block && r.timestamp == p.timestamp && r.value == p.value
    ensures r.delta == Wrap64(p.timestamp - if e.timestamp == 0 then e.block else e.timestamp)
  {
    if e.timestamp == 0 then WriteFirst(e, p)
    else
      var t := CompressTimestamp(e, p.timestamp);
      var r := CompressValue(t, p.value);
      PrefixTrans(e.out, t.out, r.out);
      r
  }

  /** A prefix of a prefix is a prefix. */
  lemma PrefixTrans(a: seq<bool>, b: seq<bool>, c: seq<bool>)
    requires |a| <= |b| <= |c| && c[..|b|] == b && b[..|a|] == a
    ensures c[..|a|] == a
  {
    assert c[..|a|] == c[..|b|][..|a|];
  }

  /** The pairs appended in order. */
  function Encode(e: Encoder, pairs: seq<Pair>): (r: Encoder)
    ensures |r.out| >= |e.out| && r.out[..|e.out|] == e.out
    ensures r.block == e.block
    decreases |pairs|, 1
  {
    if pairs == [] then e else EncodeFrom(e, pairs[0], pairs[1..])
  }

  /** `p` appended, then the rest. Kept apart from `Encode` so that
      unfolding an encoding one step does not also unfold `addValue`. */
  function EncodeFrom(e: Encoder, p: Pair, rest: seq<Pair>): (r: Encoder)
    ensures |r.out| >= |e.out| && r.out[..|e.out|] == e.out
    ensures r.block == e.block
    decreases |rest| + 1, 0
  {
    var e' := AddValue(e, p);
    var r := Encode(e', rest);
    PrefixTrans(e.out, e'.out, r.out);
    r
  }

  /** Encoding a non-empty run is the first `addValue`, then the rest. */
  lemma EncodeCons(e: Encoder, pairs: seq<Pair>)
    requires pairs != []
    ensures Encode(e, pairs) == Encode(AddValue(e, pairs[0]), pairs[1..])
  {
    assert Encode(e, pairs) == EncodeFrom(e, pairs[0], pairs[1..]);
  }

  /** Encoding a single pair is one `addValue`. */
  lemma EncodeOne(e: Encoder, p: Pair)
    ensures Encode(e, [p]) == AddValue(e, p)
  {
    EncodeCons(e, [p]);
    assert [p][1..] == [];
  }

  /** Encoding one more pair is one more `addValue`. */
  lemma {:induction false} EncodeSnoc(e: Encoder, pairs: seq<Pair>, p: Pair)
    ensures Encode(e, pairs + [p]) == AddValue(Encode(e, pairs), p)
    decreases |pairs|
  {
    if pairs == [] {
      assert pairs + [p] == [p];
      assert Encode(e, [p]) == EncodeFrom(e, p, []);
    } else {
      assert (pairs + [p])[1..] == pairs[1..] + [p];
      EncodeCons(e, pairs + [p]);
      EncodeCons(e, pairs);
      EncodeSnoc(AddValue(e, pairs[0]), pairs[1..], p);
    }
  }

  /** A pair the encoding can carry: a first pair's offset fits its 27 bits,
      and a later pair's delta of delta fits an `int`. */
  predicate Fits(e: Encoder, p: Pair) {
    if e.timestamp == 0 then 0 <= Wrap64(p.timestamp - e.block) < Pow2(FIRST_DELTA_BITS)
    else IsInt(DeltaOfDeltaOf(e, p.timestamp))
  }

  predicate Encodable(e: Encoder, pairs: seq<Pair>)
    decreases |pairs|
  {
    pairs == [] || (Fits(e, pairs[0]) && Encodable(AddValue(e, pairs[0]), pairs[1..]))
  }

  // ---------------------------------------------------------------------
  // Where the encoder and the decoder agree

  /** `a` is the start of `bits`. */
  predicate Prefix(a: seq<bool>, bits: seq<bool>) {
    |a| <= |bits| && bits[..|a|] == a
  }

  lemma Parts(a: seq<bool>, x: seq<bool>, bits: seq<bool>)
    requires Prefix(a + x, bits)
    ensures Prefix(a, bits) && At(bits, |a|, x)
  {
    assert bits[..|a|] == (a + x)[..|a|];
    assert bits[|a|..|a| + |x|] == (a + x)[|a|..];
  }

  lemma PrefixShorter(a: seq<bool>, b: seq<bool>, bits: seq<bool>)
    requires |a| <= |b| && b[..|a|] == a && Prefix(b, bits)
    ensures Prefix(a, bits)
  {
    assert bits[..|a|] == bits[..|b|][..|a|];
  }

  /** The decoder stands where the encoder stopped writing and holds the same
      fields. */
  predicate Corr(e: Encoder, d: Decoder) {
    d.pos == |e.out| && d.block == e.block && d.timestamp == e.timestamp &&
    d.delta == e.delta && d.value == e.value && d.leading == e.leading &&
    d.trailing == e.trailing && !d.endOfStream
  }

  /** The first pair is read back. */
  lemma FirstStep(e: Encoder, d: Decoder, bits: seq<bool>, p: Pair)
    requires Corr(e, d) && 0 <= Wrap64(p.timestamp - e.block) < Pow2(FIRST_DELTA_BITS)
    requires Prefix(WriteFirst(e, p).out, bits)
    ensures Corr(WriteFirst(e, p), DecodeFirst(d, bits))
  {
    var delta := Wrap64(p.timestamp - e.block);
    var f := LowBits(delta, FIRST_DELTA_BITS);
    var out := e.out + f + Word(p.value);
    assert WriteFirst(e, p).out == out;
    assert At(bits, d.pos, f) && At(bits, d.pos + FIRST_DELTA_BITS, Word(p.value)) by {
      Parts(e.out + f, Word(p.value), bits);
      Parts(e.out, f, bits);
    }
    assert FieldValue(f) == delta by {
      LowBitsValue(delta, FIRST_DELTA_BITS);
    }
    FirstRead(d, bits, f, delta, p.timestamp, p.value);
    FirstCorr(e, d, p, DecodeFirst(d, bits), delta);
  }

  /** An offset field holding `delta` decodes to the timestamp `delta` past
      the block's start. */
  lemma FirstRead(d: Decoder, bits: seq<bool>, f: seq<bool>, delta: int64, ts: int64, v: int64)
    requires |f| == FIRST_DELTA_BITS && At(bits, d.pos, f) && At(bits, d.pos + FIRST_DELTA_BITS, Word(v))
    requires FieldValue(f) == delta && delta == Wrap64(ts - d.block)
    ensures DecodeFirst(d, bits) ==
      d.(pos := d.pos + FIRST_DELTA_BITS + 64, delta := delta, value := v, timestamp := ts)
  {
    FirstPair(d, bits, f, v);
    FirstFix(d, DecodeFirst(d, bits), FieldValue(f), delta, ts, v);
  }

  /** A first pair whose offset fits its field decodes to its timestamp. */
  lemma FirstFix(d: Decoder, r: Decoder, a: int64, delta: int64, ts: int64, v: int64)
    requires r == d.(pos := d.pos + FIRST_DELTA_BITS + 64, delta := a, value := v,
      timestamp := Wrap64(d.block + a))
    requires a == delta && delta == Wrap64(ts - d.block)
    ensures r == d.(pos := d.pos + FIRST_DELTA_BITS + 64, delta := delta, value := v, timestamp := ts)
  {
    OffsetBack(d.block, a, delta, ts);
    FirstChain(d, r, d.pos + FIRST_DELTA_BITS + 64, a, delta, v, Wrap64(d.block + a), ts);
  }

  lemma OffsetBack(block: int64, a: int64, delta: int64, ts: int64)
    requires a == delta && delta == Wrap64(ts - block)
    ensures Wrap64(block + a) == ts
  {
    WrapAddBack(block, ts);
  }

  lemma FirstChain(d: Decoder, r: Decoder, q: nat, a: int64, a': int64, w: int64, t: int64, t': int64)
    requires r == d.(pos := q, delta := a, value := w, timestamp := t)
    requires a == a' && t == t'
    ensures r == d.(pos := q, delta := a', value := w, timestamp := t')
  {
  }

  lemma FirstCorr(e: Encoder, d: Decoder, p: Pair, r: Decoder, delta: int64)
    requires Corr(e, d) && delta == Wrap64(p.timestamp - e.block)
    requires r == d.(pos := d.pos + FIRST_DELTA_BITS + 64, delta := delta, value := p.value,
      timestamp := p.timestamp)
    ensures Corr(WriteFirst(e, p), r)
  {
  }

  /** A negative delta of delta written in its low `n` bits is its `n`-bit
      two's complement. */
  lemma NarrowBits(dd: int64, n: nat)
    requires FitsField(dd, n) && n <= 12
    ensures LowBits(dd, n) == SignedField(dd, n)
  {
    if dd < 0 {
      var v: nat := dd + Pow2(n);
      assert Pow2(n) * Pow2(64 - n) == TWO_64 by {
        Pow2Add(n, 64 - n);
        Pow2Word();
      }
      var k: nat := Pow2(64 - n) - 1;
      assert Pow2(n) * k == TWO_64 - Pow2(n) by {
        MulPred(Pow2(n), Pow2(64 - n));
      }
      assert Unsigned64(dd) == v + Pow2(n) * k;
      NatToBitsHigh(v, n, k);
    }
  }

  /** A negative `int` written in its low 32 bits is its unsigned reading. */
  lemma WideBits(dd: int64)
    requires IsInt(dd)
    ensures LowBits(dd, 32) == NatToBits(Unsigned32(dd), 32)
  {
    if dd < 0 {
      Pow2Half();
      assert Unsigned64(dd) == Unsigned32(dd) + Pow2(32) * (TWO_32 - 1);
      NatToBitsHigh(Unsigned32(dd), 32, TWO_32 - 1);
    }
  }

  /** Adding the delta of delta back gives the new delta, and adding that
      gives the new timestamp. */
  lemma AddDeltaCorr(e: Encoder, d: Decoder, ts: int64, q: nat)
    requires Corr(e, d) && q == |CompressTimestamp(e, ts).out|
    ensures Corr(CompressTimestamp(e, ts), AddDelta(d, q, DeltaOfDeltaOf(e, ts)))
  {
    WrapAddBack(e.delta, Wrap64(ts - e.timestamp));
    WrapAddBack(e.timestamp, ts);
  }

  /** A delta of delta of 0 repeats the delta. */
  lemma RepeatCorr(e: Encoder, d: Decoder, ts: int64)
    requires Corr(e, d) && DeltaOfDeltaOf(e, ts) == 0
    ensures Corr(CompressTimestamp(e, ts), d.(pos := d.pos + 1, timestamp := Wrap64(d.delta + d.timestamp)))
  {
    WrapSubZero(Wrap64(ts - e.timestamp), e.delta);
    WrapAddBack(e.timestamp, ts);
  }

  /** A later timestamp is read back. */
  lemma TimestampStep(e: Encoder, d: Decoder, bits: seq<bool>, ts: int64)
    requires Corr(e, d) && IsInt(DeltaOfDeltaOf(e, ts))
    requires Prefix(CompressTimestamp(e, ts).out, bits)
    ensures Corr(CompressTimestamp(e, ts), DecodeTimestamp(d, bits))
  {
    var dd := DeltaOfDeltaOf(e, ts);
    var n := FieldWidth(dd);
    var f := LowBits(dd, n);
    assert e.out + ControlBits(n) + f == e.out + (ControlBits(n) + f);
    Parts(e.out, ControlBits(n) + f, bits);
    if n == 0 {
      AtBit(bits, d.pos, ControlBits(n) + f, 0);
      TimestampRepeats(d, bits);
      RepeatCorr(e, d, ts);
    } else if n == 32 {
      WideBits(dd);
      TimestampUpdateWide(d, bits, dd);
      AddDeltaCorr(e, d, ts, d.pos + 36);
    } else {
      NarrowBits(dd, n);
      TimestampUpdate(d, bits, n, dd);
      AddDeltaCorr(e, d, ts, d.pos + |ControlBits(n)| + n);
    }
  }

  /** A repeated value is read back. */
  lemma ValueZero(e: Encoder, d: Decoder, bits: seq<bool>, v: int64)
    requires Corr(e, d) && Xor(e.value, v) == 0
    requires Prefix(e.out + [false], bits)
    ensures Corr(e.(out := e.out + [false], value := v), DecodeValue(d, bits))
  {
    Parts(e.out, [false], bits);
    AtBit(bits, d.pos, [false], 0);
    ValueRepeats(d, bits);
    XorZero(e.value, v);
  }

  /** The window the compressor computes for a non-zero XOR lies around
      it. */
  lemma WindowOf(x: int64, lead: nat, trail: nat)
    requires x != 0 && lead == LeadingCount(x) && trail == TrailingZerosOf(Unsigned64(x), 64)
    ensures InWindow(Unsigned64(x), lead, trail)
  {
    OwnWindow(x, lead);
  }

  lemma ExistingOut(e: Encoder, v: int64, x: int64, mid: seq<bool>)
    requires x == Xor(e.value, v) && x != 0
    requires LeadingCount(x) >= e.leading && TrailingZerosOf(Unsigned64(x), 64) >= e.trailing
    requires e.leading + e.trailing < 64
    requires mid == LowBits(ShiftRightUnsigned(x, e.trailing), 64 - e.leading - e.trailing)
    ensures CompressValue(e, v).out == e.out + [true, false] + mid
  {
    ShiftDistance(e.trailing);
    assert Width(64 - e.leading - e.trailing) == 64 - e.leading - e.trailing;
    assert WriteBits(ShiftRightUnsigned(x, e.trailing % 64), 64 - e.leading - e.trailing) == mid;
  }

  /** Control `10` and the middle of the XOR in the stored window: the
      decoder XORs the XOR back in. */
  lemma ExistingDecode(d: Decoder, bits: seq<bool>, x: int64, mid: seq<bool>)
    requires InWindow(Unsigned64(x), d.leading, d.trailing)
    requires mid == LowBits(ShiftRightUnsigned(x, d.trailing), 64 - d.leading - d.trailing)
    requires At(bits, d.pos, [true, false]) && At(bits, d.pos + 2, mid)
    ensures DecodeValue(d, bits) == d.(pos := d.pos + 2 + |mid|, value := Xor(d.value, x))
  {
    WindowRebuild(x, d.leading, d.trailing);
    ValueSameWindow(d, bits, mid);
  }

  /** A value whose XOR fits the stored window is read back. */
  lemma ValueExisting(e: Encoder, d: Decoder, bits: seq<bool>, v: int64)
    requires Corr(e, d) && Xor(e.value, v) != 0
    requires LeadingCount(Xor(e.value, v)) >= e.leading
    requires TrailingZerosOf(Unsigned64(Xor(e.value, v)), 64) >= e.trailing
    requires Prefix(CompressValue(e, v).out, bits)
    ensures Corr(CompressValue(e, v), DecodeValue(d, bits))
  {
    var x := Xor(e.value, v);
    var u := Unsigned64(x);
    var lead, trail := LeadingCount(x), TrailingZerosOf(u, 64);
    WindowOf(x, lead, trail);
    WindowWiden(u, lead, trail, e.leading, e.trailing);
    var mid := LowBits(ShiftRightUnsigned(x, e.trailing), 64 - e.leading - e.trailing);
    ExistingOut(e, v, x, mid);
    Parts(e.out + [true, false], mid, bits);
    Parts(e.out, [true, false], bits);
    ExistingDecode(d, bits, x, mid);
    XorCancel(e.value, v);
  }

  lemma NewOut(e: Encoder, v: int64, x: int64, lead: nat, trail: nat, mid: seq<bool>)
    requires x == Xor(e.value, v) && x != 0
    requires lead == LeadingCount(x) && trail == TrailingZerosOf(Unsigned64(x), 64)
    requires !(lead >= e.leading && trail >= e.trailing) && lead + trail < 64
    requires mid == LowBits(ShiftRightUnsigned(x, trail), 64 - lead - trail)
    ensures CompressValue(e, v).out ==
      e.out + [true, true] + LowBits(lead, 5) + LowBits(64 - lead - trail, 6) + mid
    ensures CompressValue(e, v).leading == lead && CompressValue(e, v).trailing == trail
  {
    ShiftDistance(trail);
    assert WriteBits(ShiftRightUnsigned(x, trail % 64), 64 - lead - trail) == mid;
  }

  /** The pieces of a new-window value lie one after the other. */
  lemma NewParts(o: seq<bool>, a: seq<bool>, b: seq<bool>, mid: seq<bool>, bits: seq<bool>)
    requires |a| == 5 && |b| == 6 && Prefix(o + [true, true] + a + b + mid, bits)
    ensures At(bits, |o|, [true, true]) && At(bits, |o| + 2, a)
    ensures At(bits, |o| + 7, b) && At(bits, |o| + 13, mid)
  {
    Parts(o + [true, true] + a + b, mid, bits);
    Parts(o + [true, true] + a, b, bits);
    Parts(o + [true, true], a, bits);
    Parts(o, [true, true], bits);
  }

  /** The counts of a new window read back from their fields; the
      significant count 64 is written as 0 in its 6 bits. */
  lemma CountFields(lead: nat, sig: nat)
    requires lead <= 31 && 0 < sig <= 64
    ensures BitsToNat(LowBits(lead, 5)) == lead
    ensures (if BitsToNat(LowBits(sig, 6)) == 0 then 64 else BitsToNat(LowBits(sig, 6))) == sig
  {
    Pow2Small();
    NatToBitsToNat(lead, 5);
    if sig == 64 {
      NatToBitsHigh(0, 6, 1);
      NatToBitsToNat(0, 6);
    } else {
      NatToBitsToNat(sig, 6);
    }
  }

  /** Control `11`, the counts of a new window and the middle of the XOR in
      it: the decoder takes the window and XORs the XOR back in. */
  lemma NewDecode(d: Decoder, bits: seq<bool>, x: int64, lead: nat, trail: nat, mid: seq<bool>)
    requires lead <= 31 && lead + trail < 64 && |mid| == 64 - lead - trail
    requires ShiftLeft(FieldValue(mid), trail) == x
    requires At(bits, d.pos, [true, true]) && At(bits, d.pos + 2, LowBits(lead, 5))
    requires At(bits, d.pos + 7, LowBits(64 - lead - trail, 6)) && At(bits, d.pos + 13, mid)
    ensures DecodeValue(d, bits) ==
      d.(pos := d.pos + 13 + |mid|, leading := lead, trailing := trail, value := Xor(d.value, x))
  {
    var a, b := LowBits(lead, 5), LowBits(64 - lead - trail, 6);
    CountFields(lead, |mid|);
    ValueNewWindow(d, bits, a, b, mid);
    NewChain(d, DecodeValue(d, bits), d.pos + 13 + |mid|, BitsToNat(a), 64 - |mid| - BitsToNat(a),
      Xor(d.value, ShiftLeft(FieldValue(mid), 64 - |mid| - BitsToNat(a))), lead, trail, Xor(d.value, x));
  }

  lemma NewChain(d: Decoder, r: Decoder, p: nat, l: int, t: int, w: int64, l': int, t': int, w': int64)
    requires r == d.(pos := p, leading := l, trailing := t, value := w)
    requires l == l' && t == t' && w == w'
    ensures r == d.(pos := p, leading := l', trailing := t', value := w')
  {
  }

  /** A value that needs a new window is read back, and the decoder takes
      the same window. */
  lemma ValueNew(e: Encoder, d: Decoder, bits: seq<bool>, v: int64)
    requires Corr(e, d) && Xor(e.value, v) != 0
    requires !(LeadingCount(Xor(e.value, v)) >= e.leading &&
               TrailingZerosOf(Unsigned64(Xor(e.value, v)), 64) >= e.trailing)
    requires Prefix(CompressValue(e, v).out, bits)
    ensures Corr(CompressValue(e, v), DecodeValue(d, bits))
  {
    var x := Xor(e.value, v);
    var lead, trail := LeadingCount(x), TrailingZerosOf(Unsigned64(x), 64);
    WindowOf(x, lead, trail);
    var mid := LowBits(ShiftRightUnsigned(x, trail), 64 - lead - trail);
    NewOut(e, v, x, lead, trail, mid);
    NewParts(e.out, LowBits(lead, 5), LowBits(64 - lead - trail, 6), mid, bits);
    WindowRebuild(x, lead, trail);
    NewDecode(d, bits, x, lead, trail, mid);
    XorCancel(e.value, v);
  }

  /** A later value is read back. */
  lemma ValueStep(e: Encoder, d: Decoder, bits: seq<bool>, v: int64)
    requires Corr(e, d) && Prefix(CompressValue(e, v).out, bits)
    ensures Corr(CompressValue(e, v), DecodeValue(d, bits))
  {
    var x := Xor(e.value, v);
    if x == 0 {
      ValueZero(e, d, bits, v);
    } else if LeadingCount(x) >= e.leading && TrailingZerosOf(Unsigned64(x), 64) >= e.trailing {
      ValueExisting(e, d, bits, v);
    } else {
      ValueNew(e, d, bits, v);
    }
  }

  /** One `readPair` returns the pair one `addValue` wrote. */
  lemma PairStep(e: Encoder, d: Decoder, bits: seq<bool>, p: Pair)
    requires Corr(e, d) && Fits(e, p) && d.counter < d.pairCount
    requires Prefix(AddValue(e, p).out, bits)
    ensures Corr(AddValue(e, p), Advance(d, bits))
    ensures Advance(d, bits).counter == d.counter + 1
    ensures Advance(d, bits).pairCount == d.pairCount
    ensures Emit(Advance(d, bits)) == Some(p)
  {
    if e.timestamp == 0 {
      FirstStep(e, d, bits, p);
    } else {
      var t := CompressTimestamp(e, p.timestamp);
      PrefixShorter(t.out, AddValue(e, p).out, bits);
      TimestampStep(e, d, bits, p.timestamp);
      ValueStep(t, DecodeTimestamp(d, bits), bits, p.value);
    }
  }

  /** The pairs as `readPair` returns them. */
  function Found(pairs: seq<Pair>): (r: seq<Option<Pair>>)
    ensures |r| == |pairs| && forall i :: 0 <= i < |pairs| ==> r[i] == Some(pairs[i])
  {
    if pairs == [] then [] else [Some(pairs[0])] + Found(pairs[1..])
  }

  /** From any state where the decoder has kept up with the encoder, the
      remaining pairs are read back in order, then `null`. */
  lemma {:induction false} RoundTripFrom(e: Encoder, d: Decoder, bits: seq<bool>, pairs: seq<Pair>, k: nat)
    requires Corr(e, d) && Encodable(e, pairs) && d.counter + |pairs| == d.pairCount
    requires Prefix(Encode(e, pairs).out, bits)
    ensures DecodePairs(d, bits, |pairs| + k) == Found(pairs) + Nulls(k)
    decreases |pairs|
  {
    if pairs == [] {
      ExhaustedStaysNull(d, bits, k);
      assert Found(pairs) + Nulls(k) == Nulls(k);
    } else {
      var e' := AddValue(e, pairs[0]);
      var d' := Advance(d, bits);
      EncodeCons(e, pairs);
      PrefixShorter(e'.out, Encode(e', pairs[1..]).out, bits);
      PairStep(e, d, bits, pairs[0]);
      RoundTripFrom(e', d', bits, pairs[1..], k);
      ReadOneMore(d, bits, |pairs| + k, pairs[0], Found(pairs[1..]), Nulls(k));
      assert Found(pairs) == [Some(pairs[0])] + Found(pairs[1..]);
    }
  }

  /** A run that starts with `p` and goes on as `rest` and then `none`. */
  lemma ReadOneMore(d: Decoder, bits: seq<bool>, n: nat, p: Pair, rest: seq<Option<Pair>>, none: seq<Option<Pair>>)
    requires n > 0 && Emit(Advance(d, bits)) == Some(p)
    requires DecodePairs(Advance(d, bits), bits, n - 1) == rest + none
    ensures DecodePairs(d, bits, n) == [Some(p)] + rest + none
  {
    DecodeCons(d, bits, n);
    assert [Some(p)] + (rest + none) == [Some(p)] + rest + none;
  }

  // ---------------------------------------------------------------------
  // Which sequences the encoding can carry

  /** Timestamps in non-decreasing order, none before `block` and each less
      than 2^FIRST_DELTA_BITS after it. */
  predicate InSpan(block: int64, pairs: seq<Pair>) {
    (forall i :: 0 <= i < |pairs| ==> block <= pairs[i].timestamp < block + Pow2(FIRST_DELTA_BITS)) &&
    (forall i, j :: 0 <= i < j < |pairs| ==> pairs[i].timestamp <= pairs[j].timestamp)
  }

  /** The compressor's last delta, and its last timestamp when it has one,
      lie in the window. */
  predicate Kept(e: Encoder) {
    0 <= e.delta < Pow2(FIRST_DELTA_BITS) &&
    (e.timestamp != 0 ==> e.block <= e.timestamp < e.block + Pow2(FIRST_DELTA_BITS))
  }

  /** One in-window pair fits, and the compressor stays in the window. */
  lemma StepKept(e: Encoder, p: Pair)
    requires Kept(e) && e.block <= p.timestamp < e.block + Pow2(FIRST_DELTA_BITS)
    requires e.timestamp != 0 ==> e.timestamp <= p.timestamp
    ensures Fits(e, p) && Kept(AddValue(e, p))
  {
    if e.timestamp == 0 {
      FirstKept(e, p);
    } else {
      LaterKept(e, p);
    }
  }

  lemma FirstKept(e: Encoder, p: Pair)
    requires Kept(e) && e.block <= p.timestamp < e.block + Pow2(FIRST_DELTA_BITS) && e.timestamp == 0
    ensures Fits(e, p) && Kept(AddValue(e, p))
  {
    Pow2Large();
    DeltaInWindow(p.timestamp, e.block, e.block);
  }

  lemma LaterKept(e: Encoder, p: Pair)
    requires Kept(e) && e.block <= p.timestamp < e.block + Pow2(FIRST_DELTA_BITS)
    requires e.timestamp != 0 && e.timestamp <= p.timestamp
    ensures Fits(e, p) && Kept(AddValue(e, p))
  {
    Pow2Large();
    DeltaInWindow(p.timestamp, e.timestamp, e.block);
    LaterFits(p.timestamp, e.timestamp, e.delta);
  }

  /** The offset of an in-window timestamp from an earlier one in the same
      window fits the 27-bit field. */
  lemma DeltaInWindow(ts: int64, from: int64, block: int64)
    requires Pow2(FIRST_DELTA_BITS) == 0x800_0000
    requires block <= from <= ts < block + 0x800_0000
    ensures 0 <= Wrap64(ts - from) < 0x800_0000
  {
    NarrowFits(ts - from);
  }

  /** A later in-window timestamp's delta of delta fits an `int`. */
  lemma LaterFits(ts: int64, last: int64, delta: int64)
    requires 0 <= delta < 0x800_0000 && 0 <= ts - last < 0x800_0000
    ensures IsInt(Wrap64(Wrap64(ts - last) - delta))
  {
    NarrowFits(ts - last);
    NarrowFits(ts - last - delta);
  }

  /** Every sequence of in-window pairs is encodable, whatever the values. */
  lemma {:induction false} WindowEncodable(e: Encoder, pairs: seq<Pair>)
    requires Kept(e) && InSpan(e.block, pairs)
    requires pairs != [] && e.timestamp != 0 ==> e.timestamp <= pairs[0].timestamp
    ensures Encodable(e, pairs)
    decreases |pairs|
  {
    if pairs != [] {
      StepKept(e, pairs[0]);
      var rest := pairs[1..];
      assert InSpan(e.block, rest) by {
        assert forall i :: 0 <= i < |rest| ==> rest[i] == pairs[i + 1];
      }
      assert rest != [] ==> pairs[0].timestamp <= rest[0].timestamp by {
        if rest != [] {
          assert rest[0] == pairs[1];
        }
      }
      WindowEncodable(AddValue(e, pairs[0]), rest);
    }
  }

  /** A fresh compressor can encode any in-window sequence. */
  lemma FreshEncodable(header: int64, pairs: seq<Pair>)
    requires InSpan(header, pairs)
    ensures Encodable(NewEncoder(header), pairs)
  {
    WindowEncodable(NewEncoder(header), pairs);
  }

  /** Decoding what the compressor wrote, told how many pairs there are,
      returns the pairs in order and then `null`; bits written after them do
      not matter. */
  lemma EncodeDecode(header: int64, pairs: seq<Pair>, bits: seq<bool>, k: nat)
    requires Encodable(NewEncoder(header), pairs) && |pairs| <= INT_MAX
    requires Prefix(Encode(NewEncoder(header), pairs).out, bits)
    ensures DecodePairs(Start(bits, 0, |pairs|), bits, |pairs| + k) == Found(pairs) + Nulls(k)
  {
    var e := NewEncoder(header);
    PrefixShorter(e.out, Encode(e, pairs).out, bits);
    assert At(bits, 0, Word(header)) by {
      assert bits[0..64] == bits[..64];
    }
    StartReadsHeader(bits, 0, header, |pairs|);
    RoundTripFrom(e, Start(bits, 0, |pairs|), bits, pairs, k);
  }
}
