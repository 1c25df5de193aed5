/** `DataPoint`: a plain holder of a point's fields. A `double` value is
    carried as its 64-bit pattern, as the holder itself stores it. */
module DataPoints {
  import opened Wrappers
  import opened JavaInt

  datatype DataPoint = DataPoint(
    isFp: bool,
    seriesName: Option<string>,
    tags: Option<seq<string>>,
    timestamp: int64,
    value: int64)    // the raw `long`, or the bits of the `double`

  /** `new DataPoint(timestamp, value)`: no name, no tags, not floating
      point. */
  function Point(timestamp: int64, value: int64): DataPoint {
    DataPoint(false, None, None, timestamp, value)
  }

  /** `new DataPoint(seriesName, tags, timestamp, value)` for a `long`;
      `None` is a `null` tag list. Like the `double` constructor it leaves
      `isFp` for the caller to set. */
  function Named(seriesName: string, tags: Option<seq<string>>, timestamp: int64, value: int64): DataPoint {
    DataPoint(false, Some(seriesName), tags, timestamp, value)
  }

  /** `setFp`. */
  function WithFp(p: DataPoint, isFp: bool): DataPoint {
    p.(isFp := isFp)
  }

  /** The bits of the quiet NaN that `Double.doubleToLongBits` gives for
      every NaN. */
  const CANONICAL_NAN: int64 := 0x7ff8_0000_0000_0000

  /** The bits of a NaN: all eleven exponent bits set, a mantissa that is
      not zero. */
  predicate IsNaN(bits: int64) {
    var u := Unsigned64(bits);
    (u / 0x10_0000_0000_0000) % 0x800 == 0x7ff && u % 0x10_0000_0000_0000 != 0
  }

  /** `Double.doubleToLongBits` of the `double` with these bits. */
  function DoubleToLongBits(bits: int64): (r: int64)
    ensures !IsNaN(bits) ==> r == bits
    ensures IsNaN(bits) ==> r == CANONICAL_NAN
  {
    if IsNaN(bits) then CANONICAL_NAN else bits
  }

  /** Every NaN's bits become the canonical NaN's, which is itself a NaN:
      converting twice is converting once. */
  lemma DoubleToLongBitsIdempotent(bits: int64)
    ensures IsNaN(CANONICAL_NAN)
    ensures DoubleToLongBits(DoubleToLongBits(bits)) == DoubleToLongBits(bits)
  {
    assert Unsigned64(CANONICAL_NAN) == 0x7ff8_0000_0000_0000;
  }

  /** `new DataPoint(seriesName, tags, timestamp, double)`: the value is
      stored as `doubleToLongBits` of the `double` with bits `bits`; `None`
      is a `null` tag list, as for `Named`. */
  function NamedDouble(seriesName: string, tags: Option<seq<string>>, timestamp: int64, bits: int64): (p: DataPoint)
    ensures !p.isFp && p.seriesName == Some(seriesName) && p.tags == tags && p.timestamp == timestamp
    ensures p.value == bits <==> !IsNaN(bits) || bits == CANONICAL_NAN
  {
    DataPoint(false, Some(seriesName), tags, timestamp, DoubleToLongBits(bits))
  }
}
