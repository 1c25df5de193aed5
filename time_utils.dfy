/** `TimeUtils`: converting a timestamp to seconds and flooring a time in
    seconds to a window, in Java's `int` and `long` arithmetic (division
    truncates toward zero, casts keep the low bits). */
module TimeUtils {
  import opened Wrappers
  import opened JavaInt

  /** `java.util.concurrent.TimeUnit`. */
  datatype TimeUnit = NANOSECONDS | MICROSECONDS | MILLISECONDS | SECONDS | MINUTES | HOURS | DAYS

  /** The units `timeToSeconds` handles; every other unit is refused. */
  predicate Converts(unit: TimeUnit) {
    unit.NANOSECONDS? || unit.MICROSECONDS? || unit.MILLISECONDS? || unit.SECONDS?
  }

  /** How many of `unit` make one second. */
  function PerSecond(unit: TimeUnit): (d: int)
    requires Converts(unit)
    ensures d >= 1
  {
    if unit.NANOSECONDS? then 1000 * 1000 * 1000
    else if unit.MICROSECONDS? then 1000 * 1000
    else if unit.MILLISECONDS? then 1000
    else 1
  }

  /** `timeToSeconds`: the `long` quotient by the unit's size, cast to
      `int`; an unknown unit throws `IllegalArgumentException`. */
  function TimeToSeconds(time: int64, unit: TimeUnit): (r: Result<int32, JavaException>)
    ensures r.Success? <==> Converts(unit)
    ensures r.Failure? ==> r.error == IllegalArgumentException
  {
    if Converts(unit) then Success(Wrap32(Div(time, PerSecond(unit))))
    else Failure(IllegalArgumentException)
  }

  /** When the quotient fits an `int`, the seconds are the time divided by
      the unit, truncated toward zero: the largest magnitude whose multiple
      of the unit does not exceed the time's, with the time's sign. */
  lemma SecondsTruncate(time: int64, unit: TimeUnit)
    requires Converts(unit)
    requires -TWO_31 * PerSecond(unit) < time < TWO_31 * PerSecond(unit)
    ensures var ts := TimeToSeconds(time, unit).value;
      Abs(ts) * PerSecond(unit) <= Abs(time) < (Abs(ts) + 1) * PerSecond(unit) &&
      (ts < 0 ==> time < 0) && (ts > 0 ==> time > 0)
  {
    var d := PerSecond(unit);
    var q := Div(time, d);
    TruncatedDivision(time, d);
    assert IsInt(q) by {
      if Abs(q) >= TWO_31 {
        MulMono(TWO_31, Abs(q), d);
      }
    }
    NarrowFits(q);
  }

  /** A time in seconds is only narrowed to `int`. */
  lemma SecondsOfSeconds(time: int64)
    ensures TimeToSeconds(time, SECONDS) == Success(Wrap32(time))
  {
    assert Div(time, 1) == time;
  }

  /** `getWindowFlooredTime(int, int)`: `(t / w) * w` in `int` arithmetic;
      a zero window throws `ArithmeticException`. */
  function WindowFloored(t: int32, w: int32): (r: Result<int32, JavaException>)
    ensures r.Failure? <==> w == 0
    ensures r.Failure? ==> r.error == ArithmeticException
  {
    if w == 0 then Failure(ArithmeticException) else Success(Wrap32(Wrap32(Div(t, w)) * w))
  }

  /** `getWindowOffsetTime(int, int)`: `t % w` cast to `short`. */
  function WindowOffset(t: int32, w: int32): (r: Result<int, JavaException>)
    ensures r.Failure? <==> w == 0
    ensures r.Failure? ==> r.error == ArithmeticException
    ensures r.Success? ==> IsShort(r.value)
  {
    if w == 0 then Failure(ArithmeticException) else Success(Wrap16(Rem(t, w)))
  }

  /** For a positive window the floor is a multiple of the window that
      never overflows, lies between 0 and `t`, and is less than one window
      from `t`. */
  lemma FlooredBounds(t: int32, w: int32)
    requires w > 0
    ensures var f := WindowFloored(t, w).value;
      f % w == 0 && Abs(f) <= Abs(t) && Abs(t) - Abs(f) < w &&
      (t >= 0 ==> 0 <= f <= t) && (t < 0 ==> t <= f <= 0)
  {
    var q := Div(t, w);
    FloorIsProduct(t, w);
    TruncatedDivision(t, w);
    assert (q * w) % w == 0 by { MultipleMod(q, w); }
    if q < 0 {
      MulNeg(-q, w);
    }
  }

  /** The floor is exactly the product of the truncated quotient and the
      window: neither narrowing changes anything. */
  lemma FloorIsProduct(t: int32, w: int32)
    requires w > 0
    ensures WindowFloored(t, w).value == Div(t, w) * w
  {
    var q := Div(t, w);
    assert Abs(q) * w <= Abs(t) by { DivMagnitude(t, w); }
    assert q > 0 ==> t > 0;
    ProductBound(q, w, t);
    NarrowFits(q);
    NarrowFits(q * w);
  }

  /** A multiple of a positive `w` no larger in magnitude than an `int` is
      an `int`, and so is its factor. */
  lemma ProductBound(q: int, w: int, t: int)
    requires w > 0 && IsInt(t) && Abs(q) * w <= Abs(t) && (q > 0 ==> t > 0)
    ensures IsInt(q) && IsInt(q * w)
  {
    var a := Abs(q);
    MulMono(1, w, a);
    if q < 0 {
      MulNeg(a, w);
    }
  }

  /** Flooring an already floored time changes nothing. */
  lemma FlooredIdempotent(t: int32, w: int32)
    requires w > 0
    ensures WindowFloored(WindowFloored(t, w).value, w) == WindowFloored(t, w)
  {
    var q := Div(t, w);
    FloorIsProduct(t, w);
    var f := q * w;
    FloorIsProduct(f, w);
    DivOfMultiple(q, w);
  }

  /** For a window of at most 2^15 seconds the offset does not overflow the
      `short`, and floor plus offset gives the time back. */
  lemma FloorPlusOffset(t: int32, w: int32)
    requires 0 < w <= TWO_15
    ensures WindowFloored(t, w).value + WindowOffset(t, w).value == t
    ensures t >= 0 ==> 0 <= WindowOffset(t, w).value < w
  {
    FloorIsProduct(t, w);
    TruncatedDivision(t, w);
    NarrowFits(Rem(t, w));
  }

  /** `getWindowFlooredTime(long, int, TimeUnit)`: the time in seconds,
      floored to the window. */
  function WindowFlooredOf(time: int64, w: int32, unit: TimeUnit): (r: Result<int32, JavaException>)
    ensures r.Failure? <==> !Converts(unit) || w == 0
    ensures r.Failure? ==> r.error == (if Converts(unit) then ArithmeticException else IllegalArgumentException)
    ensures r.Success? ==> r == WindowFloored(TimeToSeconds(time, unit).value, w)
  {
    var ts :- TimeToSeconds(time, unit);
    WindowFloored(ts, w)
  }

  /** `getWindowOffsetTime(long, int, TimeUnit)`: the offset of the time in
      seconds within its window. */
  function WindowOffsetOf(time: int64, w: int32, unit: TimeUnit): (r: Result<int, JavaException>)
    ensures r.Failure? <==> !Converts(unit) || w == 0
    ensures r.Failure? ==> r.error == (if Converts(unit) then ArithmeticException else IllegalArgumentException)
    ensures r.Success? ==> r == WindowOffset(TimeToSeconds(time, unit).value, w)
  {
    var ts :- TimeToSeconds(time, unit);
    WindowOffset(ts, w)
  }

  /** The width of a series bucket, in seconds. */
  const BUCKET_SIZE: int32 := 4096

  /** `getTimeBucket(unit, ts, w)` of the engines: the time in seconds,
      floored to the window. */
  function TimeBucket(unit: TimeUnit, time: int64, w: int32): (r: Result<int32, JavaException>)
    ensures r.Failure? <==> !Converts(unit) || w == 0
  {
    WindowFlooredOf(time, w, unit)
  }

  /** A non-negative millisecond timestamp whose seconds fit an `int` has
      the bucket `(ts / 1000 / 4096) * 4096`. */
  lemma MillisBucket(time: int64)
    requires 0 <= time < 1000 * TWO_31
    ensures TimeBucket(MILLISECONDS, time, BUCKET_SIZE) == Success((time / 1000 / 4096) * 4096)
  {
    DivOfNonNegative(time, 1000);
    var s := time / 1000;
    assert s < TWO_31 by {
      if s >= TWO_31 {
        MulMono(TWO_31, s, 1000);
      }
    }
    NarrowFits(s);
    FloorIsProduct(s, BUCKET_SIZE);
    DivOfNonNegative(s, 4096);
  }

  /** A floored time plus its offset is the time in seconds again. */
  lemma BucketPlusOffset(time: int64, unit: TimeUnit)
    requires Converts(unit)
    ensures TimeBucket(unit, time, BUCKET_SIZE).value + WindowOffsetOf(time, BUCKET_SIZE, unit).value ==
      TimeToSeconds(time, unit).value
  {
    FloorPlusOffset(TimeToSeconds(time, unit).value, BUCKET_SIZE);
  }

  // ---------------------------------------------------------------------
  // Arithmetic helpers

  lemma MulMono(a: int, b: int, c: int)
    requires 0 <= a <= b && c >= 0
    ensures a * c <= b * c
  {
    MulNonNeg(b - a, c);
  }

  lemma MultipleMod(q: int, w: int)
    requires w > 0
    ensures (q * w) % w == 0
  {
    DivOfMultiple(q, w);
  }

  /** A multiple of a positive number divides exactly, with either sign. */
  lemma DivOfMultiple(q: int, w: int)
    requires w > 0
    ensures Div(q * w, w) == q && (q * w) / w == q && (q * w) % w == 0
  {
    var p := q * w;
    var m, r := p / w, p % w;
    assert p == m * w + r;
    assert (q - m) * w == r;
    if q - m > 0 {
      MulMono(1, q - m, w);
    } else if q - m < 0 {
      MulMono(1, m - q, w);
      MulNeg(m - q, w);
    }
    if q < 0 {
      MulNeg(-q, w);
      assert Abs(p) == (-q) * w;
      DivAbs(-q, w);
    } else {
      MulNonNeg(q, w);
      DivAbs(q, w);
    }
  }

  lemma DivAbs(q: nat, w: int)
    requires w > 0
    ensures (q * w) / w == q
  {
    var p := q * w;
    var m, r := p / w, p % w;
    assert p == m * w + r;
    assert (q - m) * w == r;
    if q - m > 0 {
      MulMono(1, q - m, w);
    } else if q - m < 0 {
      MulMono(1, m - q, w);
      MulNeg(m - q, w);
    }
  }
}
