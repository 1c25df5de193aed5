/** Java's fixed-width integer arithmetic, written out over Dafny's unbounded
    integers: two's-complement narrowing and division that truncates toward
    zero. */
module JavaInt {

  const TWO_7: int := 0x80
  const TWO_8: int := 0x100
  const TWO_15: int := 0x8000
  const TWO_16: int := 0x1_0000
  const TWO_31: int := 0x8000_0000
  const TWO_32: int := 0x1_0000_0000
  const TWO_63: int := 0x8000_0000_0000_0000
  const TWO_64: int := 0x1_0000_0000_0000_0000

  const INT_MAX: int := TWO_31 - 1
  const INT_MIN: int := -TWO_31
  const LONG_MAX: int := TWO_63 - 1
  const LONG_MIN: int := -TWO_63

  predicate IsShort(x: int) { -TWO_15 <= x < TWO_15 }
  predicate IsInt(x: int) { INT_MIN <= x <= INT_MAX }
  predicate IsLong(x: int) { LONG_MIN <= x <= LONG_MAX }

  type int32 = x: int | IsInt(x)
  type int64 = x: int | IsLong(x)
  type byte = x: int | 0 <= x < TWO_8

  /** The `(int)` cast and Java `int` overflow: keep the low 32 bits, read
      them as a signed value. */
  function Wrap32(x: int): (r: int)
    ensures IsInt(r)
  {
    var m := x % TWO_32;
    if m >= TWO_31 then m - TWO_32 else m
  }

  /** The `(long)` cast and Java `long` overflow. */
  function Wrap64(x: int): (r: int)
    ensures IsLong(r)
  {
    var m := x % TWO_64;
    if m >= TWO_63 then m - TWO_64 else m
  }

  /** Narrowing a value that already fits leaves it alone. */
  lemma NarrowFits(x: int)
    ensures IsShort(x) ==> Wrap16(x) == x
    ensures IsInt(x) ==> Wrap32(x) == x
    ensures IsLong(x) ==> Wrap64(x) == x
  {
  }

  /** 32 one bits are the `int` -1. */
  lemma AllOnesInt(y: int)
    requires y == TWO_32 - 1
    ensures Wrap32(y) == -1
  {
  }

  /** Wrap-around subtraction is undone by wrap-around addition: for `long`s
      `a` and `b`, `a + (b - a) == b` in Java arithmetic. */
  lemma WrapAddBack(a: int, b: int)
    requires IsLong(a) && IsLong(b)
    ensures Wrap64(a + Wrap64(b - a)) == b
  {
    var w := Wrap64(b - a);
    assert w == b - a || w == b - a + TWO_64 || w == b - a - TWO_64;
  }

  /** Two `long`s whose wrap-around difference is 0 are equal. */
  lemma WrapSubZero(a: int, b: int)
    requires IsLong(a) && IsLong(b) && Wrap64(a - b) == 0
    ensures a == b
  {
  }

  /** Narrowing to `int` may happen before or after adding: `count++` on an
      `int` counts modulo 2^32. */
  lemma Wrap32Add(x: int, k: int)
    ensures Wrap32(Wrap32(x) + k) == Wrap32(x + k)
  {
    var q := x / TWO_32;
    assert x == q * TWO_32 + x % TWO_32;
    var w := Wrap32(x);
    var d := if x % TWO_32 >= TWO_31 then q + 1 else q;
    assert w + k == (x + k) - d * TWO_32;
    ModShift(x + k, d);
  }

  lemma ModShift(y: int, d: int)
    ensures (y - d * TWO_32) % TWO_32 == y % TWO_32
  {
  }

  /** The `(short)` cast. */
  function Wrap16(x: int): (r: int)
    ensures IsShort(r)
  {
    var m := x % TWO_16;
    if m >= TWO_15 then m - TWO_16 else m
  }

  /** The low 8 bits of a value, as an unsigned byte (`(byte) x` read with
      `& 0xff`). */
  function LowByte(x: int): (r: byte)
    ensures (x - r) % TWO_8 == 0
    ensures 0 <= x < TWO_8 ==> r == x
  {
    x % TWO_8
  }

  /** The unsigned reading of a 32-bit or 64-bit two's-complement value. */
  function Unsigned16(x: int): (r: nat)
    requires IsShort(x)
    ensures r < TWO_16 && Wrap16(r) == x
  {
    if x < 0 then x + TWO_16 else x
  }

  function Unsigned32(x: int): (r: nat)
    requires IsInt(x)
    ensures r < TWO_32 && Wrap32(r) == x
  {
    if x < 0 then x + TWO_32 else x
  }

  function Unsigned64(x: int): (r: nat)
    requires IsLong(x)
    ensures r < TWO_64 && Wrap64(r) == x
  {
    if x < 0 then x + TWO_64 else x
  }

  function Abs(x: int): nat { if x < 0 then -x else x }

  /** Java's `/`: the quotient truncated toward zero (Dafny's `/` is
      Euclidean). */
  function Div(a: int, b: int): int
    requires b != 0
  {
    var m := Abs(a) / Abs(b);
    if (a < 0) != (b < 0) then -m else m
  }

  /** Java's `%`: the remainder of the magnitudes, with the dividend's
      sign. */
  function Rem(a: int, b: int): int
    requires b != 0
  {
    var r := Abs(a) % Abs(b);
    if a < 0 then -r else r
  }

  /** Truncating division: quotient and remainder rebuild the dividend, the
      quotient's magnitude is the largest whose multiple of the divisor does
      not exceed the dividend's magnitude, its sign is the product of the
      operands' signs, and the remainder is smaller than the divisor and
      takes the dividend's sign. */
  lemma TruncatedDivision(a: int, b: int)
    requires b != 0
    ensures Div(a, b) * b + Rem(a, b) == a
    ensures Abs(Div(a, b)) * Abs(b) <= Abs(a) < (Abs(Div(a, b)) + 1) * Abs(b)
    ensures Div(a, b) < 0 ==> (a < 0) != (b < 0)
    ensures Abs(Rem(a, b)) < Abs(b)
    ensures Rem(a, b) < 0 ==> a < 0
    ensures Rem(a, b) > 0 ==> a > 0
  {
    Rebuild(a, b);
    DivMagnitude(a, b);
    RemSign(a, b);
  }

  lemma DivMagnitude(a: int, b: int)
    requires b != 0
    ensures Abs(Div(a, b)) * Abs(b) <= Abs(a) < (Abs(Div(a, b)) + 1) * Abs(b)
    ensures Div(a, b) < 0 ==> (a < 0) != (b < 0)
  {
    assert Abs(Div(a, b)) == Abs(a) / Abs(b);
    QuotientMagnitude(Abs(a), Abs(b));
  }

  lemma RemSign(a: int, b: int)
    requires b != 0
    ensures Abs(Rem(a, b)) < Abs(b)
    ensures Rem(a, b) < 0 ==> a < 0
    ensures Rem(a, b) > 0 ==> a > 0
  {
    var r := Abs(a) % Abs(b);
    assert r < Abs(b);
    if a == 0 {
      assert r == 0;
    }
  }

  lemma QuotientMagnitude(x: nat, d: nat)
    requires d > 0
    ensures (x / d) * d <= x < (x / d + 1) * d
  {
    var m := x / d;
    assert x == m * d + x % d;
    assert (m + 1) * d == m * d + d;
  }

  lemma MulNeg(x: int, y: int)
    ensures (-x) * y == -(x * y) && x * (-y) == -(x * y)
  {
  }

  /** `(a / b) * b + a % b == a`, as the Java language requires. */
  lemma Rebuild(a: int, b: int)
    requires b != 0
    ensures Div(a, b) * b + Rem(a, b) == a
  {
    var m, d := Abs(a) / Abs(b), Abs(b);
    var r := Abs(a) % d;
    assert Abs(a) == m * d + r;
    MulNeg(m, d);
    MulNeg(-m, d);
  }

  /** For a non-negative dividend and a positive divisor, Java's and Dafny's
      division agree. */
  lemma DivOfNonNegative(a: int, b: int)
    requires a >= 0 && b > 0
    ensures Div(a, b) == a / b && Rem(a, b) == a % b
  {
  }

  lemma LessFromMul(x: int, y: int, b: int)
    requires b > 0 && x * b < y * b
    ensures x < y
  {
    if x >= y {
      MulNonNeg(x - y, b);
    }
  }

  lemma MulPred(a: int, b: int)
    ensures a * (b - 1) == a * b - a
  {
  }

  lemma MulNonNeg(u: int, v: int)
    requires u >= 0 && v >= 0
    ensures u * v >= 0
  {
  }

  /** Euclidean division of naturals by a positive divisor is monotone. */
  lemma DivLe(a: nat, a': nat, b: int)
    requires a <= a' && b > 0
    ensures a / b <= a' / b
  {
    var q, q' := a / b, a' / b;
    assert q * b <= a;
    assert a' < (q' + 1) * b;
    LessFromMul(q, q' + 1, b);
  }
}
