/** Bit strings, most significant bit first, and Java's 64-bit `long` seen as
    a word of 64 such bits in two's complement. The Gorilla codec writes and
    reads its fields through these. */
module Bits {
  import opened JavaInt

  function Pow2(n: nat): (r: nat)
    ensures r >= 1
  {
    if n == 0 then 1 else 2 * Pow2(n - 1)
  }

  lemma {:induction false} Pow2Add(a: nat, b: nat)
    ensures Pow2(a + b) == Pow2(a) * Pow2(b)
  {
    if a > 0 {
      Pow2Add(a - 1, b);
    }
  }

  lemma {:induction false} Pow2Monotone(a: nat, b: nat)
    requires a <= b
    ensures Pow2(a) <= Pow2(b)
  {
    if a < b {
      Pow2Monotone(a, b - 1);
    }
  }

  /** The powers of two the codec's field widths and Java's integer widths
      need. */
  lemma Pow2Constants()
    ensures Pow2(4) == 16 && Pow2(5) == 32 && Pow2(6) == 64 && Pow2(7) == 128
    ensures Pow2(9) == 512 && Pow2(11) == 2048 && Pow2(12) == 4096
    ensures Pow2(27) == 0x800_0000
    ensures Pow2(31) == TWO_31 && Pow2(32) == TWO_32
    ensures Pow2(63) == TWO_63 && Pow2(64) == TWO_64
  {
    Pow2Small();
    Pow2Large();
  }

  lemma Pow2Small()
    ensures Pow2(4) == 16 && Pow2(5) == 32 && Pow2(6) == 64 && Pow2(7) == 128
    ensures Pow2(8) == 256 && Pow2(9) == 512 && Pow2(11) == 2048 && Pow2(12) == 4096
  {
    assert Pow2(4) == 16;
    assert Pow2(8) == 256 by { Pow2Add(4, 4); }
    assert Pow2(9) == 512 by { Pow2Add(8, 1); }
    assert Pow2(11) == 2048 by { Pow2Add(8, 3); }
    assert Pow2(12) == 4096 by { Pow2Add(8, 4); }
  }

  lemma Pow2Large()
    ensures Pow2(27) == 0x800_0000
    ensures Pow2(31) == TWO_31 && Pow2(32) == TWO_32
    ensures Pow2(63) == TWO_63 && Pow2(64) == TWO_64
  {
    Pow2Half();
    Pow2Word();
  }

  lemma Pow2Half()
    ensures Pow2(16) == 0x1_0000 && Pow2(27) == 0x800_0000
    ensures Pow2(31) == TWO_31 && Pow2(32) == TWO_32
  {
    Pow2Small();
    Pow2Add(8, 8);
    Pow2Add(16, 11);
    Pow2Add(16, 15);
    Pow2Add(16, 16);
    assert Pow2(15) == 0x8000 by { Pow2Add(8, 7); }
  }

  lemma Pow2Word()
    ensures Pow2(63) == TWO_63 && Pow2(64) == TWO_64
  {
    Pow2Half();
    Pow2Add(32, 31);
    Pow2Add(32, 32);
  }

  function Zeros(n: nat): (r: seq<bool>)
    ensures |r| == n && forall i :: 0 <= i < n ==> !r[i]
  {
    seq(n, _ => false)
  }

  /** The number a bit string denotes, most significant bit first. */
  function BitsToNat(b: seq<bool>): nat {
    if b == [] then 0 else 2 * BitsToNat(b[..|b| - 1]) + (if b[|b| - 1] then 1 else 0)
  }

  /** The low `n` bits of `v`, most significant first. */
  function NatToBits(v: nat, n: nat): (r: seq<bool>)
    ensures |r| == n
  {
    if n == 0 then [] else NatToBits(v / 2, n - 1) + [v % 2 == 1]
  }

  lemma {:induction false} BitsToNatBound(b: seq<bool>)
    ensures BitsToNat(b) < Pow2(|b|)
  {
    if b != [] {
      BitsToNatBound(b[..|b| - 1]);
    }
  }

  /** Writing a number that fits in `n` bits and reading it back gives the
      number. */
  lemma {:induction false} NatToBitsToNat(v: nat, n: nat)
    requires v < Pow2(n)
    ensures BitsToNat(NatToBits(v, n)) == v
  {
    if n > 0 {
      NatToBitsToNat(v / 2, n - 1);
      var r := NatToBits(v, n);
      assert r[..n - 1] == NatToBits(v / 2, n - 1);
    }
  }

  /** Reading a bit string and writing the number back in as many bits gives
      the bit string. */
  lemma {:induction false} BitsToNatToBits(b: seq<bool>)
    ensures NatToBits(BitsToNat(b), |b|) == b
  {
    if b != [] {
      var p := b[..|b| - 1];
      BitsToNatToBits(p);
      assert b == p + [b[|b| - 1]];
    }
  }

  lemma {:induction false} NatToBitsZero(n: nat)
    ensures NatToBits(0, n) == Zeros(n)
  {
    if n > 0 {
      NatToBitsZero(n - 1);
    }
  }

  /** Writing a number in more bits than it needs puts zeros in front. */
  lemma {:induction false} NatToBitsPad(v: nat, n: nat, k: nat)
    requires v < Pow2(n)
    ensures NatToBits(v, n + k) == Zeros(k) + NatToBits(v, n)
  {
    if n == 0 {
      NatToBitsZero(k);
    } else {
      NatToBitsPad(v / 2, n - 1, k);
      assert Zeros(k) + NatToBits(v / 2, n - 1) + [v % 2 == 1] == Zeros(k) + NatToBits(v, n);
    }
  }

  /** Only the low `n` bits of a number are written: adding a multiple of
      2^n changes nothing. */
  lemma {:induction false} NatToBitsHigh(v: nat, n: nat, k: nat)
    ensures NatToBits(v + Pow2(n) * k, n) == NatToBits(v, n)
  {
    if n > 0 {
      var m := Pow2(n - 1) * k;
      assert Pow2(n) * k == 2 * m;
      var w := v + 2 * m;
      assert w / 2 == v / 2 + m && w % 2 == v % 2;
      NatToBitsHigh(v / 2, n - 1, k);
    }
  }

  // ---------------------------------------------------------------------
  // 64-bit words

  /** The 64 bits of a Java `long`, two's complement, most significant
      first. */
  function Word(x: int64): (w: seq<bool>)
    ensures |w| == 64
  {
    NatToBits(Unsigned64(x), 64)
  }

  /** The Java `long` whose 64 bits these are. */
  function FromWord(w: seq<bool>): int64
    requires |w| == 64
  {
    Wrap64(BitsToNat(w))
  }

  lemma WordRoundTrip(x: int64)
    ensures FromWord(Word(x)) == x
  {
    Pow2Constants();
    NatToBitsToNat(Unsigned64(x), 64);
  }

  lemma FromWordRoundTrip(w: seq<bool>)
    requires |w| == 64
    ensures Word(FromWord(w)) == w
  {
    Pow2Constants();
    BitsToNatBound(w);
    BitsToNatToBits(w);
    UnsignedWrap64(BitsToNat(w));
  }

  /** `getLong(n)` for a field of `n <= 64` bits: the bits read as a number
      and then as a `long`. As a word it is the field, zero-extended. */
  function FieldValue(b: seq<bool>): int64 {
    Wrap64(BitsToNat(b))
  }

  // ---------------------------------------------------------------------
  // Java's `^` and `<<` on `long`s, and the zeros around a word

  /** The XOR of the low `n` bits of `a` and `b`, bit by bit. */
  function XorLow(a: nat, b: nat, n: nat): (r: nat)
    ensures r < Pow2(n)
  {
    if n == 0 then 0 else 2 * XorLow(a / 2, b / 2, n - 1) + (if a % 2 != b % 2 then 1 else 0)
  }

  /** Java's `a ^ b` on `long`s. */
  function Xor(a: int64, b: int64): int64 {
    Wrap64(XorLow(Unsigned64(a), Unsigned64(b), 64))
  }

  /** `u` times 2^k, one doubling at a time. */
  function ShiftUp(u: nat, k: nat): nat {
    if k == 0 then u else 2 * ShiftUp(u, k - 1)
  }

  /** `u` divided by 2^k, rounding down, one halving at a time. */
  function ShiftDown(u: nat, k: nat): nat {
    if k == 0 then u else ShiftDown(u / 2, k - 1)
  }

  /** Java's `x << k` on a `long` for a shift distance below 64: the low 64
      bits of the pattern times 2^k. */
  function ShiftLeft(x: int64, k: nat): int64
    requires k < 64
  {
    Wrap64(ShiftUp(Unsigned64(x), k))
  }

  /** A shift distance below 64 is its own low six bits. */
  lemma ShiftDistance(k: int)
    requires 0 <= k < 64
    ensures k % 64 == k
  {
  }

  /** Java's `x >>> k` on a `long` for a shift distance below 64. */
  function ShiftRightUnsigned(x: int64, k: nat): int64
    requires k < 64
  {
    Wrap64(ShiftDown(Unsigned64(x), k))
  }

  /** Java's `writeBits(v, n)`: the low `n` bits of the pattern of `v`. */
  function LowBits(v: int64, n: nat): (r: seq<bool>)
    ensures |r| == n
  {
    NatToBits(Unsigned64(v), n)
  }

  /** A non-negative value that fits `n` bits is read back from them. */
  lemma LowBitsValue(v: int64, n: nat)
    requires 0 <= v < Pow2(n)
    ensures FieldValue(LowBits(v, n)) == v
  {
    NatToBitsToNat(v, n);
    NarrowFits(v);
  }

  lemma {:induction false} XorLowCancel(a: nat, b: nat, n: nat)
    requires b < Pow2(n)
    ensures XorLow(a, XorLow(a, b, n), n) == b
  {
    if n > 0 {
      var c := XorLow(a, b, n);
      assert c / 2 == XorLow(a / 2, b / 2, n - 1);
      XorLowCancel(a / 2, b / 2, n - 1);
    }
  }

  lemma {:induction false} XorLowZero(a: nat, b: nat, n: nat)
    requires a < Pow2(n) && b < Pow2(n)
    ensures XorLow(a, b, n) == 0 <==> a == b
  {
    if n > 0 {
      XorLowZero(a / 2, b / 2, n - 1);
    }
  }

  /** The unsigned reading of a narrowed value is the value modulo 2^64. */
  lemma UnsignedWrap64(x: nat)
    requires x < TWO_64
    ensures Unsigned64(Wrap64(x)) == x
  {
  }

  /** XOR with the same value twice is the identity. */
  lemma XorCancel(a: int64, b: int64)
    ensures Xor(a, Xor(a, b)) == b
  {
    Pow2Word();
    var c := XorLow(Unsigned64(a), Unsigned64(b), 64);
    UnsignedWrap64(c);
    XorLowCancel(Unsigned64(a), Unsigned64(b), 64);
  }

  /** Two values XOR to 0 exactly when they are equal. */
  lemma XorZero(a: int64, b: int64)
    ensures Xor(a, b) == 0 <==> a == b
  {
    Pow2Word();
    XorLowZero(Unsigned64(a), Unsigned64(b), 64);
  }

  lemma {:induction false} XorLowCommutes(a: nat, b: nat, n: nat)
    ensures XorLow(a, b, n) == XorLow(b, a, n)
  {
    if n > 0 {
      XorLowCommutes(a / 2, b / 2, n - 1);
    }
  }

  /** The three-XOR swap `a ^= b; b ^= a; a ^= b` exchanges two `long`s. */
  lemma XorSwap(a: int64, b: int64)
    ensures var a1 := Xor(a, b); var b1 := Xor(b, a1); Xor(a1, b1) == b && b1 == a
  {
    var a1 := Xor(a, b);
    XorLowCommutes(Unsigned64(a), Unsigned64(b), 64);
    XorCancel(b, a);
    var b1 := Xor(b, a1);
    XorLowCommutes(Unsigned64(a1), Unsigned64(b1), 64);
    XorCancel(a, b);
  }

  /** The number of significant bits of `u`: `64 - Long.numberOfLeadingZeros`
      for a 64-bit pattern. */
  function BitLength(u: nat): (n: nat)
    ensures u < Pow2(n)
    ensures u > 0 ==> n >= 1 && Pow2(n - 1) <= u
  {
    if u == 0 then 0 else 1 + BitLength(u / 2)
  }

  /** A 64-bit pattern has at most 64 significant bits. */
  lemma BitLengthWord(u: nat)
    requires u < TWO_64
    ensures BitLength(u) <= 64
  {
    if BitLength(u) > 64 {
      Pow2Monotone(64, BitLength(u) - 1);
      Pow2Word();
    }
  }

  /** The low `t` bits of `u` are zero. */
  predicate LowZero(u: nat, t: nat) {
    t == 0 || (u % 2 == 0 && LowZero(u / 2, t - 1))
  }

  /** The number of low zero bits of `u` below bit `n`:
      `Long.numberOfTrailingZeros` for `n` = 64. */
  function TrailingZerosOf(u: nat, n: nat): (r: nat)
    ensures r <= n && LowZero(u, r)
  {
    if n == 0 || u % 2 == 1 then 0 else 1 + TrailingZerosOf(u / 2, n - 1)
  }

  lemma {:induction false} LowZeroFewer(u: nat, t: nat, t': nat)
    requires LowZero(u, t) && t' <= t
    ensures LowZero(u, t')
  {
    if t' > 0 {
      LowZeroFewer(u / 2, t - 1, t' - 1);
    }
  }

  /** A positive value with `t` low zero bits is at least 2^t. */
  lemma {:induction false} LowZeroAtLeast(u: nat, t: nat)
    requires LowZero(u, t) && u > 0
    ensures Pow2(t) <= u
  {
    if t > 0 {
      LowZeroAtLeast(u / 2, t - 1);
    }
  }

  /** Halving `t` times loses nothing when the low `t` bits are zero. */
  lemma {:induction false} ShiftDownUp(u: nat, t: nat)
    requires LowZero(u, t)
    ensures ShiftUp(ShiftDown(u, t), t) == u
  {
    if t > 0 {
      ShiftDownUp(u / 2, t - 1);
      ShiftUpFirst(ShiftDown(u / 2, t - 1), t);
    }
  }

  lemma {:induction false} ShiftUpFirst(v: nat, t: nat)
    requires t > 0
    ensures ShiftUp(v, t) == 2 * ShiftUp(v, t - 1)
  {
  }

  lemma {:induction false} ShiftDownBound(u: nat, n: nat, t: nat)
    requires u < Pow2(n) && t <= n
    ensures ShiftDown(u, t) < Pow2(n - t)
  {
    if t > 0 {
      ShiftDownBound(u / 2, n - 1, t - 1);
    }
  }

  /** A window of `lead` leading and `trail` trailing zero bits around the
      64-bit pattern `u`, leaving at least one bit in the middle. */
  predicate InWindow(u: nat, lead: int, trail: int) {
    0 <= lead && 0 <= trail && lead + trail < 64 &&
    u < Pow2(64 - lead) && LowZero(u, trail)
  }

  /** A value is rebuilt from the `64 - lead - trail` bits of the middle of
      any window around it, shifted back into place. */
  lemma WindowRebuild(x: int64, lead: int, trail: int)
    requires InWindow(Unsigned64(x), lead, trail)
    ensures ShiftDown(Unsigned64(x), trail) < Pow2(64 - lead - trail)
    ensures ShiftLeft(FieldValue(LowBits(ShiftRightUnsigned(x, trail), 64 - lead - trail)), trail) == x
  {
    var u := Unsigned64(x);
    var m := ShiftDown(u, trail);
    ShiftDownBound(u, 64 - lead, trail);
    assert m < TWO_64 by {
      Pow2Monotone(64 - lead - trail, 64);
      Pow2Word();
    }
    UnsignedWrap64(m);
    NatToBitsToNat(m, 64 - lead - trail);
    ShiftDownUp(u, trail);
  }

  /** The window the compressor picks for a non-zero XOR: its own leading
      zeros, at most 31, and its own trailing zeros. */
  lemma OwnWindow(x: int64, lead: int)
    requires x != 0 && 0 <= lead <= 64 - BitLength(Unsigned64(x))
    ensures InWindow(Unsigned64(x), lead, TrailingZerosOf(Unsigned64(x), 64))
  {
    var u := Unsigned64(x);
    var t := TrailingZerosOf(u, 64);
    Pow2Word();
    assert u < Pow2(64 - lead) by {
      Pow2Monotone(BitLength(u), 64 - lead);
    }
    assert t < BitLength(u) by {
      LowZeroAtLeast(u, t);
      if t >= BitLength(u) {
        Pow2Monotone(BitLength(u), t);
      }
    }
  }

  /** A window around a value is a window around it for narrower counts
      too. */
  lemma WindowWiden(u: nat, lead: int, trail: int, lead': int, trail': int)
    requires InWindow(u, lead, trail) && 0 <= lead' <= lead && 0 <= trail' <= trail
    ensures InWindow(u, lead', trail')
  {
    Pow2Monotone(64 - lead, 64 - lead');
    LowZeroFewer(u, trail, trail');
  }
}
