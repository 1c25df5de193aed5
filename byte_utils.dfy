/** `ByteUtils`: big-endian packing of `int`, `short` and `long` values and
    of strings into byte arrays. A Java `byte` is carried as its unsigned
    8-bit pattern (0 to 255); a signed reading of the same bits is the same
    eight bits. */
module ByteUtils {
  import opened JavaInt
  import opened JavaString

  function Pow256(n: nat): (r: nat)
    ensures r >= 1
  {
    if n == 0 then 1 else 256 * Pow256(n - 1)
  }

  /** The `n` low bytes of `v`, most significant first. */
  function BigEndian(v: nat, n: nat): (r: seq<byte>)
    ensures |r| == n
  {
    if n == 0 then [] else BigEndian(v / 256, n - 1) + [v % 256]
  }

  /** The number that bytes denote read most significant first, as
      `ByteBuffer.getInt`/`getLong` read them before the sign is applied. */
  function FromBigEndian(b: seq<byte>): nat {
    if b == [] then 0 else FromBigEndian(b[..|b| - 1]) * 256 + b[|b| - 1]
  }

  /** Reading the `n` bytes back gives `v` modulo 256^n. */
  lemma {:induction false} BigEndianValue(v: nat, n: nat)
    ensures FromBigEndian(BigEndian(v, n)) == v % Pow256(n)
  {
    if n > 0 {
      BigEndianValue(v / 256, n - 1);
      var r := BigEndian(v, n);
      assert r[..n - 1] == BigEndian(v / 256, n - 1) && r[n - 1] == v % 256;
      ModSplit(v, Pow256(n - 1));
    }
  }

  /** `v % (256 P)` is `v / 256 % P` bytes above the low byte of `v`. */
  lemma ModSplit(v: nat, p: nat)
    requires p >= 1
    ensures v % (256 * p) == ((v / 256) % p) * 256 + v % 256
  {
    var q, r := v / 256, v % 256;
    var q2, r2 := q / p, q % p;
    assert v == 256 * q + r;
    assert q == p * q2 + r2;
    assert v == (256 * p) * q2 + (256 * r2 + r) by {
      assert 256 * q == 256 * (p * q2) + 256 * r2;
    }
    assert r2 * 256 <= (p - 1) * 256 by { MulLe(r2, p - 1, 256); }
    ModUnique(v, 256 * p, q2, 256 * r2 + r);
  }

  lemma MulLe(a: int, b: int, c: nat)
    requires a <= b
    ensures c * a <= c * b
  {
    MulNonNeg(c, b - a);
    assert c * (b - a) == c * b - c * a;
  }

  /** Euclidean division is determined by quotient and remainder. */
  lemma ModUnique(v: int, m: int, q: int, r: int)
    requires m > 0 && v == m * q + r && 0 <= r < m
    ensures v / m == q && v % m == r
  {
    var q', r' := v / m, v % m;
    assert m * (q - q') == r' - r;
    if q - q' >= 1 {
      MulLe(1, q - q', m);
    } else if q - q' <= -1 {
      MulLe(q - q', -1, m);
    }
  }

  /** Adding a multiple of `256 d` does not change the byte selected by
      shifting right by `d`. */
  lemma ShiftedByte(x: int, d: int, k: int)
    requires d > 0
    ensures ((x + d * 256 * k) / d) % 256 == (x / d) % 256
  {
    var y := x / d;
    ModUnique(x + d * 256 * k, d, y + 256 * k, x % d) by {
      assert d * (y + 256 * k) == d * y + d * 256 * k;
    }
    ModUnique(y + 256 * k, 256, y / 256 + k, y % 256);
  }

  /** `(x >> s) & 0xff` of an `int` is the same byte of its unsigned
      reading. */
  lemma IntByte(x: int32, d: int, k: int)
    requires d > 0 && d * 256 * k == TWO_32
    ensures (x / d) % 256 == (Unsigned32(x) / d) % 256
  {
    if x < 0 {
      ShiftedByte(x, d, k);
    }
  }

  /** The four bytes of an `int`, most significant first. */
  function IntBytes(x: int32): (r: seq<byte>)
    ensures |r| == 4 && FromBigEndian(r) == Unsigned32(x) && Wrap32(FromBigEndian(r)) == x
  {
    BigEndianValue(Unsigned32(x), 4);
    BigEndian(Unsigned32(x), 4)
  }

  /** `intToByteMSB`: each byte shifted down and masked. */
  method IntToByteMSB(x: int32) returns (ou: array<byte>)
    ensures fresh(ou) && ou[..] == IntBytes(x)
  {
    ou := new byte[4];
    ou[0] := (x / 0x100_0000) % 256;
    ou[1] := (x / 0x1_0000) % 256;
    ou[2] := (x / 0x100) % 256;
    ou[3] := x % 256;
    IntByte(x, 0x100_0000, 1);
    IntByte(x, 0x1_0000, 0x100);
    IntByte(x, 0x100, 0x1_0000);
    IntByte(x, 1, 0x100_0000);
    FourBytes(Unsigned32(x));
  }

  lemma FourBytes(u: nat)
    ensures BigEndian(u, 4) == [(u / 0x100_0000) % 256, (u / 0x1_0000) % 256, (u / 0x100) % 256, u % 256]
  {
    DivDiv(u, 0x100);
    DivDiv(u, 0x1_0000);
    assert BigEndian(u / 0x100_0000, 1) == [(u / 0x100_0000) % 256];
    assert BigEndian(u / 0x1_0000, 2) == [(u / 0x100_0000) % 256] + [(u / 0x1_0000) % 256];
    assert BigEndian(u / 0x100, 3) == [(u / 0x100_0000) % 256] + [(u / 0x1_0000) % 256] + [(u / 0x100) % 256];
  }

  /** Shifting right by a byte, after a shift by `d`. */
  lemma DivDiv(u: nat, d: nat)
    requires d > 0
    ensures u / d / 256 == u / (d * 256)
  {
    var q := u / d;
    ModUnique(u, d * 256, q / 256, d * (q % 256) + u % d) by {
      assert u == d * q + u % d;
      assert q == 256 * (q / 256) + q % 256;
      assert d * q == d * 256 * (q / 256) + d * (q % 256);
      assert d * (q % 256) <= d * 255 by { MulLe(q % 256, 255, d); }
    }
  }

  /** `longToBytes`: `ByteBuffer.putLong`, big-endian. */
  function LongToBytes(x: int64): (r: seq<byte>)
    ensures |r| == 8 && FromBigEndian(r) == Unsigned64(x) && Wrap64(FromBigEndian(r)) == x
  {
    BigEndianValue(Unsigned64(x), 8);
    BigEndian(Unsigned64(x), 8)
  }

  /** What `shortToByteMSB` computes: `(in << 8) & 0xff`, then
      `(in >> 8) & 0xff`. */
  function ShortMSBBytes(x: int): (r: seq<byte>)
    requires IsShort(x)
  {
    [Wrap32(x * 256) % 256, (x / 256) % 256]
  }

  /** `shortToByteMSB`, as written. */
  method ShortToByteMSB(x: int) returns (ou: array<byte>)
    requires IsShort(x)
    ensures fresh(ou) && ou[..] == ShortMSBBytes(x)
  {
    ou := new byte[2];
    ou[0] := Wrap32(x * 256) % 256;
    ou[1] := (x / 256) % 256;
  }

  /** The first byte is always 0 and the second is the high byte: the low
      byte is lost, so 0 and 1 give the same bytes. */
  lemma ShortMSBLosesLowByte(x: int)
    requires IsShort(x)
    ensures ShortMSBBytes(x)[0] == 0
    ensures ShortMSBBytes(x)[1] == ShortBytes(x)[0]
    ensures ShortMSBBytes(0) == ShortMSBBytes(1) && ShortBytes(0) != ShortBytes(1)
  {
    var y := x * 256;
    var m := y % TWO_32;
    ModUnique(y, TWO_32, y / TWO_32, m);
    assert m % 256 == 0 by {
      ModUnique(m, 256, x - (y / TWO_32) * 0x100_0000, 0);
    }
    if m >= TWO_31 {
      ModUnique(m - TWO_32, 256, (m - TWO_32) / 256, 0) by {
        assert m - TWO_32 == 256 * (m / 256 - 0x100_0000);
      }
    }
    assert BigEndian(Unsigned16(x), 2)[0] == (Unsigned16(x) / 256) % 256;
    if x < 0 {
      ShiftedByte(x, 256, 1);
    }
  }

  /** The evident intent of `shortToByteMSB`: the two bytes of a `short`,
      most significant first, which read back as the `short`. */
  function ShortBytes(x: int): (r: seq<byte>)
    requires IsShort(x)
    ensures |r| == 2 && FromBigEndian(r) == Unsigned16(x) && Wrap16(FromBigEndian(r)) == x
  {
    BigEndianValue(Unsigned16(x), 2);
    BigEndian(Unsigned16(x), 2)
  }

  /** The bytes `stringToBytes` produces: the low 8 bits of each char. */
  function AsciiBytes(s: string): (r: seq<byte>)
    ensures |r| == |s| && forall i :: 0 <= i < |s| ==> r[i] == LowByte(s[i] as int)
  {
    if s == [] then [] else [LowByte(s[0] as int)] + AsciiBytes(s[1..])
  }

  /** `stringToBytes`: a fresh array as long as the string, filled char by
      char. */
  method StringToBytes(input: string) returns (ou: array<byte>)
    ensures fresh(ou) && ou[..] == AsciiBytes(input)
  {
    ou := new byte[|input|];
    var i := 0;
    while i < ou.Length
      invariant 0 <= i <= ou.Length
      invariant forall k :: 0 <= k < i ==> ou[k] == LowByte(input[k] as int)
    {
      ou[i] := LowByte(input[i] as int);
      i := i + 1;
    }
  }

  /** `byteAryToAscii`: US-ASCII decoding, a byte above 127 becoming the
      replacement character. */
  function AsciiString(b: seq<byte>): (s: string)
    ensures |s| == |b|
  {
    if b == [] then [] else [if b[0] < 128 then b[0] as char else '�'] + AsciiString(b[1..])
  }

  /** A string of ASCII characters survives the trip through bytes. */
  lemma {:induction false} AsciiRoundTrip(s: string)
    requires forall i :: 0 <= i < |s| ==> s[i] < 128 as char
    ensures AsciiString(AsciiBytes(s)) == s
  {
    if s != [] {
      AsciiRoundTrip(s[1..]);
      assert AsciiBytes(s)[1..] == AsciiBytes(s[1..]);
    }
  }

  /** `intToHex`, as written: `Integer.toOctalString`, the unsigned value in
      base 8. */
  function IntToHex(x: int32): (r: string)
    ensures forall k :: 0 <= k < |r| ==> 0 <= HexValue(r[k]) < 8
    ensures ValueOf(r, 8) == Unsigned32(x)
  {
    ValueOfDigits(Unsigned32(x), 8);
    ToOctalString(x)
  }

  /** The name promises hex but 8 renders as "10", where hex gives "8". */
  lemma IntToHexIsOctal()
    ensures IntToHex(8) == "10" && ToHexString(8) == "8"
  {
  }
}
