/** The `java.lang.String` and `Integer`/`Long` text operations the modelled
    code relies on: `contains`, `trim`, `split` on a single character and on
    runs of whitespace, `Integer.toHexString`, `Integer.toOctalString`,
    `Integer.parseUnsignedInt(s, 16)` and `Long.parseLong`. */
module JavaString {
  import opened Wrappers
  import opened JavaInt

  // ---------------------------------------------------------------------
  // contains

  /** `sub` occurs in `s` starting at index `i`. */
  predicate OccursAt(s: string, sub: string, i: nat) {
    i + |sub| <= |s| && s[i..i + |sub|] == sub
  }

  /** `s.contains(sub)`. */
  function Contains(s: string, sub: string): (b: bool)
    ensures b <==> exists i: nat :: OccursAt(s, sub, i)
    decreases |s|
  {
    if |sub| <= |s| && s[..|sub|] == sub then
      assert OccursAt(s, sub, 0);
      true
    else if s == [] then
      assert forall i: nat :: !OccursAt(s, sub, i);
      false
    else
      var b := Contains(s[1..], sub);
      assert forall i: nat :: OccursAt(s[1..], sub, i) <==> OccursAt(s, sub, i + 1) by {
        forall i: nat ensures OccursAt(s[1..], sub, i) <==> OccursAt(s, sub, i + 1) {
          if i + |sub| <= |s[1..]| {
            assert s[1..][i..i + |sub|] == s[i + 1..i + 1 + |sub|];
          }
        }
      }
      assert !OccursAt(s, sub, 0);
      assert b ==> exists i: nat :: OccursAt(s, sub, i) by {
        if b {
          var i: nat :| OccursAt(s[1..], sub, i);
          assert OccursAt(s, sub, i + 1);
        }
      }
      assert (exists i: nat :: OccursAt(s, sub, i)) ==> b by {
        if exists i: nat :: OccursAt(s, sub, i) {
          var i: nat :| OccursAt(s, sub, i);
          assert i != 0;
          assert OccursAt(s[1..], sub, i - 1);
        }
      }
      b
  }

  // ---------------------------------------------------------------------
  // trim

  /** Java's `trim` removes every leading and trailing character whose code
      is at most that of the space character. */
  predicate IsTrimmable(c: char) { c <= ' ' }

  function TrimStart(s: string): (r: string)
    ensures |r| <= |s| && r == s[|s| - |r|..]
    ensures r == [] || !IsTrimmable(r[0])
    ensures forall k :: 0 <= k < |s| - |r| ==> IsTrimmable(s[k])
  {
    if s != [] && IsTrimmable(s[0]) then TrimStart(s[1..]) else s
  }

  function TrimEnd(s: string): (r: string)
    ensures |r| <= |s| && r == s[..|r|]
    ensures r == [] || !IsTrimmable(r[|r| - 1])
    ensures forall k :: |r| <= k < |s| ==> IsTrimmable(s[k])
  {
    if s != [] && IsTrimmable(s[|s| - 1]) then TrimEnd(s[..|s| - 1]) else s
  }

  /** `s.trim()`. */
  function Trim(s: string): string {
    TrimEnd(TrimStart(s))
  }

  /** `trim` yields the empty string exactly when every character of the
      input is trimmable, and otherwise a slice of the input that starts and
      ends with a kept character, everything cut off being trimmable. */
  lemma TrimSpec(s: string)
    ensures Trim(s) == [] <==> forall k :: 0 <= k < |s| ==> IsTrimmable(s[k])
    ensures Trim(s) != [] ==>
      exists i, j :: 0 <= i < j <= |s| && Trim(s) == s[i..j] &&
        !IsTrimmable(s[i]) && !IsTrimmable(s[j - 1]) &&
        (forall k :: 0 <= k < i ==> IsTrimmable(s[k])) &&
        (forall k :: j <= k < |s| ==> IsTrimmable(s[k]))
  {
    var i, j := TrimBounds(s);
    if Trim(s) != [] {
      assert 0 <= i < j <= |s| && Trim(s) == s[i..j] && !IsTrimmable(s[i]) && !IsTrimmable(s[j - 1]);
    } else {
      assert i == j;
    }
  }

  /** Where `trim` cuts: before `i` and from `j` on, only trimmable
      characters. */
  lemma TrimBounds(s: string) returns (i: nat, j: nat)
    ensures i <= j <= |s| && Trim(s) == s[i..j]
    ensures forall k :: 0 <= k < i ==> IsTrimmable(s[k])
    ensures forall k :: j <= k < |s| ==> IsTrimmable(s[k])
    ensures i < j ==> !IsTrimmable(s[i]) && !IsTrimmable(s[j - 1])
  {
    i := StartCut(s);
    var t := s[i..];
    var n := EndCut(t);
    j := i + n;
    SliceOfSuffix(s, i, n);
    if n > 0 {
      assert s[i] == t[0] && s[j - 1] == t[n - 1];
    }
    forall k | j <= k < |s| ensures IsTrimmable(s[k]) {
      assert t[k - i] == s[k];
    }
  }

  /** Where `TrimStart` cuts: everything before `i` is trimmable and the
      character at `i`, if any, is not. */
  lemma StartCut(s: string) returns (i: nat)
    ensures i <= |s| && TrimStart(s) == s[i..]
    ensures forall k :: 0 <= k < i ==> IsTrimmable(s[k])
    ensures i < |s| ==> !IsTrimmable(s[i])
  {
    i := |s| - |TrimStart(s)|;
  }

  /** Where `TrimEnd` cuts: everything from `n` on is trimmable and the
      character before `n`, if any, is not. */
  lemma EndCut(t: string) returns (n: nat)
    ensures n <= |t| && TrimEnd(t) == t[..n]
    ensures forall k :: n <= k < |t| ==> IsTrimmable(t[k])
    ensures n > 0 ==> !IsTrimmable(t[n - 1])
  {
    n := |TrimEnd(t)|;
  }

  lemma SliceOfSuffix(s: string, i: nat, n: nat)
    requires i + n <= |s|
    ensures s[i..][..n] == s[i..i + n]
  {
  }

  // ---------------------------------------------------------------------
  // split on one character

  /** The pieces of `s` between occurrences of `c`, empty pieces included. */
  function Pieces(s: string, c: char): (r: seq<string>)
    ensures |r| >= 1
  {
    if s == [] then [[]]
    else
      var rest := Pieces(s[1..], c);
      if s[0] == c then [[]] + rest else [[s[0]] + rest[0]] + rest[1..]
  }

  /** Pieces glued back together with the separator. */
  function Join(ps: seq<string>, c: char): string
    requires |ps| >= 1
  {
    if |ps| == 1 then ps[0] else ps[0] + [c] + Join(ps[1..], c)
  }

  predicate Free(ps: seq<string>, c: char) {
    forall i :: 0 <= i < |ps| ==> c !in ps[i]
  }

  /** Cutting at every separator and gluing back gives the input, and no
      piece holds a separator. */
  lemma {:induction false} PiecesJoin(s: string, c: char)
    ensures Join(Pieces(s, c), c) == s
    ensures Free(Pieces(s, c), c)
  {
    if s != [] {
      PiecesJoin(s[1..], c);
      var rest := Pieces(s[1..], c);
      if s[0] == c {
        assert Pieces(s, c)[1..] == rest;
      } else {
        var ps := Pieces(s, c);
        assert ps[1..] == rest[1..];
        if |rest| == 1 {
          assert Join(ps, c) == [s[0]] + rest[0];
        } else {
          assert Join(rest, c) == rest[0] + [c] + Join(rest[1..], c);
        }
        assert s == [s[0]] + s[1..];
      }
    }
  }

  /** Conversely, separator-free pieces are recovered from their join. */
  lemma {:induction false} JoinPieces(ps: seq<string>, c: char)
    requires |ps| >= 1 && Free(ps, c)
    ensures Pieces(Join(ps, c), c) == ps
    decreases |ps|, |ps[0]|
  {
    if ps[0] == [] {
      if |ps| > 1 {
        JoinPieces(ps[1..], c);
        assert Join(ps, c) == [c] + Join(ps[1..], c);
        assert ps == [[]] + ps[1..];
      }
    } else {
      var tail := [ps[0][1..]] + ps[1..];
      assert Free(tail, c) by {
        forall i | 0 <= i < |tail| ensures c !in tail[i] {
          if i == 0 {
            assert c !in ps[0];
          } else {
            assert tail[i] == ps[i];
          }
        }
      }
      JoinPieces(tail, c);
      JoinCons(ps, c);
      var j := Join(ps, c);
      assert j[1..] == Join(tail, c);
      assert j[0] == ps[0][0] != c;
      assert ps[0] == [ps[0][0]] + tail[0];
      assert tail[1..] == ps[1..];
      assert ps == [[ps[0][0]] + tail[0]] + tail[1..];
    }
  }

  lemma JoinCons(ps: seq<string>, c: char)
    requires |ps| >= 1 && ps[0] != []
    ensures Join(ps, c) == [ps[0][0]] + Join([ps[0][1..]] + ps[1..], c)
  {
    var tail := [ps[0][1..]] + ps[1..];
    assert tail[1..] == ps[1..];
    assert ps[0] == [ps[0][0]] + ps[0][1..];
  }

  /** Java's `split` drops the empty strings at the end of its result. */
  function DropTrailingEmpty(ps: seq<string>): (r: seq<string>)
    ensures |r| <= |ps| && r == ps[..|r|]
    ensures r == [] || r[|r| - 1] != []
    ensures forall i :: |r| <= i < |ps| ==> ps[i] == []
  {
    if ps != [] && ps[|ps| - 1] == [] then DropTrailingEmpty(ps[..|ps| - 1]) else ps
  }

  /** `s.split(c)` for a separator that is one literal character: the input
      unchanged when the separator does not occur, otherwise the pieces with
      trailing empty pieces removed. */
  function Split(s: string, c: char): (r: seq<string>)
    ensures c !in s ==> r == [s]
    ensures Free(r, c)
  {
    if c !in s then [s]
    else
      PiecesJoin(s, c);
      DropTrailingEmpty(Pieces(s, c))
  }

  /** Splitting the join of separator-free pieces whose last one is not
      empty gives the pieces back. */
  lemma SplitJoin(ps: seq<string>, c: char)
    requires |ps| >= 1 && Free(ps, c) && ps[|ps| - 1] != []
    ensures Split(Join(ps, c), c) == ps
  {
    JoinPieces(ps, c);
    var s := Join(ps, c);
    if |ps| > 1 {
      assert s == ps[0] + [c] + Join(ps[1..], c);
      assert s[|ps[0]|] == c;
    }
  }

  // ---------------------------------------------------------------------
  // split on runs of whitespace ("\\s+")

  /** The characters the regular expression class `\s` matches. */
  predicate IsSpace(c: char) {
    c == ' ' || c == '\t' || c == '\n' || c == '\U{B}' || c == '\U{C}' || c == '\r'
  }

  predicate HasSpace(s: string) {
    exists i :: 0 <= i < |s| && IsSpace(s[i])
  }

  /** The pieces of `s` between maximal runs of whitespace; a run at the
      start gives a leading empty piece and one at the end a trailing one. */
  function WordPieces(s: string): (r: seq<string>)
    ensures |r| >= 1
  {
    if s == [] then [[]]
    else
      var rest := WordPieces(s[1..]);
      if IsSpace(s[0]) then
        if |s| > 1 && IsSpace(s[1]) then rest else [[]] + rest
      else [[s[0]] + rest[0]] + rest[1..]
  }

  /** `s.split("\\s+")`. */
  function SplitSpaces(s: string): (r: seq<string>)
    ensures !HasSpace(s) ==> r == [s]
  {
    if !HasSpace(s) then [s] else DropTrailingEmpty(WordPieces(s))
  }

  /** No piece of a whitespace split holds whitespace. */
  lemma {:induction false} WordPiecesNoSpace(s: string)
    ensures forall i, k :: 0 <= i < |WordPieces(s)| && 0 <= k < |WordPieces(s)[i]| ==>
      !IsSpace(WordPieces(s)[i][k])
  {
    if s != [] {
      WordPiecesNoSpace(s[1..]);
      var rest := WordPieces(s[1..]);
      if !IsSpace(s[0]) {
        var r := WordPieces(s);
        forall i, k | 0 <= i < |r| && 0 <= k < |r[i]| ensures !IsSpace(r[i][k]) {
          if i == 0 {
            if k > 0 {
              assert r[0][k] == rest[0][k - 1];
            }
          } else {
            assert r[i] == rest[i];
          }
        }
      }
    }
  }

  /** Words separated by single spaces, with no whitespace inside a word and
      no empty word, split back into the words. */
  lemma {:induction false} WordPiecesOfJoin(ws: seq<string>)
    requires |ws| >= 1
    requires forall i :: 0 <= i < |ws| ==> ws[i] != [] && !HasSpace(ws[i])
    ensures WordPieces(Join(ws, ' ')) == ws
    decreases |ws|, |ws[0]|
  {
    var w := ws[0];
    if |w| == 1 {
      if |ws| == 1 {
        LastLetter(ws);
      } else {
        WordPiecesOfJoin(ws[1..]);
        assert !IsSpace(w[0]) && !IsSpace(ws[1][0]);
        LetterThenSpace(ws);
      }
    } else {
      var tail := [w[1..]] + ws[1..];
      WordsTail(ws, tail);
      WordPiecesOfJoin(tail);
      LetterThenWord(ws, tail);
    }
  }

  /** A single one-letter word is its own only piece. */
  lemma LastLetter(ws: seq<string>)
    requires |ws| == 1 && |ws[0]| == 1 && !HasSpace(ws[0])
    ensures WordPieces(Join(ws, ' ')) == ws
  {
    var w := ws[0];
    assert w == [w[0]];
    assert Join(ws, ' ') == w;
    assert WordPieces(w[1..]) == [[]];
    assert !IsSpace(w[0]);
    assert [w[0]] + [] == w;
    assert WordPieces(w) == [[w[0]] + []] + [];
    assert ws == [w];
  }

  /** A one-letter word, a space and then further words. */
  lemma LetterThenSpace(ws: seq<string>)
    requires |ws| > 1 && |ws[0]| == 1 && !IsSpace(ws[0][0])
    requires ws[1] != [] && !IsSpace(ws[1][0])
    requires WordPieces(Join(ws[1..], ' ')) == ws[1..]
    ensures WordPieces(Join(ws, ' ')) == ws
  {
    var a := ws[0][0];
    var t := Join(ws[1..], ' ');
    var u := [' '] + t;
    assert Join(ws, ' ') == [a] + u by {
      assert ws[0] == [a];
    }
    assert WordPieces([a] + u) == [[a]] + ws[1..] by {
      assert t != [] && t[0] == ws[1][0] by { JoinHead(ws[1..]); }
      PiecesAfterSpace(t);
      PiecesAfterLetter(a, u);
      var r := WordPieces(u);
      assert r[0] == [] && r[1..] == ws[1..];
      assert [a] + r[0] == [a];
    }
    assert ws == [[a]] + ws[1..] by {
      assert ws[0] == [a];
    }
  }

  /** A single space before a word opens an empty piece. */
  lemma PiecesAfterSpace(t: string)
    requires t != [] && !IsSpace(t[0])
    ensures WordPieces([' '] + t) == [[]] + WordPieces(t)
  {
    assert ([' '] + t)[1..] == t;
  }

  /** A letter joins the first piece of what follows it. */
  lemma PiecesAfterLetter(a: char, u: string)
    requires !IsSpace(a)
    ensures WordPieces([a] + u) == [[a] + WordPieces(u)[0]] + WordPieces(u)[1..]
  {
    assert ([a] + u)[1..] == u;
  }

  /** Dropping the first letter of a longer first word keeps the words
      non-empty and free of whitespace. */
  lemma WordsTail(ws: seq<string>, tail: seq<string>)
    requires |ws| >= 1 && |ws[0]| > 1 && tail == [ws[0][1..]] + ws[1..]
    requires forall i :: 0 <= i < |ws| ==> ws[i] != [] && !HasSpace(ws[i])
    ensures |tail| >= 1 && |tail[0]| < |ws[0]|
    ensures forall i :: 0 <= i < |tail| ==> tail[i] != [] && !HasSpace(tail[i])
  {
    forall i | 0 <= i < |tail| ensures tail[i] != [] && !HasSpace(tail[i]) {
      if i == 0 {
        assert !HasSpace(ws[0]);
        assert forall k :: 0 <= k < |ws[0][1..]| ==> ws[0][1..][k] == ws[0][k + 1];
      } else {
        assert tail[i] == ws[i];
      }
    }
  }

  /** A longer first word: its first letter, then the pieces of the rest. */
  lemma LetterThenWord(ws: seq<string>, tail: seq<string>)
    requires |ws| >= 1 && |ws[0]| > 1 && tail == [ws[0][1..]] + ws[1..]
    requires !HasSpace(ws[0])
    requires WordPieces(Join(tail, ' ')) == tail
    ensures WordPieces(Join(ws, ' ')) == ws
  {
    var w := ws[0];
    JoinCons(ws, ' ');
    var s := Join(ws, ' ');
    assert s[1..] == Join(tail, ' ');
    assert !IsSpace(s[0]) by { assert s[0] == w[0]; }
    assert w == [w[0]] + tail[0];
    assert tail[1..] == ws[1..];
    assert ws == [[w[0]] + tail[0]] + tail[1..];
  }

  lemma JoinHead(ps: seq<string>)
    requires |ps| >= 1 && ps[0] != []
    ensures Join(ps, ' ')[0] == ps[0][0]
  {
  }

  // ---------------------------------------------------------------------
  // Radix rendering and parsing

  function DigitChar(d: nat): (c: char)
    requires d < 16
  {
    if d < 10 then ('0' as int + d) as char else ('a' as int + d - 10) as char
  }

  /** The zero of every run of ten decimal digits (Unicode general
      category Nd) in the Basic Multilingual Plane as of Unicode 6.2, in
      code point order, after the ASCII one: Arabic-Indic, extended
      Arabic-Indic, NKo, the Indic scripts, Thai, Lao, Tibetan, Myanmar,
      Khmer, Mongolian and the later South-East Asian scripts, Vai,
      Saurashtra, Kayah Li, Javanese, Cham, Meetei Mayek and the fullwidth
      digits. A Java `char` is one UTF-16 unit, so a digit beyond that
      plane is two `char`s, neither of them a digit. */
  const DIGIT_ZEROS: seq<int> := [
    0x660, 0x6F0, 0x7C0, 0x966, 0x9E6, 0xA66, 0xAE6, 0xB66, 0xBE6, 0xC66, 0xCE6,
    0xD66, 0xE50, 0xED0, 0xF20, 0x1040, 0x1090, 0x17E0, 0x1810, 0x1946, 0x19D0, 0x1A80,
    0x1A90, 0x1B50, 0x1BB0, 0x1C40, 0x1C50, 0xA620, 0xA8D0, 0xA900, 0xA9D0, 0xAA50,
    0xABF0, 0xFF10]

  /** The zero of the run of digits that `x` falls in, or -1. */
  function ZeroOf(x: int, zeros: seq<int>): (z: int)
    ensures z != -1 ==> z <= x < z + 10
  {
    if zeros == [] then -1
    else if zeros[0] <= x < zeros[0] + 10 then zeros[0]
    else ZeroOf(x, zeros[1..])
  }

  /** The value of a decimal digit outside ASCII, or -1. */
  function OtherDigit(x: int): (v: int)
    ensures -1 <= v < 10
  {
    var z := ZeroOf(x, DIGIT_ZEROS);
    if x < 0x660 || x > 0xFF19 || z == -1 then -1 else x - z
  }

  /** `Character.digit(c, 10)`: the value of a decimal digit of any
      script, or -1. On ASCII only `0`-`9` are digits. */
  function DecimalValue(c: char): (v: int)
    ensures -1 <= v < 10
    ensures c as int < 0x80 ==> v == if '0' <= c <= '9' then c as int - '0' as int else -1
  {
    if '0' <= c <= '9' then c as int - '0' as int
    else if c as int < 0x80 then -1
    else OtherDigit(c as int)
  }

  /** `Character.digit(c, 16)`: a decimal digit of any script, or a Latin
      letter from `a` to `f` in either case, ASCII or fullwidth; else -1. */
  function HexValue(c: char): (v: int)
    ensures -1 <= v < 16
    ensures c as int < 0x80 ==>
      v == if '0' <= c <= '9' then c as int - '0' as int
           else if 'a' <= c <= 'f' then c as int - 'a' as int + 10
           else if 'A' <= c <= 'F' then c as int - 'A' as int + 10
           else -1
  {
    if '0' <= c <= '9' then c as int - '0' as int
    else if 'a' <= c <= 'f' then c as int - 'a' as int + 10
    else if 'A' <= c <= 'F' then c as int - 'A' as int + 10
    else if c as int < 0x80 then -1
    else if OtherDigit(c as int) >= 0 then OtherDigit(c as int)
    else if 0xFF41 <= c as int <= 0xFF46 then c as int - 0xFF41 + 10
    else if 0xFF21 <= c as int <= 0xFF26 then c as int - 0xFF21 + 10
    else -1
  }

  /** The digits of `n` in `radix`, most significant first, without leading
      zeros (a single "0" for zero). */
  function Digits(n: nat, radix: nat): (r: string)
    requires 2 <= radix <= 16
    ensures |r| >= 1
    ensures n > 0 ==> r[0] != '0'
    ensures forall k {:trigger HexValue(r[k])} :: 0 <= k < |r| ==> 0 <= HexValue(r[k]) < radix
  {
    if n < radix then
      DigitValue(n);
      [DigitChar(n)]
    else
      var q, d := n / radix, n % radix;
      assert q < n && d < radix by { QuotientShrinks(n, radix); }
      DigitValue(d);
      Digits(q, radix) + [DigitChar(d)]
  }

  lemma DigitValue(d: nat)
    requires d < 16
    ensures HexValue(DigitChar(d)) == d
    ensures d > 0 ==> DigitChar(d) != '0'
  {
  }

  lemma QuotientShrinks(n: nat, radix: nat)
    requires 2 <= radix <= n
    ensures 1 <= n / radix < n && n % radix < radix
  {
    var q := n / radix;
    assert n == q * radix + n % radix;
    if q >= n {
      MulNonNeg(q, radix - 1);
    }
  }

  /** The number a digit string denotes in `radix`. */
  function ValueOf(s: string, radix: nat): int
    requires forall k :: 0 <= k < |s| ==> 0 <= HexValue(s[k])
  {
    if s == [] then 0 else ValueOf(s[..|s| - 1], radix) * radix + HexValue(s[|s| - 1])
  }

  lemma {:induction false} ValueOfDigits(n: nat, radix: nat)
    requires 2 <= radix <= 16
    ensures ValueOf(Digits(n, radix), radix) == n
  {
    if n >= radix {
      var q, m := n / radix, n % radix;
      QuotientShrinks(n, radix);
      ValueOfDigits(q, radix);
      DigitValue(m);
      ValueOfSnoc(Digits(q, radix), DigitChar(m), radix);
      EuclidSplit(n, radix);
    } else {
      DigitValue(n);
    }
  }

  lemma EuclidSplit(n: nat, radix: nat)
    requires radix > 0
    ensures n == (n / radix) * radix + n % radix
  {
  }

  lemma ValueOfSnoc(p: string, c: char, radix: nat)
    requires forall k :: 0 <= k < |p| ==> 0 <= HexValue(p[k])
    requires 0 <= HexValue(c)
    ensures ValueOf(p + [c], radix) == ValueOf(p, radix) * radix + HexValue(c)
  {
    assert (p + [c])[..|p|] == p;
  }

  /** `Integer.toHexString`: the unsigned 32-bit value in lower-case hex. */
  function ToHexString(x: int32): string {
    Digits(Unsigned32(x), 16)
  }

  /** `Integer.toOctalString`: the unsigned 32-bit value in octal. */
  function ToOctalString(x: int32): string {
    Digits(Unsigned32(x), 8)
  }

  /** `Integer.parseUnsignedInt(s, 16)`: an optional `+`, then at least one
      hex digit; the value must fit in 32 unsigned bits and comes back as the
      `int` with those bits. */
  function ParseUnsignedHex(s: string): (r: Result<int32, JavaException>)
    ensures r.Failure? ==> r.error == NumberFormatException
  {
    var body := if s != [] && s[0] == '+' then s[1..] else s;
    if body == [] || exists k :: 0 <= k < |body| && HexValue(body[k]) < 0 then
      Failure(NumberFormatException)
    else
      var v := ValueOf(body, 16);
      if v < TWO_32 then Success(Wrap32(v)) else Failure(NumberFormatException)
  }

  /** Hex rendering and parsing are inverse on every `int`. */
  lemma HexRoundTrip(x: int32)
    ensures ParseUnsignedHex(ToHexString(x)) == Success(x)
  {
    var s := ToHexString(x);
    ValueOfDigits(Unsigned32(x), 16);
    assert s[0] != '+' by { assert 0 <= HexValue(s[0]); }
  }

  /** Two different `int`s never render to the same hex string. */
  lemma HexInjective(x: int32, y: int32)
    requires ToHexString(x) == ToHexString(y)
    ensures x == y
  {
    HexRoundTrip(x);
    HexRoundTrip(y);
  }

  function DecimalOf(s: string): int
    requires forall k :: 0 <= k < |s| ==> 0 <= DecimalValue(s[k])
  {
    if s == [] then 0 else DecimalOf(s[..|s| - 1]) * 10 + DecimalValue(s[|s| - 1])
  }

  /** Every character is a decimal digit. */
  predicate IsDecimal(s: string) {
    forall k :: 0 <= k < |s| ==> 0 <= DecimalValue(s[k])
  }

  /** `Long.parseLong(s)`: an optional sign, then at least one decimal
      digit of any script, the value within the `long` range. */
  function ParseLong(s: string): (r: Result<int64, JavaException>)
    ensures r.Failure? ==> r.error == NumberFormatException
    ensures s == [] ==> r.Failure?
  {
    var neg := s != [] && s[0] == '-';
    var body := if s != [] && (s[0] == '-' || s[0] == '+') then s[1..] else s;
    if body == [] || !IsDecimal(body) then
      Failure(NumberFormatException)
    else
      var v := if neg then -DecimalOf(body) else DecimalOf(body);
      if IsLong(v) then Success(v) else Failure(NumberFormatException)
  }

  /** A plain run of decimal digits parses to the number it denotes, when
      that number is a `long`. */
  lemma ParseLongDigits(s: string)
    requires s != [] && IsDecimal(s)
    requires DecimalOf(s) <= LONG_MAX
    ensures ParseLong(s) == Success(DecimalOf(s))
  {
    DecimalOfNonNegative(s);
    SignNotDigit(s[0]);
  }

  /** Neither sign character is a digit. */
  lemma SignNotDigit(c: char)
    requires 0 <= DecimalValue(c)
    ensures c != '-' && c != '+'
  {
  }

  /** A minus sign before a run of digits negates the number, down to
      `Long.MIN_VALUE`. */
  lemma ParseLongNegated(s: string)
    requires s != [] && IsDecimal(s)
    requires -DecimalOf(s) >= LONG_MIN
    ensures ParseLong("-" + s) == Success(-DecimalOf(s))
  {
    var t := "-" + s;
    assert t[0] == '-' && t[1..] == s;
    DecimalOfNonNegative(s);
  }

  /** A character that is not a digit, anywhere but at a leading sign,
      makes `parseLong` throw. */
  lemma ParseLongNonDigit(s: string, k: nat)
    requires k < |s| && DecimalValue(s[k]) < 0
    requires k == 0 ==> s[0] != '-' && s[0] != '+'
    ensures ParseLong(s) == Failure(NumberFormatException)
  {
    var body := if s != [] && (s[0] == '-' || s[0] == '+') then s[1..] else s;
    if body != [] {
      var j := if body == s then k else k - 1;
      assert body[j] == s[k];
      assert !IsDecimal(body);
    }
  }

  /** A run of digits denoting more than `Long.MAX_VALUE` makes `parseLong`
      throw. */
  lemma ParseLongTooLarge(s: string)
    requires s != [] && IsDecimal(s) && DecimalOf(s) > LONG_MAX
    ensures ParseLong(s) == Failure(NumberFormatException)
  {
    SignNotDigit(s[0]);
  }

  /** Digits of other scripts count: `Long.parseLong("\u0661")`, the
      Arabic-Indic one, is 1. */
  lemma ArabicIndicOne()
    ensures ParseLong([0x661 as char]) == Success(1)
  {
    var s := [0x661 as char];
    assert DecimalValue(s[0]) == 1 by {
      assert ZeroOf(0x661, DIGIT_ZEROS) == 0x660;
      assert OtherDigit(0x661) == 1;
    }
    ParseLongDigits(s);
    assert DecimalOf(s) == DecimalOf(s[..0]) * 10 + 1;
  }

  lemma {:induction false} DecimalOfNonNegative(s: string)
    requires forall k :: 0 <= k < |s| ==> 0 <= DecimalValue(s[k])
    ensures DecimalOf(s) >= 0
  {
    if s != [] {
      DecimalOfNonNegative(s[..|s| - 1]);
    }
  }
}
