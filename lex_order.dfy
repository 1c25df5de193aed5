/** The order `String.compareTo` puts on strings, which is the order of the
    keys of the sorted maps in the model, together with the two standard
    library operations built on it: `Collections.sort` of a list of strings
    and the ascending key sequence of a sorted map. */
module LexOrder {

  /** `a.compareTo(b) < 0`: the first differing character decides, and a
      proper prefix comes first. */
  predicate Less(a: string, b: string) {
    if a == [] then b != []
    else if b == [] then false
    else if a[0] != b[0] then a[0] < b[0]
    else Less(a[1..], b[1..])
  }

  predicate LessEq(a: string, b: string) {
    a == b || Less(a, b)
  }

  lemma {:induction false} LessIrreflexive(a: string)
    ensures !Less(a, a)
  {
    if a != [] {
      LessIrreflexive(a[1..]);
    }
  }

  lemma {:induction false} LessAsymmetric(a: string, b: string)
    ensures !(Less(a, b) && Less(b, a))
  {
    if a != [] && b != [] && a[0] == b[0] {
      LessAsymmetric(a[1..], b[1..]);
    }
  }

  lemma {:induction false} LessTransitive(a: string, b: string, c: string)
    requires Less(a, b) && Less(b, c)
    ensures Less(a, c)
  {
    if a != [] && a[0] == b[0] && b[0] == c[0] {
      LessTransitive(a[1..], b[1..], c[1..]);
    }
  }

  /** Any two different strings are ordered one way or the other. */
  lemma {:induction false} LessTotal(a: string, b: string)
    ensures a == b || Less(a, b) || Less(b, a)
  {
    if a != [] && b != [] && a[0] == b[0] {
      LessTotal(a[1..], b[1..]);
      if a[1..] == b[1..] {
        assert a == [a[0]] + a[1..];
        assert b == [b[0]] + b[1..];
      }
    }
  }

  lemma LessEqTransitive(a: string, b: string, c: string)
    requires LessEq(a, b) && LessEq(b, c)
    ensures LessEq(a, c)
  {
    if a != b && b != c {
      LessTransitive(a, b, c);
    }
  }

  /** Strings of the same length made of the characters '0'-'9' and 'a'-'f'
      compare as the numbers they denote compare: shown for the first
      differing character. */
  lemma {:induction false} SameLengthLess(a: string, b: string, i: nat)
    requires |a| == |b| && i < |a|
    requires a[..i] == b[..i] && a[i] < b[i]
    ensures Less(a, b)
  {
    if i > 0 {
      assert a[0] == a[..i][0] == b[..i][0] == b[0];
      assert a[1..][..i - 1] == a[..i][1..];
      assert b[1..][..i - 1] == b[..i][1..];
      SameLengthLess(a[1..], b[1..], i - 1);
    }
  }

  /** A proper prefix comes before the strings that extend it. */
  lemma {:induction false} PrefixLess(p: string, s: string)
    requires |p| < |s| && s[..|p|] == p
    ensures Less(p, s)
  {
    if p != [] {
      assert s[1..][..|p| - 1] == p[1..];
      PrefixLess(p[1..], s[1..]);
    }
  }

  /** Every string that extends `p` is below `p + [c]` when the next
      character of `s` is below `c`. */
  lemma {:induction false} ExtensionLess(p: string, s: string, c: char)
    requires |p| < |s| && s[..|p|] == p && s[|p|] < c
    ensures Less(s, p + [c])
  {
    if p == [] {
      assert (p + [c])[0] == c;
    } else {
      assert (p + [c])[1..] == p[1..] + [c];
      assert s[1..][..|p| - 1] == p[1..];
      ExtensionLess(p[1..], s[1..], c);
    }
  }

  /** One more character on each of two strings of the same length keeps
      their order. */
  lemma {:induction false} SnocLess(a: string, b: string, x: char, y: char)
    requires |a| == |b| && Less(a, b)
    ensures Less(a + [x], b + [y])
  {
    if a[0] == b[0] {
      assert (a + [x])[1..] == a[1..] + [x];
      assert (b + [y])[1..] == b[1..] + [y];
      SnocLess(a[1..], b[1..], x, y);
    }
  }

  // ---------------------------------------------------------------------
  // Collections.sort

  predicate Sorted(s: seq<string>) {
    forall i, j :: 0 <= i < j < |s| ==> LessEq(s[i], s[j])
  }

  function Insert(x: string, s: seq<string>): (r: seq<string>)
    requires Sorted(s)
    ensures multiset(r) == multiset(s) + multiset{x}
    ensures Sorted(r)
  {
    if s == [] then [x]
    else if LessEq(x, s[0]) then
      BelowHead(x, s);
      ConsSorted(x, s);
      [x] + s
    else
      var t := Insert(x, s[1..]);
      assert s == [s[0]] + s[1..];
      LessTotal(x, s[0]);
      BelowAll(s[0], x, s, t);
      ConsSorted(s[0], t);
      [s[0]] + t
  }

  /** A string below or equal to every element of a sorted sequence can be
      put in front of it. */
  lemma ConsSorted(h: string, t: seq<string>)
    requires Sorted(t)
    requires forall k :: 0 <= k < |t| ==> LessEq(h, t[k])
    ensures Sorted([h] + t)
  {
    forall i, j | 0 <= i < j < |t| + 1 ensures LessEq(([h] + t)[i], ([h] + t)[j]) {
      if i > 0 {
        assert ([h] + t)[i] == t[i - 1];
      }
    }
  }

  /** What is below the head of a sorted sequence is below all of it. */
  lemma BelowHead(x: string, s: seq<string>)
    requires Sorted(s) && s != [] && LessEq(x, s[0])
    ensures forall k :: 0 <= k < |s| ==> LessEq(x, s[k])
  {
    forall k | 0 <= k < |s| ensures LessEq(x, s[k]) {
      LessEqTransitive(x, s[0], s[k]);
    }
  }

  /** The head of a sorted sequence is below its other elements, and below
      `x` too when it is below `x`. */
  lemma BelowAll(h: string, x: string, s: seq<string>, t: seq<string>)
    requires Sorted(s) && s != [] && h == s[0] && LessEq(h, x)
    requires multiset(t) == multiset(s[1..]) + multiset{x}
    ensures forall k :: 0 <= k < |t| ==> LessEq(h, t[k])
  {
    forall k | 0 <= k < |t| ensures LessEq(h, t[k]) {
      assert t[k] in multiset(t);
      if t[k] != x {
        assert t[k] in multiset(s[1..]);
        var m :| 0 <= m < |s[1..]| && s[1..][m] == t[k];
        assert s[1..][m] == s[m + 1];
      }
    }
  }

  /** `Collections.sort` on a list of strings, as insertion sort. Equal
      strings are indistinguishable, so stability plays no part. */
  function Sort(s: seq<string>): (r: seq<string>)
    ensures multiset(r) == multiset(s)
    ensures Sorted(r)
  {
    if s == [] then []
    else
      assert s == [s[0]] + s[1..];
      Insert(s[0], Sort(s[1..]))
  }

  /** Two sorted sequences with the same elements are equal. */
  lemma {:induction false} SortedUnique(a: seq<string>, b: seq<string>)
    requires Sorted(a) && Sorted(b) && multiset(a) == multiset(b)
    ensures a == b
  {
    if a != [] {
      assert |b| == |a| by { assert |multiset(a)| == |multiset(b)|; }
      SortedHeads(a, b);
      TailMultiset(a, b);
      SortedUnique(a[1..], b[1..]);
      assert a == [a[0]] + a[1..];
      assert b == [b[0]] + b[1..];
    }
  }

  lemma SortedHeads(a: seq<string>, b: seq<string>)
    requires Sorted(a) && Sorted(b) && multiset(a) == multiset(b) && a != [] && b != []
    ensures a[0] == b[0]
  {
    assert a[0] in multiset(b) && b[0] in multiset(a);
    var i :| 0 <= i < |b| && b[i] == a[0];
    var j :| 0 <= j < |a| && a[j] == b[0];
    assert LessEq(b[0], a[0]) && LessEq(a[0], b[0]);
    LessAsymmetric(a[0], b[0]);
  }

  lemma TailMultiset(a: seq<string>, b: seq<string>)
    requires a != [] && b != [] && a[0] == b[0] && multiset(a) == multiset(b)
    ensures multiset(a[1..]) == multiset(b[1..])
  {
    assert a == [a[0]] + a[1..];
    assert b == [b[0]] + b[1..];
    assert multiset(a[1..]) == multiset(a) - multiset{a[0]};
    assert multiset(b[1..]) == multiset(b) - multiset{b[0]};
  }

  /** Sorting forgets the order it was given: any permutation of a list
      sorts to the same list. */
  lemma SortPermutationInvariant(p: seq<string>, q: seq<string>)
    requires multiset(p) == multiset(q)
    ensures Sort(p) == Sort(q)
  {
    SortedUnique(Sort(p), Sort(q));
  }

  // ---------------------------------------------------------------------
  // Ascending key order of a sorted map

  predicate IsMin(m: string, s: set<string>) {
    m in s && forall k :: k in s ==> LessEq(m, k)
  }

  lemma {:induction false} MinExists(s: set<string>)
    requires s != {}
    ensures exists m :: IsMin(m, s)
    decreases |s|
  {
    var x :| x in s;
    if s - {x} == {} {
      assert s == {x};
      assert IsMin(x, s);
    } else {
      MinExists(s - {x});
      var m :| IsMin(m, s - {x});
      LessTotal(x, m);
      if Less(x, m) {
        forall k | k in s ensures LessEq(x, k) {
          if k != x {
            assert LessEq(m, k);
            LessEqTransitive(x, m, k);
          }
        }
        assert IsMin(x, s);
      } else {
        assert IsMin(m, s);
      }
    }
  }

  lemma MinUnique(m: string, m': string, s: set<string>)
    requires IsMin(m, s) && IsMin(m', s)
    ensures m == m'
  {
    LessAsymmetric(m, m');
  }

  ghost function Min(s: set<string>): (m: string)
    requires s != {}
    ensures IsMin(m, s)
  {
    MinExists(s);
    var m :| IsMin(m, s);
    m
  }

  /** The keys of a sorted map in ascending order. */
  ghost function SortedKeys(s: set<string>): (r: seq<string>)
    decreases |s|
  {
    if s == {} then [] else [Min(s)] + SortedKeys(s - {Min(s)})
  }

  predicate StrictlySorted(ks: seq<string>) {
    forall i, j :: 0 <= i < j < |ks| ==> Less(ks[i], ks[j])
  }

  /** The ascending key sequence lists every key exactly once, in strictly
      increasing order. */
  lemma {:induction false} SortedKeysSpec(s: set<string>)
    ensures StrictlySorted(SortedKeys(s))
    ensures forall k :: k in SortedKeys(s) <==> k in s
    ensures |SortedKeys(s)| == |s|
    decreases |s|
  {
    if s != {} {
      var m := Min(s);
      var rest := SortedKeys(s - {m});
      SortedKeysSpec(s - {m});
      var r := [m] + rest;
      forall i, j | 0 <= i < j < |r| ensures Less(r[i], r[j]) {
        if i == 0 {
          assert r[j] in s - {m};
          LessTotal(m, r[j]);
        } else {
          assert r[i] == rest[i - 1] && r[j] == rest[j - 1];
        }
      }
    }
  }

  /** The ascending key sequence lists exactly the keys. */
  lemma SortedKeysMembers(s: set<string>)
    ensures forall k :: k in SortedKeys(s) <==> k in s
  {
    SortedKeysSpec(s);
  }

  /** Conversely, a strictly increasing listing of a set is its ascending
      key sequence. */
  lemma {:induction false} SortedKeysUnique(ks: seq<string>, s: set<string>)
    requires StrictlySorted(ks)
    requires forall k :: k in ks <==> k in s
    ensures ks == SortedKeys(s)
    decreases |ks|
  {
    if ks == [] {
      assert s == {};
    } else {
      assert s != {} by { assert ks[0] in s; }
      assert IsMin(ks[0], s) by {
        forall k | k in s ensures LessEq(ks[0], k) {
          var i :| 0 <= i < |ks| && ks[i] == k;
        }
      }
      MinUnique(ks[0], Min(s), s);
      var t := ks[1..];
      forall k ensures k in t <==> k in s - {ks[0]} {
        if k in t {
          var i :| 0 <= i < |t| && t[i] == k;
          assert ks[i + 1] == k;
          assert Less(ks[0], ks[i + 1]);
          LessIrreflexive(k);
        }
        if k in s - {ks[0]} {
          assert k in ks;
          var i :| 0 <= i < |ks| && ks[i] == k;
          assert i != 0;
          assert t[i - 1] == k;
        }
      }
      SortedKeysUnique(t, s - {ks[0]});
    }
  }

  /** The keys of a sorted map, listed in ascending order by repeatedly
      taking the least key not yet listed. */
  method OrderedKeys(s: set<string>) returns (ks: seq<string>)
    ensures ks == SortedKeys(s)
  {
    ks := [];
    var rest := s;
    while rest != {}
      invariant rest <= s
      invariant ks + SortedKeys(rest) == SortedKeys(s)
      decreases |rest|
    {
      var m :| IsMin(m, rest);
      MinUnique(m, Min(rest), rest);
      assert SortedKeys(rest) == [m] + SortedKeys(rest - {m});
      ks := ks + [m];
      rest := rest - {m};
    }
  }
}
