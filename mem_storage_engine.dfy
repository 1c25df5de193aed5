/** `MemStorageEngine`: databases hold measurements, measurements hold
    series under row keys `field#tok_tok_…`, each token being the hex hash
    of one tag, taken over the tags in sorted order. A tag table per
    measurement maps each hash back to the first tag stored under it. The
    hash function (`MurmurHash.hash32`) is a parameter of the model. */
module MemEngine {
  import opened Wrappers
  import opened JavaInt
  import opened JavaString
  import opened LexOrder
  import opened TimeUtils
  import opened GorillaReader
  import opened Predicates
  import opened DataPoints
  import opened Buckets
  import opened Series
  import Seqs

  /** `TAG_SEPARATOR`, written after every tag token. */
  const TAG_SEPARATOR: char := '_'

  /** The character between the value field and the tag tokens of a row key. */
  const FIELD_SEPARATOR: char := '#'

  // ---------------------------------------------------------------------
  // Tag tokens

  /** The token `createEntry` returns for a tag: its hash in hex. */
  function Token(hash: string -> int32, tag: string): string {
    ToHexString(hash(tag))
  }

  /** The tokens of a tag list, in order. */
  function Tokens(hash: string -> int32, tags: seq<string>): (r: seq<string>)
    ensures |r| == |tags| && forall i :: 0 <= i < |tags| ==> r[i] == Token(hash, tags[i])
  {
    seq(|tags|, i requires 0 <= i < |tags| => Token(hash, tags[i]))
  }

  /** What `encodeTagsToString` builds: each tag's token, each followed by
      the separator. */
  function EncodedTags(hash: string -> int32, tags: seq<string>): string {
    if tags == [] then [] else Token(hash, tags[0]) + [TAG_SEPARATOR] + EncodedTags(hash, tags[1..])
  }

  /** A token is a non-empty run of hex digits, so it holds neither
      separator. */
  lemma TokenChars(hash: string -> int32, tag: string)
    ensures |Token(hash, tag)| >= 1
    ensures TAG_SEPARATOR !in Token(hash, tag) && FIELD_SEPARATOR !in Token(hash, tag)
  {
    var t := Token(hash, tag);
    assert HexValue(TAG_SEPARATOR) == -1 && HexValue(FIELD_SEPARATOR) == -1;
    assert forall k :: 0 <= k < |t| ==> 0 <= HexValue(t[k]);
  }

  /** The encoded tags hold no field separator. */
  lemma {:induction false} EncodedNoField(hash: string -> int32, tags: seq<string>)
    ensures FIELD_SEPARATOR !in EncodedTags(hash, tags)
  {
    if tags != [] {
      TokenChars(hash, tags[0]);
      EncodedNoField(hash, tags[1..]);
    }
  }

  /** The encoding is the tokens joined by the separator, with an empty
      piece after the last separator. */
  lemma {:induction false} EncodedAsJoin(hash: string -> int32, tags: seq<string>)
    ensures EncodedTags(hash, tags) == Join(Tokens(hash, tags) + [[]], TAG_SEPARATOR)
  {
    if tags != [] {
      EncodedAsJoin(hash, tags[1..]);
      var ps := Tokens(hash, tags) + [[]];
      assert ps[1..] == Tokens(hash, tags[1..]) + [[]];
    }
  }

  /** `split("_")` of an encoding gives back the tokens: the trailing empty
      piece is dropped. Without tags, the encoding is empty and splits into
      one empty piece. */
  lemma SplitEncoded(hash: string -> int32, tags: seq<string>)
    ensures tags == [] ==> Split(EncodedTags(hash, tags), TAG_SEPARATOR) == [[]]
    ensures tags != [] ==> Split(EncodedTags(hash, tags), TAG_SEPARATOR) == Tokens(hash, tags)
  {
    if tags != [] {
      var toks := Tokens(hash, tags);
      var ps := toks + [[]];
      forall i | 0 <= i < |tags| ensures TAG_SEPARATOR !in ps[i] {
        TokenChars(hash, tags[i]);
      }
      assert Free(ps, TAG_SEPARATOR);
      EncodedAsJoin(hash, tags);
      JoinPieces(ps, TAG_SEPARATOR);
      var s := EncodedTags(hash, tags);
      TokenChars(hash, tags[0]);
      assert s[|Token(hash, tags[0])|] == TAG_SEPARATOR;
      TokenChars(hash, tags[|tags| - 1]);
      assert ps[..|ps| - 1] == toks;
      assert DropTrailingEmpty(ps) == DropTrailingEmpty(toks) == toks;
    }
  }

  // ---------------------------------------------------------------------
  // The tag table

  /** `tagMap.put` guarded by `tagMap.get == null`: a hash already present
      keeps its tag. */
  function Store(tagMap: map<int32, string>, h: int32, tag: string): map<int32, string> {
    if h in tagMap then tagMap else tagMap[h := tag]
  }

  /** The table after a `createEntry` per tag, in order. */
  function Register(tagMap: map<int32, string>, hash: string -> int32, tags: seq<string>): map<int32, string>
    decreases |tags|
  {
    if tags == [] then tagMap else Register(Store(tagMap, hash(tags[0]), tags[0]), hash, tags[1..])
  }

  /** Registering tags never overwrites an entry, adds exactly the tags'
      hashes, and a new hash holds the first tag that had it. */
  lemma {:induction false} RegisterSpec(tagMap: map<int32, string>, hash: string -> int32, tags: seq<string>)
    ensures var r := Register(tagMap, hash, tags);
      (forall h :: h in tagMap ==> h in r && r[h] == tagMap[h]) &&
      (forall h :: h in r <==> h in tagMap || exists i :: 0 <= i < |tags| && hash(tags[i]) == h) &&
      (forall i :: (0 <= i < |tags| && hash(tags[i]) !in tagMap &&
                    (forall j :: 0 <= j < i ==> hash(tags[j]) != hash(tags[i]))) ==> r[hash(tags[i])] == tags[i])
    decreases |tags|
  {
    if tags != [] {
      var m' := Store(tagMap, hash(tags[0]), tags[0]);
      var rest := tags[1..];
      RegisterSpec(m', hash, rest);
      var r := Register(tagMap, hash, tags);
      assert r == Register(m', hash, rest);
      forall h ensures h in r <==> h in tagMap || exists i :: 0 <= i < |tags| && hash(tags[i]) == h {
        if exists i :: 0 <= i < |rest| && hash(rest[i]) == h {
          var i :| 0 <= i < |rest| && hash(rest[i]) == h;
          assert hash(tags[i + 1]) == h;
        }
        if exists i :: 0 <= i < |tags| && hash(tags[i]) == h {
          var i :| 0 <= i < |tags| && hash(tags[i]) == h;
          if i > 0 {
            assert hash(rest[i - 1]) == h;
          }
        }
      }
      forall i | 0 <= i < |tags| && hash(tags[i]) !in tagMap &&
                 (forall j :: 0 <= j < i ==> hash(tags[j]) != hash(tags[i]))
        ensures r[hash(tags[i])] == tags[i]
      {
        if i > 0 {
          assert rest[i - 1] == tags[i];
          assert forall j :: 0 <= j < i - 1 ==> hash(rest[j]) != hash(rest[i - 1]) by {
            forall j | 0 <= j < i - 1 ensures hash(rest[j]) != hash(rest[i - 1]) {
              assert rest[j] == tags[j + 1];
            }
          }
          assert hash(tags[0]) != hash(tags[i]);
        }
      }
    }
  }

  /** `getEntry`'s answer against a table's contents: the parse refuses a
      token that is not hex, and an unknown hash gives `null`. */
  function Lookup(tagMap: map<int32, string>, token: string): (r: Result<Option<string>, JavaException>)
    ensures r.Failure? ==> r.error == NumberFormatException
    ensures forall h :: token == ToHexString(h) ==>
      r == Success(if h in tagMap then Some(tagMap[h]) else None)
  {
    HexFacts();
    var h :- ParseUnsignedHex(token);
    Success(if h in tagMap then Some(tagMap[h]) else None)
  }

  lemma HexFacts()
    ensures forall h: int32 :: ParseUnsignedHex(ToHexString(h)) == Success(h)
  {
    forall h: int32 ensures ParseUnsignedHex(ToHexString(h)) == Success(h) {
      HexRoundTrip(h);
    }
  }

  /** What `decodeStringToTags` returns for the pieces of a tag string: the
      lookups in order, or the first lookup's exception. */
  function DecodeTags(tagMap: map<int32, string>, pieces: seq<string>): (r: Result<seq<Option<string>>, JavaException>)
    ensures r.Success? ==> |r.value| == |pieces|
  {
    if pieces == [] then Success([])
    else
      var init :- DecodeTags(tagMap, pieces[..|pieces| - 1]);
      var tag :- Lookup(tagMap, pieces[|pieces| - 1]);
      Success(init + [tag])
  }

  /** Once a lookup has thrown, the later pieces are never looked up. */
  lemma {:induction false} DecodeFailsFrom(tagMap: map<int32, string>, pieces: seq<string>, n: nat)
    requires n <= |pieces| && DecodeTags(tagMap, pieces[..n]).Failure?
    ensures DecodeTags(tagMap, pieces) == DecodeTags(tagMap, pieces[..n])
    decreases |pieces| - n
  {
    if n < |pieces| {
      var init := pieces[..|pieces| - 1];
      assert init[..n] == pieces[..n];
      DecodeFailsFrom(tagMap, init, n);
    } else {
      assert pieces[..n] == pieces;
    }
  }

  /** Every tag present. */
  function Somes(tags: seq<string>): (r: seq<Option<string>>)
    ensures |r| == |tags|
  {
    if tags == [] then [] else Somes(tags[..|tags| - 1]) + [Some(tags[|tags| - 1])]
  }

  /** Each tag stored under its own hash: nothing collided. */
  predicate Holds(tagMap: map<int32, string>, hash: string -> int32, tags: seq<string>) {
    forall i :: 0 <= i < |tags| ==> hash(tags[i]) in tagMap && tagMap[hash(tags[i])] == tags[i]
  }

  lemma {:induction false} DecodeTokens(tagMap: map<int32, string>, hash: string -> int32, tags: seq<string>)
    requires Holds(tagMap, hash, tags)
    ensures DecodeTags(tagMap, Tokens(hash, tags)) == Success(Somes(tags))
  {
    if tags != [] {
      var init := tags[..|tags| - 1];
      assert Holds(tagMap, hash, init) by {
        assert forall i :: 0 <= i < |init| ==> init[i] == tags[i];
      }
      DecodeTokens(tagMap, hash, init);
      var toks := Tokens(hash, tags);
      var last := tags[|tags| - 1];
      assert toks[..|toks| - 1] == Tokens(hash, init);
      assert Lookup(tagMap, toks[|toks| - 1]) == Success(Some(last));
      assert DecodeTags(tagMap, toks) == Success(Somes(init) + [Some(last)]);
    }
  }

  /** Decoding an encoding gives the tags back, provided every tag is stored
      under its own hash. */
  lemma DecodeEncoded(tagMap: map<int32, string>, hash: string -> int32, tags: seq<string>)
    requires tags != [] && Holds(tagMap, hash, tags)
    ensures DecodeTags(tagMap, Split(EncodedTags(hash, tags), TAG_SEPARATOR)) == Success(Somes(tags))
  {
    SplitEncoded(hash, tags);
    DecodeTokens(tagMap, hash, tags);
  }

  /** Without tags the encoding is empty, and decoding it throws: the empty
      string is not a hex number. */
  lemma DecodeUntagged(tagMap: map<int32, string>, hash: string -> int32)
    ensures DecodeTags(tagMap, Split(EncodedTags(hash, []), TAG_SEPARATOR)) == Failure(NumberFormatException)
  {
    SplitEncoded(hash, []);
    var pieces: seq<string> := [[]];
    assert pieces[..0] == [];
    assert DecodeTags(tagMap, pieces) == Failure(NumberFormatException);
  }

  /** `tagToString`: a slash before each tag; a tag the table did not know
      appends as `null`. */
  function TagString(tags: seq<Option<string>>): string {
    if tags == [] then []
    else TagString(tags[..|tags| - 1]) + ['/'] + Shown(tags[|tags| - 1])
  }

  /** `StringBuilder.append` of a possibly null string. */
  function Shown(tag: Option<string>): string {
    if tag.Some? then tag.value else "null"
  }

  /** Known tags print as a slash and then the tags joined by slashes; so
      splitting what follows the first slash gives them back when no tag
      holds a slash and the last is not empty. */
  lemma {:induction false} TagStringJoin(tags: seq<string>)
    requires tags != []
    ensures TagString(Somes(tags)) == ['/'] + Join(tags, '/')
  {
    var n := |tags|;
    if n == 1 {
      var t := Somes(tags);
      assert t == [Some(tags[0])] by { assert tags[..0] == []; }
      assert t[..0] == [];
      assert TagString(t) == ['/'] + tags[0];
    } else {
      var init, last := tags[..n - 1], tags[n - 1];
      TagStringJoin(init);
      var t := Somes(tags);
      assert t == Somes(init) + [Some(last)];
      assert t[..n - 1] == Somes(init);
      assert TagString(t) == TagString(Somes(init)) + ['/'] + last;
      JoinSnoc(init, last, '/');
      assert init + [last] == tags;
      assert Join(tags, '/') == Join(init, '/') + ['/'] + last;
      assert TagString(t) == (['/'] + Join(init, '/')) + ['/'] + last;
      assert (['/'] + Join(init, '/')) + ['/'] + last == ['/'] + (Join(init, '/') + ['/'] + last);
    }
  }

  lemma {:induction false} JoinSnoc(ps: seq<string>, p: string, c: char)
    requires ps != []
    ensures Join(ps + [p], c) == Join(ps, c) + [c] + p
  {
    if |ps| > 1 {
      JoinSnoc(ps[1..], p, c);
      assert (ps + [p])[1..] == ps[1..] + [p];
    } else {
      assert (ps + [p])[1..] == [p];
    }
  }

  lemma TagStringSplit(tags: seq<string>)
    requires tags != [] && Free(tags, '/') && tags[|tags| - 1] != []
    ensures var s := TagString(Somes(tags)); |s| > 0 && s[0] == '/' && Split(s[1..], '/') == tags
  {
    TagStringJoin(tags);
    SplitJoin(tags, '/');
    assert TagString(Somes(tags))[1..] == Join(tags, '/');
  }

  /** `tagToString`, appending to a builder tag by tag. */
  method TagToString(tags: seq<Option<string>>) returns (s: string)
    ensures s == TagString(tags)
  {
    s := [];
    for i := 0 to |tags|
      invariant s == TagString(tags[..i])
    {
      assert tags[..i + 1][..i] == tags[..i];
      s := s + ['/'] + Shown(tags[i]);
    }
    assert tags[..|tags|] == tags;
  }

  /** `MemTagLookupTable`: tags under their hashes. */
  class MemTagLookupTable {
    const hash: string -> int32
    var tagMap: map<int32, string>
    ghost const measurement: (string, string)    // the database and measurement it serves

    constructor (hash: string -> int32, ghost measurement: (string, string))
      ensures this.hash == hash && tagMap == map[] && this.measurement == measurement
    {
      this.hash := hash;
      this.measurement := measurement;
      tagMap := map[];
    }

    /** `createEntry`: stores the tag under its hash unless the hash is
        already present, and returns the hash in hex; looking that token up
        afterwards gives the tag first stored under the hash. */
    method CreateEntry(tag: string) returns (token: string)
      modifies this
      ensures tagMap == Store(old(tagMap), hash(tag), tag)
      ensures token == Token(hash, tag)
      ensures Lookup(tagMap, token) ==
        Success(Some(if hash(tag) in old(tagMap) then old(tagMap)[hash(tag)] else tag))
    {
      var hash32 := hash(tag);
      if hash32 !in tagMap {
        tagMap := tagMap[hash32 := tag];
      }
      token := ToHexString(hash32);
    }

    /** `getEntry`. */
    method GetEntry(hexString: string) returns (r: Result<Option<string>, JavaException>)
      ensures r == Lookup(tagMap, hexString)
    {
      var h := ParseUnsignedHex(hexString);
      if h.Failure? {
        return Failure(h.error);
      }
      r := Success(if h.value in tagMap then Some(tagMap[h.value]) else None);
    }
  }

  /** `encodeTagsToString`: a `createEntry` per tag, each token followed by
      the separator. */
  method EncodeTagsToString(table: MemTagLookupTable, tags: seq<string>) returns (s: string)
    modifies table
    ensures s == EncodedTags(table.hash, tags)
    ensures table.tagMap == Register(old(table.tagMap), table.hash, tags)
  {
    s := [];
    for i := 0 to |tags|
      invariant s + EncodedTags(table.hash, tags[i..]) == EncodedTags(table.hash, tags)
      invariant Register(table.tagMap, table.hash, tags[i..]) == Register(old(table.tagMap), table.hash, tags)
    {
      assert tags[i..][1..] == tags[i + 1..];
      ghost var later := EncodedTags(table.hash, tags[i + 1..]);
      var token := table.CreateEntry(tags[i]);
      assert EncodedTags(table.hash, tags[i..]) == token + [TAG_SEPARATOR] + later;
      Shift(EncodedTags(table.hash, tags), s, token + [TAG_SEPARATOR], EncodedTags(table.hash, tags[i..]), later);
      s := s + (token + [TAG_SEPARATOR]);
    }
    assert s == s + EncodedTags(table.hash, []);
  }

  /** `decodeStringToTags`: a `getEntry` per piece of the split string. */
  method DecodeStringToTags(table: MemTagLookupTable, tagString: string)
    returns (r: Result<seq<Option<string>>, JavaException>)
    ensures r == DecodeTags(table.tagMap, Split(tagString, TAG_SEPARATOR))
  {
    var pieces := Split(tagString, TAG_SEPARATOR);
    var tagList := [];
    for i := 0 to |pieces|
      invariant DecodeTags(table.tagMap, pieces[..i]) == Success(tagList)
    {
      assert pieces[..i + 1][..i] == pieces[..i];
      var tag := table.GetEntry(pieces[i]);
      if tag.Failure? {
        DecodeFailsFrom(table.tagMap, pieces, i + 1);
        return Failure(tag.error);
      }
      tagList := tagList + [tag.value];
    }
    assert pieces[..|pieces|] == pieces;
    r := Success(tagList);
  }

  // ---------------------------------------------------------------------
  // Row keys

  /** The row key of a series: the value field, `#`, and the tokens of the
      tags in sorted order. */
  function RowKey(hash: string -> int32, valueFieldName: string, tags: seq<string>): string {
    valueFieldName + [FIELD_SEPARATOR] + EncodedTags(hash, Sort(tags))
  }

  /** Tags are sorted before they are encoded, so any permutation of a tag
      list gives the same row key. */
  lemma RowKeyPermutation(hash: string -> int32, valueFieldName: string, p: seq<string>, q: seq<string>)
    requires multiset(p) == multiset(q)
    ensures RowKey(hash, valueFieldName, p) == RowKey(hash, valueFieldName, q)
  {
    SortPermutationInvariant(p, q);
  }

  /** Splitting a row key on `#` gives the field and the encoded tags back
      when the field holds no `#` and there is at least one tag; without
      tags the encoding is empty, `split` drops it, and fewer than two
      pieces remain. */
  lemma RowKeySplit(hash: string -> int32, valueFieldName: string, tags: seq<string>)
    requires FIELD_SEPARATOR !in valueFieldName
    ensures tags == [] ==> |Split(RowKey(hash, valueFieldName, tags), FIELD_SEPARATOR)| < 2
    ensures tags != [] ==>
      Split(RowKey(hash, valueFieldName, tags), FIELD_SEPARATOR) == [valueFieldName, EncodedTags(hash, Sort(tags))]
  {
    var enc := EncodedTags(hash, Sort(tags));
    var ps := [valueFieldName, enc];
    EncodedNoField(hash, Sort(tags));
    assert Free(ps, FIELD_SEPARATOR);
    assert Join(ps, FIELD_SEPARATOR) == RowKey(hash, valueFieldName, tags) by {
      assert ps[1..] == [enc];
    }
    if tags == [] {
      assert Sort(tags) == [];
      JoinPieces(ps, FIELD_SEPARATOR);
      assert ps[..1] == [valueFieldName];
    } else {
      var sorted := Sort(tags);
      assert |sorted| > 0 by { assert |multiset(sorted)| == |multiset(tags)|; }
      TokenChars(hash, sorted[0]);
      SplitJoin(ps, FIELD_SEPARATOR);
    }
  }

  // ---------------------------------------------------------------------
  // Query results

  /** The result entry of one row key, given what its series answers:
      a row key that does not split on `#` into exactly two pieces is
      skipped, the tag pieces are decoded by the measurement's table, and a
      series with no points adds nothing; otherwise the points go under
      measurement `-` field and the tag string. */
  function Entry(measurementName: string, tagMap: map<int32, string>, rowKey: string,
                 answer: Result<seq<DataPoint>, JavaException>, acc: map<string, seq<DataPoint>>)
    : Result<map<string, seq<DataPoint>>, JavaException>
  {
    var keys := Split(rowKey, FIELD_SEPARATOR);
    if |keys| != 2 then Success(acc)
    else
      var seriesTags :- DecodeTags(tagMap, Split(keys[1], TAG_SEPARATOR));
      var points :- answer;
      Success(if |points| > 0 then acc[measurementName + "-" + keys[0] + TagString(seriesTags) := points] else acc)
  }

  /** The result map of `queryDataPoints` over row keys in iteration order:
      each row key's entry in turn, a later entry overwriting an earlier one
      under the same name; the first exception ends the query. */
  function ResultMap(measurementName: string, tagMap: map<int32, string>, rowKeys: seq<string>,
                   answers: map<string, Result<seq<DataPoint>, JavaException>>)
    : (r: Result<map<string, seq<DataPoint>>, JavaException>)
    requires forall i :: 0 <= i < |rowKeys| ==> rowKeys[i] in answers
    ensures r.Success? ==> forall name :: name in r.value ==> |r.value[name]| > 0
  {
    if rowKeys == [] then Success(map[])
    else
      var acc :- ResultMap(measurementName, tagMap, rowKeys[..|rowKeys| - 1], answers);
      var rowKey := rowKeys[|rowKeys| - 1];
      Entry(measurementName, tagMap, rowKey, answers[rowKey], acc)
  }

  /** One more row key adds its entry to the result so far. */
  lemma ResultMapStep(measurementName: string, tagMap: map<int32, string>, rowKeys: seq<string>,
                      answers: map<string, Result<seq<DataPoint>, JavaException>>, i: nat, acc: map<string, seq<DataPoint>>)
    requires forall i :: 0 <= i < |rowKeys| ==> rowKeys[i] in answers
    requires i < |rowKeys| && ResultMap(measurementName, tagMap, rowKeys[..i], answers) == Success(acc)
    ensures ResultMap(measurementName, tagMap, rowKeys[..i + 1], answers) ==
      Entry(measurementName, tagMap, rowKeys[i], answers[rowKeys[i]], acc)
  {
    assert rowKeys[..i + 1][..i] == rowKeys[..i];
  }

  /** Once an entry has thrown, the later row keys are never visited. */
  lemma {:induction false} CollectFailsFrom(measurementName: string, tagMap: map<int32, string>, rowKeys: seq<string>,
                                            answers: map<string, Result<seq<DataPoint>, JavaException>>, n: nat)
    requires forall i :: 0 <= i < |rowKeys| ==> rowKeys[i] in answers
    requires n <= |rowKeys| && ResultMap(measurementName, tagMap, rowKeys[..n], answers).Failure?
    ensures ResultMap(measurementName, tagMap, rowKeys, answers) == ResultMap(measurementName, tagMap, rowKeys[..n], answers)
    decreases |rowKeys| - n
  {
    if n < |rowKeys| {
      var init := rowKeys[..|rowKeys| - 1];
      assert init[..n] == rowKeys[..n];
      CollectFailsFrom(measurementName, tagMap, init, answers, n);
    } else {
      assert rowKeys[..n] == rowKeys;
    }
  }

  /** A series written without tags is never reported: its row key ends at
      the `#`. */
  lemma UntaggedSkipped(hash: string -> int32, measurementName: string, tagMap: map<int32, string>,
                        valueFieldName: string, answer: Result<seq<DataPoint>, JavaException>,
                        acc: map<string, seq<DataPoint>>)
    requires FIELD_SEPARATOR !in valueFieldName
    ensures Entry(measurementName, tagMap, RowKey(hash, valueFieldName, []), answer, acc) == Success(acc)
  {
    RowKeySplit(hash, valueFieldName, []);
  }

  /** A series written with tags whose hashes the table holds for them is
      reported under measurement `-` field and its sorted tags, each after
      a slash, when it has points; a series with none adds nothing. */
  lemma TaggedReported(hash: string -> int32, measurementName: string, tagMap: map<int32, string>,
                       valueFieldName: string, tags: seq<string>, points: seq<DataPoint>,
                       acc: map<string, seq<DataPoint>>)
    requires FIELD_SEPARATOR !in valueFieldName && tags != [] && Holds(tagMap, hash, Sort(tags))
    ensures Entry(measurementName, tagMap, RowKey(hash, valueFieldName, tags), Success(points), acc) ==
      Success(if |points| > 0 then acc[measurementName + "-" + valueFieldName + TagString(Somes(Sort(tags))) := points] else acc)
  {
    RowKeySplit(hash, valueFieldName, tags);
    var sorted := Sort(tags);
    assert |sorted| > 0 by { assert |multiset(sorted)| == |multiset(tags)|; }
    DecodeEncoded(tagMap, hash, sorted);
  }

  // ---------------------------------------------------------------------
  // The engine

  /** The search of `getMeasurementsLike` over a database's measurement
      names, shared by every engine: the key set itself when the pattern
      trims to nothing, otherwise the names containing the trimmed
      pattern, gathered one by one. */
  method MeasurementsLike(measurements: set<string>, partialMeasurementName: string) returns (r: set<string>)
    ensures forall m :: m in r <==> m in measurements && Contains(m, Trim(partialMeasurementName))
    ensures Trim(partialMeasurementName) == [] ==> r == measurements
  {
    var pattern := Trim(partialMeasurementName);
    if pattern == [] {
      assert forall m :: Contains(m, pattern) by {
        forall m ensures Contains(m, pattern) {
          assert OccursAt(m, pattern, 0);
        }
      }
      return measurements;
    }
    var filteredSeries := {};
    var rest := measurements;
    while rest != {}
      invariant rest <= measurements
      invariant forall m :: m in filteredSeries <==> m in measurements && m !in rest && Contains(m, pattern)
      decreases |rest|
    {
      var measurement :| measurement in rest;
      if Contains(measurement, pattern) {
        filteredSeries := filteredSeries + {measurement};
      }
      rest := rest - {measurement};
    }
    r := filteredSeries;
  }

  /** Where a series lives: database, measurement and row key. */
  datatype Path = Path(db: string, measurement: string, rowKey: string)

  /** The nested get-or-create `put`s: the series under `p`, creating the
      database and measurement maps on the way when they are missing. */
  function Put3<T>(d: map<string, map<string, map<string, T>>>, p: Path, s: T): map<string, map<string, map<string, T>>> {
    var measurements := if p.db in d then d[p.db] else map[];
    var series := if p.measurement in measurements then measurements[p.measurement] else map[];
    d[p.db := measurements[p.measurement := series[p.rowKey := s]]]
  }

  /** The get-or-create `put`s of the tag tables. */
  function Put2<T>(d: map<string, map<string, T>>, db: string, measurementName: string, t: T): map<string, map<string, T>> {
    var tables := if db in d then d[db] else map[];
    d[db := tables[measurementName := t]]
  }

  /** The series under `p` is present in a nested map. */
  predicate In3<T>(d: map<string, map<string, map<string, T>>>, p: Path) {
    p.db in d && p.measurement in d[p.db] && p.rowKey in d[p.db][p.measurement]
  }

  function At3<T>(d: map<string, map<string, map<string, T>>>, p: Path): T
    requires In3(d, p)
  {
    d[p.db][p.measurement][p.rowKey]
  }

  /** After `Put3` the series under `p` is the one put, its database and
      measurement are present, and every other series is present exactly
      when it was before, with the same value. */
  lemma Put3Spec<T>(d: map<string, map<string, map<string, T>>>, p: Path, s: T)
    ensures var d' := Put3(d, p, s);
      d'.Keys == d.Keys + {p.db} &&
      (forall db :: db in d' ==>
         d'[db].Keys == (if db in d then d[db].Keys else {}) + (if db == p.db then {p.measurement} else {}))
    ensures In3(Put3(d, p, s), p) && At3(Put3(d, p, s), p) == s
    ensures forall q :: q != p ==> (In3(Put3(d, p, s), q) <==> In3(d, q))
    ensures forall q :: q != p && In3(d, q) ==> At3(Put3(d, p, s), q) == At3(d, q)
  {
  }

  /** Putting what is already there changes nothing, and a second put at
      the same path replaces the first. */
  lemma Put3Same<T>(d: map<string, map<string, map<string, T>>>, p: Path)
    requires In3(d, p)
    ensures Put3(d, p, At3(d, p)) == d
  {
    var m := d[p.db];
    var ks := m[p.measurement];
    assert ks[p.rowKey := ks[p.rowKey]] == ks;
    assert m[p.measurement := ks] == m;
  }

  lemma Put3Twice<T>(d: map<string, map<string, map<string, T>>>, p: Path, s: T, s': T)
    ensures Put3(Put3(d, p, s), p, s') == Put3(d, p, s')
  {
    var measurements := if p.db in d then d[p.db] else map[];
    var series := if p.measurement in measurements then measurements[p.measurement] else map[];
    var d1 := Put3(d, p, s);
    assert d1[p.db] == measurements[p.measurement := series[p.rowKey := s]];
    assert d1[p.db][p.measurement] == series[p.rowKey := s];
    assert series[p.rowKey := s][p.rowKey := s'] == series[p.rowKey := s'];
    assert measurements[p.measurement := series[p.rowKey := s]][p.measurement := series[p.rowKey := s']] ==
           measurements[p.measurement := series[p.rowKey := s']];
  }

  /** The engine's series by database, measurement and row key. */
  type Databases = map<string, map<string, map<string, SeriesState>>>

  /** The series `new TimeSeries(fp)`. */
  function NewSeries(fp: bool): (st: SeriesState)
    ensures st.fp == fp && Headed(st) && st.contents == map[]
  {
    SeriesState(fp, map[], map[])
  }

  /** `getOrCreateTimeSeries` followed by `addDataPoint`, on the series
      states: a missing series is created with kind `fp`; when `checkFp`
      holds, as in `writeDataPoint`, a point of the other kind is refused
      and the series stays as it was found or created. */
  function Written(st: Databases, p: Path, fp: bool, checkFp: bool, unit: TimeUnit, timestamp: int64, value: int64)
    : (Outcome<JavaException>, Databases)
  {
    var before := if In3(st, p) then At3(st, p) else NewSeries(fp);
    if checkFp && before.fp != fp then (Fail(RejectException), Put3(st, p, before))
    else
      var (r, after) := AddedState(before, unit, timestamp, value);
      (r, Put3(st, p, after))
  }

  /** A write touches only its own series, which exists afterwards and
      keeps the kind it was created with: a point of the other kind is
      refused without change, any other point goes through `addDataPoint`
      on the series. */
  lemma WrittenSpec(st: Databases, p: Path, fp: bool, checkFp: bool, unit: TimeUnit, timestamp: int64, value: int64)
    ensures var (r, st') := Written(st, p, fp, checkFp, unit, timestamp, value);
      var before := if In3(st, p) then At3(st, p) else NewSeries(fp);
      In3(st', p) && At3(st', p).fp == before.fp &&
      (forall q :: q != p ==> (In3(st', q) <==> In3(st, q))) &&
      (forall q :: q != p && In3(st, q) ==> At3(st', q) == At3(st, q)) &&
      (checkFp && before.fp != fp ==> r == Fail(RejectException) && At3(st', p) == before) &&
      (!checkFp || before.fp == fp ==> (r, At3(st', p)) == AddedState(before, unit, timestamp, value))
  {
    var before := if In3(st, p) then At3(st, p) else NewSeries(fp);
    Put3Spec(st, p, before);
    Put3Spec(st, p, AddedState(before, unit, timestamp, value).1);
  }

  /** Every series has a header for each of its keys. */
  ghost predicate AllHeaded(st: Databases) {
    forall q :: In3(st, q) ==> Headed(At3(st, q))
  }

  /** Writes keep every series headed. */
  lemma WrittenHeaded(st: Databases, p: Path, fp: bool, checkFp: bool, unit: TimeUnit, timestamp: int64, value: int64)
    requires AllHeaded(st)
    ensures AllHeaded(Written(st, p, fp, checkFp, unit, timestamp, value).1)
  {
    var before := if In3(st, p) then At3(st, p) else NewSeries(fp);
    AddedStateHeaded(before, unit, timestamp, value);
    WrittenSpec(st, p, fp, checkFp, unit, timestamp, value);
  }

  /** What each series under a measurement answers to `queryDataPoints`. */
  ghost function Answers(seriesMap: map<string, SeriesState>, startTime: int64, endTime: int64, vp: Option<Between>)
    : (a: map<string, Result<seq<DataPoint>, JavaException>>)
    ensures a.Keys == seriesMap.Keys
  {
    map k | k in seriesMap :: Query(SnapsOf(seriesMap[k]), startTime, endTime, vp, seriesMap[k].fp)
  }

  /** The result map of `queryDataPoints` over a measurement's series:
      their row keys in sorted order, each with its series' answer. */
  ghost function Queried(measurementName: string, tagMap: map<int32, string>, seriesMap: map<string, SeriesState>,
                         startTime: int64, endTime: int64, vp: Option<Between>): Result<map<string, seq<DataPoint>>, JavaException>
  {
    SortedKeysMembers(seriesMap.Keys);
    ResultMap(measurementName, tagMap, SortedKeys(seriesMap.Keys), Answers(seriesMap, startTime, endTime, vp))
  }

  /** A point lies in the range, either way round, and passes the value
      predicate. */
  predicate InRange(d: DataPoint, a: int64, b: int64, vp: Option<Between>) {
    (a <= d.timestamp <= b || b <= d.timestamp <= a) && Accepts(vp, d.value)
  }

  predicate AllInRange(r: map<string, seq<DataPoint>>, a: int64, b: int64, vp: Option<Between>) {
    forall name, j :: name in r && 0 <= j < |r[name]| ==> InRange(r[name][j], a, b, vp)
  }

  /** One entry keeps every reported point in range when its answer's
      points are. */
  lemma EntryBounds(measurementName: string, tagMap: map<int32, string>, rowKey: string,
                    answer: Result<seq<DataPoint>, JavaException>, acc: map<string, seq<DataPoint>>,
                    a: int64, b: int64, vp: Option<Between>)
    requires AllInRange(acc, a, b, vp)
    requires answer.Success? ==> forall j :: 0 <= j < |answer.value| ==> InRange(answer.value[j], a, b, vp)
    ensures var r := Entry(measurementName, tagMap, rowKey, answer, acc); r.Success? ==> AllInRange(r.value, a, b, vp)
  {
  }

  /** Every point a query reports lies in the range, either way round,
      and passes the value predicate. */
  lemma {:induction false} CollectBounds(measurementName: string, tagMap: map<int32, string>, rowKeys: seq<string>,
                                         seriesMap: map<string, SeriesState>, a: int64, b: int64, vp: Option<Between>)
    requires forall i :: 0 <= i < |rowKeys| ==> rowKeys[i] in seriesMap
    ensures var r := ResultMap(measurementName, tagMap, rowKeys, Answers(seriesMap, a, b, vp));
      r.Success? ==> AllInRange(r.value, a, b, vp)
  {
    if rowKeys != [] {
      var init := rowKeys[..|rowKeys| - 1];
      var rowKey := rowKeys[|rowKeys| - 1];
      var answers := Answers(seriesMap, a, b, vp);
      CollectBounds(measurementName, tagMap, init, seriesMap, a, b, vp);
      QueryBounds(SnapsOf(seriesMap[rowKey]), a, b, vp, seriesMap[rowKey].fp);
      var acc := ResultMap(measurementName, tagMap, init, answers);
      if acc.Success? {
        EntryBounds(measurementName, tagMap, rowKey, answers[rowKey], acc.value, a, b, vp);
      }
    }
  }

  /** The name a row key's entry goes under when its series has points:
      none for a row key that does not split in two on `#` or whose tags do
      not decode. */
  function EntryName(measurementName: string, tagMap: map<int32, string>, rowKey: string): Option<string> {
    var keys := Split(rowKey, FIELD_SEPARATOR);
    if |keys| != 2 then None
    else
      match DecodeTags(tagMap, Split(keys[1], TAG_SEPARATOR))
      case Failure(_) => None
      case Success(seriesTags) => Some(measurementName + "-" + keys[0] + TagString(seriesTags))
  }

  /** A row key with a name whose series answers points puts them under
      that name. */
  lemma EntryPuts(measurementName: string, tagMap: map<int32, string>, rowKey: string,
                  points: seq<DataPoint>, acc: map<string, seq<DataPoint>>)
    requires EntryName(measurementName, tagMap, rowKey).Some? && |points| > 0
    ensures Entry(measurementName, tagMap, rowKey, Success(points), acc) ==
      Success(acc[EntryName(measurementName, tagMap, rowKey).value := points])
  {
  }

  /** An entry under another name leaves a name's points where they are. */
  lemma EntryKeeps(measurementName: string, tagMap: map<int32, string>, rowKey: string,
                   answer: Result<seq<DataPoint>, JavaException>, acc: map<string, seq<DataPoint>>, name: string)
    requires name in acc && EntryName(measurementName, tagMap, rowKey) != Some(name)
    ensures var r := Entry(measurementName, tagMap, rowKey, answer, acc);
      r.Success? ==> name in r.value && r.value[name] == acc[name]
  {
  }

  /** The other direction of `CollectBounds`, for the result map: a row
      key with a name whose series answers points has them reported under
      its name, unless a later row key claims the same name for another
      series. */
  lemma {:induction false} ResultMapHas(measurementName: string, tagMap: map<int32, string>, rowKeys: seq<string>,
                                        answers: map<string, Result<seq<DataPoint>, JavaException>>, j: nat, name: string)
    requires forall i :: 0 <= i < |rowKeys| ==> rowKeys[i] in answers
    requires j < |rowKeys| && EntryName(measurementName, tagMap, rowKeys[j]) == Some(name)
    requires answers[rowKeys[j]].Success? && |answers[rowKeys[j]].value| > 0
    requires forall i :: j < i < |rowKeys| ==>
      rowKeys[i] == rowKeys[j] || EntryName(measurementName, tagMap, rowKeys[i]) != Some(name)
    requires ResultMap(measurementName, tagMap, rowKeys, answers).Success?
    ensures var r := ResultMap(measurementName, tagMap, rowKeys, answers).value;
      name in r && r[name] == answers[rowKeys[j]].value
  {
    var init := rowKeys[..|rowKeys| - 1];
    var rowKey := rowKeys[|rowKeys| - 1];
    var acc := ResultMap(measurementName, tagMap, init, answers);
    assert acc.Success?;
    if j == |rowKeys| - 1 || rowKey == rowKeys[j] {
      EntryPuts(measurementName, tagMap, rowKey, answers[rowKey].value, acc.value);
    } else {
      assert init[j] == rowKeys[j];
      forall i | j < i < |init|
        ensures init[i] == init[j] || EntryName(measurementName, tagMap, init[i]) != Some(name)
      {
        assert init[i] == rowKeys[i];
      }
      ResultMapHas(measurementName, tagMap, init, answers, j, name);
      EntryKeeps(measurementName, tagMap, rowKey, answers[rowKey], acc.value, name);
    }
  }

  /** The other direction of `CollectBounds` for a measurement written in
      milliseconds: when the query succeeds, a stored pair of a series
      between the two eight-digit bounds whose value passes the predicate
      is reported under the series' name, provided no other row key has
      that name and the pair's bucket holds fewer than 2^31 pairs. */
  lemma QueriedFinds(measurementName: string, tagMap: map<int32, string>, seriesMap: map<string, SeriesState>,
                     a: int64, b: int64, vp: Option<Between>, rowKey: string, key: string, p: Pair)
    requires Queried(measurementName, tagMap, seriesMap, a, b, vp).Success?
    requires rowKey in seriesMap && EntryName(measurementName, tagMap, rowKey).Some?
    requires forall k :: k in seriesMap && k != rowKey ==>
      EntryName(measurementName, tagMap, k) != EntryName(measurementName, tagMap, rowKey)
    requires Routed(seriesMap[rowKey]) && EightDigitMillis(a) && EightDigitMillis(b)
    requires key in seriesMap[rowKey].contents && p in seriesMap[rowKey].contents[key]
    requires |seriesMap[rowKey].contents[key]| <= INT_MAX
    requires (a <= p.timestamp <= b || b <= p.timestamp <= a) && Accepts(vp, p.value)
    ensures var r := Queried(measurementName, tagMap, seriesMap, a, b, vp).value;
      var name := EntryName(measurementName, tagMap, rowKey).value;
      name in r && WithFp(Point(p.timestamp, p.value), seriesMap[rowKey].fp) in r[name]
  {
    AnswerHas(seriesMap, a, b, vp, rowKey, key, p);
    QueriedHas(measurementName, tagMap, seriesMap, a, b, vp, rowKey, WithFp(Point(p.timestamp, p.value), seriesMap[rowKey].fp));
  }

  /** A point in the answer of a series with a name no other row key has
      is reported under that name. */
  lemma QueriedHas(measurementName: string, tagMap: map<int32, string>, seriesMap: map<string, SeriesState>,
                   a: int64, b: int64, vp: Option<Between>, rowKey: string, d: DataPoint)
    requires Queried(measurementName, tagMap, seriesMap, a, b, vp).Success?
    requires rowKey in seriesMap && EntryName(measurementName, tagMap, rowKey).Some?
    requires forall k :: k in seriesMap && k != rowKey ==>
      EntryName(measurementName, tagMap, k) != EntryName(measurementName, tagMap, rowKey)
    requires var answer := Answers(seriesMap, a, b, vp)[rowKey]; answer.Success? && d in answer.value
    ensures var r := Queried(measurementName, tagMap, seriesMap, a, b, vp).value;
      var name := EntryName(measurementName, tagMap, rowKey).value;
      name in r && d in r[name]
  {
    var answers := Answers(seriesMap, a, b, vp);
    SortedKeysMembers(seriesMap.Keys);
    var rowKeys := SortedKeys(seriesMap.Keys);
    var j :| 0 <= j < |rowKeys| && rowKeys[j] == rowKey;
    var name := EntryName(measurementName, tagMap, rowKey).value;
    LaterNamesDiffer(measurementName, tagMap, seriesMap.Keys, rowKeys, j, name);
    ResultMapHas(measurementName, tagMap, rowKeys, answers, j, name);
  }

  /** A stored pair of a routed series between eight-digit bounds is in
      that series' answer. */
  lemma AnswerHas(seriesMap: map<string, SeriesState>, a: int64, b: int64, vp: Option<Between>,
                    rowKey: string, key: string, p: Pair)
    requires rowKey in seriesMap && Routed(seriesMap[rowKey]) && EightDigitMillis(a) && EightDigitMillis(b)
    requires key in seriesMap[rowKey].contents && p in seriesMap[rowKey].contents[key]
    requires |seriesMap[rowKey].contents[key]| <= INT_MAX
    requires (a <= p.timestamp <= b || b <= p.timestamp <= a) && Accepts(vp, p.value)
    ensures var answer := Answers(seriesMap, a, b, vp)[rowKey];
      answer.Success? && WithFp(Point(p.timestamp, p.value), seriesMap[rowKey].fp) in answer.value
  {
    var st := seriesMap[rowKey];
    QueryFindsStored(st, a, b, vp, key, p);
  }

  /** Row keys listed from a set whose names differ from the one at `j`
      keep differing after it. */
  lemma LaterNamesDiffer(measurementName: string, tagMap: map<int32, string>, keys: set<string>,
                         rowKeys: seq<string>, j: nat, name: string)
    requires forall k :: k in rowKeys ==> k in keys
    requires j < |rowKeys| && EntryName(measurementName, tagMap, rowKeys[j]) == Some(name)
    requires forall k :: k in keys && k != rowKeys[j] ==> EntryName(measurementName, tagMap, k) != Some(name)
    ensures forall i :: j < i < |rowKeys| ==>
      rowKeys[i] == rowKeys[j] || EntryName(measurementName, tagMap, rowKeys[i]) != Some(name)
  {
    forall i | j < i < |rowKeys|
      ensures rowKeys[i] == rowKeys[j] || EntryName(measurementName, tagMap, rowKeys[i]) != Some(name)
    {
      assert rowKeys[i] in rowKeys;
    }
  }

  /** Every series of a database map is routed. */
  ghost predicate AllRouted(st: Databases) {
    forall q :: In3(st, q) ==> Routed(At3(st, q))
  }

  /** Millisecond writes keep every series routed, whether the point is
      appended or refused. */
  lemma WrittenRouted(st: Databases, p: Path, fp: bool, checkFp: bool, timestamp: int64, value: int64)
    requires AllRouted(st) && Millis(timestamp)
    ensures AllRouted(Written(st, p, fp, checkFp, MILLISECONDS, timestamp, value).1)
  {
    var before := if In3(st, p) then At3(st, p) else NewSeries(fp);
    assert Routed(before);
    AddedStateRouted(before, timestamp, value);
    WrittenSpec(st, p, fp, checkFp, MILLISECONDS, timestamp, value);
  }

  /** Every table is built with `hash` and serves the measurement it is
      filed under. */
  ghost predicate TablesFit(tl: map<string, map<string, MemTagLookupTable>>, hash: string -> int32) {
    forall db, m :: db in tl && m in tl[db] ==> tl[db][m].hash == hash && tl[db][m].measurement == (db, m)
  }

  /** Every measurement with a series map has a table. */
  ghost predicate CoveredBy(dm: Databases, tl: map<string, map<string, MemTagLookupTable>>) {
    forall db, m :: db in dm && m in dm[db] ==> db in tl && m in tl[db]
  }

  /** Filing a new table under its own measurement keeps every table
      fitting and every measurement covered. */
  lemma TableAdded(dm: Databases, tl: map<string, map<string, MemTagLookupTable>>, hash: string -> int32,
                   db: string, m: string, t: MemTagLookupTable)
    requires TablesFit(tl, hash) && CoveredBy(dm, tl) && t.hash == hash && t.measurement == (db, m)
    ensures TablesFit(Put2(tl, db, m, t), hash) && CoveredBy(dm, Put2(tl, db, m, t))
  {
  }

  /** `MemStorageEngine`, after `configure`. Series are held as values
      (`SeriesState`); the tag tables are objects, each serving one
      measurement. */
  class MemStorageEngine {
    const hash: string -> int32
    var databaseMap: Databases
    var tagLookupTable: map<string, map<string, MemTagLookupTable>>

    predicate HasTable(db: string, measurementName: string)
      reads this`tagLookupTable
    {
      db in tagLookupTable && measurementName in tagLookupTable[db]
    }

    function TableAt(db: string, measurementName: string): MemTagLookupTable
      requires HasTable(db, measurementName)
      reads this`tagLookupTable
    {
      tagLookupTable[db][measurementName]
    }

    /** The table `getOrCreateMemTagLookupTable` finds, if there is one. */
    function TableOf(db: string, measurementName: string): set<MemTagLookupTable>
      reads this`tagLookupTable
    {
      if HasTable(db, measurementName) then {TableAt(db, measurementName)} else {}
    }

    /** Every table is built with the engine's hash and serves the
        measurement it is filed under, so no two measurements share one;
        every measurement with a series map has a table, which the query
        relies on. */
    ghost predicate Valid()
      reads this
    {
      TablesFit(tagLookupTable, hash) && CoveredBy(databaseMap, tagLookupTable)
    }

    /** The measurement's table after tags were registered: created empty
        when missing, then each tag's hash stored unless present. */
    twostate predicate Registered(db: string, measurementName: string, tags: seq<string>)
      reads this, TableOf(db, measurementName)
    {
      HasTable(db, measurementName) &&
      TableAt(db, measurementName).tagMap ==
        Register(old(if HasTable(db, measurementName) then TableAt(db, measurementName).tagMap else map[]), hash, tags) &&
      (old(HasTable(db, measurementName)) ==>
         tagLookupTable == old(tagLookupTable)) &&
      (!old(HasTable(db, measurementName)) ==>
         fresh(TableAt(db, measurementName)) &&
         tagLookupTable == Put2(old(tagLookupTable), db, measurementName, TableAt(db, measurementName)))
    }

    /** `configure`: no databases and no tag tables. */
    constructor (hash: string -> int32)
      ensures this.hash == hash && databaseMap == map[] && tagLookupTable == map[] && Valid()
    {
      this.hash := hash;
      databaseMap := map[];
      tagLookupTable := map[];
    }

    /** `getOrCreateMemTagLookupTable`: the measurement's table, created
        empty when missing. */
    method GetOrCreateTagTable(db: string, measurementName: string) returns (t: MemTagLookupTable)
      requires Valid()
      modifies this
      ensures Valid() && HasTable(db, measurementName) && t == TableAt(db, measurementName)
      ensures databaseMap == old(databaseMap)
      ensures old(HasTable(db, measurementName)) ==> tagLookupTable == old(tagLookupTable)
      ensures !old(HasTable(db, measurementName)) ==>
        fresh(t) && t.tagMap == map[] && tagLookupTable == Put2(old(tagLookupTable), db, measurementName, t)
    {
      var lookupMap: map<string, MemTagLookupTable> := if db in tagLookupTable then tagLookupTable[db] else map[];
      if measurementName in lookupMap {
        t := lookupMap[measurementName];
      } else {
        t := new MemTagLookupTable(hash, (db, measurementName));
        TableAdded(databaseMap, tagLookupTable, hash, db, measurementName, t);
        tagLookupTable := tagLookupTable[db := lookupMap[measurementName := t]];
      }
    }

    /** The database, measurement and series steps of
        `getOrCreateTimeSeries`: each map is created when missing, and a
        missing series is created with kind `fp`. The maps are values
        here, so the steps end in one write of the database's map. */
    method GetOrCreateSeries(p: Path, fp: bool)
      requires Valid() && HasTable(p.db, p.measurement)
      modifies this
      ensures Valid() && tagLookupTable == old(tagLookupTable)
      ensures databaseMap == Put3(old(databaseMap), p, if In3(old(databaseMap), p) then At3(old(databaseMap), p) else NewSeries(fp))
      ensures In3(databaseMap, p)
    {
      var measurementMap := if p.db in databaseMap then databaseMap[p.db] else map[];
      var seriesMap := if p.measurement in measurementMap then measurementMap[p.measurement] else map[];
      if p.rowKey in seriesMap {
        Put3Same(databaseMap, p);
      } else {
        seriesMap := seriesMap[p.rowKey := NewSeries(fp)];
      }
      databaseMap := databaseMap[p.db := measurementMap[p.measurement := seriesMap]];
    }

    /** `getOrCreateTimeSeries`: the tags are sorted, registered in the
        measurement's table and encoded into the row key, and the series
        under that key is found or created. */
    method GetOrCreateTimeSeries(db: string, measurementName: string, valueFieldName: string, tags: seq<string>, fp: bool)
      returns (rowKey: string)
      requires Valid()
      modifies this, TableOf(db, measurementName)
      ensures Valid() && Registered(db, measurementName, Sort(tags))
      ensures rowKey == RowKey(hash, valueFieldName, tags)
      ensures var p := Path(db, measurementName, rowKey);
        In3(databaseMap, p) &&
        databaseMap == Put3(old(databaseMap), p, if In3(old(databaseMap), p) then At3(old(databaseMap), p) else NewSeries(fp))
    {
      var sorted := Sort(tags);
      var table := GetOrCreateTagTable(db, measurementName);
      var encoded := EncodeTagsToString(table, sorted);
      rowKey := valueFieldName + [FIELD_SEPARATOR] + encoded;
      GetOrCreateSeries(Path(db, measurementName, rowKey), fp);
    }

    /** `timeSeries.addDataPoint` on the series under `p`. */
    method AddToSeries(p: Path, unit: TimeUnit, timestamp: int64, value: int64) returns (r: Outcome<JavaException>)
      requires Valid() && In3(databaseMap, p)
      modifies this
      ensures Valid() && tagLookupTable == old(tagLookupTable)
      ensures var (r', after) := AddedState(At3(old(databaseMap), p), unit, timestamp, value);
        r == r' && databaseMap == Put3(old(databaseMap), p, after)
    {
      var (outcome, after) := AddedState(At3(databaseMap, p), unit, timestamp, value);
      r := outcome;
      databaseMap := Put3(databaseMap, p, after);
    }

    /** `writeDataPoint`, with the point's measurement, value field, tags,
        kind, timestamp and value as parameters: a missing tag list throws
        `NullPointerException` before anything changes; otherwise the
        series is found or created, a point of the other kind is refused
        with `RejectException`, and any other point is added in
        milliseconds. */
    method WriteDataPoint(db: string, measurementName: string, valueFieldName: string, tags: Option<seq<string>>,
                          isFp: bool, timestamp: int64, value: int64) returns (r: Outcome<JavaException>)
      requires Valid()
      modifies this, TableOf(db, measurementName)
      ensures Valid()
      ensures tags.None? ==>
        r == Fail(NullPointerException) && databaseMap == old(databaseMap) && tagLookupTable == old(tagLookupTable)
      ensures tags.Some? ==>
        Registered(db, measurementName, Sort(tags.value)) &&
        (r, databaseMap) ==
          Written(old(databaseMap), Path(db, measurementName, RowKey(hash, valueFieldName, tags.value)), isFp, true, MILLISECONDS, timestamp, value)
    {
      if tags.None? {
        return Fail(NullPointerException);
      }
      var rowKey := GetOrCreateTimeSeries(db, measurementName, valueFieldName, tags.value, isFp);
      var p := Path(db, measurementName, rowKey);
      ghost var created := databaseMap;
      if isFp != At3(databaseMap, p).fp {
        return Fail(RejectException);
      }
      r := AddToSeries(p, MILLISECONDS, timestamp, value);
      Put3Twice(old(databaseMap), p, At3(created, p), AddedState(At3(created, p), MILLISECONDS, timestamp, value).1);
    }

    /** Both `writeSeries` overloads: the `long` one creates a missing
        series as integer (`fp` false), the `double` one, whose value
        arrives as its bits, as floating point (`fp` true); neither checks
        the kind of a series that exists. */
    method WriteSeries(db: string, measurementName: string, valueFieldName: string, tags: Option<seq<string>>,
                       unit: TimeUnit, timestamp: int64, value: int64, fp: bool) returns (r: Outcome<JavaException>)
      requires Valid()
      modifies this, TableOf(db, measurementName)
      ensures Valid()
      ensures tags.None? ==>
        r == Fail(NullPointerException) && databaseMap == old(databaseMap) && tagLookupTable == old(tagLookupTable)
      ensures tags.Some? ==>
        Registered(db, measurementName, Sort(tags.value)) &&
        (r, databaseMap) ==
          Written(old(databaseMap), Path(db, measurementName, RowKey(hash, valueFieldName, tags.value)), fp, false, unit, timestamp, value)
    {
      if tags.None? {
        return Fail(NullPointerException);
      }
      var rowKey := GetOrCreateTimeSeries(db, measurementName, valueFieldName, tags.value, fp);
      var p := Path(db, measurementName, rowKey);
      ghost var created := databaseMap;
      r := AddToSeries(p, unit, timestamp, value);
      Put3Twice(old(databaseMap), p, At3(created, p), AddedState(At3(created, p), unit, timestamp, value).1);
    }

    /** `queryDataPoints`, whose value field and tag arguments play no
        part: an unknown database or measurement throws
        `ItemNotFoundException`; otherwise every row key of the
        measurement, in sorted order, contributes its entry. */
    method QueryDataPoints(db: string, measurementName: string, startTime: int64, endTime: int64,
                           valuePredicate: Option<Between>)
      returns (r: Result<map<string, seq<DataPoint>>, JavaException>)
      requires Valid()
      ensures db !in databaseMap ==> r == Failure(ItemNotFoundException("Database " + db + " not found"))
      ensures db in databaseMap && measurementName !in databaseMap[db] ==>
        r == Failure(ItemNotFoundException("Measurement " + measurementName + " not found"))
      ensures db in databaseMap && measurementName in databaseMap[db] ==>
        var seriesMap := databaseMap[db][measurementName];
        HasTable(db, measurementName) &&
        r == Queried(measurementName, TableAt(db, measurementName).tagMap, seriesMap, startTime, endTime, valuePredicate)
    {
      if db !in databaseMap {
        return Failure(ItemNotFoundException("Database " + db + " not found"));
      }
      var measurementMap := databaseMap[db];
      if measurementName !in measurementMap {
        return Failure(ItemNotFoundException("Measurement " + measurementName + " not found"));
      }
      var table := TableAt(db, measurementName);
      r := QuerySeries(measurementName, table, measurementMap[measurementName], startTime, endTime, valuePredicate);
    }

    /** The loop of `queryDataPoints` over a measurement's series, in
        row key order; the first exception ends it. */
    static method QuerySeries(measurementName: string, table: MemTagLookupTable, seriesMap: map<string, SeriesState>,
                              startTime: int64, endTime: int64, valuePredicate: Option<Between>)
      returns (r: Result<map<string, seq<DataPoint>>, JavaException>)
      ensures r == Queried(measurementName, table.tagMap, seriesMap, startTime, endTime, valuePredicate)
    {
      var rowKeys := OrderedKeys(seriesMap.Keys);
      SortedKeysMembers(seriesMap.Keys);
      r := CollectEntries(measurementName, table, rowKeys, seriesMap, startTime, endTime, valuePredicate);
    }

    /** The loop itself: each row key's entry in turn. */
    static method CollectEntries(measurementName: string, table: MemTagLookupTable, rowKeys: seq<string>,
                                 seriesMap: map<string, SeriesState>, startTime: int64, endTime: int64,
                                 valuePredicate: Option<Between>)
      returns (r: Result<map<string, seq<DataPoint>>, JavaException>)
      requires forall i :: 0 <= i < |rowKeys| ==> rowKeys[i] in seriesMap
      ensures r == ResultMap(measurementName, table.tagMap, rowKeys, Answers(seriesMap, startTime, endTime, valuePredicate))
    {
      ghost var answers := Answers(seriesMap, startTime, endTime, valuePredicate);
      var resultMap := map[];
      for i := 0 to |rowKeys|
        invariant ResultMap(measurementName, table.tagMap, rowKeys[..i], answers) == Success(resultMap)
      {
        var entry := EntryOf(measurementName, table, rowKeys[i], seriesMap[rowKeys[i]], startTime, endTime, valuePredicate, resultMap);
        ResultMapStep(measurementName, table.tagMap, rowKeys, answers, i, resultMap);
        if entry.Failure? {
          CollectFailsFrom(measurementName, table.tagMap, rowKeys, answers, i + 1);
          return Failure(entry.error);
        }
        resultMap := entry.value;
      }
      Seqs.TakeAll(rowKeys);
      r := Success(resultMap);
    }

    /** One pass of the query loop: a row key that does not split in two is
        skipped, the tags are decoded, and the series' points, when there
        are any, go under measurement `-` field and the tag string. */
    static method EntryOf(measurementName: string, table: MemTagLookupTable, rowKey: string, st: SeriesState,
                          startTime: int64, endTime: int64, valuePredicate: Option<Between>, acc: map<string, seq<DataPoint>>)
      returns (r: Result<map<string, seq<DataPoint>>, JavaException>)
      ensures r == Entry(measurementName, table.tagMap, rowKey, Query(SnapsOf(st), startTime, endTime, valuePredicate, st.fp), acc)
    {
      var keys := Split(rowKey, FIELD_SEPARATOR);
      if |keys| != 2 {
        return Success(acc);
      }
      var seriesTags := DecodeStringToTags(table, keys[1]);
      if seriesTags.Failure? {
        return Failure(seriesTags.error);
      }
      var points := QueryState(st, startTime, endTime, valuePredicate);
      if points.Failure? {
        return Failure(points.error);
      }
      r := Success(acc);
      if |points.value| > 0 {
        var name := TagToString(seriesTags.value);
        r := Success(acc[measurementName + "-" + keys[0] + name := points.value]);
      }
    }

    /** `getMeasurementsLike`: the measurements of the database whose name
        contains the trimmed pattern, which is all of them when the
        pattern trims to nothing; an unknown database throws
        `NullPointerException`. */
    method GetMeasurementsLike(db: string, partialMeasurementName: string) returns (r: Result<set<string>, JavaException>)
      ensures db !in databaseMap ==> r == Failure(NullPointerException)
      ensures db in databaseMap ==>
        r.Success? && forall m :: m in r.value <==> m in databaseMap[db] && Contains(m, Trim(partialMeasurementName))
      ensures db in databaseMap && Trim(partialMeasurementName) == [] ==> r == Success(databaseMap[db].Keys)
    {
      if db !in databaseMap {
        return Failure(NullPointerException);
      }
      var filtered := MeasurementsLike(databaseMap[db].Keys, partialMeasurementName);
      r := Success(filtered);
    }

    /** `getDatabases`. */
    method GetDatabases() returns (r: set<string>)
      ensures forall db :: db in r <==> db in databaseMap
    {
      r := databaseMap.Keys;
    }

    /** `getAllMeasurementsForDb`: an unknown database throws
        `NullPointerException`. */
    method GetAllMeasurementsForDb(db: string) returns (r: Result<set<string>, JavaException>)
      ensures db !in databaseMap ==> r == Failure(NullPointerException)
      ensures db in databaseMap ==> r.Success? && forall m :: m in r.value <==> m in databaseMap[db]
    {
      if db !in databaseMap {
        return Failure(NullPointerException);
      }
      r := Success(databaseMap[db].Keys);
    }

    /** `checkIfExists(dbName)`. */
    method CheckIfExists(db: string) returns (b: bool)
      ensures b <==> db in databaseMap
    {
      b := db in databaseMap;
    }

    /** `checkIfExists(dbName, measurement)`: false for an unknown
        database. */
    method CheckIfMeasurementExists(db: string, measurementName: string) returns (b: bool)
      ensures b <==> db in databaseMap && measurementName in databaseMap[db]
    {
      b := CheckIfExists(db);
      if b {
        b := measurementName in databaseMap[db];
      }
    }

    /** `deleteAllData`: every database goes; the tag tables stay. */
    method DeleteAllData()
      requires Valid()
      modifies this
      ensures Valid() && databaseMap == map[] && tagLookupTable == old(tagLookupTable)
    {
      databaseMap := map[];
    }

    /** `dropDatabase`: only that database goes. */
    method DropDatabase(db: string)
      requires Valid()
      modifies this
      ensures Valid() && databaseMap == old(databaseMap) - {db} && tagLookupTable == old(tagLookupTable)
    {
      databaseMap := databaseMap - {db};
    }

    /** `dropMeasurement`: only that measurement goes, and its database
        stays even when it was the last; an unknown database throws
        `NullPointerException`. */
    method DropMeasurement(db: string, measurementName: string) returns (r: Outcome<JavaException>)
      requires Valid()
      modifies this
      ensures Valid() && tagLookupTable == old(tagLookupTable)
      ensures db !in old(databaseMap) ==> r == Fail(NullPointerException) && databaseMap == old(databaseMap)
      ensures db in old(databaseMap) ==>
        r == Pass && databaseMap == old(databaseMap)[db := old(databaseMap)[db] - {measurementName}]
    {
      if db !in databaseMap {
        return Fail(NullPointerException);
      }
      databaseMap := databaseMap[db := databaseMap[db] - {measurementName}];
      r := Pass;
    }
  }
}
