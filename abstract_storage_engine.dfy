/** `AbstractStorageEngine`: the binary row key of a series and its write
    path. A row key is a zeroed array of `3 * (tags + 1) + 4` bytes, into
    which the series identifier, then the identifier of each tag in sorted
    order, then the four big-endian bytes of the time bucket are copied one
    after another. `indexIdentifier`, which each engine supplies, is a
    parameter here. */
module RowKeys {
  import opened Wrappers
  import opened JavaInt
  import opened LexOrder
  import opened TimeUtils
  import opened ByteUtils

  /** `BUCKET_SIZE`, in seconds. */
  const BUCKET_SIZE: int32 := 4096

  /** The length of the array `buildRowKey` allocates: three bytes for each
      tag and for the series name, four for the bucket. */
  function KeyLength(tagCount: nat): nat {
    3 * (tagCount + 1) + 4
  }

  function Zeros(n: nat): seq<byte> {
    seq(n, _ => 0)
  }

  /** An array of `n` bytes whose first bytes are `p` and the rest still 0. */
  function Filled(p: seq<byte>, n: nat): (r: seq<byte>)
    requires |p| <= n
    ensures |r| == n
  {
    p + Zeros(n - |p|)
  }

  /** The identifiers of the tags, one after another. */
  function TagBytes(index: string -> seq<byte>, tags: seq<string>): seq<byte> {
    if tags == [] then [] else TagBytes(index, tags[..|tags| - 1]) + index(tags[|tags| - 1])
  }

  /** What the copies lay down, in order: the series identifier, the
      identifiers of the sorted tags, the bucket. */
  function Layout(index: string -> seq<byte>, seriesName: string, sortedTags: seq<string>, bucket: int32): seq<byte> {
    index(seriesName) + TagBytes(index, sortedTags) + IntBytes(bucket)
  }

  /** `buildRowKey`: an unknown unit throws first; the copies throw
      `ArrayIndexOutOfBoundsException` as soon as one would run past the
      end of the array, so exactly when the whole layout is longer than
      the array; a shorter layout leaves zeros at the end. */
  function BuiltRowKey(index: string -> seq<byte>, seriesName: string, tags: seq<string>, unit: TimeUnit,
                       timestamp: int64): (r: Result<seq<byte>, JavaException>)
    ensures r.Success? ==> |r.value| == KeyLength(|tags|)
  {
    var bucket :- TimeBucket(unit, timestamp, BUCKET_SIZE);
    var bytes := Layout(index, seriesName, Sort(tags), bucket);
    if |bytes| <= KeyLength(|tags|) then Success(Filled(bytes, KeyLength(|tags|)))
    else Failure(ArrayIndexOutOfBoundsException)
  }

  // ---------------------------------------------------------------------
  // What the row key promises

  /** Identifiers of three bytes each fill the key exactly: three for the
      series, three for each tag, four for the bucket. */
  predicate ThreeByteIds(index: string -> seq<byte>, seriesName: string, tags: seq<string>) {
    |index(seriesName)| == 3 && forall i :: 0 <= i < |tags| ==> |index(tags[i])| == 3
  }

  lemma {:induction false} ThreeByteTags(index: string -> seq<byte>, tags: seq<string>)
    requires forall i :: 0 <= i < |tags| ==> |index(tags[i])| == 3
    ensures |TagBytes(index, tags)| == 3 * |tags|
    ensures forall i :: 0 <= i < |tags| ==> TagBytes(index, tags)[3 * i..3 * i + 3] == index(tags[i])
    decreases |tags|
  {
    if tags != [] {
      var init, last := tags[..|tags| - 1], index(tags[|tags| - 1]);
      assert forall i :: 0 <= i < |init| ==> init[i] == tags[i];
      ThreeByteTags(index, init);
      var t := TagBytes(index, init);
      forall i | 0 <= i < |tags| ensures TagBytes(index, tags)[3 * i..3 * i + 3] == index(tags[i]) {
        if i < |init| {
          assert (t + last)[3 * i..3 * i + 3] == t[3 * i..3 * i + 3];
        } else {
          assert (t + last)[3 * i..3 * i + 3] == last;
        }
      }
    }
  }

  /** Sorting keeps every tag's identifier three bytes long. */
  lemma SortedThreeByte(index: string -> seq<byte>, tags: seq<string>)
    requires forall i :: 0 <= i < |tags| ==> |index(tags[i])| == 3
    ensures forall i :: 0 <= i < |Sort(tags)| ==> |index(Sort(tags)[i])| == 3
  {
    forall i | 0 <= i < |Sort(tags)| ensures |index(Sort(tags)[i])| == 3 {
      assert Sort(tags)[i] in multiset(tags);
    }
  }

  /** With three-byte identifiers and a unit that converts, the key is
      built: the series identifier at offset 0, the identifier of the i-th
      sorted tag at offset 3 * (i + 1), and the bucket id in the last four
      bytes, big-endian. */
  lemma ThreeByteLayout(index: string -> seq<byte>, seriesName: string, tags: seq<string>, unit: TimeUnit,
                        timestamp: int64)
    requires ThreeByteIds(index, seriesName, tags) && Converts(unit)
    ensures var r := BuiltRowKey(index, seriesName, tags, unit, timestamp);
      var n := KeyLength(|tags|);
      r.Success? && |Sort(tags)| == |tags| &&
      r.value[..3] == index(seriesName) &&
      (forall i :: 0 <= i < |Sort(tags)| ==> r.value[3 * (i + 1)..3 * (i + 1) + 3] == index(Sort(tags)[i])) &&
      Wrap32(FromBigEndian(r.value[n - 4..])) == TimeBucket(unit, timestamp, BUCKET_SIZE).value
  {
    var bucket := TimeBucket(unit, timestamp, BUCKET_SIZE).value;
    SortLength(tags);
    SortedThreeByte(index, tags);
    LayoutOffsets(index, seriesName, Sort(tags), bucket);
    FilledExactly(Layout(index, seriesName, Sort(tags), bucket));
  }

  /** Where each part of a layout of three-byte identifiers sits. */
  lemma LayoutOffsets(index: string -> seq<byte>, seriesName: string, sorted: seq<string>, bucket: int32)
    requires |index(seriesName)| == 3 && forall i :: 0 <= i < |sorted| ==> |index(sorted[i])| == 3
    ensures var l := Layout(index, seriesName, sorted, bucket);
      |l| == KeyLength(|sorted|) && l[..3] == index(seriesName) && l[|l| - 4..] == IntBytes(bucket) &&
      forall i :: 0 <= i < |sorted| ==> l[3 * (i + 1)..3 * (i + 1) + 3] == index(sorted[i])
  {
    ThreeByteTags(index, sorted);
    var a, t, b := index(seriesName), TagBytes(index, sorted), IntBytes(bucket);
    var layout := Layout(index, seriesName, sorted, bucket);
    assert layout == a + t + b;
    LayoutSlices(a, t, b);
    forall i | 0 <= i < |sorted| ensures layout[3 * (i + 1)..3 * (i + 1) + 3] == index(sorted[i]) {
      MiddleSlice(a, t, b, 3 * i, 3 * i + 3);
    }
  }

  /** An array the layout fills exactly has no zeros left. */
  lemma FilledExactly(p: seq<byte>)
    ensures Filled(p, |p|) == p
  {
    assert Zeros(0) == [];
  }

  lemma SortLength(s: seq<string>)
    ensures |Sort(s)| == |s|
  {
    assert |multiset(Sort(s))| == |multiset(s)|;
  }

  /** The first and last of the three parts of a layout, read back from
      it. */
  lemma LayoutSlices(a: seq<byte>, t: seq<byte>, b: seq<byte>)
    ensures (a + t + b)[..|a|] == a && (a + t + b)[|a| + |t|..] == b
  {
  }

  /** A slice of the middle part, read back from the layout. */
  lemma MiddleSlice(a: seq<byte>, t: seq<byte>, b: seq<byte>, j: nat, k: nat)
    requires j <= k <= |t|
    ensures (a + t + b)[|a| + j..|a| + k] == t[j..k]
  {
  }

  /** The caller's tag order plays no part in the key. */
  lemma TagOrderIrrelevant(index: string -> seq<byte>, seriesName: string, p: seq<string>, q: seq<string>,
                           unit: TimeUnit, timestamp: int64)
    requires multiset(p) == multiset(q)
    ensures BuiltRowKey(index, seriesName, p, unit, timestamp) == BuiltRowKey(index, seriesName, q, unit, timestamp)
  {
    SortPermutationInvariant(p, q);
    SortLength(p);
    SortLength(q);
  }

  /** A millisecond timestamp whose seconds fit an `int` ends its key with
      the bucket `(ts / 1000 / 4096) * 4096`. */
  lemma MillisecondKeyBucket(index: string -> seq<byte>, seriesName: string, tags: seq<string>, timestamp: int64)
    requires ThreeByteIds(index, seriesName, tags) && 0 <= timestamp < 1000 * TWO_31
    ensures var r := BuiltRowKey(index, seriesName, tags, MILLISECONDS, timestamp);
      r.Success? &&
      Wrap32(FromBigEndian(r.value[KeyLength(|tags|) - 4..])) == (timestamp / 1000 / 4096) * 4096
  {
    ThreeByteLayout(index, seriesName, tags, MILLISECONDS, timestamp);
    MillisBucket(timestamp);
  }

  // ---------------------------------------------------------------------
  // The imperative steps

  /** `System.arraycopy` of all of `src` into `dst` at `pos`: it throws,
      copying nothing, when `src` would run past the end. */
  method Copy(src: seq<byte>, dst: array<byte>, pos: nat) returns (ok: bool)
    modifies dst
    ensures ok <==> pos + |src| <= dst.Length
    ensures ok ==> dst[..] == old(dst[..])[..pos] + src + old(dst[..])[pos + |src|..]
    ensures !ok ==> dst[..] == old(dst[..])
  {
    if pos + |src| > dst.Length {
      return false;
    }
    ghost var before := dst[..];
    for i := 0 to |src|
      invariant dst[..] == before[..pos] + src[..i] + before[pos + i..]
    {
      dst[pos + i] := src[i];
      assert before[pos + i..][1..] == before[pos + i + 1..];
    }
    ok := true;
  }

  /** Copying onto the zeros right after what was filled. */
  lemma FillMore(p: seq<byte>, src: seq<byte>, n: nat)
    requires |p| + |src| <= n
    ensures Filled(p, n)[..|p|] + src + Filled(p, n)[|p| + |src|..] == Filled(p + src, n)
  {
    assert Filled(p, n)[..|p|] == p;
    assert Filled(p, n)[|p| + |src|..] == Zeros(n - |p| - |src|);
  }

  /** `Collections.sort`: the list's elements are sorted and written back
      in order. */
  method SortTags(tags: array<string>)
    modifies tags
    ensures tags[..] == Sort(old(tags[..]))
  {
    var sorted := Sort(tags[..]);
    SortLength(tags[..]);
    for i := 0 to tags.Length
      invariant forall k :: 0 <= k < i ==> tags[k] == sorted[k]
    {
      tags[i] := sorted[i];
    }
    assert tags[..] == sorted;
  }

  /** The tag identifiers of a prefix of the tags are a prefix of all of
      them. */
  lemma {:induction false} TagBytesPrefix(index: string -> seq<byte>, tags: seq<string>, i: nat)
    requires i <= |tags|
    ensures |TagBytes(index, tags[..i])| <= |TagBytes(index, tags)|
    decreases |tags| - i
  {
    if i < |tags| {
      TagBytesPrefix(index, tags, i + 1);
      assert tags[..i + 1][..i] == tags[..i];
    } else {
      assert tags[..i] == tags;
    }
  }

  lemma TagBytesSnoc(index: string -> seq<byte>, tags: seq<string>, i: nat)
    requires i < |tags|
    ensures TagBytes(index, tags[..i + 1]) == TagBytes(index, tags[..i]) + index(tags[i])
  {
    assert tags[..i + 1][..i] == tags[..i];
  }

  /** The loop over the sorted tags: each identifier is copied at the
      running position, which then moves past it. */
  method CopyTags(index: string -> seq<byte>, tags: seq<string>, rowKey: array<byte>, prefix: seq<byte>)
    returns (ok: bool, pos: nat)
    requires |prefix| <= rowKey.Length && rowKey[..] == Filled(prefix, rowKey.Length)
    modifies rowKey
    ensures ok <==> |prefix + TagBytes(index, tags)| <= rowKey.Length
    ensures ok ==> pos == |prefix + TagBytes(index, tags)| && rowKey[..] == Filled(prefix + TagBytes(index, tags), rowKey.Length)
  {
    var n := rowKey.Length;
    pos := |prefix|;
    assert tags[..0] == [];
    for i := 0 to |tags|
      invariant pos == |prefix + TagBytes(index, tags[..i])| <= n
      invariant rowKey[..] == Filled(prefix + TagBytes(index, tags[..i]), n)
    {
      var tagBytes := index(tags[i]);
      ghost var done := prefix + TagBytes(index, tags[..i]);
      TagBytesSnoc(index, tags, i);
      ok := Copy(tagBytes, rowKey, pos);
      if !ok {
        TagBytesPrefix(index, tags, i + 1);
        return false, pos;
      }
      FillMore(done, tagBytes, n);
      assert done + tagBytes == prefix + TagBytes(index, tags[..i + 1]);
      pos := pos + |tagBytes|;
    }
    assert tags[..|tags|] == tags;
    ok := true;
  }

  /** `buildRowKey`, on an array of tags that it sorts in place when it
      gets that far. */
  method BuildRowKey(index: string -> seq<byte>, seriesName: string, tags: array<string>, unit: TimeUnit,
                     timestamp: int64) returns (r: Result<array<byte>, JavaException>)
    modifies tags
    ensures var spec := BuiltRowKey(index, seriesName, old(tags[..]), unit, timestamp);
      (r.Failure? <==> spec.Failure?) &&
      (r.Failure? ==> r.error == spec.error) &&
      (r.Success? ==> fresh(r.value) && r.value[..] == spec.value)
    ensures tags[..] == if Converts(unit) && |index(seriesName)| <= KeyLength(tags.Length) then Sort(old(tags[..]))
                        else old(tags[..])
  {
    var n := KeyLength(tags.Length);
    var rowKey := new byte[n](_ => 0);
    assert rowKey[..] == Filled([], n);
    var bucket := TimeBucket(unit, timestamp, BUCKET_SIZE);
    if bucket.Failure? {
      return Failure(bucket.error);
    }
    var ok := FillKey(index, seriesName, tags, bucket.value, rowKey);
    if !ok {
      return Failure(ArrayIndexOutOfBoundsException);
    }
    r := Success(rowKey);
  }

  /** The copies into the zeroed key once the bucket is known: the series
      identifier, then, after sorting the tags, theirs and the bucket's. */
  method FillKey(index: string -> seq<byte>, seriesName: string, tags: array<string>, bucket: int32,
                 rowKey: array<byte>) returns (ok: bool)
    requires rowKey[..] == Filled([], rowKey.Length)
    modifies tags, rowKey
    ensures var layout := Layout(index, seriesName, Sort(old(tags[..])), bucket);
      (ok <==> |layout| <= rowKey.Length) && (ok ==> rowKey[..] == Filled(layout, rowKey.Length))
    ensures tags[..] == if |index(seriesName)| <= rowKey.Length then Sort(old(tags[..])) else old(tags[..])
  {
    var n := rowKey.Length;
    var bucketBytes := IntToByteMSB(bucket);
    var seriesBytes := index(seriesName);
    ok := Copy(seriesBytes, rowKey, 0);
    if !ok {
      return;
    }
    FillMore([], seriesBytes, n);
    assert [] + seriesBytes == seriesBytes;
    ghost var filled := rowKey[..];
    SortTags(tags);
    assert rowKey[..] == filled;
    ok := CopyRest(index, tags[..], bucketBytes[..], rowKey, seriesBytes);
  }

  /** The tags' copies, then the bucket's at the position they reached. */
  method CopyRest(index: string -> seq<byte>, tags: seq<string>, bucketBytes: seq<byte>, rowKey: array<byte>,
                  prefix: seq<byte>) returns (ok: bool)
    requires |prefix| <= rowKey.Length && rowKey[..] == Filled(prefix, rowKey.Length)
    modifies rowKey
    ensures ok <==> |prefix + TagBytes(index, tags) + bucketBytes| <= rowKey.Length
    ensures ok ==> rowKey[..] == Filled(prefix + TagBytes(index, tags) + bucketBytes, rowKey.Length)
  {
    var pos;
    ok, pos := CopyTags(index, tags, rowKey, prefix);
    if !ok {
      return false;
    }
    ghost var done := prefix + TagBytes(index, tags);
    ok := Copy(bucketBytes, rowKey, pos);
    if !ok {
      return false;
    }
    FillMore(done, bucketBytes, rowKey.Length);
  }

  // ---------------------------------------------------------------------
  // The write path

  /** What either `writeSeries` hands to `writeSeriesPoint`. */
  datatype SeriesPoint = SeriesPoint(rowKey: seq<byte>, timestamp: int64, value: seq<byte>)

  /** `writeSeries` for a `long`: the row key, the timestamp and the value's
      eight big-endian bytes, which decode back to the value. */
  method WriteSeries(index: string -> seq<byte>, seriesName: string, tags: array<string>, unit: TimeUnit,
                     timestamp: int64, value: int64) returns (r: Result<SeriesPoint, JavaException>)
    modifies tags
    ensures var spec := BuiltRowKey(index, seriesName, old(tags[..]), unit, timestamp);
      (r.Failure? <==> spec.Failure?) &&
      (r.Failure? ==> r.error == spec.error) &&
      (r.Success? ==> r.value == SeriesPoint(spec.value, timestamp, LongToBytes(value)) &&
                      Wrap64(FromBigEndian(r.value.value)) == value)
  {
    var rowKey := BuildRowKey(index, seriesName, tags, unit, timestamp);
    if rowKey.Failure? {
      return Failure(rowKey.error);
    }
    var valueBytes := LongToBytes(value);
    r := Success(SeriesPoint(rowKey.value[..], timestamp, valueBytes));
  }

  /** `writeSeries` for a `double`, given by its bits: the same row key and
      timestamp, and the bytes `doubleToBytes` gives for the value. */
  method WriteDoubleSeries(index: string -> seq<byte>, doubleToBytes: int64 -> seq<byte>, seriesName: string,
                           tags: array<string>, unit: TimeUnit, timestamp: int64, bits: int64)
    returns (r: Result<SeriesPoint, JavaException>)
    modifies tags
    ensures var spec := BuiltRowKey(index, seriesName, old(tags[..]), unit, timestamp);
      (r.Failure? <==> spec.Failure?) &&
      (r.Failure? ==> r.error == spec.error) &&
      (r.Success? ==> r.value == SeriesPoint(spec.value, timestamp, doubleToBytes(bits)))
  {
    var rowKey := BuildRowKey(index, seriesName, tags, unit, timestamp);
    if rowKey.Failure? {
      return Failure(rowKey.error);
    }
    var valueBytes := doubleToBytes(bits);
    r := Success(SeriesPoint(rowKey.value[..], timestamp, valueBytes));
  }
}
