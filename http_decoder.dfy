/** `HTTPDataPointDecoder.dataPointsFromString`: a small subset of the
    InfluxDB line protocol. Each line of the payload is
    `series[,tag]* field=value[,field=value]* [timestamp]`; it gives one
    point per field, named after the series and the field, with the line's
    tags and timestamp. A value containing `.` is floating point. Lines
    with the wrong number of parts are dropped; a malformed field or
    number makes the whole call throw. */
module HttpDecoder {
  import opened Wrappers
  import opened JavaInt
  import opened JavaString
  import opened DataPoints
  import Seqs

  /** `Double.parseDouble`, not part of this model: the bits of the
      `double` a text denotes, or an exception. */
  type DoubleParser = string -> Result<int64, JavaException>

  /** `System.currentTimeMillis`, not part of this model: the reading the
      loop takes for the line at each index of the payload. */
  type Clock = nat -> int64

  /** One `field=value`: `split("=")` must leave a key and a value, else
      the array access throws; the value is parsed as a `double` when it
      contains `.`, as a `long` otherwise. */
  function FieldPoint(seriesName: string, tags: seq<string>, timestamp: int64, field: string, parseDouble: DoubleParser)
    : (r: Result<DataPoint, JavaException>)
    ensures r.Success? ==> var fv := Split(field, '=');
      |fv| >= 2 &&
      r.value.seriesName == Some(seriesName + "-" + fv[0]) && r.value.tags == Some(tags) &&
      r.value.timestamp == timestamp && (r.value.isFp <==> Contains(fv[1], "."))
    ensures |Split(field, '=')| < 2 ==> r == Failure(ArrayIndexOutOfBoundsException)
  {
    var fv := Split(field, '=');
    if |fv| < 2 then Failure(ArrayIndexOutOfBoundsException)
    else if Contains(fv[1], ".") then
      var bits :- parseDouble(fv[1]);
      Success(WithFp(NamedDouble(seriesName + "-" + fv[0], Some(tags), timestamp, bits), true))
    else
      var value :- ParseLong(fv[1]);
      Success(WithFp(Named(seriesName + "-" + fv[0], Some(tags), timestamp, value), false))
  }

  /** The fields in order; the first one that fails ends the call. */
  function FieldPoints(seriesName: string, tags: seq<string>, timestamp: int64, fields: seq<string>, parseDouble: DoubleParser)
    : (r: Result<seq<DataPoint>, JavaException>)
    ensures r.Success? ==> |r.value| == |fields|
    ensures r.Success? ==> forall i :: 0 <= i < |fields| ==>
      FieldPoint(seriesName, tags, timestamp, fields[i], parseDouble) == Success(r.value[i])
  {
    if fields == [] then Success([])
    else
      var init :- FieldPoints(seriesName, tags, timestamp, fields[..|fields| - 1], parseDouble);
      var p :- FieldPoint(seriesName, tags, timestamp, fields[|fields| - 1], parseDouble);
      SnocPointwise(x => FieldPoint(seriesName, tags, timestamp, x, parseDouble), fields, init, p);
      Success(init + [p])
  }

  /** Extending the fields by one and the points by that field's point
      keeps every point the point of its field. */
  lemma SnocPointwise(f: string -> Result<DataPoint, JavaException>, fields: seq<string>, init: seq<DataPoint>, p: DataPoint)
    requires fields != [] && |init| == |fields| - 1
    requires forall i :: 0 <= i < |init| ==> f(fields[..|fields| - 1][i]) == Success(init[i])
    requires f(fields[|fields| - 1]) == Success(p)
    ensures forall i :: 0 <= i < |fields| ==> f(fields[i]) == Success((init + [p])[i])
  {
    forall i | 0 <= i < |fields|
      ensures f(fields[i]) == Success((init + [p])[i])
    {
      if i < |init| {
        assert fields[..|fields| - 1][i] == fields[i];
      }
    }
  }

  /** One line: split on runs of whitespace; two or three parts, or no
      points; the third part, or else `now`, the clock as read for this
      line, is the timestamp; the first part, split on `,`, is the series
      name and then the tags; the second, split on `,`, the fields. */
  function LinePoints(line: string, now: int64, parseDouble: DoubleParser): (r: Result<seq<DataPoint>, JavaException>)
  {
    var parts := SplitSpaces(line);
    if |parts| < 2 || |parts| > 3 then Success([])
    else
      var timestamp :- if |parts| == 3 then ParseLong(parts[2]) else Success(now);
      var key := Split(parts[0], ',');
      if key == [] then Failure(ArrayIndexOutOfBoundsException)
      else FieldPoints(key[0], key[1..], timestamp, Split(parts[1], ','), parseDouble)
  }

  /** The lines in order, their points one after another; the line at
      index `i` takes `clock(i)` as its reading of the clock. */
  function PayloadPoints(lines: seq<string>, clock: Clock, parseDouble: DoubleParser): (r: Result<seq<DataPoint>, JavaException>)
  {
    if lines == [] then Success([])
    else
      var init :- PayloadPoints(lines[..|lines| - 1], clock, parseDouble);
      var ps :- LinePoints(lines[|lines| - 1], clock(|lines| - 1), parseDouble);
      Success(init + ps)
  }

  /** `dataPointsFromString`, with the clock's reading for each line
      passed in. */
  function DataPointsFromString(payload: string, clock: Clock, parseDouble: DoubleParser): Result<seq<DataPoint>, JavaException> {
    PayloadPoints(Split(payload, '\n'), clock, parseDouble)
  }

  // ---------------------------------------------------------------------
  // Properties

  /** A line that does not split into two or three parts adds nothing. */
  lemma WrongPartCountDropped(line: string, now: int64, parseDouble: DoubleParser)
    requires |SplitSpaces(line)| < 2 || |SplitSpaces(line)| > 3
    ensures LinePoints(line, now, parseDouble) == Success([])
  {
  }

  /** Every point of a line carries the line's series name before `-`, its
      tags, and its timestamp: the third part, or `now` when there are
      two. */
  lemma LineShares(line: string, now: int64, parseDouble: DoubleParser)
    ensures var r := LinePoints(line, now, parseDouble);
      var parts := SplitSpaces(line);
      r.Success? && r.value != [] ==>
        (|parts| == 2 || |parts| == 3) &&
        var key := Split(parts[0], ',');
        var ts := if |parts| == 3 then ParseLong(parts[2]) else Success(now);
        key != [] && ts.Success? &&
        forall i :: 0 <= i < |r.value| ==>
          r.value[i].tags == Some(key[1..]) && r.value[i].timestamp == ts.value &&
          exists f :: r.value[i].seriesName == Some(key[0] + "-" + f)
  {
    var r := LinePoints(line, now, parseDouble);
    if r.Success? && r.value != [] {
      var parts := SplitSpaces(line);
      var key := Split(parts[0], ',');
      var ts := if |parts| == 3 then ParseLong(parts[2]) else Success(now);
      var fields := Split(parts[1], ',');
      forall i | 0 <= i < |r.value|
        ensures r.value[i].tags == Some(key[1..]) && r.value[i].timestamp == ts.value &&
                exists f :: r.value[i].seriesName == Some(key[0] + "-" + f)
      {
        var fv := Split(fields[i], '=');
        assert FieldPoint(key[0], key[1..], ts.value, fields[i], parseDouble) == Success(r.value[i]);
        assert r.value[i].seriesName == Some(key[0] + "-" + fv[0]);
      }
    }
  }

  /** When the payload is separate lines, the first to fail ends the call;
      otherwise the points are each line's in turn. */
  lemma PayloadOfLines(lines: seq<string>, clock: Clock, parseDouble: DoubleParser)
    requires |lines| >= 1 && Free(lines, '\n') && lines[|lines| - 1] != []
    ensures DataPointsFromString(Join(lines, '\n'), clock, parseDouble) == PayloadPoints(lines, clock, parseDouble)
  {
    SplitJoin(lines, '\n');
  }

  /** A failure among the first `k` fields is the failure of them all. */
  lemma {:induction false} FieldFailureSticks(seriesName: string, tags: seq<string>, timestamp: int64, fields: seq<string>,
                                              k: nat, parseDouble: DoubleParser)
    requires k <= |fields| && FieldPoints(seriesName, tags, timestamp, fields[..k], parseDouble).Failure?
    ensures FieldPoints(seriesName, tags, timestamp, fields, parseDouble) ==
            FieldPoints(seriesName, tags, timestamp, fields[..k], parseDouble)
    decreases |fields|
  {
    if k < |fields| {
      var init := fields[..|fields| - 1];
      assert init[..k] == fields[..k];
      FieldFailureSticks(seriesName, tags, timestamp, init, k, parseDouble);
    } else {
      assert fields[..k] == fields;
    }
  }

  /** The converse of `FieldPoints`' contract: when every field gives its
      point, the fields give those points in order. */
  lemma {:induction false} FieldPointsAll(seriesName: string, tags: seq<string>, timestamp: int64, fields: seq<string>,
                                          ps: seq<DataPoint>, parseDouble: DoubleParser)
    requires |ps| == |fields|
    requires forall i :: 0 <= i < |fields| ==> FieldPoint(seriesName, tags, timestamp, fields[i], parseDouble) == Success(ps[i])
    ensures FieldPoints(seriesName, tags, timestamp, fields, parseDouble) == Success(ps)
  {
    if fields != [] {
      var n := |fields|;
      FieldPointsAll(seriesName, tags, timestamp, fields[..n - 1], ps[..n - 1], parseDouble);
      Seqs.InitLast(ps);
    }
  }

  /** A failing line among the first `k` is the failure of the payload. */
  lemma {:induction false} LineFailureSticks(lines: seq<string>, k: nat, clock: Clock, parseDouble: DoubleParser)
    requires k <= |lines| && PayloadPoints(lines[..k], clock, parseDouble).Failure?
    ensures PayloadPoints(lines, clock, parseDouble) == PayloadPoints(lines[..k], clock, parseDouble)
    decreases |lines|
  {
    if k < |lines| {
      var init := lines[..|lines| - 1];
      assert init[..k] == lines[..k];
      LineFailureSticks(init, k, clock, parseDouble);
    } else {
      assert lines[..k] == lines;
    }
  }

  // ---------------------------------------------------------------------
  // Writing a line and reading it back

  /** A piece of a line: not empty, no whitespace, no `,`. */
  predicate Word(s: string) {
    s != [] && !HasSpace(s) && ',' !in s
  }

  /** `key=value` for one field. */
  function FieldText(key: string, value: string): string {
    key + "=" + value
  }

  /** The fields' texts. */
  function FieldTexts(keys: seq<string>, values: seq<string>): seq<string>
    requires |keys| == |values|
  {
    seq(|keys|, i requires 0 <= i < |keys| => FieldText(keys[i], values[i]))
  }

  /** The line `series[,tag]* key=value[,key=value]* [timestamp]`. */
  function LineText(seriesName: string, tags: seq<string>, keys: seq<string>, values: seq<string>, tsText: Option<string>): string
    requires |keys| == |values| >= 1
  {
    var head := [Join([seriesName] + tags, ','), Join(FieldTexts(keys, values), ',')];
    Join(if tsText.Some? then head + [tsText.value] else head, ' ')
  }

  /** The points such a line stands for when its values are `long` texts. */
  function IntegerPoints(seriesName: string, tags: seq<string>, keys: seq<string>, values: seq<string>, timestamp: int64)
    : seq<DataPoint>
    requires |keys| == |values|
    requires forall i :: 0 <= i < |values| ==> ParseLong(values[i]).Success?
  {
    seq(|keys|, i requires 0 <= i < |keys| => WithFp(Named(seriesName + "-" + keys[i], Some(tags), timestamp, ParseLong(values[i]).value), false))
  }

  /** A line of a series name, tags, fields with `long` values and an
      optional `long` timestamp reads back as one integer point per field,
      in order, with the line's timestamp or else the clock's. */
  lemma LineRoundTrip(seriesName: string, tags: seq<string>, keys: seq<string>, values: seq<string>, tsText: Option<string>,
                      now: int64, parseDouble: DoubleParser)
    requires Word(seriesName) && forall i :: 0 <= i < |tags| ==> Word(tags[i])
    requires |keys| == |values| >= 1
    requires forall i :: 0 <= i < |keys| ==> Word(keys[i]) && '=' !in keys[i] && ParseLong(values[i]).Success?
    requires tsText.Some? ==> ParseLong(tsText.value).Success?
    ensures LinePoints(LineText(seriesName, tags, keys, values, tsText), now, parseDouble) ==
      Success(IntegerPoints(seriesName, tags, keys, values, if tsText.Some? then ParseLong(tsText.value).value else now))
  {
    var timestamp := if tsText.Some? then ParseLong(tsText.value).value else now;
    var part0 := Join([seriesName] + tags, ',');
    var part1 := Join(FieldTexts(keys, values), ',');
    KeyRoundTrip(seriesName, tags);
    assert ([seriesName] + tags)[1..] == tags;
    FieldsRoundTrip(seriesName, tags, keys, values, timestamp, parseDouble);
    var line := LineText(seriesName, tags, keys, values, tsText);
    if tsText.Some? {
      LongText(tsText.value);
      SpacedWords3(part0, part1, tsText.value);
      assert [part0, part1] + [tsText.value] == [part0, part1, tsText.value];
    } else {
      SpacedWords2(part0, part1);
    }
    LineOfParts(line, part0, part1, tsText, now, parseDouble);
  }

  /** A line of two parts, or three with a `long` timestamp, whose first
      part names a series gives the points of its second part's fields. */
  lemma LineOfParts(line: string, part0: string, part1: string, tsText: Option<string>, now: int64,
                    parseDouble: DoubleParser)
    requires SplitSpaces(line) == if tsText.Some? then [part0, part1, tsText.value] else [part0, part1]
    requires tsText.Some? ==> ParseLong(tsText.value).Success?
    requires Split(part0, ',') != []
    ensures var key := Split(part0, ',');
      LinePoints(line, now, parseDouble) ==
      FieldPoints(key[0], key[1..], if tsText.Some? then ParseLong(tsText.value).value else now,
                  Split(part1, ','), parseDouble)
  {
  }

  /** The first part of such a line splits back into the name and tags. */
  lemma KeyRoundTrip(seriesName: string, tags: seq<string>)
    requires Word(seriesName) && forall i :: 0 <= i < |tags| ==> Word(tags[i])
    ensures var part := Join([seriesName] + tags, ',');
      Split(part, ',') == [seriesName] + tags && part != [] && !HasSpace(part)
  {
    var key := [seriesName] + tags;
    assert forall i :: 0 <= i < |key| ==> Word(key[i]);
    SplitJoin(key, ',');
    JoinOfWords(key, ',');
  }

  /** The second part of such a line splits back into its fields, which
      give the integer points. */
  lemma FieldsRoundTrip(seriesName: string, tags: seq<string>, keys: seq<string>, values: seq<string>, timestamp: int64,
                        parseDouble: DoubleParser)
    requires |keys| == |values| >= 1
    requires forall i :: 0 <= i < |keys| ==> Word(keys[i]) && '=' !in keys[i] && ParseLong(values[i]).Success?
    ensures var fields := FieldTexts(keys, values); var part := Join(fields, ',');
      Split(part, ',') == fields && part != [] && !HasSpace(part) &&
      FieldPoints(seriesName, tags, timestamp, fields, parseDouble) == Success(IntegerPoints(seriesName, tags, keys, values, timestamp))
  {
    var fields := FieldTexts(keys, values);
    var ps := IntegerPoints(seriesName, tags, keys, values, timestamp);
    forall i | 0 <= i < |keys|
      ensures Word(fields[i]) && FieldPoint(seriesName, tags, timestamp, fields[i], parseDouble) == Success(ps[i])
    {
      FieldRoundTrip(seriesName, tags, timestamp, keys[i], values[i], parseDouble);
    }
    FieldPointsAll(seriesName, tags, timestamp, fields, ps, parseDouble);
    SplitJoin(fields, ',');
    JoinOfWords(fields, ',');
  }

  /** One field with a `long` value reads back as its integer point. */
  lemma FieldRoundTrip(seriesName: string, tags: seq<string>, timestamp: int64, key: string, value: string,
                       parseDouble: DoubleParser)
    requires Word(key) && '=' !in key && ParseLong(value).Success?
    ensures Word(FieldText(key, value))
    ensures FieldPoint(seriesName, tags, timestamp, FieldText(key, value), parseDouble) ==
      Success(WithFp(Named(seriesName + "-" + key, Some(tags), timestamp, ParseLong(value).value), false))
  {
    LongText(value);
    FieldSplit(key, value);
  }

  /** A `long` text is a run of digits after an optional sign. */
  lemma LongText(s: string)
    requires ParseLong(s).Success?
    ensures Word(s) && '=' !in s && !Contains(s, ".")
  {
    var body := if s[0] == '-' || s[0] == '+' then s[1..] else s;
    assert IsDecimal(body);
    assert forall k :: 0 <= k < |s| ==> (k == 0 && (s[0] == '-' || s[0] == '+')) || 0 <= DecimalValue(s[k]) by {
      forall k | 0 <= k < |s| && !(k == 0 && (s[0] == '-' || s[0] == '+'))
        ensures 0 <= DecimalValue(s[k])
      {
        if s[0] == '-' || s[0] == '+' {
          assert s[k] == body[k - 1];
        }
      }
    }
    forall i: nat | i < |s| ensures !OccursAt(s, ".", i) {
      assert s[i..i + 1][0] == s[i];
    }
  }

  /** `key=value` splits back on `=`. */
  lemma FieldSplit(key: string, value: string)
    requires '=' !in key && '=' !in value && value != []
    ensures Split(FieldText(key, value), '=') == [key, value]
  {
    assert Join([key, value], '=') == FieldText(key, value);
    SplitJoin([key, value], '=');
  }

  /** Words joined by a character that is neither whitespace nor `,` make a
      word. */
  lemma JoinOfWords(ws: seq<string>, c: char)
    requires |ws| >= 1 && forall i :: 0 <= i < |ws| ==> ws[i] != [] && !HasSpace(ws[i])
    requires !IsSpace(c)
    ensures Join(ws, c) != [] && !HasSpace(Join(ws, c))
  {
    JoinKeeps(ws, c, x => !IsSpace(x));
  }

  /** A character property that holds of the separator and of every
      character of the pieces holds of the whole join. */
  lemma {:induction false} JoinKeeps(ws: seq<string>, c: char, p: char -> bool)
    requires |ws| >= 1 && p(c)
    requires forall i, k :: 0 <= i < |ws| && 0 <= k < |ws[i]| ==> p(ws[i][k])
    ensures forall k :: 0 <= k < |Join(ws, c)| ==> p(Join(ws, c)[k])
  {
    if |ws| > 1 {
      JoinKeeps(ws[1..], c, p);
      var j := Join(ws, c);
      assert j == ws[0] + [c] + Join(ws[1..], c);
      forall k | 0 <= k < |j| ensures p(j[k]) {
        if k < |ws[0]| {
          assert j[k] == ws[0][k];
        } else if k > |ws[0]| {
          assert j[k] == Join(ws[1..], c)[k - |ws[0]| - 1];
        }
      }
    }
  }

  lemma SpacedWords2(a: string, b: string)
    requires a != [] && !HasSpace(a) && b != [] && !HasSpace(b)
    ensures SplitSpaces(Join([a, b], ' ')) == [a, b]
  {
    SpacedWords([a, b]);
  }

  lemma SpacedWords3(a: string, b: string, c: string)
    requires a != [] && !HasSpace(a) && b != [] && !HasSpace(b) && c != [] && !HasSpace(c)
    ensures SplitSpaces(Join([a, b, c], ' ')) == [a, b, c]
  {
    SpacedWords([a, b, c]);
  }

  /** Two or more words joined by single spaces split back on whitespace. */
  lemma SpacedWords(ws: seq<string>)
    requires |ws| >= 2 && forall i :: 0 <= i < |ws| ==> ws[i] != [] && !HasSpace(ws[i])
    ensures SplitSpaces(Join(ws, ' ')) == ws
  {
    var s := Join(ws, ' ');
    assert s == ws[0] + [' '] + Join(ws[1..], ' ');
    assert IsSpace(s[|ws[0]|]);
    WordPiecesOfJoin(ws);
  }

  // ---------------------------------------------------------------------
  // The decoder

  /** The points gathered so far, then those of `r`; or `r`'s exception. */
  function AppendedTo(dps: seq<DataPoint>, r: Result<seq<DataPoint>, JavaException>): Result<seq<DataPoint>, JavaException> {
    match r
    case Success(ps) => Success(dps + ps)
    case Failure(e) => Failure(e)
  }

  /** `dataPointsFromString`: one list that every line's points are added
      to, each line with its own reading of the clock; the first exception
      ends the call and the list is lost. */
  method DecodePoints(payload: string, clock: Clock, parseDouble: DoubleParser) returns (r: Result<seq<DataPoint>, JavaException>)
    ensures r == DataPointsFromString(payload, clock, parseDouble)
  {
    var dps: seq<DataPoint> := [];
    var splits := Split(payload, '\n');
    for li := 0 to |splits|
      invariant PayloadPoints(splits[..li], clock, parseDouble) == Success(dps)
    {
      assert splits[..li + 1][..li] == splits[..li];
      var next := AddLine(dps, splits[li], clock(li), parseDouble);
      if next.Failure? {
        LineFailureSticks(splits, li + 1, clock, parseDouble);
        return next;
      }
      dps := next.value;
    }
    assert splits[..|splits|] == splits;
    r := Success(dps);
  }

  /** The body of the line loop. */
  method AddLine(dps: seq<DataPoint>, line: string, now: int64, parseDouble: DoubleParser) returns (r: Result<seq<DataPoint>, JavaException>)
    ensures r == AppendedTo(dps, LinePoints(line, now, parseDouble))
  {
    var parts := SplitSpaces(line);
    if |parts| < 2 || |parts| > 3 {
      assert dps + [] == dps;
      return Success(dps);
    }
    var timestamp := now;
    if |parts| == 3 {
      var t := ParseLong(parts[2]);
      if t.Failure? {
        return Failure(t.error);
      }
      timestamp := t.value;
    }
    var key := Split(parts[0], ',');
    if |key| == 0 {
      return Failure(ArrayIndexOutOfBoundsException);
    }
    var seriesName := key[0];
    var tags := TagList(key);
    var fields := Split(parts[1], ',');
    r := AddFields(dps, seriesName, tags, timestamp, fields, parseDouble);
  }

  /** The tag loop: every piece of the key after the series name. */
  method TagList(key: seq<string>) returns (tags: seq<string>)
    requires |key| >= 1
    ensures tags == key[1..]
  {
    tags := [];
    for i := 1 to |key|
      invariant tags == key[1..i]
    {
      tags := tags + [key[i]];
    }
  }

  /** The body of the field loop. */
  method AddFields(dps: seq<DataPoint>, seriesName: string, tags: seq<string>, timestamp: int64, fields: seq<string>,
                   parseDouble: DoubleParser)
    returns (r: Result<seq<DataPoint>, JavaException>)
    ensures r == AppendedTo(dps, FieldPoints(seriesName, tags, timestamp, fields, parseDouble))
  {
    var out := dps;
    ghost var done: seq<DataPoint> := [];
    assert fields[..0] == [];
    for fi := 0 to |fields|
      invariant FieldPoints(seriesName, tags, timestamp, fields[..fi], parseDouble) == Success(done)
      invariant out == dps + done
    {
      var p := ParseField(seriesName, tags, timestamp, fields[fi], parseDouble);
      FieldPointsSnoc(seriesName, tags, timestamp, fields, fi, parseDouble, done);
      if p.Failure? {
        FieldFailureSticks(seriesName, tags, timestamp, fields, fi + 1, parseDouble);
        return Failure(p.error);
      }
      out := out + [p.value];
      done := done + [p.value];
    }
    assert fields[..|fields|] == fields;
    r := Success(out);
  }

  /** One field of the loop: split on `=`, the value parsed as a `double`
      when it holds a dot and as a `long` otherwise. */
  method ParseField(seriesName: string, tags: seq<string>, timestamp: int64, field: string, parseDouble: DoubleParser)
    returns (r: Result<DataPoint, JavaException>)
    ensures r == FieldPoint(seriesName, tags, timestamp, field, parseDouble)
  {
    var fv := Split(field, '=');
    if |fv| < 2 {
      return Failure(ArrayIndexOutOfBoundsException);
    }
    var prefix := fv[0];
    var value: int64;
    var fp: bool;
    if Contains(fv[1], ".") {
      var d := parseDouble(fv[1]);
      if d.Failure? {
        return Failure(d.error);
      }
      value, fp := DoubleToLongBits(d.value), true;
    } else {
      var l := ParseLong(fv[1]);
      if l.Failure? {
        return Failure(l.error);
      }
      value, fp := l.value, false;
    }
    r := Success(WithFp(Named(seriesName + "-" + prefix, Some(tags), timestamp, value), fp));
  }

  /** One more field extends the points of the fields before it, or fails
      with its own error. */
  lemma FieldPointsSnoc(seriesName: string, tags: seq<string>, timestamp: int64, fields: seq<string>, i: nat,
                        parseDouble: DoubleParser, done: seq<DataPoint>)
    requires i < |fields| && FieldPoints(seriesName, tags, timestamp, fields[..i], parseDouble) == Success(done)
    ensures var p := FieldPoint(seriesName, tags, timestamp, fields[i], parseDouble);
      FieldPoints(seriesName, tags, timestamp, fields[..i + 1], parseDouble) ==
      if p.Success? then Success(done + [p.value]) else Failure(p.error)
  {
    assert fields[..i + 1][..i] == fields[..i];
  }
}
