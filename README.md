# Sidewinder core in Dafny

Sidewinder is an in-memory time-series store. Points arrive as a
timestamp and a 64-bit value under a database, a measurement and some
tags. They are compressed with the Gorilla scheme:
- timestamps are stored as deltas of deltas behind a short control prefix;
- each value is XORed with the one before it, and only the meaningful bits
  are kept.

Buckets of compressed points sit in sorted maps keyed by a coarse time
bucket. This project models the following parts of that core and proves
what they promise:
- the Gorilla decompressor (`gorillac/Reader.java`) and the compressor whose
  output it reads;
- one bucket (`TimeSeriesBucket`) and a bucketed series (`TimeSeries`);
- the in-memory engine with its tag tables (`MemStorageEngine`);
- the three older Gorilla engines;
- the row key of `AbstractStorageEngine`;
- the helper classes `TimeUtils`, `ByteUtils` and `BetweenPredicate`;
- the HTTP line decoder;
- the binary point encoder and its two decoders.

Layout: one module per file.
- `gorilla_reader.dfy` (`GorillaReader`) holds the decoder state as a value. Every
  step of the Java reader is a function on that value. The `Reader` class keeps the
  Java fields and runs the same steps as methods, each proved equal to its function.
- `gorilla_writer.dfy` (`GorillaWriter`) writes the encoding. It proves that decoding
  what it wrote gives the pairs back (`EncodeDecode`).
- `timeseries_bucket.dfy` (`Buckets`) and `timeseries.dfy` (`Series`) are classes over
  that encoder: a bucket is an encoder plus its count and last timestamp, and a series
  is a sorted map of buckets.
- `mem_storage_engine.dfy` (`MemEngine`), `gorilla_storage_engine.dfy` (`GorillaEngine`),
  `bucket_storage_engine.dfy` (`BucketEngine`) and `flat_storage_engine.dfy`
  (`FlatEngine`) are the engines.
- `abstract_storage_engine.dfy` (`RowKeys`) is the binary row key, built in place in an
  array.
- `http_decoder.dfy` (`HttpDecoder`) is the line decoder.
- `point_encoder.dfy` (`PointEncoder`) and `point_decoders.dfy` (`PointWire`,
  `BinaryDecoder`, `NettyDecoder`) are the wire codec.
- The supporting modules model Java's behaviour:
  - `java_int.dfy`: integer widths, narrowing and truncating division;
  - `java_string.dfy`: `split`, `trim`, `contains`, hex and octal strings, `parseLong`;
  - `lex_order.dfy`: `String.compareTo`, sorting and the keys of a sorted map;
  - `bits.dfy`: bit strings;
  - `byte_buf.dfy`: Netty's `ByteBuf`;
  - `wrappers.dfy`: `Option`, `Result`, `Outcome`.

Modelling conventions:
- A Java exception is a `Failure`/`Fail` value naming it.
- Java `int`, `short` and `long` arithmetic is written out with explicit
  wrap-around (`Wrap32`, `Wrap64`) and truncating division.
- A `double` is carried as its 64-bit pattern, as `DataPoint` itself stores it.

Behaviour of the source that the model keeps:
- Each series has a kind (floating point or not). The kind is checked by
  the engines' `writeDataPoint`, not by `TimeSeries.addDataPoint`.
- `TimeSeriesBucket.addDataPoint` refuses a timestamp older than the
  bucket's last with `RejectException`. Nothing keeps a timestamp within
  2^27 of the bucket's header, which the first offset's 27 bits need. The
  series of the three older engines (`GorillaEngine`, `BucketEngine`,
  `FlatEngine`) append with no order check at all. Their read-back lemmas
  hold only for points in order and within that window.
- A range query drops the points at its start in two cases:
  - a query inside the epoch's first bucket throws
    (`Series.FirstBucketQueryThrows`);
  - the "probe the start bucket" fallback can never find a bucket
    (`Series.FallbackFindsNothing`).

## Model

| member | source | states |
|---|---|---|
| Predicates.BoundsIncluded | core/src/main/java/com/srotya/sidewinder/core/predicates/BetweenPredicate.java:16-22 | `apply` includes both bounds exactly when start <= end, and a reversed predicate accepts no value |
| Predicates.Ordered | core/src/main/java/com/srotya/sidewinder/core/storage/gorilla/TimeSeries.java:59-66 | the predicate a query builds after its swap has start <= end and accepts exactly the values between the two bounds taken either way round |
| Predicates.OrderedSymmetric | core/src/main/java/com/srotya/sidewinder/core/storage/gorilla/TimeSeries.java:59-64 | swapping the bounds gives the same predicate |
| Predicates.MaxMaxRejects | core/src/main/java/com/srotya/sidewinder/core/predicates/BetweenPredicate.java:10-22 | `BetweenPredicate(Long.MAX_VALUE, Long.MAX_VALUE)` rejects every value below `Long.MAX_VALUE` |
| TimeUtils.PerSecond | sidewinder-core/src/main/java/com/srotya/sidewinder/core/utils/TimeUtils.java:56-67 | each handled unit has a positive number of ticks per second |
| TimeUtils.TimeToSeconds | sidewinder-core/src/main/java/com/srotya/sidewinder/core/utils/TimeUtils.java:53-72 | succeeds exactly for the four handled units; any other throws `IllegalArgumentException` |
| TimeUtils.SecondsTruncate | sidewinder-core/src/main/java/com/srotya/sidewinder/core/utils/TimeUtils.java:53-72 | when the quotient fits an `int`, the seconds are the time divided by the unit size, truncated toward zero: no larger in magnitude than the exact quotient and with the time's sign |
| TimeUtils.SecondsOfSeconds | sidewinder-core/src/main/java/com/srotya/sidewinder/core/utils/TimeUtils.java:65-67 | a time in seconds is only narrowed to `int` |
| TimeUtils.WindowFloored | sidewinder-core/src/main/java/com/srotya/sidewinder/core/utils/TimeUtils.java:81-83 | fails exactly for a zero window, with `ArithmeticException` |
| TimeUtils.WindowOffset | sidewinder-core/src/main/java/com/srotya/sidewinder/core/utils/TimeUtils.java:104-106 | fails exactly for a zero window; otherwise the result is a `short` |
| TimeUtils.FlooredBounds | sidewinder-core/src/main/java/com/srotya/sidewinder/core/utils/TimeUtils.java:81-83 | for a positive window the floor is a multiple of the window, on the same side of zero as the time, and less than one window away from it |
| TimeUtils.FloorIsProduct | sidewinder-core/src/main/java/com/srotya/sidewinder/core/utils/TimeUtils.java:81-83 | the floor is the truncated quotient times the window; no `int` overflow occurs |
| TimeUtils.FlooredIdempotent | sidewinder-core/src/main/java/com/srotya/sidewinder/core/utils/TimeUtils.java:81-83 | flooring a floored time changes nothing |
| TimeUtils.FloorPlusOffset | sidewinder-core/src/main/java/com/srotya/sidewinder/core/utils/TimeUtils.java:81-106 | for windows up to 2^15, floor + offset gives the time back, and the offset of a non-negative time lies in [0, w) |
| TimeUtils.WindowFlooredOf | sidewinder-core/src/main/java/com/srotya/sidewinder/core/utils/TimeUtils.java:39-44 | throws `IllegalArgumentException` for an unknown unit and `ArithmeticException` for a zero window; otherwise it is the `int` floor of the seconds |
| TimeUtils.WindowOffsetOf | sidewinder-core/src/main/java/com/srotya/sidewinder/core/utils/TimeUtils.java:92-95 | the same error cases; otherwise it is the `short` offset of the seconds |
| TimeUtils.TimeBucket | sidewinder-core/src/main/java/com/srotya/sidewinder/core/utils/TimeUtils.java:39-44 | the engines' time bucket fails exactly for an unknown unit or a zero window |
| TimeUtils.MillisBucket | sidewinder-core/src/main/java/com/srotya/sidewinder/core/utils/TimeUtils.java:39-44 | a non-negative millisecond time whose seconds fit an `int` has bucket `(ts / 1000 / 4096) * 4096` |
| TimeUtils.BucketPlusOffset | sidewinder-core/src/main/java/com/srotya/sidewinder/core/utils/TimeUtils.java:92-95 | bucket plus offset is the time in seconds |
| ByteUtils.IntBytes | sidewinder-core/src/main/java/com/srotya/sidewinder/core/utils/ByteUtils.java:33-40 | four bytes that read back, big-endian, as the unsigned value and, narrowed, as the `int` itself |
| ByteUtils.IntToByteMSB | sidewinder-core/src/main/java/com/srotya/sidewinder/core/utils/ByteUtils.java:33-40 | the shifts and masks fill a fresh array with exactly those four bytes |
| ByteUtils.LongToBytes | sidewinder-core/src/main/java/com/srotya/sidewinder/core/utils/ByteUtils.java:46-50 | eight bytes that read back, big-endian, as the `long` |
| ByteUtils.ShortToByteMSB | sidewinder-core/src/main/java/com/srotya/sidewinder/core/utils/ByteUtils.java:56-61 | a fresh array holding the two bytes the code computes |
| ByteUtils.ShortMSBLosesLowByte | sidewinder-core/src/main/java/com/srotya/sidewinder/core/utils/ByteUtils.java:56-61 | the first byte is always 0 and the second is the high byte, so 0 and 1 give the same bytes |
| ByteUtils.ShortBytes | sidewinder-core/src/main/java/com/srotya/sidewinder/core/utils/ByteUtils.java:56-61 | the evidently intended two big-endian bytes, which read back as the `short` |
| ByteUtils.AsciiBytes | sidewinder-core/src/main/java/com/srotya/sidewinder/core/utils/ByteUtils.java:67-73 | one byte per char, the low eight bits of its code |
| ByteUtils.StringToBytes | sidewinder-core/src/main/java/com/srotya/sidewinder/core/utils/ByteUtils.java:67-73 | the loop fills a fresh array as long as the string with those bytes |
| ByteUtils.AsciiString | sidewinder-core/src/main/java/com/srotya/sidewinder/core/utils/ByteUtils.java:86-88 | US-ASCII decoding keeps the length |
| ByteUtils.AsciiRoundTrip | sidewinder-core/src/main/java/com/srotya/sidewinder/core/utils/ByteUtils.java:67-88 | an ASCII string survives `stringToBytes` and then `byteAryToAscii` |
| ByteUtils.IntToHex | sidewinder-core/src/main/java/com/srotya/sidewinder/core/utils/ByteUtils.java:79-81 | every digit is an octal digit, and the digits denote the unsigned value in base 8 |
| ByteUtils.IntToHexIsOctal | sidewinder-core/src/main/java/com/srotya/sidewinder/core/utils/ByteUtils.java:79-81 | `intToHex(8)` is "10" where the hex is "8" |
| JavaString.HexRoundTrip | sidewinder-core/src/main/java/com/srotya/sidewinder/core/utils/ByteUtils.java:79-81 | the corrected `intToHex`, `Integer.toHexString`, parses back as the number |
| JavaString.Split | core/src/main/java/com/srotya/sidewinder/core/ingress/http/HTTPDataPointDecoder.java:112-131 | `String.split` on one character: no piece holds the separator, and a string without it is one piece |
| JavaString.SplitJoin | core/src/main/java/com/srotya/sidewinder/core/ingress/http/HTTPDataPointDecoder.java:112-131 | pieces free of the separator, the last non-empty, split back out of their join (trailing empty pieces are dropped) |
| JavaString.TrimSpec | core/src/main/java/com/srotya/sidewinder/core/storage/gorilla/MemStorageEngine.java:151-152 | `trim` is empty exactly for a string of blanks; otherwise it is the slice between the first and the last non-blank |
| JavaString.ParseLong | core/src/main/java/com/srotya/sidewinder/core/ingress/http/HTTPDataPointDecoder.java:121-139 | `Long.parseLong` fails only with `NumberFormatException`, and always on the empty string |
| JavaString.DecimalValue | core/src/main/java/com/srotya/sidewinder/core/ingress/http/HTTPDataPointDecoder.java:121-139 | `Character.digit(c, 10)`: a value in [-1, 10); on ASCII exactly `0`-`9` are digits, with their values |
| JavaString.HexValue | core/src/main/java/com/srotya/sidewinder/core/ingress/http/HTTPDataPointDecoder.java:121-139 | `Character.digit(c, 16)`: a value in [-1, 16); on ASCII exactly `0`-`9`, `a`-`f` and `A`-`F` are digits, with their values |
| JavaString.ParseLongDigits | core/src/main/java/com/srotya/sidewinder/core/ingress/http/HTTPDataPointDecoder.java:121-139 | a run of decimal digits parses to the number it denotes when that is at most `Long.MAX_VALUE` |
| JavaString.ParseLongNegated | core/src/main/java/com/srotya/sidewinder/core/ingress/http/HTTPDataPointDecoder.java:121-139 | a minus sign and a run of digits parse to minus that number, down to `Long.MIN_VALUE` |
| JavaString.ParseLongNonDigit | core/src/main/java/com/srotya/sidewinder/core/ingress/http/HTTPDataPointDecoder.java:121-139 | a character that is not a digit, other than a leading sign, makes the parse throw `NumberFormatException` |
| JavaString.ParseLongTooLarge | core/src/main/java/com/srotya/sidewinder/core/ingress/http/HTTPDataPointDecoder.java:121-139 | digits denoting more than `Long.MAX_VALUE` make the parse throw `NumberFormatException` |
| JavaString.ArabicIndicOne | core/src/main/java/com/srotya/sidewinder/core/ingress/http/HTTPDataPointDecoder.java:121-139 | digits of other scripts count: the Arabic-Indic one parses to 1 |
| LexOrder.Sort | core/src/main/java/com/srotya/sidewinder/core/storage/gorilla/MemStorageEngine.java:209 | `Collections.sort` of strings: a sorted permutation of its input |
| LexOrder.SortPermutationInvariant | sidewinder-core/src/main/java/com/srotya/sidewinder/core/storage/AbstractStorageEngine.java:47 | sorting forgets the input order |
| LexOrder.SortedKeysSpec | core/src/main/java/com/srotya/sidewinder/core/storage/gorilla/TimeSeries.java:72 | the keys of a sorted map, in `String` order without repeats, are exactly its key set |
| DataPoints.DoubleToLongBits | sidewinder-core/src/main/java/com/srotya/sidewinder/core/storage/DataPoint.java:45-50 | the stored bits equal the given bits except for NaN, which becomes the canonical NaN |
| DataPoints.DoubleToLongBitsIdempotent | sidewinder-core/src/main/java/com/srotya/sidewinder/core/storage/DataPoint.java:45-50 | the canonical NaN is a NaN, so converting twice is converting once |
| DataPoints.NamedDouble | sidewinder-core/src/main/java/com/srotya/sidewinder/core/storage/DataPoint.java:45-50 | the `double` constructor keeps the given bits exactly when they are not a non-canonical NaN, and leaves `isFp` false |
| GorillaReader.StartReadsHeader | sidewinder-core/src/main/java/com/srotya/sidewinder/gorillac/Reader.java:42-50 | construction reads exactly the 64-bit header as `blockTimestamp`, with no pair read and the stream not ended |
| GorillaReader.ExhaustedReadsNothing | sidewinder-core/src/main/java/com/srotya/sidewinder/gorillac/Reader.java:57-84 | once `pairCount` pairs are read, `readPair` returns `null`, reads no bits and only sets the end flag |
| GorillaReader.AdvanceCounts | sidewinder-core/src/main/java/com/srotya/sidewinder/gorillac/Reader.java:65-84 | each `next` before the count is reached counts one pair; the expected count never changes |
| GorillaReader.EndIsFinal | sidewinder-core/src/main/java/com/srotya/sidewinder/gorillac/Reader.java:57-84 | `next` never clears the end of the stream |
| GorillaReader.Nulls | sidewinder-core/src/main/java/com/srotya/sidewinder/gorillac/Reader.java:57-63 | k calls that all return `null` |
| GorillaReader.EndedStaysNull | sidewinder-core/src/main/java/com/srotya/sidewinder/gorillac/Reader.java:57-84 | once the stream has ended, every later `readPair` returns `null` |
| GorillaReader.ExhaustedStaysNull | sidewinder-core/src/main/java/com/srotya/sidewinder/gorillac/Reader.java:57-84 | with the count used up (in particular with `pairCount` 0), every call returns `null` |
| GorillaReader.FirstPair | sidewinder-core/src/main/java/com/srotya/sidewinder/gorillac/Reader.java:67-75 | the first pair is the header plus a 27-bit offset, followed by a raw 64-bit value |
| GorillaReader.ControlRoundTrip | sidewinder-core/src/main/java/com/srotya/sidewinder/gorillac/Reader.java:86-119 | `bitsToRead` consumes exactly the control prefix `0`, `10`, `110`, `1110` or `1111` and returns 0, 7, 9, 12 or 32 |
| GorillaReader.ControlThen | sidewinder-core/src/main/java/com/srotya/sidewinder/gorillac/Reader.java:86-126 | after the prefix, the field starts right where the prefix ends |
| GorillaReader.SignedFieldRoundTrip | sidewinder-core/src/main/java/com/srotya/sidewinder/gorillac/Reader.java:134-141 | the sign fix undoes the n-bit two's complement of a delta of delta in the field's range |
| GorillaReader.WideFieldRoundTrip | sidewinder-core/src/main/java/com/srotya/sidewinder/gorillac/Reader.java:126-141 | a 32-bit field gives back any `int` through its unsigned reading |
| GorillaReader.TimestampRepeats | sidewinder-core/src/main/java/com/srotya/sidewinder/gorillac/Reader.java:121-146 | control bit 0 repeats the last delta |
| GorillaReader.TimestampControl | sidewinder-core/src/main/java/com/srotya/sidewinder/gorillac/Reader.java:121-126 | `nextTimestamp` reads the prefix, then the field after it |
| GorillaReader.TimestampNarrow | sidewinder-core/src/main/java/com/srotya/sidewinder/gorillac/Reader.java:134-145 | a 7, 9 or 12-bit field is sign-fixed, narrowed to `int` and added to the delta, then the delta to the timestamp |
| GorillaReader.TimestampWide | sidewinder-core/src/main/java/com/srotya/sidewinder/gorillac/Reader.java:128-145 | a 32-bit field of all ones ends the stream and leaves delta and timestamp unchanged; any other is added as an `int` |
| GorillaReader.TimestampUpdate | sidewinder-core/src/main/java/com/srotya/sidewinder/gorillac/Reader.java:121-146 | a delta of delta that fits its 7, 9 or 12-bit field, written behind its prefix, is added back exactly |
| GorillaReader.TimestampUpdateWide | sidewinder-core/src/main/java/com/srotya/sidewinder/gorillac/Reader.java:121-146 | a 32-bit delta of delta other than -1 is added back exactly |
| GorillaReader.AllOnesEndsStream | sidewinder-core/src/main/java/com/srotya/sidewinder/gorillac/Reader.java:128-133 | the all-ones 32-bit field ends the stream; `readPair` returns `null` |
| GorillaReader.EndSurvivesValue | sidewinder-core/src/main/java/com/srotya/sidewinder/gorillac/Reader.java:57-79 | `nextValue` still runs after the end marker, but the pair is still `null` |
| GorillaReader.ValueRepeats | sidewinder-core/src/main/java/com/srotya/sidewinder/gorillac/Reader.java:148-151 | value control bit 0 keeps the previous value |
| GorillaReader.ValueRead | sidewinder-core/src/main/java/com/srotya/sidewinder/gorillac/Reader.java:162-165 | the `64 - leading - trailing` bits are shifted left by `trailing` and XORed into the previous value |
| GorillaReader.WindowLoad | sidewinder-core/src/main/java/com/srotya/sidewinder/gorillac/Reader.java:152-161 | a new window is a 5-bit leading count and a 6-bit significant count, with 0 standing for 64; trailing is the rest |
| GorillaReader.ValueSameWindow | sidewinder-core/src/main/java/com/srotya/sidewinder/gorillac/Reader.java:148-166 | control `10` reuses the stored window |
| GorillaReader.ValueNewWindow | sidewinder-core/src/main/java/com/srotya/sidewinder/gorillac/Reader.java:148-166 | control `11` loads the new window and XORs the bits it frames into the previous value |
| GorillaReader.BitInput.ReadBit | sidewinder-core/src/main/java/com/srotya/sidewinder/gorillac/Reader.java:91 | the bit at the cursor (0 past the end); the cursor moves one |
| GorillaReader.BitInput.GetLong | sidewinder-core/src/main/java/com/srotya/sidewinder/gorillac/Reader.java:48-50 | the next n bits, most significant first; the cursor moves n (0 for n <= 0) |
| GorillaReader.Reader.constructor | sidewinder-core/src/main/java/com/srotya/sidewinder/gorillac/Reader.java:42-46 | the fields start as declared and the header is read |
| GorillaReader.Reader.ReadHeader | sidewinder-core/src/main/java/com/srotya/sidewinder/gorillac/Reader.java:48-50 | reads 64 bits into `blockTimestamp` |
| GorillaReader.Reader.ReadPair | sidewinder-core/src/main/java/com/srotya/sidewinder/gorillac/Reader.java:57-63 | one `next`; returns the stored pair, or `null` once the stream has ended |
| GorillaReader.Reader.Next | sidewinder-core/src/main/java/com/srotya/sidewinder/gorillac/Reader.java:65-84 | the new state is `Advance` of the old one |
| GorillaReader.Reader.BitsToRead | sidewinder-core/src/main/java/com/srotya/sidewinder/gorillac/Reader.java:86-119 | the loop reads the prefix bit by bit; the result and the new cursor are those of `ControlWidth`/`ControlSize` |
| GorillaReader.Reader.NextTimestamp | sidewinder-core/src/main/java/com/srotya/sidewinder/gorillac/Reader.java:121-146 | the new state is `DecodeTimestamp` of the old one |
| GorillaReader.Reader.ReadDeltaOfDelta | sidewinder-core/src/main/java/com/srotya/sidewinder/gorillac/Reader.java:125-145 | the part after `bitsToRead` |
| GorillaReader.Reader.NextValue | sidewinder-core/src/main/java/com/srotya/sidewinder/gorillac/Reader.java:148-167 | the new state is `DecodeValue` of the old one |
| GorillaReader.Reader.ReadWindowCounts | sidewinder-core/src/main/java/com/srotya/sidewinder/gorillac/Reader.java:152-161 | loads the window |
| GorillaReader.Reader.ReadValueBits | sidewinder-core/src/main/java/com/srotya/sidewinder/gorillac/Reader.java:162-165 | the shift and the XOR |
| GorillaWriter.NewEncoder | sidewinder-core/src/main/java/com/srotya/sidewinder/gorillac/Reader.java:42-50 | a new compressor has written only the header, which the reader takes as `blockTimestamp` |
| GorillaWriter.WriteFirst | sidewinder-core/src/main/java/com/srotya/sidewinder/gorillac/Reader.java:67-75 | the first pair is written as a 27-bit offset from the header and a raw value, extending the output |
| GorillaWriter.FieldWidth | sidewinder-core/src/main/java/com/srotya/sidewinder/gorillac/Reader.java:86-139 | picks the narrowest field the reader's control prefixes offer: none for 0, else 7, 9 or 12 bits when the value fits, else 32 |
| GorillaWriter.CompressTimestamp | sidewinder-core/src/main/java/com/srotya/sidewinder/gorillac/Reader.java:121-146 | a later timestamp extends the output and records the new delta |
| GorillaWriter.LeadingZeros | sidewinder-core/src/main/java/com/srotya/sidewinder/gorillac/Reader.java:152-160 | `Long.numberOfLeadingZeros` plus the bit length is 64 |
| GorillaWriter.LeadingCount | sidewinder-core/src/main/java/com/srotya/sidewinder/gorillac/Reader.java:154 | the stored leading count is at most 31, so it fits the reader's 5-bit field |
| GorillaWriter.CompressValue | sidewinder-core/src/main/java/com/srotya/sidewinder/gorillac/Reader.java:148-167 | a later value extends the output and becomes the stored value |
| GorillaWriter.AddValue | sidewinder-core/src/main/java/com/srotya/sidewinder/gorillac/Reader.java:65-79 | one `addValue` extends the output and records the pair's timestamp, value and delta |
| GorillaWriter.Encode | sidewinder-core/src/main/java/com/srotya/sidewinder/gorillac/Reader.java:65-84 | appending pairs in order only extends the output |
| GorillaWriter.EncodeSnoc | sidewinder-core/src/main/java/com/srotya/sidewinder/gorillac/Reader.java:65-84 | encoding one more pair is one more `addValue` |
| GorillaWriter.Found | sidewinder-core/src/main/java/com/srotya/sidewinder/gorillac/Reader.java:57-63 | the pairs as `readPair` returns them |
| GorillaWriter.RoundTripFrom | sidewinder-core/src/main/java/com/srotya/sidewinder/gorillac/Reader.java:57-167 | from any state where the reader keeps up with the writer, the remaining pairs are read back in order, then `null` |
| GorillaWriter.WindowEncodable | sidewinder-core/src/main/java/com/srotya/sidewinder/gorillac/Reader.java:121-146 | every sequence of non-decreasing timestamps within 2^27 of the header can be encoded, whatever the values |
| GorillaWriter.FreshEncodable | sidewinder-core/src/main/java/com/srotya/sidewinder/gorillac/Reader.java:42-84 | the same for a fresh compressor |
| GorillaWriter.EncodeDecode | sidewinder-core/src/main/java/com/srotya/sidewinder/gorillac/Reader.java:42-167 | a reader told how many pairs were written reads exactly those pairs in order, then only `null`, whatever follows in the buffer |
| Buckets.Filter | core/src/main/java/com/srotya/sidewinder/core/storage/gorilla/TimeSeriesBucket.java:69-78 | a decoded pair yields a point exactly when both predicates (either may be `null`) accept it |
| Buckets.Collect | core/src/main/java/com/srotya/sidewinder/core/storage/gorilla/TimeSeries.java:124-140 | the non-null reads in order, each stamped with the series' kind, through both predicates |
| Buckets.ReadStepDrain | core/src/main/java/com/srotya/sidewinder/core/storage/gorilla/TimeSeries.java:128-138 | an `IOException` ends the loop; otherwise a read is kept if it is a point and the loop goes on |
| Buckets.SelectAll | core/src/main/java/com/srotya/sidewinder/core/storage/gorilla/TimeSeries.java:124-140 | with no predicates, nothing is dropped and the order is kept |
| Buckets.CollectFound | core/src/main/java/com/srotya/sidewinder/core/storage/gorilla/TimeSeries.java:124-140 | collecting the decoded pairs keeps those the predicates accept |
| Buckets.ReaderReturnsAppended | core/src/main/java/com/srotya/sidewinder/core/storage/gorilla/TimeSeriesBucket.java:69-78 | a reader over what the compressor wrote, told the count, yields the appended points in append order through the predicates |
| Buckets.AdmittedOrdered | core/src/main/java/com/srotya/sidewinder/core/storage/gorilla/TimeSeriesBucket.java:45-67 | what the `lastTs` check admits is never negative and never decreasing |
| Buckets.TimeSeriesBucket.constructor | core/src/main/java/com/srotya/sidewinder/core/storage/gorilla/TimeSeriesBucket.java:40-43 | the header goes to the writer; nothing is appended |
| Buckets.TimeSeriesBucket.AddDataPoint | core/src/main/java/com/srotya/sidewinder/core/storage/gorilla/TimeSeriesBucket.java:45-67 | a timestamp older than `lastTs` throws `RejectException` and changes nothing; any other is encoded, counted and becomes `lastTs` |
| Buckets.TimeSeriesBucket.GetReader | core/src/main/java/com/srotya/sidewinder/core/storage/gorilla/TimeSeriesBucket.java:69-78 | a reader over a snapshot of the bits and of the count taken now |
| Buckets.TimeSeriesBucket.GetCount | core/src/main/java/com/srotya/sidewinder/core/storage/gorilla/TimeSeriesBucket.java:94-96 | the number of appended points |
| Buckets.AppendKeepsValid | core/src/main/java/com/srotya/sidewinder/core/storage/gorilla/TimeSeriesBucket.java:45-67 | an accepted append keeps writer, count and last timestamp in step with the appended pairs |
| Buckets.BucketRoundTrip | core/src/main/java/com/srotya/sidewinder/core/storage/gorilla/TimeSeriesBucket.java:45-78 | a valid bucket's snapshot, read to the end, yields every appended point in append order |
| Buckets.BucketReader.constructor | core/src/main/java/com/srotya/sidewinder/core/storage/gorilla/TimeSeriesBucket.java:77 | the reader's bits, count and predicates are fixed |
| Buckets.BucketReader.ReadPair | core/src/main/java/com/srotya/sidewinder/core/storage/gorilla/TimeSeries.java:130-136 | the next pair through the predicates, or `IOException` with nothing consumed once the count is used up |
| Series.ReadAll | core/src/main/java/com/srotya/sidewinder/core/storage/gorilla/TimeSeries.java:79-81 | every point read from the listed buckets has the series' kind and passes both predicates |
| Series.KeyRange | core/src/main/java/com/srotya/sidewinder/core/storage/gorilla/TimeSeries.java:72 | the keys of `subMap(from, to)`: from inclusive, to exclusive, in the order of `LexOrder.Less` |
| Series.BucketKey | core/src/main/java/com/srotya/sidewinder/core/storage/gorilla/TimeSeries.java:87-88 | the hex of the time bucket; fails exactly for an unknown unit |
| Series.EndKey | core/src/main/java/com/srotya/sidewinder/core/storage/gorilla/TimeSeries.java:70-72 | every key that extends the end bucket's hex sorts below the end key |
| Series.QuerySymmetric | core/src/main/java/com/srotya/sidewinder/core/storage/gorilla/TimeSeries.java:59-64 | a reversed range gives the same answer |
| Series.QueryBounds | core/src/main/java/com/srotya/sidewinder/core/storage/gorilla/TimeSeries.java:58-84 | every point returned lies between the bounds (both included), passes the value predicate and has the series' kind; `Series.QueryFindsStored` is the other direction |
| Series.ReadAllHas | core/src/main/java/com/srotya/sidewinder/core/storage/gorilla/TimeSeries.java:79-81 | reading the scanned buckets in turn keeps every point each bucket yields |
| Series.QueryFinds | core/src/main/java/com/srotya/sidewinder/core/storage/gorilla/TimeSeries.java:72-82 | when the start key is not above the end key, a bucket whose key lies in the scanned range is read: the query succeeds and returns every point that bucket yields through the predicates |
| Series.HexKeyOrder | core/src/main/java/com/srotya/sidewinder/core/storage/gorilla/TimeSeries.java:69-72 | for bucket ids of eight hex digits, `Integer.toHexString` keys compare as `String`s in the order of the ids |
| Series.MillisIdOrder | core/src/main/java/com/srotya/sidewinder/core/storage/gorilla/TimeSeries.java:67-70 | a later millisecond timestamp (seconds within `int`) never has an earlier bucket id, and the id is the seconds floored to a multiple of 4096 |
| Series.EightDigitId | core/src/main/java/com/srotya/sidewinder/core/storage/gorilla/TimeSeries.java:67-69 | a timestamp from July 1978 on has a bucket id of at least 0x10001000, so the start id one width below it still has eight hex digits |
| Series.StartBelow | core/src/main/java/com/srotya/sidewinder/core/storage/gorilla/TimeSeries.java:67-69 | the start key sorts below the key of any bucket at or after the start time |
| Series.BelowEnd | core/src/main/java/com/srotya/sidewinder/core/storage/gorilla/TimeSeries.java:70-72 | the key of any bucket at or before the end time sorts below the end key plus `Character.MAX_VALUE` |
| Series.KeyInRange | core/src/main/java/com/srotya/sidewinder/core/storage/gorilla/TimeSeries.java:67-72 | between two eight-digit bounds, the start key is not above the end key and the key of every timestamp in between lies in the scanned range |
| Series.MillisIdIs | core/src/main/java/com/srotya/sidewinder/core/storage/gorilla/TimeSeries.java:87 | the bucket id of a millisecond timestamp with seconds in `int` is the seconds floored to a multiple of 4096 |
| Series.AddedMillis | core/src/main/java/com/srotya/sidewinder/core/storage/gorilla/TimeSeries.java:86-95 | a millisecond write puts the point's bucket back under its hex key, with its header (the point's timestamp for a new bucket) and its pairs with the point appended unless it is older |
| Series.AddedStateRouted | core/src/main/java/com/srotya/sidewinder/core/storage/gorilla/TimeSeries.java:86-95 | millisecond writes keep every bucket routed: its header and every pair it holds have the bucket's key, none is before the header, and the pairs are the ones the bucket admitted |
| Series.RoutedPut | core/src/main/java/com/srotya/sidewinder/core/storage/gorilla/TimeSeries.java:89-94 | putting a routed bucket under its key, with its existing header, keeps the series routed |
| Series.AppendRouted | core/src/main/java/com/srotya/sidewinder/core/storage/gorilla/TimeSeries.java:89-94 | appending an admitted pair of the bucket's key to a routed bucket, or starting a bucket with it, gives a routed bucket |
| Series.RoutedInSpan | core/src/main/java/com/srotya/sidewinder/core/storage/gorilla/TimeSeries.java:87-94 | every pair of a routed bucket is within 2^27 of its header, so the 27-bit first offset can carry it |
| Series.SelectedHas | core/src/main/java/com/srotya/sidewinder/core/storage/gorilla/TimeSeries.java:124-140 | every pair that both predicates accept is among the points read, with the series' kind |
| Series.PairRead | core/src/main/java/com/srotya/sidewinder/core/storage/gorilla/TimeSeries.java:124-140 | a reader of a routed bucket with fewer than 2^31 pairs yields every pair the predicates accept |
| Series.QueryFindsStored | core/src/main/java/com/srotya/sidewinder/core/storage/gorilla/TimeSeries.java:58-84 | the other direction of `QueryBounds`: for a series written in milliseconds and two bounds from July 1978 to January 2038, every stored pair between the bounds (either way round) whose value passes the predicate is returned, with the series' kind |
| Series.FirstBucketQueryThrows | core/src/main/java/com/srotya/sidewinder/core/storage/gorilla/TimeSeries.java:67-72 | a query within the first 4096 seconds of the epoch throws `IllegalArgumentException`, because the start key `fffff000` sorts after the end key |
| Series.FirstBucketKeys | core/src/main/java/com/srotya/sidewinder/core/storage/gorilla/TimeSeries.java:67-72 | the first bucket's start and end keys |
| Series.HexBelowZero | core/src/main/java/com/srotya/sidewinder/core/storage/gorilla/TimeSeries.java:67-69 | the hex of -4096 starts with `f` |
| Series.FallbackFindsNothing | core/src/main/java/com/srotya/sidewinder/core/storage/gorilla/TimeSeries.java:73-77 | when the key range is empty, no bucket sits under the start key, so the fallback reads nothing |
| Series.SeriesToDataPoints | core/src/main/java/com/srotya/sidewinder/core/storage/gorilla/TimeSeries.java:124-140 | appends what a reader of the bucket yields until `IOException` |
| Series.AddedSpec | core/src/main/java/com/srotya/sidewinder/core/storage/gorilla/TimeSeries.java:86-106 | an unknown unit changes nothing; otherwise only the point's bucket is touched, and the point is appended unless it is older than that bucket's last point |
| Series.AddedCases | core/src/main/java/com/srotya/sidewinder/core/storage/gorilla/TimeSeries.java:86-106 | the cases of a write once the unit converts |
| Series.SnapsOf | core/src/main/java/com/srotya/sidewinder/core/storage/gorilla/TimeSeries.java:69-78 | there is one reader view for every bucket key |
| Series.Headers | core/src/main/java/com/srotya/sidewinder/core/storage/gorilla/TimeSeries.java:91 | each bucket's header |
| Series.HeadersPut | core/src/main/java/com/srotya/sidewinder/core/storage/gorilla/TimeSeries.java:92 | putting a bucket records its header |
| Series.AddedStateHeaded | core/src/main/java/com/srotya/sidewinder/core/storage/gorilla/TimeSeries.java:86-106 | a write keeps every key headed, never moves a header and never changes the kind |
| Series.QueryState | core/src/main/java/com/srotya/sidewinder/core/storage/gorilla/TimeSeries.java:58-84 | the query steps on a series held as a value |
| Series.TimeSeries.constructor | core/src/main/java/com/srotya/sidewinder/core/storage/gorilla/TimeSeries.java:53-56 | the kind is fixed and no buckets exist |
| Series.TimeSeries.SnapsAgree | core/src/main/java/com/srotya/sidewinder/core/storage/gorilla/TimeSeries.java:50 | readers see what the series' value says |
| Series.TimeSeries.AddedAgrees | core/src/main/java/com/srotya/sidewinder/core/storage/gorilla/TimeSeries.java:86-106 | `AddDataPoint` does to the series what `AddedState` says |
| Series.TimeSeries.IsFp | core/src/main/java/com/srotya/sidewinder/core/storage/gorilla/TimeSeries.java:152-154 | the kind |
| Series.TimeSeries.OrderBounds | core/src/main/java/com/srotya/sidewinder/core/storage/gorilla/TimeSeries.java:59-66 | the three-XOR swap gives the ordered predicate |
| Series.TimeSeries.ReadBuckets | core/src/main/java/com/srotya/sidewinder/core/storage/gorilla/TimeSeries.java:79-81 | the listed buckets read in turn |
| Series.TimeSeries.ScanBuckets | core/src/main/java/com/srotya/sidewinder/core/storage/gorilla/TimeSeries.java:72-82 | the range, else the fallback |
| Series.TimeSeries.QueryDataPoints | core/src/main/java/com/srotya/sidewinder/core/storage/gorilla/TimeSeries.java:58-84 | the result of `Query` on what the buckets' readers see |
| Series.TimeSeries.AddDataPoint | core/src/main/java/com/srotya/sidewinder/core/storage/gorilla/TimeSeries.java:86-106 | the pairs change as `Added` says, a missing bucket is created with the timestamp as header, and the other buckets stay put |
| Series.TimeSeries.AppendTo | core/src/main/java/com/srotya/sidewinder/core/storage/gorilla/TimeSeries.java:94-105 | the bucket's own append, reflected in the series' contents |
| Series.TimeSeries.GetOrCreate | core/src/main/java/com/srotya/sidewinder/core/storage/gorilla/TimeSeries.java:89-93 | the bucket under the key, created and put when missing |
| MemEngine.Tokens | core/src/main/java/com/srotya/sidewinder/core/storage/gorilla/MemStorageEngine.java:190-197 | one token for each tag, in order |
| MemEngine.TokenChars | core/src/main/java/com/srotya/sidewinder/core/storage/gorilla/MemStorageEngine.java:82-89 | a token is non-empty and contains neither `_` nor `#` |
| MemEngine.EncodedNoField | core/src/main/java/com/srotya/sidewinder/core/storage/gorilla/MemStorageEngine.java:190-197 | an encoded tag string contains no `#` |
| MemEngine.EncodedAsJoin | core/src/main/java/com/srotya/sidewinder/core/storage/gorilla/MemStorageEngine.java:190-197 | the encoded string is the tokens, each followed by `_` |
| MemEngine.SplitEncoded | core/src/main/java/com/srotya/sidewinder/core/storage/gorilla/MemStorageEngine.java:190-201 | splitting on `_` gives the tokens back; with no tags it gives one empty piece |
| MemEngine.RegisterSpec | core/src/main/java/com/srotya/sidewinder/core/storage/gorilla/MemStorageEngine.java:190-197 | after encoding, every tag's hash is mapped, the first tag under a hash keeps it, and earlier entries stay |
| MemEngine.Lookup | core/src/main/java/com/srotya/sidewinder/core/storage/gorilla/MemStorageEngine.java:91-93 | a token that is the hex of a hash finds what is stored under that hash; a token that does not parse throws `NumberFormatException` |
| MemEngine.HexFacts | core/src/main/java/com/srotya/sidewinder/core/storage/gorilla/MemStorageEngine.java:88-92 | `parseUnsignedInt(toHexString(h), 16) == h` |
| MemEngine.DecodeTags | core/src/main/java/com/srotya/sidewinder/core/storage/gorilla/MemStorageEngine.java:199-205 | one entry per piece |
| MemEngine.DecodeFailsFrom | core/src/main/java/com/srotya/sidewinder/core/storage/gorilla/MemStorageEngine.java:199-205 | a failing piece is the failure of the whole decode |
| MemEngine.Somes | core/src/main/java/com/srotya/sidewinder/core/storage/gorilla/MemStorageEngine.java:199-205 | the tags as found entries |
| MemEngine.DecodeTokens | core/src/main/java/com/srotya/sidewinder/core/storage/gorilla/MemStorageEngine.java:199-205 | tokens whose tags are registered decode to those tags |
| MemEngine.DecodeEncoded | core/src/main/java/com/srotya/sidewinder/core/storage/gorilla/MemStorageEngine.java:190-205 | with the tags registered, `decodeStringToTags(encodeTagsToString(tags))` is `tags` |
| MemEngine.DecodeUntagged | core/src/main/java/com/srotya/sidewinder/core/storage/gorilla/MemStorageEngine.java:199-205 | with no tags the single empty piece throws `NumberFormatException` |
| MemEngine.TagStringJoin | core/src/main/java/com/srotya/sidewinder/core/storage/gorilla/MemStorageEngine.java:139-146 | `tagToString` is `/` followed by the tags joined by `/` |
| MemEngine.TagStringSplit | core/src/main/java/com/srotya/sidewinder/core/storage/gorilla/MemStorageEngine.java:139-146 | that string splits back into the tags |
| MemEngine.TagToString | core/src/main/java/com/srotya/sidewinder/core/storage/gorilla/MemStorageEngine.java:139-146 | the loop builds the tag string |
| MemEngine.MemTagLookupTable.constructor | core/src/main/java/com/srotya/sidewinder/core/storage/gorilla/MemStorageEngine.java:78-80 | an empty table |
| MemEngine.MemTagLookupTable.CreateEntry | core/src/main/java/com/srotya/sidewinder/core/storage/gorilla/MemStorageEngine.java:82-89 | stores the tag under its hash unless one is there; returns the hex of the hash, which finds what is stored under it |
| MemEngine.MemTagLookupTable.GetEntry | core/src/main/java/com/srotya/sidewinder/core/storage/gorilla/MemStorageEngine.java:91-93 | the lookup of a hex token |
| MemEngine.EncodeTagsToString | core/src/main/java/com/srotya/sidewinder/core/storage/gorilla/MemStorageEngine.java:190-197 | the tokens each followed by `_`, with the table extended by `Register` |
| MemEngine.DecodeStringToTags | core/src/main/java/com/srotya/sidewinder/core/storage/gorilla/MemStorageEngine.java:199-205 | decodes the pieces between `_` |
| MemEngine.RowKeyPermutation | core/src/main/java/com/srotya/sidewinder/core/storage/gorilla/MemStorageEngine.java:209-218 | the row key does not depend on the caller's tag order |
| MemEngine.RowKeySplit | core/src/main/java/com/srotya/sidewinder/core/storage/gorilla/MemStorageEngine.java:209-218 | an untagged row key does not split into two by `#`; a tagged one splits into the field and the encoded tags |
| MemEngine.ResultMap | core/src/main/java/com/srotya/sidewinder/core/storage/gorilla/MemStorageEngine.java:114-129 | every reported series has at least one point |
| MemEngine.ResultMapStep | core/src/main/java/com/srotya/sidewinder/core/storage/gorilla/MemStorageEngine.java:114-129 | one more row key adds that entry's answer |
| MemEngine.CollectFailsFrom | core/src/main/java/com/srotya/sidewinder/core/storage/gorilla/MemStorageEngine.java:114-129 | a failing entry ends the query with its exception |
| MemEngine.UntaggedSkipped | core/src/main/java/com/srotya/sidewinder/core/storage/gorilla/MemStorageEngine.java:116-121 | a series written without tags is skipped |
| MemEngine.TaggedReported | core/src/main/java/com/srotya/sidewinder/core/storage/gorilla/MemStorageEngine.java:122-128 | a tagged series with points is reported under measurement, `-`, field and `tagToString` of its tags |
| MemEngine.MeasurementsLike | core/src/main/java/com/srotya/sidewinder/core/storage/gorilla/MemStorageEngine.java:149-163 | the measurements containing the trimmed pattern; all of them for a blank pattern |
| MemEngine.Put3Spec | core/src/main/java/com/srotya/sidewinder/core/storage/gorilla/MemStorageEngine.java:220-243 | get-or-create of a nested map touches only its own path |
| MemEngine.Put3Same | core/src/main/java/com/srotya/sidewinder/core/storage/gorilla/MemStorageEngine.java:237-243 | putting back what is there changes nothing |
| MemEngine.Put3Twice | core/src/main/java/com/srotya/sidewinder/core/storage/gorilla/MemStorageEngine.java:237-243 | the second put wins |
| MemEngine.NewSeries | core/src/main/java/com/srotya/sidewinder/core/storage/gorilla/MemStorageEngine.java:239 | `new TimeSeries(fp)` has the kind and no buckets |
| MemEngine.WrittenSpec | core/src/main/java/com/srotya/sidewinder/core/storage/gorilla/MemStorageEngine.java:166-188 | a write touches only its own series, which then exists with the kind it was created with; a point of the other kind is refused with no change under the kind check, and any other goes through `addDataPoint` |
| MemEngine.WrittenHeaded | core/src/main/java/com/srotya/sidewinder/core/storage/gorilla/MemStorageEngine.java:166-188 | writes keep every series headed |
| MemEngine.Answers | core/src/main/java/com/srotya/sidewinder/core/storage/gorilla/MemStorageEngine.java:124-125 | each series' answer |
| MemEngine.EntryBounds | core/src/main/java/com/srotya/sidewinder/core/storage/gorilla/MemStorageEngine.java:124-128 | an entry keeps every reported point in range |
| MemEngine.CollectBounds | core/src/main/java/com/srotya/sidewinder/core/storage/gorilla/MemStorageEngine.java:107-137 | every point a query reports lies in the time range (either way round) and passes the value predicate; `MemEngine.QueriedFinds` is the other direction |
| MemEngine.EntryPuts | core/src/main/java/com/srotya/sidewinder/core/storage/gorilla/MemStorageEngine.java:116-128 | a row key with a two-part name whose tags decode puts a non-empty answer under `measurement-field/tags` |
| MemEngine.EntryKeeps | core/src/main/java/com/srotya/sidewinder/core/storage/gorilla/MemStorageEngine.java:126-128 | an entry under another name leaves a name's points as they were |
| MemEngine.ResultMapHas | core/src/main/java/com/srotya/sidewinder/core/storage/gorilla/MemStorageEngine.java:114-129 | a row key's points are reported under its name unless a later row key claims that name for another series |
| MemEngine.QueriedHas | core/src/main/java/com/srotya/sidewinder/core/storage/gorilla/MemStorageEngine.java:107-137 | a point in the answer of a series whose name no other row key shares is reported under that name |
| MemEngine.AnswerHas | core/src/main/java/com/srotya/sidewinder/core/storage/gorilla/MemStorageEngine.java:124-125 | for a series written in milliseconds and eight-digit bounds, a stored pair in range whose value passes the predicate is in the series' answer |
| MemEngine.QueriedFinds | core/src/main/java/com/srotya/sidewinder/core/storage/gorilla/MemStorageEngine.java:107-137 | the other direction of `CollectBounds`: when the query succeeds, a stored pair between the bounds whose value passes the predicate is reported under its series' name, for a series written in milliseconds whose name no other row key shares |
| MemEngine.WrittenRouted | core/src/main/java/com/srotya/sidewinder/core/storage/gorilla/MemStorageEngine.java:166-188 | millisecond writes keep every series routed, whether the point is appended or refused |
| MemEngine.TableAdded | core/src/main/java/com/srotya/sidewinder/core/storage/gorilla/MemStorageEngine.java:246-259 | a new tag table filed under its measurement keeps the table invariant |
| MemEngine.MemStorageEngine.constructor | core/src/main/java/com/srotya/sidewinder/core/storage/gorilla/MemStorageEngine.java:98-104 | no databases, no tables |
| MemEngine.MemStorageEngine.GetOrCreateTagTable | core/src/main/java/com/srotya/sidewinder/core/storage/gorilla/MemStorageEngine.java:246-259 | the table of the measurement, created when missing; other tables are unchanged |
| MemEngine.MemStorageEngine.GetOrCreateSeries | core/src/main/java/com/srotya/sidewinder/core/storage/gorilla/MemStorageEngine.java:220-243 | the series under its path, created with kind `fp` when missing |
| MemEngine.MemStorageEngine.GetOrCreateTimeSeries | core/src/main/java/com/srotya/sidewinder/core/storage/gorilla/MemStorageEngine.java:207-244 | sorts the tags, registers them, returns the row key and ensures the series exists |
| MemEngine.MemStorageEngine.AddToSeries | core/src/main/java/com/srotya/sidewinder/core/storage/gorilla/MemStorageEngine.java:174-176 | `addDataPoint` on the series under the path |
| MemEngine.MemStorageEngine.WriteDataPoint | core/src/main/java/com/srotya/sidewinder/core/storage/gorilla/MemStorageEngine.java:166-179 | `Written` with the kind check and milliseconds; `null` tags throw `NullPointerException` |
| MemEngine.MemStorageEngine.WriteSeries | core/src/main/java/com/srotya/sidewinder/core/storage/gorilla/MemStorageEngine.java:182-188 | `Written` without the kind check; `null` tags throw |
| MemEngine.MemStorageEngine.QueryDataPoints | core/src/main/java/com/srotya/sidewinder/core/storage/gorilla/MemStorageEngine.java:107-137 | an unknown database or measurement throws `ItemNotFoundException` with the source's message; otherwise the result map of the measurement's series |
| MemEngine.MemStorageEngine.QuerySeries | core/src/main/java/com/srotya/sidewinder/core/storage/gorilla/MemStorageEngine.java:114-129 | the entries in row key order |
| MemEngine.MemStorageEngine.CollectEntries | core/src/main/java/com/srotya/sidewinder/core/storage/gorilla/MemStorageEngine.java:114-129 | the loop over the row keys |
| MemEngine.MemStorageEngine.EntryOf | core/src/main/java/com/srotya/sidewinder/core/storage/gorilla/MemStorageEngine.java:115-128 | one entry |
| MemEngine.MemStorageEngine.GetMeasurementsLike | core/src/main/java/com/srotya/sidewinder/core/storage/gorilla/MemStorageEngine.java:149-163 | an unknown database throws `NullPointerException`; otherwise the matching measurements |
| MemEngine.MemStorageEngine.GetDatabases | core/src/main/java/com/srotya/sidewinder/core/storage/gorilla/MemStorageEngine.java:271-273 | exactly the databases |
| MemEngine.MemStorageEngine.GetAllMeasurementsForDb | core/src/main/java/com/srotya/sidewinder/core/storage/gorilla/MemStorageEngine.java:276-278 | an unknown database throws `NullPointerException`; otherwise its measurements |
| MemEngine.MemStorageEngine.CheckIfExists | core/src/main/java/com/srotya/sidewinder/core/storage/gorilla/MemStorageEngine.java:287-289 | true exactly for an existing database |
| MemEngine.MemStorageEngine.CheckIfMeasurementExists | core/src/main/java/com/srotya/sidewinder/core/storage/gorilla/MemStorageEngine.java:321-327 | true exactly when database and measurement exist |
| MemEngine.MemStorageEngine.DeleteAllData | core/src/main/java/com/srotya/sidewinder/core/storage/gorilla/MemStorageEngine.java:281-284 | no databases remain |
| MemEngine.MemStorageEngine.DropDatabase | core/src/main/java/com/srotya/sidewinder/core/storage/gorilla/MemStorageEngine.java:292-294 | only that database goes |
| MemEngine.MemStorageEngine.DropMeasurement | core/src/main/java/com/srotya/sidewinder/core/storage/gorilla/MemStorageEngine.java:297-299 | an unknown database throws `NullPointerException`; otherwise only that measurement goes |
| GorillaEngine.FoundCounts | sidewinder-core/src/main/java/com/srotya/sidewinder/gorillac/Reader.java:57-84 | a `readPair` that finds a pair uses up one of the snapshot's pairs |
| GorillaEngine.NextInRange | core/src/main/java/com/srotya/sidewinder/core/storage/GorillaStorageEngine.java:281-285 | the range `readPair` returns only pairs in the range, each using up snapshot pairs |
| GorillaEngine.RangeRead | core/src/main/java/com/srotya/sidewinder/core/storage/GorillaStorageEngine.java:280-286 | every point gathered lies in the range |
| GorillaEngine.RangeReadFound | core/src/main/java/com/srotya/sidewinder/core/storage/GorillaStorageEngine.java:280-286 | the range reads keep exactly the pairs in range, in order |
| GorillaEngine.NewHolds | core/src/main/java/com/srotya/sidewinder/core/storage/GorillaStorageEngine.java:183-187 | a new series holds nothing and has its kind |
| GorillaEngine.AppendedHolds | core/src/main/java/com/srotya/sidewinder/core/storage/GorillaStorageEngine.java:189-201 | each `addDatapoint` appends one pair, counts it and keeps the kind |
| GorillaEngine.ReadsBack | core/src/main/java/com/srotya/sidewinder/core/storage/GorillaStorageEngine.java:280-286 | a series of in-window pairs reads back exactly those in the range, in append order |
| GorillaEngine.DecodesWritten | core/src/main/java/com/srotya/sidewinder/core/storage/GorillaStorageEngine.java:203-212 | the reader, told the count, reads back the pairs written |
| GorillaEngine.NewReader | core/src/main/java/com/srotya/sidewinder/core/storage/GorillaStorageEngine.java:203-212 | a fresh reader over the bits and the count |
| GorillaEngine.ReadPairIn | core/src/main/java/com/srotya/sidewinder/core/storage/GorillaStorageEngine.java:283 | the range `readPair` as a loop |
| GorillaEngine.SeriesToDataPoints | core/src/main/java/com/srotya/sidewinder/core/storage/GorillaStorageEngine.java:280-286 | appends the range reads |
| GorillaEngine.TimeSeries.constructor | core/src/main/java/com/srotya/sidewinder/core/storage/GorillaStorageEngine.java:183-187 | the header written, count 0 |
| GorillaEngine.TimeSeries.AddDatapoint | core/src/main/java/com/srotya/sidewinder/core/storage/GorillaStorageEngine.java:189-201 | one `addValue`, then `count++` |
| GorillaEngine.TimeSeries.GetReader | core/src/main/java/com/srotya/sidewinder/core/storage/GorillaStorageEngine.java:203-212 | a reader over the bits and the count taken now |
| GorillaEngine.WroteFrame | core/src/main/java/com/srotya/sidewinder/core/storage/GorillaStorageEngine.java:101-134 | an unknown unit changes nothing; otherwise only the bucket's series is touched, and the other kind is refused under the kind check |
| GorillaEngine.WroteSeries | core/src/main/java/com/srotya/sidewinder/core/storage/GorillaStorageEngine.java:78-142 | an existing series keeps its kind and gets the pair; a new one holds the pair alone under its timestamp as header |
| GorillaEngine.ReadKeys | core/src/main/java/com/srotya/sidewinder/core/storage/GorillaStorageEngine.java:266-268 | every point read lies in the range and is not floating point |
| GorillaEngine.QueryBounds | core/src/main/java/com/srotya/sidewinder/core/storage/GorillaStorageEngine.java:241-278 | every point returned lies in the range unless the start is negative, and none is floating point |
| GorillaEngine.FallbackFindsNothing | core/src/main/java/com/srotya/sidewinder/core/storage/GorillaStorageEngine.java:260-264 | the fallback finds no series |
| GorillaEngine.WriteAndQueryDisagree | core/src/main/java/com/srotya/sidewinder/core/storage/GorillaStorageEngine.java:78-91 | `writeDataPoint` files a point under its timestamp read as nanoseconds, so a millisecond query at the same timestamp finds nothing |
| GorillaEngine.GorillaStorageEngine.constructor | core/src/main/java/com/srotya/sidewinder/core/storage/GorillaStorageEngine.java:53-58 | no databases |
| GorillaEngine.GorillaStorageEngine.GetMeasurementsLike | core/src/main/java/com/srotya/sidewinder/core/storage/GorillaStorageEngine.java:61-75 | an unknown database throws `NullPointerException`; otherwise the matching measurements |
| GorillaEngine.GorillaStorageEngine.GetOrCreateTimeSeries | core/src/main/java/com/srotya/sidewinder/core/storage/GorillaStorageEngine.java:101-134 | an unknown unit throws and changes nothing; otherwise the series under the bucket's hex, created when missing |
| GorillaEngine.GorillaStorageEngine.AddToSeries | core/src/main/java/com/srotya/sidewinder/core/storage/GorillaStorageEngine.java:86-88 | `addDatapoint` on the series |
| GorillaEngine.GorillaStorageEngine.WriteDataPoint | core/src/main/java/com/srotya/sidewinder/core/storage/GorillaStorageEngine.java:78-91 | `Wrote` with nanoseconds and the kind check |
| GorillaEngine.GorillaStorageEngine.WriteSeries | core/src/main/java/com/srotya/sidewinder/core/storage/GorillaStorageEngine.java:94-142 | `Wrote` without the kind check |
| GorillaEngine.GorillaStorageEngine.QueryDataPoints | core/src/main/java/com/srotya/sidewinder/core/storage/GorillaStorageEngine.java:241-278 | the query of the stored series |
| GorillaEngine.GorillaStorageEngine.QuerySeries | core/src/main/java/com/srotya/sidewinder/core/storage/GorillaStorageEngine.java:249-270 | a negative start reads every series whole; otherwise the key range |
| GorillaEngine.GorillaStorageEngine.QueryRange | core/src/main/java/com/srotya/sidewinder/core/storage/GorillaStorageEngine.java:254-269 | the key range, else the fallback |
| GorillaEngine.GorillaStorageEngine.ReadSeries | core/src/main/java/com/srotya/sidewinder/core/storage/GorillaStorageEngine.java:266-268 | the series in key order |
| GorillaEngine.GorillaStorageEngine.GetDatabases | core/src/main/java/com/srotya/sidewinder/core/storage/GorillaStorageEngine.java:145-147 | exactly the databases |
| GorillaEngine.GorillaStorageEngine.GetAllMeasurementsForDb | core/src/main/java/com/srotya/sidewinder/core/storage/GorillaStorageEngine.java:150-152 | an unknown database throws `NullPointerException` |
| GorillaEngine.GorillaStorageEngine.DeleteAllData | core/src/main/java/com/srotya/sidewinder/core/storage/GorillaStorageEngine.java:155-158 | no databases remain |
| GorillaEngine.GorillaStorageEngine.CheckIfExists | core/src/main/java/com/srotya/sidewinder/core/storage/GorillaStorageEngine.java:161-163 | true exactly for an existing database |
| GorillaEngine.GorillaStorageEngine.DropDatabase | core/src/main/java/com/srotya/sidewinder/core/storage/GorillaStorageEngine.java:166-168 | only that database goes |
| BucketEngine.NewHolds | core/src/main/java/com/srotya/sidewinder/core/storage/gorilla/GorillaStorageEngine.java:198 | a new series holds nothing and has the kind and header given |
| BucketEngine.AddedHolds | core/src/main/java/com/srotya/sidewinder/core/storage/gorilla/GorillaStorageEngine.java:155-157 | `addDatapoint` appends the pair to the series' encoding and adds one to its count, whatever the timestamp; kind and header never change |
| BucketEngine.ReadsBack | core/src/main/java/com/srotya/sidewinder/core/storage/gorilla/GorillaStorageEngine.java:112-127 | a series of in-window pairs reads back those the value predicate accepts, in append order |
| BucketEngine.SeriesToDataPoints | core/src/main/java/com/srotya/sidewinder/core/storage/gorilla/GorillaStorageEngine.java:112-127 | `readPair` until `IOException`, keeping every point |
| BucketEngine.WroteFrame | core/src/main/java/com/srotya/sidewinder/core/storage/gorilla/GorillaStorageEngine.java:170-203 | an unknown unit changes nothing; otherwise only the bucket's series is touched, and it exists afterwards |
| BucketEngine.WroteSeries | core/src/main/java/com/srotya/sidewinder/core/storage/gorilla/GorillaStorageEngine.java:147-211 | a write fails with `PerformantException` exactly when the kind check is on and the kind differs, leaving the series as it was; otherwise the series holds its pairs and then the new one |
| BucketEngine.ReadKeys | core/src/main/java/com/srotya/sidewinder/core/storage/gorilla/GorillaStorageEngine.java:82-85 | every point read passes the value predicate and is not floating point |
| BucketEngine.QueryValues | core/src/main/java/com/srotya/sidewinder/core/storage/gorilla/GorillaStorageEngine.java:59-94 | every point a query returns passes the value predicate and is not floating point; `BucketEngine.AnswerFinds` is the other direction |
| BucketEngine.QueryIgnoresTimeRange | core/src/main/java/com/srotya/sidewinder/core/storage/gorilla/GorillaStorageEngine.java:67-69 | with the time predicate `null`, a point at millisecond 1000 comes back from a query over [0, 0] |
| BucketEngine.FirstBucketKeys | core/src/main/java/com/srotya/sidewinder/core/storage/gorilla/GorillaStorageEngine.java:70-73 | millisecond 1000 and millisecond 0 share the key "0" |
| BucketEngine.ZeroBucket | core/src/main/java/com/srotya/sidewinder/core/storage/gorilla/GorillaStorageEngine.java:70-73 | every millisecond below 4096000 has key "0" |
| BucketEngine.AnswerOneKey | core/src/main/java/com/srotya/sidewinder/core/storage/gorilla/GorillaStorageEngine.java:74-85 | a query over [0, 0] reads the series under "0" whole |
| BucketEngine.ReadFirst | core/src/main/java/com/srotya/sidewinder/core/storage/gorilla/GorillaStorageEngine.java:112-127 | the first point of a new series, at any timestamp, reads back as itself |
| BucketEngine.ReadKeysHas | core/src/main/java/com/srotya/sidewinder/core/storage/gorilla/GorillaStorageEngine.java:82-85 | reading the selected series in turn keeps every point each series yields |
| BucketEngine.AnswerFinds | core/src/main/java/com/srotya/sidewinder/core/storage/gorilla/GorillaStorageEngine.java:70-85 | the other direction of `QueryValues`: when the keys of the bounds are in order, a series whose key lies in the scanned range is read whole, every point its reader yields being returned |
| BucketEngine.IdsApart | core/src/main/java/com/srotya/sidewinder/core/storage/gorilla/GorillaStorageEngine.java:70-72 | two millisecond timestamps a bucket width or more apart have increasing bucket ids |
| BucketEngine.ApartKeys | core/src/main/java/com/srotya/sidewinder/core/storage/gorilla/GorillaStorageEngine.java:70-75 | two eight-digit timestamps a bucket width or more apart have distinct bucket keys in the order of the timestamps |
| BucketEngine.WroteAppends | core/src/main/java/com/srotya/sidewinder/core/storage/gorilla/GorillaStorageEngine.java:147-211 | a write without the kind check appends the point to the bucket's series, or to a new one |
| BucketEngine.TwoWrites | core/src/main/java/com/srotya/sidewinder/core/storage/gorilla/GorillaStorageEngine.java:147-211 | two writes in distinct buckets leave one series per bucket, each holding its one point |
| BucketEngine.TwoKeys | core/src/main/java/com/srotya/sidewinder/core/storage/gorilla/GorillaStorageEngine.java:74-85 | a query from the earlier of two keys to the later reads both series, the earlier key first |
| BucketEngine.FourHundredMinutes | core/src/test/java/com/srotya/sidewinder/core/storage/gorilla/TestGorillaStorageEngine.java:69-80 | two writes 400 minutes apart, read back over exactly their span, return both points in timestamp order, for every start time from July 1978 to 400 minutes before January 2038 |
| BucketEngine.GorillaStorageEngine.constructor | core/src/main/java/com/srotya/sidewinder/core/storage/gorilla/GorillaStorageEngine.java:52-57 | no databases |
| BucketEngine.GorillaStorageEngine.GetMeasurementsLike | core/src/main/java/com/srotya/sidewinder/core/storage/gorilla/GorillaStorageEngine.java:130-144 | an unknown database throws `NullPointerException`; otherwise the matching measurements |
| BucketEngine.GorillaStorageEngine.GetOrCreateTimeSeries | core/src/main/java/com/srotya/sidewinder/core/storage/gorilla/GorillaStorageEngine.java:170-203 | an unknown unit throws and changes nothing; otherwise the series, created when missing |
| BucketEngine.GorillaStorageEngine.AddToSeries | core/src/main/java/com/srotya/sidewinder/core/storage/gorilla/GorillaStorageEngine.java:155-157 | `addDatapoint` on the series: only that series changes, to the old one with the pair appended |
| BucketEngine.GorillaStorageEngine.WriteDataPoint | core/src/main/java/com/srotya/sidewinder/core/storage/gorilla/GorillaStorageEngine.java:147-160 | `Wrote` with nanoseconds and the kind check |
| BucketEngine.GorillaStorageEngine.WriteSeries | core/src/main/java/com/srotya/sidewinder/core/storage/gorilla/GorillaStorageEngine.java:163-211 | `Wrote` without the kind check |
| BucketEngine.GorillaStorageEngine.QueryDataPoints | core/src/main/java/com/srotya/sidewinder/core/storage/gorilla/GorillaStorageEngine.java:59-94 | the query of the stored series |
| BucketEngine.GorillaStorageEngine.QuerySeries | core/src/main/java/com/srotya/sidewinder/core/storage/gorilla/GorillaStorageEngine.java:67-86 | the key range, else the fallback |
| BucketEngine.GorillaStorageEngine.ReadSeries | core/src/main/java/com/srotya/sidewinder/core/storage/gorilla/GorillaStorageEngine.java:82-85 | the series in key order |
| BucketEngine.GorillaStorageEngine.GetDatabases | core/src/main/java/com/srotya/sidewinder/core/storage/gorilla/GorillaStorageEngine.java:214-216 | exactly the databases |
| BucketEngine.GorillaStorageEngine.GetAllMeasurementsForDb | core/src/main/java/com/srotya/sidewinder/core/storage/gorilla/GorillaStorageEngine.java:219-221 | an unknown database throws `NullPointerException` |
| BucketEngine.GorillaStorageEngine.DeleteAllData | core/src/main/java/com/srotya/sidewinder/core/storage/gorilla/GorillaStorageEngine.java:224-227 | no databases remain |
| BucketEngine.GorillaStorageEngine.CheckIfExists | core/src/main/java/com/srotya/sidewinder/core/storage/gorilla/GorillaStorageEngine.java:230-232 | true exactly for an existing database |
| BucketEngine.GorillaStorageEngine.DropDatabase | core/src/main/java/com/srotya/sidewinder/core/storage/gorilla/GorillaStorageEngine.java:235-237 | only that database goes |
| FlatEngine.AppendedHolds | sidewinder-core/src/main/java/com/srotya/sidewinder/core/storage/GorillaStorageEngine.java:132-142 | each `addDatapoint` appends one pair and leaves the count at 0 |
| FlatEngine.ZeroCountReadsNothing | sidewinder-core/src/main/java/com/srotya/sidewinder/core/storage/GorillaStorageEngine.java:144-153 | the reader is told there are no pairs, so its first `readPair` returns `null` |
| FlatEngine.TimeSeries.constructor | sidewinder-core/src/main/java/com/srotya/sidewinder/core/storage/GorillaStorageEngine.java:127-130 | the header written, count 0 |
| FlatEngine.TimeSeries.AddDatapoint | sidewinder-core/src/main/java/com/srotya/sidewinder/core/storage/GorillaStorageEngine.java:132-142 | one `addValue`; the count stays |
| FlatEngine.TimeSeries.GetReader | sidewinder-core/src/main/java/com/srotya/sidewinder/core/storage/GorillaStorageEngine.java:144-153 | a reader over the bits and the count |
| FlatEngine.RowKeyInjective | sidewinder-core/src/main/java/com/srotya/sidewinder/core/storage/GorillaStorageEngine.java:62-68 | a row key determines the series name and the bucket |
| FlatEngine.HexAfterName | sidewinder-core/src/main/java/com/srotya/sidewinder/core/storage/GorillaStorageEngine.java:62-68 | after name and `_` only hex digits follow |
| FlatEngine.RowKey | sidewinder-core/src/main/java/com/srotya/sidewinder/core/storage/GorillaStorageEngine.java:62-68 | an unknown unit throws `IllegalArgumentException` |
| FlatEngine.WroteSpec | sidewinder-core/src/main/java/com/srotya/sidewinder/core/storage/GorillaStorageEngine.java:53-83 | an unknown unit changes nothing; otherwise only the row key's series is touched: an existing one gets the pair, a new one holds it alone under its timestamp |
| FlatEngine.WroteKeepsCountsZero | sidewinder-core/src/main/java/com/srotya/sidewinder/core/storage/GorillaStorageEngine.java:132-142 | no write raises a count |
| FlatEngine.GorillaStorageEngine.constructor | sidewinder-core/src/main/java/com/srotya/sidewinder/core/storage/GorillaStorageEngine.java:45-50 | no series |
| FlatEngine.GorillaStorageEngine.GetOrCreateTimeSeries | sidewinder-core/src/main/java/com/srotya/sidewinder/core/storage/GorillaStorageEngine.java:60-75 | the row key; the series created when missing |
| FlatEngine.GorillaStorageEngine.WriteSeries | sidewinder-core/src/main/java/com/srotya/sidewinder/core/storage/GorillaStorageEngine.java:53-83 | `Wrote`, keeping every count 0 |
| FlatEngine.GorillaStorageEngine.GetDatabases | sidewinder-core/src/main/java/com/srotya/sidewinder/core/storage/GorillaStorageEngine.java:86-89 | `null` |
| FlatEngine.GorillaStorageEngine.GetSeries | sidewinder-core/src/main/java/com/srotya/sidewinder/core/storage/GorillaStorageEngine.java:92-95 | `null` |
| FlatEngine.GorillaStorageEngine.CheckIfExists | sidewinder-core/src/main/java/com/srotya/sidewinder/core/storage/GorillaStorageEngine.java:104-107 | always false |
| FlatEngine.GorillaStorageEngine.DeleteAllData | sidewinder-core/src/main/java/com/srotya/sidewinder/core/storage/GorillaStorageEngine.java:98-101 | changes nothing |
| FlatEngine.GorillaStorageEngine.TruncateDatabase | sidewinder-core/src/main/java/com/srotya/sidewinder/core/storage/GorillaStorageEngine.java:110-113 | changes nothing |
| RowKeys.Filled | sidewinder-core/src/main/java/com/srotya/sidewinder/core/storage/AbstractStorageEngine.java:41 | the array keeps its length |
| RowKeys.BuiltRowKey | sidewinder-core/src/main/java/com/srotya/sidewinder/core/storage/AbstractStorageEngine.java:36-55 | a built key has length `3 * (tags + 1) + 4` |
| RowKeys.ThreeByteTags | sidewinder-core/src/main/java/com/srotya/sidewinder/core/storage/AbstractStorageEngine.java:48-52 | with three-byte identifiers, tag i sits at bytes 3i to 3i+3 |
| RowKeys.SortedThreeByte | sidewinder-core/src/main/java/com/srotya/sidewinder/core/storage/AbstractStorageEngine.java:47 | sorting keeps identifiers three bytes long |
| RowKeys.ThreeByteLayout | sidewinder-core/src/main/java/com/srotya/sidewinder/core/storage/AbstractStorageEngine.java:36-55 | with three-byte identifiers and a unit that converts, the key is the series identifier, then the sorted tags' identifiers, then the bucket's four big-endian bytes |
| RowKeys.LayoutOffsets | sidewinder-core/src/main/java/com/srotya/sidewinder/core/storage/AbstractStorageEngine.java:45-53 | where each part sits |
| RowKeys.TagOrderIrrelevant | sidewinder-core/src/main/java/com/srotya/sidewinder/core/storage/AbstractStorageEngine.java:47 | the caller's tag order plays no part |
| RowKeys.MillisecondKeyBucket | sidewinder-core/src/main/java/com/srotya/sidewinder/core/storage/AbstractStorageEngine.java:42-53 | a millisecond key ends with the bucket `(ts / 1000 / 4096) * 4096` |
| RowKeys.Copy | sidewinder-core/src/main/java/com/srotya/sidewinder/core/storage/AbstractStorageEngine.java:45-53 | `System.arraycopy`: it throws and copies nothing when the source would run past the end |
| RowKeys.SortTags | sidewinder-core/src/main/java/com/srotya/sidewinder/core/storage/AbstractStorageEngine.java:47 | `Collections.sort` writes the sorted tags back |
| RowKeys.CopyTags | sidewinder-core/src/main/java/com/srotya/sidewinder/core/storage/AbstractStorageEngine.java:48-52 | each identifier is copied at the running position, which moves past it |
| RowKeys.BuildRowKey | sidewinder-core/src/main/java/com/srotya/sidewinder/core/storage/AbstractStorageEngine.java:36-55 | the array is `BuiltRowKey`, and the tags are sorted in place once the code gets that far |
| RowKeys.FillKey | sidewinder-core/src/main/java/com/srotya/sidewinder/core/storage/AbstractStorageEngine.java:44-53 | the copies into the zeroed key |
| RowKeys.CopyRest | sidewinder-core/src/main/java/com/srotya/sidewinder/core/storage/AbstractStorageEngine.java:47-53 | the tag copies, then the bucket's |
| RowKeys.WriteSeries | sidewinder-core/src/main/java/com/srotya/sidewinder/core/storage/AbstractStorageEngine.java:57-63 | the row key, the timestamp, and the value's eight big-endian bytes, which decode back to the value |
| RowKeys.WriteDoubleSeries | sidewinder-core/src/main/java/com/srotya/sidewinder/core/storage/AbstractStorageEngine.java:65-71 | the `double` overload: the same row key and timestamp, and `doubleToBytes` of the value; a failing row key is its error |
| HttpDecoder.FieldPoint | core/src/main/java/com/srotya/sidewinder/core/ingress/http/HTTPDataPointDecoder.java:130-143 | a field without `=` and a value throws `ArrayIndexOutOfBoundsException`; otherwise a point named series `-` key, as `double` when the value contains `.` |
| HttpDecoder.FieldPoints | core/src/main/java/com/srotya/sidewinder/core/ingress/http/HTTPDataPointDecoder.java:129-144 | all fields give their points in order, or the first failure ends the call |
| HttpDecoder.WrongPartCountDropped | core/src/main/java/com/srotya/sidewinder/core/ingress/http/HTTPDataPointDecoder.java:114-118 | a line that does not split into two or three parts adds nothing |
| HttpDecoder.LineShares | core/src/main/java/com/srotya/sidewinder/core/ingress/http/HTTPDataPointDecoder.java:119-144 | every point of a line carries the line's series name, tags and timestamp (the clock's when there are two parts) |
| HttpDecoder.PayloadOfLines | core/src/main/java/com/srotya/sidewinder/core/ingress/http/HTTPDataPointDecoder.java:112-113 | a payload of separate lines is decoded line by line |
| HttpDecoder.FieldFailureSticks | core/src/main/java/com/srotya/sidewinder/core/ingress/http/HTTPDataPointDecoder.java:129-144 | a failing field fails the whole call |
| HttpDecoder.FieldPointsAll | core/src/main/java/com/srotya/sidewinder/core/ingress/http/HTTPDataPointDecoder.java:129-144 | when every field gives its point, the fields give those points in order |
| HttpDecoder.LineFailureSticks | core/src/main/java/com/srotya/sidewinder/core/ingress/http/HTTPDataPointDecoder.java:110-147 | a failing line fails the payload |
| HttpDecoder.LineRoundTrip | core/src/main/java/com/srotya/sidewinder/core/ingress/http/HTTPDataPointDecoder.java:110-147 | a written-out line of name, tags, `long` fields and optional timestamp decodes to its points in order |
| HttpDecoder.LineOfParts | core/src/main/java/com/srotya/sidewinder/core/ingress/http/HTTPDataPointDecoder.java:114-129 | a two or three-part line gives its second part's points |
| HttpDecoder.KeyRoundTrip | core/src/main/java/com/srotya/sidewinder/core/ingress/http/HTTPDataPointDecoder.java:123-128 | the first part splits back into name and tags |
| HttpDecoder.FieldsRoundTrip | core/src/main/java/com/srotya/sidewinder/core/ingress/http/HTTPDataPointDecoder.java:129-144 | the second part splits back into its fields |
| HttpDecoder.FieldRoundTrip | core/src/main/java/com/srotya/sidewinder/core/ingress/http/HTTPDataPointDecoder.java:131-143 | one `long` field reads back as its integer point |
| HttpDecoder.DecodePoints | core/src/main/java/com/srotya/sidewinder/core/ingress/http/HTTPDataPointDecoder.java:110-147 | the loop, which reads the clock afresh for each line, equals `DataPointsFromString` with line `i` taking the `i`-th reading |
| HttpDecoder.AddLine | core/src/main/java/com/srotya/sidewinder/core/ingress/http/HTTPDataPointDecoder.java:113-145 | one line's points appended, or its exception |
| HttpDecoder.TagList | core/src/main/java/com/srotya/sidewinder/core/ingress/http/HTTPDataPointDecoder.java:125-128 | the tags are the key's pieces after the first |
| HttpDecoder.AddFields | core/src/main/java/com/srotya/sidewinder/core/ingress/http/HTTPDataPointDecoder.java:129-144 | the field loop |
| HttpDecoder.ParseField | core/src/main/java/com/srotya/sidewinder/core/ingress/http/HTTPDataPointDecoder.java:131-143 | one field |
| HttpDecoder.FieldPointsSnoc | core/src/main/java/com/srotya/sidewinder/core/ingress/http/HTTPDataPointDecoder.java:130-144 | one more field extends the points or fails with its own error |
| HttpDecoder.LongText | core/src/main/java/com/srotya/sidewinder/core/ingress/http/HTTPDataPointDecoder.java:138-139 | text `parseLong` accepts holds no blank, no `=` and no `.`, so it takes the integer branch |
| HttpDecoder.FieldSplit | core/src/main/java/com/srotya/sidewinder/core/ingress/http/HTTPDataPointDecoder.java:131 | `key=value` splits on `=` back into key and value |
| HttpDecoder.SpacedWords | core/src/main/java/com/srotya/sidewinder/core/ingress/http/HTTPDataPointDecoder.java:114 | words joined by single spaces split on `\s+` back into the words |
| PointEncoder.PointLayout | sidewinder-core/src/main/java/com/srotya/sidewinder/core/netty/SeriesDataPointEncoder.java:40-52 | each point takes 21 bytes besides its name, with the flag after length, name and timestamp |
| PointEncoder.NamedPrefix | sidewinder-core/src/main/java/com/srotya/sidewinder/core/netty/SeriesDataPointEncoder.java:35-41 | how many points from the front have names; the next has none |
| PointEncoder.AllBytesSnoc | sidewinder-core/src/main/java/com/srotya/sidewinder/core/netty/SeriesDataPointEncoder.java:35-37 | one more point appends its bytes |
| PointEncoder.EncodedUpTo | sidewinder-core/src/main/java/com/srotya/sidewinder/core/netty/SeriesDataPointEncoder.java:31-38 | `encode` writes the count, then every point up to the first without a name, whose `getBytes` throws `NullPointerException` |
| PointEncoder.EncodeDPointToBuf | sidewinder-core/src/main/java/com/srotya/sidewinder/core/netty/SeriesDataPointEncoder.java:40-52 | a point without a name throws and writes nothing; otherwise it appends its bytes |
| PointEncoder.Encode | sidewinder-core/src/main/java/com/srotya/sidewinder/core/netty/SeriesDataPointEncoder.java:31-38 | the buffer holds the count and the encoded points; the outcome is that of `Encoded` |
| PointEncoder.EncodePoints | sidewinder-core/src/main/java/com/srotya/sidewinder/core/netty/SeriesDataPointEncoder.java:35-37 | the loop up to the first unnamed point |
| PointEncoder.EncodeNext | sidewinder-core/src/main/java/com/srotya/sidewinder/core/netty/SeriesDataPointEncoder.java:36 | one turn of the loop |
| PointWire.RecordAt | sidewinder-core/src/main/java/com/srotya/sidewinder/core/ingress/binary/SeriesDataPointDecoder.java:45-65 | a failed read is the replay signal |
| PointWire.RecordAtSpec | sidewinder-core/src/main/java/com/srotya/sidewinder/core/ingress/binary/SeriesDataPointDecoder.java:45-55 | a read throws exactly when the bytes run out before the length or after a non-negative one; a negative length is `null` and consumes four bytes |
| PointWire.RecordRoundTrip | sidewinder-core/src/main/java/com/srotya/sidewinder/core/ingress/binary/SeriesDataPointDecoder.java:45-65 | the bytes the encoder writes for a point read back as its record, wherever they sit |
| PointWire.PointsFrom | sidewinder-core/src/main/java/com/srotya/sidewinder/core/ingress/binary/SeriesDataPointDecoder.java:34-42 | at most n points; an exception comes from a read |
| PointWire.Decoding | sidewinder-core/src/main/java/com/srotya/sidewinder/core/ingress/binary/SeriesDataPointDecoder.java:31-43 | a missing count is the replay signal; at most the count's points are read (none for a count of 0 or less) |
| PointWire.RebuiltAt | sidewinder-core/src/main/java/com/srotya/sidewinder/core/ingress/binary/SeriesDataPointDecoder.java:34-42 | point i is made of record i |
| PointWire.Rebuilt | sidewinder-core/src/main/java/com/srotya/sidewinder/core/ingress/binary/SeriesDataPointDecoder.java:34-42 | one decoded point per encoded point |
| PointWire.RecordAtExtended | sidewinder-core/src/main/java/com/srotya/sidewinder/core/ingress/binary/SeriesDataPointDecoder.java:45-65 | bytes after a complete record do not change how it reads |
| PointWire.RecordsWritten | sidewinder-core/src/main/java/com/srotya/sidewinder/core/netty/SeriesDataPointEncoder.java:40-52 | the records of what the encoder writes are read one after another |
| PointWire.PointsRoundTrip | sidewinder-core/src/main/java/com/srotya/sidewinder/core/ingress/binary/SeriesDataPointDecoder.java:34-42 | the loop returns a point for every record, ends normally and stops where the last ends |
| PointWire.ListRoundTrip | sidewinder-core/src/main/java/com/srotya/sidewinder/core/netty/SeriesDataPointEncoder.java:31-38 | `decode` of `encode` for named points gives every point, and nothing after them is read |
| PointWire.PointsFromExtended | sidewinder-core/src/main/java/com/srotya/sidewinder/core/ingress/binary/SeriesDataPointDecoder.java:31-43 | more bytes keep a finished batch, and a batch cut short by the replay signal yields its points again first |
| PointWire.DecodingExtended | sidewinder-core/src/main/java/com/srotya/sidewinder/core/ingress/binary/SeriesDataPointDecoder.java:31-43 | the same for the whole `decode` |
| PointWire.ReadRecord | sidewinder-core/src/main/java/com/srotya/sidewinder/core/ingress/binary/SeriesDataPointDecoder.java:46-63 | the reads of `decodeBufToDPoint` |
| PointWire.DecodeWith | sidewinder-core/src/main/java/com/srotya/sidewinder/core/ingress/binary/SeriesDataPointDecoder.java:31-43 | the loop of `decode` |
| PointWire.ReadPoints | sidewinder-core/src/main/java/com/srotya/sidewinder/core/ingress/binary/SeriesDataPointDecoder.java:34-42 | the loop over the count |
| PointWire.ReadStep | sidewinder-core/src/main/java/com/srotya/sidewinder/core/ingress/binary/SeriesDataPointDecoder.java:35-41 | one turn |
| BinaryDecoder.PointOf | sidewinder-core/src/main/java/com/srotya/sidewinder/core/ingress/binary/SeriesDataPointDecoder.java:52-63 | the point is floating point exactly for flag `'0'`, has the decoded name, no tags and the timestamp, and a `double` is stored as `doubleToLongBits` of the bits |
| BinaryDecoder.DecodeBufToDPoint | sidewinder-core/src/main/java/com/srotya/sidewinder/core/ingress/binary/SeriesDataPointDecoder.java:45-65 | `null` for a negative length, else the point of the record |
| BinaryDecoder.Decode | sidewinder-core/src/main/java/com/srotya/sidewinder/core/ingress/binary/SeriesDataPointDecoder.java:31-43 | the points in the order read |
| BinaryDecoder.DecodeEncoded | sidewinder-core/src/main/java/com/srotya/sidewinder/core/netty/SeriesDataPointEncoder.java:31-52 | every named point comes back as `Received` of itself, in order, and the whole input is consumed |
| BinaryDecoder.DecodeEncodedExactly | sidewinder-core/src/main/java/com/srotya/sidewinder/core/netty/SeriesDataPointEncoder.java:31-52 | untagged points with canonical values come back exactly |
| NettyDecoder.DecodeBufToDPoint | sidewinder-core/src/main/java/com/srotya/sidewinder/core/netty/SeriesDataPointDecoder.java:45-62 | `null` for a negative length, else the point of the record |
| NettyDecoder.Decode | sidewinder-core/src/main/java/com/srotya/sidewinder/core/netty/SeriesDataPointDecoder.java:31-43 | the points in the order read |
| NettyDecoder.DecodeEncoded | sidewinder-core/src/main/java/com/srotya/sidewinder/core/netty/SeriesDataPointDecoder.java:55-61 | the flag picks the constructor: floating-point points go to the `double` one, with name, timestamp and value bits |

## Left out

- Concurrency is not modelled. That covers `synchronized`, the concurrent maps, `AtomicInteger counter`, the scheduled executor each `configure` starts, and the threads that share a bucket.
- Logging and every `System.out.println` are left out. That includes BetweenPredicate's "Rejected" line, "Bad data point", "Count of points:", "DB not found:" and "Measurement not found:".
- The fixed-size output buffers (`4096 * 8` and `4096 * 8 * 2` bytes) are unbounded bit strings here, so a buffer overflow is not modelled.
- The `Writer` class is not part of this model. `GorillaWriter` writes the encoding its `Reader` decodes:
  - a 27-bit first offset;
  - the control ranges [-63, 64], [-255, 256] and [-2047, 2048], else 32 bits;
  - a 5-bit leading count capped at 31.
- `ByteBufferBitInput` is not part of this model. Bits past the written end read as 0, as in the zeroed buffer.
- The gorillac `Reader` with time and value predicates, and `Reader.readPair(start, end)`, are not part of this model:
  - `Buckets.BucketReader` yields the snapshot's pairs through both predicates and throws `IOException` after the count;
  - `GorillaEngine.NextInRange` skips pairs outside the range.
- `TimeUtils.getTimeBucket` is not part of this model. It is taken to be `getWindowFlooredTime(ts, w, unit)` (`TimeUtils.TimeBucket`).
- `MurmurHash.hash32` is the `hash` parameter of `MemEngine`. `indexIdentifier` is the `index` parameter of `RowKeys`.
- `ByteUtils.doubleToBytes` is not part of this model. It is the `doubleToBytes` parameter of `RowKeys.WriteDoubleSeries`, applied to the bits of the `double`.
- A string is a Dafny `seq<char>`, a sequence of Unicode code points. A Java `String` is a sequence of UTF-16 code units. The two agree up to U+FFFF and differ above it, as the next two lines say.
- LexOrder.Less: compares code points, where `String.compareTo` compares UTF-16 units. A character above U+FFFF (U+1D7CE, say, whose first unit is D835) sorts after U+E000-U+FFFF in the model and before them in Java. The tag sorts of `RowKeys.SortTags`, `LexOrder.Sort` and MemEngine's row key, and the key ranges of `Series.KeyRange`, follow the model's order.
- ByteUtils.AsciiBytes: gives one byte per code point, where `stringToBytes` allocates one per UTF-16 unit, so two for a character above U+FFFF (`ByteUtils.StringToBytes` has the model's length).
- `Double.parseDouble` is a parameter of `HttpDecoder`. `System.currentTimeMillis()` is its `clock` parameter, read once for each line of the payload, so the readings are not tied to real time or to each other.
- The platform charset of `getBytes` and `new String(byte[])` is a `Charset` parameter.
- The netty `DataPoint(name, timestamp, value)` constructors are not in `DataPoint.java`, so they are the `Constructors` parameter of `NettyDecoder`.
- The core `DataPoint.getMeasurementName`/`getValueFieldName` are not part of this model. `MemEngine.MemStorageEngine.WriteDataPoint` takes them as arguments.
- `MemStorageEngine.queryDataPoints` calls a five-argument `TimeSeries.queryDataPoints` that `TimeSeries.java` does not have. The model calls the three-argument one: the field name and tags do not filter.
- `BucketEngine` works over the `TimeSeries(fp, header)` of the `storage.gorilla` package's engine, which is not part of this model. It is modelled as an encoder with a kind and a count: `addDatapoint` appends and adds one to the count and throws nothing, as the engine's test calls it from a method that declares no exception.
- No class of the modelled core deletes old buckets: there is no retention sweep to model.
- The engines hold their series as values. A `TimeSeries` handed out and then changed by its holder is not modelled, and neither is aliasing between engine maps and live objects. `Series.TimeSeries` is the imperative class, and `Series.TimeSeries.AddedAgrees` ties it to the value.
- `ReplayingDecoder` is modelled as the replay signal. The model says which bytes a retry would read again (`PointWire.DecodingExtended`). It does not model the `readerIndex` reset, or points already added to `output` before a replay.
- Floating point is not modelled beyond the bit patterns: `getCompressionRatio` is left out, and `getValue`/`writeDouble`/`readDouble` move bits.
- Signalling-NaN payloads follow `doubleToLongBits` on bits. The canonicalising `DataPoint(…, double)` constructor keeps them as canonical NaN.
- `TimeSeriesBucket.flush` is left out: nothing is buffered in the model.
- Every `toString` is left out.
- `TimeSeries.getBucketMap` is left out. The map is the class's `bucketMap` field.
- `MemStorageEngine.getSeriesMap` is left out (a unit-test accessor). `connect`/`disconnect` are left out in every engine: they do nothing.
- Netty channel handling, the HTTP request plumbing and the REST APIs around these classes are left out.
- PointEncoder.Encode: requires at most `Integer.MAX_VALUE` points, which no Java list exceeds.
- BinaryDecoder.Decode and NettyDecoder.Decode share one loop (`PointWire.DecodeWith`). It is parameterised by the point builder, which replaces each decoder's static `decodeBufToDPoint` call.
- Buckets.TimeSeriesBucket.GetCount: states the count only while fewer than 2^31 points are appended. Past that the `int` count wraps.
- GorillaEngine.ReadsBack, BucketEngine.ReadsBack, Buckets.BucketRoundTrip: hold only for timestamps in non-decreasing order within 2^27 of the bucket header, the range the 27-bit first offset and the `int` delta of delta can carry.
- Series.QueryFindsStored: proves that nothing is missed only for millisecond writes and for bounds from July 1978 up to January 2038. In that window bucket ids have eight hex digits, so `String` order on keys is numeric order. Outside it a shorter hex key can sort wrongly, and the query can miss buckets (`Series.FirstBucketQueryThrows` shows one such case).
- Series.QueryFindsStored, MemEngine.QueriedFinds: need each bucket to hold fewer than 2^31 pairs, because the reader stops at the `int` count.
- MemEngine.QueriedFinds: needs the series' name to differ from the name of every other row key. `resultMap.put` keeps only the last series under a shared name, so an earlier series' points are not reported.
- BucketEngine.AnswerFinds: holds when the keys of the two bounds are in `String` order. `BucketEngine.FourHundredMinutes` shows that this holds for the engine's test scenario for every start time in the eight-digit window. The model has no other-direction lemma for bounds outside that window.

## Findings

| source | as written | input that shows it | evidently intended | confidence | as-written member | corrected member |
|---|---|---|---|---|---|---|
| sidewinder-core/src/main/java/com/srotya/sidewinder/core/utils/ByteUtils.java:56-61 | `shortToByteMSB` shifts left before masking, so the first byte is always 0 and the low byte is lost | `shortToByteMSB(0)` and `shortToByteMSB(1)` both give `[0, 0]` | the two bytes of the `short`, most significant first | not executed | ByteUtils.ShortMSBLosesLowByte | ByteUtils.ShortBytes |
| sidewinder-core/src/main/java/com/srotya/sidewinder/core/utils/ByteUtils.java:79-81 | `intToHex` returns `Integer.toOctalString` | `intToHex(8)` is "10" | `Integer.toHexString`, which gives "8" and parses back | not executed | ByteUtils.IntToHexIsOctal | JavaString.HexRoundTrip |
