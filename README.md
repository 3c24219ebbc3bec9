# asap_common: Unicode transcoding and flag helpers, in Dafny

This project models the text-conversion core of asap_common and its bit-flag helpers, and
proves what they promise.

**UTF traits** (`include/common/unicode/utf.h`). These are the three `utf_traits`
specialisations: UTF-8 (RFC 3629), UTF-16 (RFC 2781) and UTF-32. Each one has its:

- lead and trail classification, `trail_length` and `width`;
- checked decoder `decode`, which returns a code point or one of the sentinels `illegal` and
  `incomplete` and advances a by-reference cursor;
- unchecked `decode_valid`;
- `encode`, which writes through an output iterator.

The modules are `Unicode`, `Utf8Traits`, `Utf16Traits` and `Utf32Traits`. `Codec` selects a
codec by the width of the character type.

**`utf_to_utf`** (`include/common/unicode/encoding_utf.h`), in the module `EncodingUtf`. It
decodes a whole source and re-encodes it into a new string, or throws `conversion_error`. Its
three overloads take a range, a NUL-terminated string and a `basic_string`.

**Bounded conversion** (`include/common/unicode/convert.h`), in the module `Convert`.
`basic_convert` writes a NUL-terminated conversion into a caller's buffer of `buffer_size`
units and returns the buffer or null. `basic_strend` scans for a terminator. The
`narrow`/`widen` overloads are built on these and on `utf_to_utf`.

**Flag helpers** (`include/common/flag_ops.h`), in the module `FlagOps`. These are
`FlagSet`, `FlagClear`, `FlagFlip` and `FlagTest` on a bit mask.

## How the source is represented

- **Code units.** A code unit is a 32-bit value (`Unicode.Unit`). UTF-8 bytes and UTF-16
  words are subsets of it, so the conversion layer works on one sequence type.
- **Decoders** are functions from a sequence and a position to a `Decoded(cp, next)`. `next`
  is where the source's by-reference cursor is left.
- **The UTF-8 fall-through `switch`** is the recursive `ReadTrails`. The unchecked one in
  `decode_valid` is `ReadTrailsUnchecked`.
- **`encode`** is a function giving the units. Next to it, an `EncodeInto` method writes them
  into an array, as `*out++ = …` does.
- **`utf_to_utf`** is a method with the source's loop. It is proved equal to `Transcode`,
  which is defined as `CodePoints` (the successive decoding steps) followed by `EncodeAll`.
- **`basic_convert`** is a method over an array. It is proved against `BoundedRun`, the
  recursive form of its loop, and `Converted` states its whole effect on the buffer.
- **`wchar_t`** is UTF-16 on Windows and UTF-32 elsewhere (`Convert.Platform`).
- **Flag masks** are 64-bit (`unsigned long` on LP64). A by-reference update of the mask is
  the method's result.

## Model

| member | source | states |
|---|---|---|
| Unicode.SentinelsInvalid | include/common/unicode/utf.h:43-55 | neither `illegal` nor `incomplete` is a valid code point, and the two differ, so a decoder's answer is never ambiguous |
| Unicode.IsValidCodepoint | include/common/unicode/utf.h:49-55 | a code point is valid exactly when it is at most 0x10FFFF and not a surrogate (D800..DFFF); a definition, with no contract of its own |
| Utf8Traits.TrailLength | include/common/unicode/utf.h:148-164 | the announced trail count is between -1 and 3, and a byte that announces one is a lead byte |
| Utf8Traits.Width | include/common/unicode/utf.h:168-179 | the width of a code point is in [1, max_width] |
| Utf8Traits.IsTrail | include/common/unicode/utf.h:181-184 | a byte is a trail byte exactly when its top two bits are 10; a definition |
| Utf8Traits.IsLead | include/common/unicode/utf.h:186 | a byte is a lead byte exactly when it is not a trail byte; a definition |
| Utf8Traits.ReadTrails | include/common/unicode/utf.h:213-249 | the fall-through switch reads at most the announced number of trail bytes and never past the end; a completed read ends exactly after them, and a stopped read yields a sentinel |
| Utf8Traits.ReadTrailsUnchecked | include/common/unicode/utf.h:285-294 | the unchecked switch of `decode_valid` consumes exactly the announced number of bytes |
| Utf8Traits.Decode | include/common/unicode/utf.h:189-266 | one step never reads past the end and consumes 1 to 4 bytes of a non-empty range; a result that is not a sentinel is a valid code point whose width equals the bytes consumed |
| Utf8Traits.DecodeValid | include/common/unicode/utf.h:268-297 | on a well-formed sequence the unchecked decoder returns what `decode` returns and advances as far |
| Utf8Traits.Encode | include/common/unicode/utf.h:299-317 | the encoding has `width(value)` bytes; its lead byte announces exactly the trail bytes that follow, and they are all continuation bytes |
| Utf8Traits.EncodeInto | include/common/unicode/utf.h:299-317 | writes exactly the encoding at the cursor, returns the cursor past it, and leaves every other array cell unchanged |
| Utf8Traits.LeadMaskShift | include/common/unicode/utf.h:211 | the lead-byte payload masks equal `(1 << (6 - trail_size)) - 1` |
| Utf8Traits.ReadTrailsAllTrails | include/common/unicode/utf.h:215-249 | when all announced continuation bytes are present, the checked reader completes with the value the unchecked reader computes |
| Utf8Traits.ReadTrailsAgree | include/common/unicode/utf.h:215-249 | when the checked reader completes, all its bytes were continuation bytes and it computed what the unchecked reader computes |
| Utf8Traits.ReadTrailsStops | include/common/unicode/utf.h:215-249 | the fall-through reader stops at the first missing byte with `incomplete`, or at the first non-continuation byte with `illegal`, consuming that byte |
| Utf8Traits.DecodeIsEncoding | include/common/unicode/utf.h:189-266 | the bytes `decode` accepts are exactly the shortest encoding of the code point it returns |
| Utf8Traits.DecodeEncode | include/common/unicode/utf.h:189-317 | round trip: decoding the encoding of any valid code point, whatever follows, returns it and consumes its width |
| Utf8Traits.DecodeBadLead | include/common/unicode/utf.h:197-201 | a byte that cannot lead (a continuation byte, C0, C1, F5..FF) is `illegal` after one byte |
| Utf8Traits.DecodeBadTrail | include/common/unicode/utf.h:215-249 | a non-continuation byte where a trail byte is due is `illegal`, and the cursor is left just past it |
| Utf8Traits.DecodeTruncated | include/common/unicode/utf.h:215-249 | a range that ends inside a sequence of good bytes is `incomplete` at the end of the range |
| Utf8Traits.TruncatedOverlong | include/common/unicode/utf.h:215-263 | E0 80 at the end of a range is `incomplete`, while E0 80 80 is `illegal` (overlong), because the range checks run only after all trail bytes are read |
| Utf16Traits.CombineSurrogate | include/common/unicode/utf.h:331-334 | any two units combine into a valid code point in [0x10000, 0x10FFFF] |
| Utf16Traits.IsFirstSurrogate | include/common/unicode/utf.h:325-327 | a unit is a high surrogate exactly when it is in D800..DBFF; a definition |
| Utf16Traits.IsSecondSurrogate | include/common/unicode/utf.h:328-330 | a unit is a low surrogate exactly when it is in DC00..DFFF; a definition |
| Utf16Traits.IsTrail | include/common/unicode/utf.h:347 | a unit is a trail unit exactly when it is a low surrogate; a definition |
| Utf16Traits.IsLead | include/common/unicode/utf.h:351 | a unit is a lead unit exactly when it is not a low surrogate; a definition |
| Utf16Traits.TrailLength | include/common/unicode/utf.h:335-343 | the result is -1, 0 or 1, and it is -1 exactly for a trail unit (a low surrogate) |
| Utf16Traits.Decode | include/common/unicode/utf.h:353-373 | one step stays within the range and consumes 1 or 2 units of a non-empty range; a result that is not a sentinel is a valid code point whose width equals the units consumed |
| Utf16Traits.DecodeValid | include/common/unicode/utf.h:374-382 | on a well-formed sequence it returns what `decode` returns and advances as far |
| Utf16Traits.Width | include/common/unicode/utf.h:384-387 | the width is 1 or 2 units |
| Utf16Traits.HighSurrogate | include/common/unicode/utf.h:393-394 | the first unit of a pair is a high surrogate |
| Utf16Traits.LowSurrogate | include/common/unicode/utf.h:393-395 | the second unit of a pair is a low surrogate |
| Utf16Traits.Encode | include/common/unicode/utf.h:388-398 | a BMP code point is one unit that is not a surrogate; any other is a high surrogate then a low surrogate |
| Utf16Traits.EncodeInto | include/common/unicode/utf.h:388-398 | writes exactly the encoding at the cursor, returns the cursor past it, and leaves every other array cell unchanged |
| Utf16Traits.CombineEncoded | include/common/unicode/utf.h:331-334 | combining the surrogate pair that `encode` writes gives back the code point |
| Utf16Traits.CombinePair | include/common/unicode/utf.h:331-334 | a high surrogate then a low surrogate is the encoding of the code point they combine into |
| Utf16Traits.DecodeIsEncoding | include/common/unicode/utf.h:353-373 | the units `decode` accepts are exactly the encoding of the code point it returns |
| Utf16Traits.DecodeEncode | include/common/unicode/utf.h:353-398 | round trip: decoding the encoding of any valid code point returns it and consumes its width |
| Utf16Traits.DecodeErrors | include/common/unicode/utf.h:362-371 | a lone low surrogate is `illegal` after one unit; a high surrogate at the end is `incomplete`; a high surrogate followed by a unit that is not a low surrogate is `illegal` after two units |
| Utf32Traits.TrailLength | include/common/unicode/utf.h:404-409 | the result is 0 exactly for a valid code point, and -1 otherwise |
| Utf32Traits.IsTrail | include/common/unicode/utf.h:410 | no UTF-32 unit is a trail unit; a definition |
| Utf32Traits.IsLead | include/common/unicode/utf.h:411 | every UTF-32 unit is a lead unit; a definition |
| Utf32Traits.Decode | include/common/unicode/utf.h:418-428 | one step consumes exactly one unit of a non-empty range; a result that is not a sentinel is a valid code point |
| Utf32Traits.DecodeValid | include/common/unicode/utf.h:413-416 | consumes one unit, and on a valid unit returns what `decode` returns |
| Utf32Traits.Width | include/common/unicode/utf.h:429-430 | every code point is one unit wide |
| Utf32Traits.Encode | include/common/unicode/utf.h:431-435 | the encoding is the code point itself, as one unit |
| Utf32Traits.EncodeInto | include/common/unicode/utf.h:431-435 | writes the one unit at the cursor and leaves every other array cell unchanged |
| Utf32Traits.DecodeUnit | include/common/unicode/utf.h:418-428 | a unit decodes to itself when it is a valid code point, and to `illegal` otherwise |
| Utf32Traits.DecodeIsEncoding | include/common/unicode/utf.h:418-435 | the unit `decode` accepts is the encoding of the code point it returns |
| Utf32Traits.DecodeEncode | include/common/unicode/utf.h:418-435 | round trip: decoding the encoding of a valid code point returns it |
| Codec.Width | include/common/unicode/utf.h:86-100 | the width in the selected encoding is between 1 and that encoding's maximal width |
| Codec.Encode | include/common/unicode/utf.h:117-129 | the encoding in the selected width has `width(value)` units |
| Codec.EncodeFits | include/common/unicode/utf.h:299-317 | every unit `encode` writes fits the character type (a byte for UTF-8, 16 bits for UTF-16) |
| Codec.Decode | include/common/unicode/utf.h:69-84 | the decoding contract shared by all widths: bounds, the empty range gives `incomplete`, and a code point's width equals the units consumed |
| Codec.EncodeInto | include/common/unicode/utf.h:117-129 | the array after `encode` is the old contents with the encoding spliced in at the cursor |
| Codec.DecodeIsEncoding | include/common/unicode/utf.h:69-129 | in every width, accepted units are exactly the encoding of the decoded code point |
| Codec.DecodeEncode | include/common/unicode/utf.h:69-129 | round trip in every width |
| Codec.DecodeZero | include/common/unicode/utf.h:207-208 | a zero unit decodes to the code point 0, one unit wide, in every width: the UTF-8 ASCII path cited here, the UTF-16 non-surrogate path at utf.h:359-360 and the UTF-32 valid-unit path at utf.h:423-427 |
| Codec.EncodeZero | include/common/unicode/utf.h:299-302 | the code point 0 is valid and encodes as a single zero unit in every width |
| EncodingUtf.CodePoints | include/common/unicode/encoding_utf.h:40-44 | every code point obtained by successive decoding steps is valid |
| EncodingUtf.Terminator | include/common/unicode/encoding_utf.h:56-59 | the position found holds a zero, and no earlier position does |
| EncodingUtf.UtfToUtf | include/common/unicode/encoding_utf.h:25-48 | the loop's result is `Transcode`: the re-encoded code points, or `conversion_error` as soon as a step yields `illegal` or `incomplete` |
| EncodingUtf.UtfToUtfCStr | include/common/unicode/encoding_utf.h:54-61 | converts exactly the units before the first zero |
| EncodingUtf.UtfToUtfString | include/common/unicode/encoding_utf.h:67-72 | converts all units of the string, embedded zeros included |
| EncodingUtf.EncodeAllAppend | include/common/unicode/encoding_utf.h:40-46 | encoding a concatenation of code points is the concatenation of their encodings |
| EncodingUtf.EncodeAllFits | include/common/unicode/encoding_utf.h:45 | every unit of a conversion result fits the target character type |
| EncodingUtf.EncodeAllLength | include/common/unicode/encoding_utf.h:29-35 | the result length is the sum of the output widths, so nothing is lost to capacity |
| EncodingUtf.CodePointsSound | include/common/unicode/encoding_utf.h:40-44 | the decoded code points re-encode to exactly the source |
| EncodingUtf.CodePointsComplete | include/common/unicode/encoding_utf.h:40-44 | a concatenation of encodings of valid code points decodes back to exactly those code points |
| EncodingUtf.TranscodeSound | include/common/unicode/encoding_utf.h:40-47 | a successful conversion decoded the whole source into valid code points whose encodings make up the source, and its result is their encodings in the target |
| EncodingUtf.TranscodeComplete | include/common/unicode/encoding_utf.h:40-47 | a source that is the encoding of valid code points converts to their encodings in the target |
| EncodingUtf.TranscodeSucceedsIffWellFormed | include/common/unicode/encoding_utf.h:40-47 | conversion succeeds if and only if the source is a concatenation of encodings of valid code points, and then the result is determined by them |
| EncodingUtf.TranscodeEmpty | include/common/unicode/encoding_utf.h:28-40 | an empty range gives an empty string, never an error |
| EncodingUtf.TranscodeSameEncoding | include/common/unicode/encoding_utf.h:40-46 | converting a well-formed source to its own encoding returns it unchanged |
| EncodingUtf.TranscodeRoundTrip | include/common/unicode/encoding_utf.h:40-46 | converting to another encoding and back returns the original source |
| EncodingUtf.TranscodeLength | include/common/unicode/encoding_utf.h:29-35 | the result length is the sum of the target widths of the decoded code points |
| EncodingUtf.TranscodeKeepsZeros | include/common/unicode/encoding_utf.h:67-72 | an embedded zero unit passes through as a zero unit between the conversions of its two sides |
| Convert.BoundedRun | include/common/unicode/convert.h:33-52 | the loop never writes more units than its budget |
| Convert.BasicConvert | include/common/unicode/convert.h:25-55 | returns null or the buffer itself; the new buffer is what `Converted` describes: for size 0 null and the buffer unchanged, otherwise what the loop wrote, a 0 after it, and the rest untouched |
| Convert.StrEnd | include/common/unicode/convert.h:62-68 | returns the position of the first zero unit |
| Convert.NarrowRange | include/common/unicode/convert.h:91-94 | `basic_convert` from the wide encoding to UTF-8 on the range |
| Convert.Narrow | include/common/unicode/convert.h:79-83 | `basic_convert` from the wide encoding to UTF-8 on the units before the first zero |
| Convert.WidenRange | include/common/unicode/convert.h:114-117 | `basic_convert` from UTF-8 to the wide encoding on the range |
| Convert.Widen | include/common/unicode/convert.h:102-106 | `basic_convert` from UTF-8 to the wide encoding on the units before the first zero |
| Convert.NarrowCString | include/common/unicode/convert.h:124-128 | the units before the first zero converted to UTF-8 by `utf_to_utf` |
| Convert.WidenCString | include/common/unicode/convert.h:135-139 | the units before the first zero converted to the wide encoding by `utf_to_utf` |
| Convert.NarrowString | include/common/unicode/convert.h:145-149 | the whole string converted to UTF-8 by `utf_to_utf` |
| Convert.WidenString | include/common/unicode/convert.h:156-160 | the whole string converted to the wide encoding by `utf_to_utf` |
| Convert.NarrowRangeString | include/common/unicode/convert.h:167-171 | the range converted to UTF-8 by `utf_to_utf` |
| Convert.BoundedRunMatchesTranscode | include/common/unicode/convert.h:33-52 | the bounded loop succeeds exactly when `utf_to_utf` succeeds and its result fits the budget, and it then writes that result |
| Convert.BoundedRunPrefix | include/common/unicode/convert.h:33-52 | what the loop wrote before stopping is a prefix of the full conversion |
| Convert.ConvertedMeaning | include/common/unicode/convert.h:19-55 | size 0 gives null and no write; otherwise the result is the buffer exactly when the source is well-formed and its conversion plus the terminator fits, the buffer then holding the `utf_to_utf` result and a 0; a 0 is always written within the buffer; nothing at or past `buffer_size` changes |
| Convert.EmptySource | include/common/unicode/convert.h:34-53 | an empty source succeeds and leaves a lone terminator |
| Convert.WideEncoding | include/common/unicode/utf.h:141-142 | the codec of `wchar_t`, chosen by its size: UTF-16 where it is two bytes wide (Windows), UTF-32 where it is four; a definition |
| FlagOps.FlagSet | include/common/flag_ops.h:10-13 | every bit of `flag` is set, so `FlagTest` then holds, and every other bit is unchanged |
| FlagOps.FlagClear | include/common/flag_ops.h:15-18 | every bit of `flag` is cleared, so a non-zero flag then fails `FlagTest`, and every other bit is unchanged |
| FlagOps.FlagFlip | include/common/flag_ops.h:20-23 | every bit of `flag` is inverted and every other bit is unchanged |
| FlagOps.FlagTest | include/common/flag_ops.h:25-28 | `(mask & flag) == flag`: the test holds when every bit of `flag` is set in `mask`; a definition, characterised bit by bit by `FlagOps.FlagTestMeaning` |
| FlagOps.FlipInvolution | include/common/flag_ops.h:20-23 | two flips with the same flag restore the mask |
| FlagOps.SetAndClearDetermined | include/common/flag_ops.h:10-18 | the promised effect of set and clear determines the new mask: `mask \| flag` and `mask & ~flag` |
| FlagOps.FlagTestMeaning | include/common/flag_ops.h:25-28 | the test holds if and only if every single bit of `flag` is also set in `mask` |
| FlagOps.FlagTestSelf | test/flag_ops_test.cpp:77 | every mask passes the test against itself |

## Left out

- Allocators, `char_traits`, the `reserve` capacity hint and the branch-prediction macros:
  none of them affects results.
- UTF-8 and UTF-16 `decode_valid` on ill-formed input. The source leaves it undefined, so
  `Utf8Traits.DecodeValid` and `Utf16Traits.DecodeValid` require a well-formed sequence.
  `Utf32Traits.DecodeValid` is total, as the source's is: it returns any unit unchecked and
  agrees with `decode` when the unit is a valid code point.
- Character signedness. A `char` byte and a signed `wchar_t` are read as their unsigned bit
  pattern, which is what the source's casts and masks compute.
- The generic output iterator. `encode` writes into an array (`EncodeInto`). The
  `back_insert_iterator` of `utf_to_utf` appends to a sequence.
- Null pointers and ranges given as pointer pairs. Sources are sequences. A NUL-terminated
  source is required to contain a 0 unit, as the scanning loops assume.
- Convert.BasicConvert states the buffer contents exactly on failure too: what was written
  before the loop stopped, then a 0. The source's comment calls them undefined.
- `conversion_error` is the `Failure` arm of `EncodingUtf.Result`. Nothing is thrown.
- FlagOps.FlagSet, FlagOps.FlagClear, FlagOps.FlagFlip and FlagOps.FlagTest are modelled
  for 64-bit masks only. The templates accept any integral type, and the other widths behave
  the same bit by bit.
- The comment on the allocating `widen` overloads says they are implemented only on Windows.
  The code has no such restriction, and the model follows the code on both platforms.
