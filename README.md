# SMSCounter in Dafny

A verified model of the PHP class `SMSCounter` (instasent/sms-counter-php).
The class does three jobs:

- It classifies a text against the GSM 7-bit default alphabet and its
  extension table. These are sections 6.2.1 and 6.2.1.1 of 3GPP TS 23.038.
- It counts how many SMS parts the text needs. A multipart message carries
  the concatenation header of section 9.2.3.24.1 of 3GPP TS 23.040.
- It keeps texts inside a budget: it replaces or removes characters
  outside the alphabet, and it truncates a text to a number of parts.

The class has no fields. Its straight-line functions become Dafny
functions. Its loops become methods with loop invariants. The decoder,
encoder and truncation loops are proved equal to a specification function.
The two loops of `replaceNonGsmChars` (`Sanitizer.OutsideKeys` and
`Sanitizer.SetSlots`) instead state the key set they collect and the new
value of every slot.

Modules, one per component:

- `Utf8`: the hand-written decoder `utf8ToUnicode` and the encoders
  `utf8Chr` and `unicodeToUtf8`.
  - The decoder is a fold of one step function over a state that mirrors
    the PHP locals `$unicode`, `$values` and `$lookingFor`.
  - It only knows 1-, 2- and 3-byte forms, so a lead byte of 240 or more
    opens a 3-byte group.
- `Filters`: order-preserving filtering and substitution. These are the
  shapes of `array_diff`, `array_intersect`, and of `unset` followed by
  `foreach`.
- `Alphabet`: the three tables, membership in them, and `detectEncoding`.
- `Segments`: `count`, as an `SmsCount` record, with the source's test
  vectors.
- `Sanitizer`: `replaceNonGsmChars`, `removeNonGsmChars` and
  `sanitizeToGSM`.
  - PHP arrays with `unset` holes are modelled as sequences of
    `Option` slots.
  - A replacement is falsy exactly when it is `""` or `"0"`.
- `Truncation`: `truncate`.
  - `FirstFit` says where the count-down loop stops.
  - The method keeps the source's cut-of-the-cut loop. It is proved to
    return the cut of the original text at the first limit that fits.

Texts are sequences of code points (`seq<int>`). Byte strings are
sequences of `byte` (0..255).

Behaviour of the code worth knowing:

- The decoder has no 4-byte form of section 3 of RFC 3629. A character
  above U+FFFF is not counted as two units; it decodes to garbage
  (`Utf8.AstralNotRoundTripped`).
- `replaceNonGsmChars` refuses a replacement longer than one byte, since
  `strlen` counts bytes, although its doc comment (SMSCounter.php:293)
  speaks of "more than 1 character".
  - A single ASCII byte is used as is.
  - A single byte of 128 or more decodes to nothing, and `array_pop` then
    gives null. The replacement code point is then 0
    (`Sanitizer.OneByteReplacement`).
- For a budget of 0, `truncate` returns the empty text
  (`Truncation.TruncateZeroBudget`).
- `truncate` does not always keep the longest prefix that fits
  (`Truncation.TruncateNotLongest`).

## Model

| member | source | states |
|---|---|---|
| Utf8.GroupValue | SMSCounter.php:220-223 | the code point of a completed group is below 2048 for a 2-byte group and below 65536 for a 3-byte group |
| Utf8.Step | SMSCounter.php:207-229 | one iteration of the decoder: an ASCII byte is emitted at once, even inside a group; a lead byte below 224 opens a 2-byte group and any other byte of 128 or more opens a 3-byte group; the byte that completes a group emits its value and resets the state; the state stays well formed |
| Utf8.Feed | SMSCounter.php:206-230 | running the loop over any bytes keeps the decoder state well formed |
| Utf8.Decode | SMSCounter.php:199-233 | the result is never longer than the input, and every code point in it is below 65536 |
| Utf8.Utf8ToUnicode | SMSCounter.php:199-233 | the loop returns exactly `Decode` of its input; an unfinished trailing group is dropped |
| Utf8.FeedConcat | SMSCounter.php:206-230 | the decoder is a left fold: decoding `a + b` is decoding `b` from the state `a` leaves |
| Utf8.FeedGrowth | SMSCounter.php:206-230 | the decoder only appends to its output, at most one code point per byte read |
| Utf8.FeedBelow | SMSCounter.php:220-225 | every code point the decoder emits is below 65536 |
| Utf8.Utf8Chr | SMSCounter.php:240-258 | 1, 2, 3 or 4 bytes for code points below 128, 2048, 65536 and above; the lead byte carries the 0, 110, 1110 or 11110 prefix and every later byte is a continuation byte |
| Utf8.Encode | SMSCounter.php:267-275 | the encoding has between one and four bytes per code point |
| Utf8.EncodeConcat | SMSCounter.php:267-275 | encoding a concatenation is concatenating the encodings |
| Utf8.UnicodeToUtf8 | SMSCounter.php:267-275 | the loop returns exactly `Encode` of the code points |
| Utf8.TwoByteBits | SMSCounter.php:252 | the decoder's 2-byte arithmetic recovers the code point from `utf8Chr`'s 2-byte form |
| Utf8.ThreeByteBits | SMSCounter.php:254 | the decoder's 3-byte arithmetic recovers the code point from `utf8Chr`'s 3-byte form |
| Utf8.FeedUtf8Chr | SMSCounter.php:240-258 | decoding the encoding of one code point below 65536 emits exactly it and leaves no group pending |
| Utf8.FeedEncode | SMSCounter.php:267-275 | decoding the encoding of a sequence below 65536 appends exactly that sequence |
| Utf8.RoundTrip | SMSCounter.php:199-275 | `utf8ToUnicode(unicodeToUtf8(s)) == s` for every sequence of code points below 65536 |
| Utf8.TwoByteGroup | SMSCounter.php:213-228 | a lead byte below 224 completes after one more byte, with the 5 + 6 payload bits |
| Utf8.ThreeByteGroup | SMSCounter.php:213-228 | a lead byte of 224 or more emits nothing after two bytes and completes after the third, with the 4 + 6 + 6 payload bits |
| Utf8.AsciiInsideGroup | SMSCounter.php:209-211 | an ASCII byte inside a pending group is emitted ahead of the group's code point |
| Utf8.AstralEncoded | SMSCounter.php:244-247 | U+1F60E is encoded as the four bytes F0 9F 98 8E |
| Utf8.AstralNotRoundTripped | SMSCounter.php:213-228 | those four bytes decode to U+07D8: the first three are read as a 3-byte group and the fourth is dropped as an unfinished group |
| Filters.Filter | SMSCounter.php:179 | filtering never lengthens a sequence |
| Filters.FilterMembers | SMSCounter.php:179-185 | a value survives the filter exactly when it occurs in the input and passes the test |
| Filters.FilterMultiplicity | SMSCounter.php:185 | every occurrence of a passing value is kept and none of a failing one |
| Filters.FilterEmpty | SMSCounter.php:181 | nothing survives exactly when no element passes |
| Filters.FilterAll | SMSCounter.php:321-325 | the filter keeps the sequence unchanged exactly when every element passes |
| Filters.FilterConcat | SMSCounter.php:321-327 | filtering preserves order: the filter of a concatenation is the concatenation of the filters |
| Filters.Substitute | SMSCounter.php:315-319 | the overwrite loop's effect on a sequence: the length is kept, every element that passes stays in place and every other one becomes the value |
| Alphabet.InTableMembers | SMSCounter.php:310 | the scan finds a code point exactly when the table holds it |
| Alphabet.InTable | SMSCounter.php:310 | the `in_array` scan of a table; no contract of its own, `InTableMembers` proves it finds exactly the table's members |
| Alphabet.AddedInBaseMap | SMSCounter.php:70-98 | every extension code point is already in the default alphabet table |
| Alphabet.ExMapIsBaseMap | SMSCounter.php:100-106 | as a set, the merged map is exactly the default alphabet table |
| Alphabet.MapByRows | SMSCounter.php:72-91 | membership in the merged map is membership in one of the rows of the table |
| Alphabet.PlainAscii | SMSCounter.php:73-84 | line feed, carriage return, space, digits, Latin letters and the punctuation below `[` are in the map and are not extension characters |
| Alphabet.NulOutside | SMSCounter.php:72-91 | NUL is outside the merged map |
| Alphabet.BacktickOutside | SMSCounter.php:81 | the backtick is outside the merged map |
| Alphabet.AAcuteOutside | SMSCounter.php:87 | small a with acute accent is outside the merged map |
| Alphabet.NTildeInside | SMSCounter.php:88 | small n with tilde is in the merged map |
| Alphabet.SnowmanOutside | SMSCounter.php:72-91 | the snowman U+2603 is outside the merged map |
| Alphabet.ExCharsOccurrences | SMSCounter.php:185 | `$exChars` holds every occurrence of every extension character and nothing else |
| Alphabet.NonGsmChars | SMSCounter.php:179 | `array_diff` against the merged map; no contract of its own, `Classification` proves it is empty exactly when every code point is in the map |
| Alphabet.ExChars | SMSCounter.php:185 | `array_intersect` with the extension table; no contract of its own, `ExCharsOccurrences` gives its multiplicities |
| Alphabet.DetectEncoding | SMSCounter.php:173-192 | `$exChars` is the extension characters of the text under GSM_7BIT_EX and empty otherwise |
| Alphabet.Classification | SMSCounter.php:179-191 | UTF16 exactly when some code point is outside the merged map; GSM_7BIT_EX exactly when all are inside and some is an extension character; GSM_7BIT exactly when all are inside and none is an extension character; the empty text is GSM_7BIT |
| Segments.CeilDiv | SMSCounter.php:154 | the quotient is the least number of parts that hold the length |
| Segments.CeilingFacts | SMSCounter.php:154-155 | no part exactly for no units, one part exactly when the units fit in one, and the room left in the last part is less than a part |
| Segments.Split | SMSCounter.php:154-163 | `remaining` is below the part size, no part is needed exactly for length 0, and at most one exactly when the length fits one part |
| Segments.Segmentation | SMSCounter.php:129-155 | `per_message` is 160/160/70, or 153/153/67 once the length exceeds that; `remaining` is below `per_message`; no part exactly for length 0; at most one part exactly when the length fits the single-part size |
| Segments.SegmentationArithmetic | SMSCounter.php:154-155 | `messages` is the ceiling of `length / per_message` and `remaining + length == per_message * messages` |
| Segments.MorePartsThan | SMSCounter.php:154 | a multipart length above `k` full parts needs more than `k` parts |
| Segments.AtMostParts | SMSCounter.php:154 | a multipart length within `k` full parts needs at most `k` parts |
| Segments.Count | SMSCounter.php:113-166 | the encoding is `detectEncoding`'s; the length is the number of code points plus, only under GSM_7BIT_EX, one per extension occurrence; the parts are `Segmentation`'s; no part is needed exactly for the empty text |
| Segments.UnitsOfExChars | SMSCounter.php:120-127 | character by character, an extension character costs two units under GSM_7BIT_EX and every other code point one |
| Segments.CountLengthIsUnits | SMSCounter.php:120-127 | the length `count` reports is the text's cost in units, character by character |
| Segments.CountEmpty | SMSCounter.php:113-166 | the empty text is GSM_7BIT with length 0, `per_message` 160, 0 remaining and 0 messages |
| Segments.CountPlainGsm | SMSCounter.php:122-136 | a text of default-alphabet characters only is GSM_7BIT with one unit per character |
| Segments.CountUnicode | SMSCounter.php:145-151 | a text with one character outside the map is UTF16 with one unit per character |
| Segments.SinglePart | SMSCounter.php:129-155 | a non-empty length that fits one part is one part, with the rest of it remaining |
| Segments.CountGsmText | Tests/SMSCounterTest.php:10-25 | "a GSM Text" is GSM_7BIT, 10 / 160 / 150 / 1 |
| Segments.CountGsmSymbols | Tests/SMSCounterTest.php:27-41 | "a GSM +Text" is GSM_7BIT, 11 / 160 / 149 / 1 |
| Segments.CountGsmMultipart | Tests/SMSCounterTest.php:43-74 | 170 digits are GSM_7BIT, 170 / 153 / 136 / 2 |
| Segments.CountUnicodeMultipart | Tests/SMSCounterTest.php:76-98 | a backtick and 70 digits are UTF16, 71 / 67 / 63 / 2 |
| Segments.CountCarriageReturn | Tests/SMSCounterTest.php:100-114 | line feed and carriage return are GSM_7BIT, 2 / 160 / 158 / 1 |
| Segments.CountBacktick | Tests/SMSCounterTest.php:116-130 | a lone backtick is UTF16, 1 / 70 / 69 / 1 |
| Segments.Digits | Tests/SMSCounterTest.php:45-61 | the repeated "1234567890" has the requested length and only digits |
| Segments.DigitsAreGsm | Tests/SMSCounterTest.php:45-61 | every digit is a default-alphabet character and not an extension character |
| Segments.CountDigits | SMSCounter.php:113-166 | a run of digits is GSM_7BIT with one unit per digit |
| Sanitizer.ReplacementCodePoint | SMSCounter.php:306-307 | the replacement code point is below 65536 |
| Sanitizer.Truthy | SMSCounter.php:315-321 | the test `if ($replacement)`: only "" and "0" are falsy; no contract of its own, `OneByteReplacement` and `ReplaceNonGsmChars` use it |
| Sanitizer.Sanitized | SMSCounter.php:309-325 | the code points handed to `unicodeToUtf8` stay below 65536 when the input's are |
| Sanitizer.Present | SMSCounter.php:270-272 | `foreach` over an array with `unset` holes visits the present slots in order; no contract of its own, `PresentFilter` and `PresentSubstitute` characterise it |
| Sanitizer.PresentAllSome | SMSCounter.php:316-318 | with no holes, `foreach` visits every slot in order |
| Sanitizer.PresentFilter | SMSCounter.php:321-327 | unsetting the keys of the failing elements and walking the rest is filtering |
| Sanitizer.PresentSubstitute | SMSCounter.php:315-327 | overwriting the keys of the failing elements and walking every slot is substitution |
| Sanitizer.OutsideKeys | SMSCounter.php:309-313 | the collected keys are exactly those of the code points outside the merged map |
| Sanitizer.SetSlots | SMSCounter.php:315-325 | every listed key gets the new value and every other slot is unchanged |
| Sanitizer.ReplaceNonGsmChars | SMSCounter.php:296-328 | `false` exactly when the replacement is longer than one byte; otherwise the re-encoded sanitized text, whose decoding is exactly the sanitized code points |
| Sanitizer.RemoveNonGsmChars | SMSCounter.php:282-285 | the decoded result is the decoded input filtered to the merged map, in order |
| Sanitizer.SanitizeToGsm | SMSCounter.php:330-336 | whatever the accent folding does, the result decodes to the folded text filtered to the map, all of it in the map, and it is never UTF16 |
| Sanitizer.RemovalKeepsGsm | SMSCounter.php:321-327 | removal leaves only map code points, and leaves a text unchanged exactly when it is all in the map |
| Sanitizer.RemovalIdempotent | SMSCounter.php:321-327 | removing twice removes nothing more |
| Sanitizer.ReplacementKeepsPositions | SMSCounter.php:315-319 | with a truthy replacement the length is kept, each code point outside the map is replaced and every other one stays |
| Sanitizer.AsciiKept | SMSCounter.php:309-327 | removal leaves a text of digits, Latin letters, the space and the ASCII punctuation below `[` unchanged |
| Sanitizer.RemovalVectorEnds | Tests/SMSCounterTest.php:132-141 | removal drops a with acute accent and the backtick, and keeps the space and n with tilde |
| Sanitizer.RemovalVector | Tests/SMSCounterTest.php:132-141 | "á", an ASCII text such as "no-unicode-remaining", then "` ñ" comes back as the ASCII text followed by " ñ" |
| Sanitizer.OneByteReplacement | SMSCounter.php:306-307 | an ASCII byte replaces with itself; a lone byte of 128 or more replaces with NUL, itself outside the map |
| Truncation.Prefix | SMSCounter.php:557 | `mb_substr($str, 0, $n)` is a prefix of length `min(n, |s|)` |
| Truncation.StartLimit | SMSCounter.php:540-554 | the loop starts from the single-part size exactly when the budget is at most two parts |
| Truncation.InitialLimit | SMSCounter.php:540-554 | the two `if` blocks compute `StartLimit` |
| Truncation.ZeroFits | SMSCounter.php:556-561 | the cut with limit 0 is empty and fits any budget, so the loop stops |
| Truncation.FirstFit | SMSCounter.php:556-561 | the count-down stops at a limit no higher than the start that passes, and every limit above it fails |
| Truncation.FirstFitUnique | SMSCounter.php:556-561 | the stop is the only limit that passes with every limit above it failing |
| Truncation.FirstFitStep | SMSCounter.php:556-561 | a failing limit is above 0, and the count-down goes on from the limit below to the same stop |
| Truncation.PrefixOfPrefix | SMSCounter.php:557 | cutting a cut to a shorter length is cutting the original |
| Truncation.CutBelow | SMSCounter.php:557-560 | after the cut with a limit, the cut with a lower limit equals the original's cut |
| Truncation.Truncated | SMSCounter.php:532-564 | the result is a prefix of the text that fits the budget, and a text that fits is returned unchanged |
| Truncation.TooLong | SMSCounter.php:561 | the `while` condition on the cut made with a limit; no contract of its own, used by `FirstFit` through `CutFits` |
| Truncation.CutFits | SMSCounter.php:557-561 | the loop's stopping test as a function of the limit; no contract of its own, `ZeroFits` proves it holds at 0 |
| Truncation.Truncate | SMSCounter.php:532-564 | the loop, which cuts its own previous cut, returns exactly `Truncated` |
| Truncation.TruncateIdempotent | SMSCounter.php:532-564 | truncating twice gives the same as truncating once |
| Truncation.TruncateZeroBudget | SMSCounter.php:532-564 | with no part allowed, the empty text is returned |
| Truncation.TruncatedAt | SMSCounter.php:556-563 | a text that does not fit is cut at the first fitting limit below the start |
| Truncation.PlainCut | SMSCounter.php:557-558 | every cut of a text of default-alphabet characters is GSM_7BIT with one unit per code point |
| Truncation.TruncateGsmOnePart | Tests/SMSCounterTest.php:154-163 | any text of more than 160 default-alphabet characters (none from the extension table), such as the test's Lorem ipsum text, truncated to one part keeps exactly its first 160 |
| Truncation.GsmCutTooLong | SMSCounter.php:556-561 | with a budget of two, every cut of such a text longer than 306 characters with limit 154 to 160 needs three parts |
| Truncation.GsmCutFits | SMSCounter.php:556-561 | the cut of such a text at limit 153 (306 characters) fits two parts |
| Truncation.TruncateGsmTwoParts | Tests/SMSCounterTest.php:165-174 | any such text of more than 306 characters, such as the test's 319-character text, truncated to two parts keeps exactly its first 306: the loop starts at 160 and stops at 153 |
| Truncation.UnicodeCut | SMSCounter.php:557-558 | a cut that keeps a code point outside the merged map is UTF16 with one unit per code point |
| Truncation.TruncateUnicodeOnePart | Tests/SMSCounterTest.php:176-185 | any text of more than 70 code points with a code point outside the merged map among its first 70, such as the test's text with a snowman at index 19, truncated to one part keeps exactly its first 70 |
| Truncation.UnicodeCutTooLong | SMSCounter.php:556-561 | with a budget of two, every cut with limit 68 to 70 of such a text longer than 134 code points needs three UTF16 parts |
| Truncation.UnicodeCutFits | SMSCounter.php:556-561 | the cut at limit 67 (134 code points) fits two UTF16 parts |
| Truncation.TruncateUnicodeTwoParts | Tests/SMSCounterTest.php:187-196 | any text of more than 134 code points with a code point outside the merged map among its first 134, such as the test's snowman text, truncated to two parts keeps exactly its first 134 |
| Truncation.DigitsThenSnowman | SMSCounter.php:534-538 | 80 digits and a snowman need two UTF16 parts |
| Truncation.DigitsThenSnowmanCut | SMSCounter.php:557-558 | the cut to 70 code points drops the snowman and fits one part |
| Truncation.TruncateNotLongest | SMSCounter.php:556-561 | 80 digits and a snowman truncate to 70 digits, although the 80-digit prefix fits one part |

## Left out

- `removeAccents` (SMSCounter.php:343-521) is a static table applied with `strtr`. `SanitizeToGsm` takes it as a parameter, so every fold is covered.
- `count` and `truncate` take the decoded code points, not the UTF-8 byte string. The decoding step is `Utf8.Decode`.
- `mb_substr` is a code-point prefix. Its dependence on the mbstring internal encoding is not modelled.
- `truncate` re-encodes nothing. Its result is the code-point prefix.
- Truncation.Truncate: `limitSms` is a natural number. For a negative budget the source loop need not terminate, so that case is not modelled.
- `detectEncoding`'s branch that decodes a string argument (SMSCounter.php:175-177) is not modelled. `count` always passes an array.
- Segments.CeilDiv: PHP computes `ceil` on a float quotient. The model uses exact integer ceiling division.
- Utf8.Utf8Chr requires a code point in the Unicode range. `intval` and the wrap-around of `chr` for other integers are not modelled.
- Utf8.RoundTrip holds only below 65536. The decoder has no 4-byte form.
- PHP loose typing is not modelled. The result object is the `SmsCount` record, and a null replacement is the empty string.
- The `sanitizeToGSM` vectors (Tests/SMSCounterTest.php:143-152, 198-206) are not modelled. They depend on `removeAccents`.
- The removal vector (Tests/SMSCounterTest.php:132-141) is stated on code points, not on its UTF-8 bytes.
- Truncation.TruncateGsmOnePart, Truncation.TruncateGsmTwoParts, Truncation.TruncateUnicodeOnePart and Truncation.TruncateUnicodeTwoParts are stated for every text of the shape the truncate tests (Tests/SMSCounterTest.php:154-196) use. Those texts are instances: the Lorem ipsum texts hold only letters, spaces, commas and full stops, and the snowman texts hold U+2603 at index 19. The literal test texts themselves are not written out, because evaluating them is too costly for the verifier.
