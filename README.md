# zxing decoding core in Dafny

This project models part of the Java core of the zxing barcode library and proves
properties about it. The modelled parts are:

- the QR Code bit-stream decoder (`DecodedBitStreamParser`). It reads numeric, alphanumeric,
  byte, Kanji and ECI segments from a bit cursor and handles FNC1 and the byte-encoding guess;
- the Code 39 row reader (`Code39Reader`). This covers the start-pattern search, the
  narrow/wide classification of bar widths, the character table, the optional check
  character and the optional Full ASCII escapes;
- the point check and nudge that runs before grid sampling (`GridSampler.checkAndNudgePoints`),
  plus the process-wide sampler registry;
- the calendar-event result and its RFC 2445 date check (`CalendarParsedResult`);
- the `geo:` URI parser (`GeoResultParser`);
- the MobileTag "simple web" result (`MobileTagSimpleWebParsedResult`);
- the decoded `Result` object and its metadata table;
- the two multi-format 1D readers (`MultiFormatUPCEANReader`, `MultiFormatOneDReader`). These
  choose their readers from the requested formats and return the first outcome that is not a
  `ReaderException`.

Java's `null` is written `None`, and an exception is written `Fail(message)` (module `Base`).
This includes the unchecked ones: the alphanumeric decoder indexes its 45-entry table with
11-bit and 6-bit values, and an index of 45 or more, which makes Java throw, is a failure here.
The multi-format readers tell the two kinds apart, because their loops catch only
`ReaderException`: a reader's outcome there is an `Attempt`, one of `Decoded`, `ReaderError`
and `Unchecked`.
The Code 39 reader is modelled twice over, by its character values and Full ASCII pair table
(`Tables`): `AsWritten` gives the tables of the source, which `Code39Reader.DecodeRow` uses,
and `Corrected` gives those of the Code 39 standard, about which the round trips are proved
(see Findings).
Code that changes state stays imperative: the QR segment decoders, the Code 39 counter
arrays, the point array of the grid sampler, the metadata table and the reader lists.
Each such method is proved equal to a specification function, and the properties are proved
about those functions. Collaborators whose source is not part of this model are parameters:
- `Mode.forBits`, the character-count widths, the ECI lookup, the JVM charset decoders and
  the platform's default encoding (the QR `Platform` record);
- `recordPattern` (Code 39);
- `Double.parseDouble` (geo);
- `matchDelimitedFields` (MobileTag);
- the individual UPC/EAN, Code 39 and Code 128 row readers, and the start-guard search (the
  multi-format readers).

Module layout:

| Module | File | Contents |
|---|---|---|
| `Base` | base.dfy | Option/Outcome and string helpers |
| `Bits` | bits.dfy | bit strings and the `BitSource` cursor |
| `TextBuffer` | text_buffer.dfy | `StringBuffer` |
| `QrSpec` | qr_spec.dfy | QR specification functions and lemmas |
| `DecodedBitStreamParser` | qr_parser.dfy | QR methods |
| `Code39Spec` | code39_spec.dfy | Code 39 specification |
| `Code39Reader` | code39_reader.dfy | Code 39 methods and class |
| `GridSampling` | grid_sampler.dfy | grid-sampler point check and registry |
| `CalendarResult` | calendar.dfy | calendar result |
| `GeoResult` | geo.dfy | `geo:` URI parser |
| `DecodeResult` | result.dfy | `Result` |
| `MobileTagSimpleWeb` | mobile_tag.dfy | MobileTag simple web |
| `MultiFormatReaders` | multi_format.dfy | multi-format 1D readers |

## Model

| member | source | states |
|---|---|---|
| Base.IndexOfFrom | src/com/google/zxing/client/result/GeoResultParser.java:40-46 | `indexOf(c, from)`: the first index at or after `from` that holds `c`, or -1 when there is none |
| Base.DecimalRoundTrip | src/com/google/zxing/Result.java:96 | the decimal text of a count reads back as that count |
| Bits.BitsRoundTrip | src/com/google/zxing/qrcode/decoder/DecodedBitStreamParser.java:70 | an n-bit big-endian value written back as n bits gives the original bits |
| Bits.BytesToBitsAt | src/com/google/zxing/qrcode/decoder/DecodedBitStreamParser.java:59 | byte k of the input is bits 8k to 8k+8 of the cursor, most significant bit first |
| Bits.BitSource.constructor | src/com/google/zxing/qrcode/decoder/DecodedBitStreamParser.java:59 | the cursor starts at bit 0 of the bytes' bits |
| Bits.BitSource.Available | src/com/google/zxing/qrcode/decoder/DecodedBitStreamParser.java:66 | the offset plus the bits still available is the total |
| Bits.BitSource.ReadBits | src/com/google/zxing/qrcode/decoder/DecodedBitStreamParser.java:70 | reading n bits yields their big-endian value and advances by n; with fewer than n left it fails and does not move |
| TextBuffer.StringBuffer.Append | src/com/google/zxing/qrcode/decoder/DecodedBitStreamParser.java:182-183 | appending adds the text at the end |
| TextBuffer.StringBuffer.DeleteCharAt | src/com/google/zxing/qrcode/decoder/DecodedBitStreamParser.java:197 | exactly the one character is removed |
| TextBuffer.StringBuffer.SetCharAt | src/com/google/zxing/qrcode/decoder/DecodedBitStreamParser.java:200 | exactly the one character is replaced |
| QrSpec.AlphanumericTable | src/com/google/zxing/qrcode/decoder/DecodedBitStreamParser.java:38-43 | the character computed for each index below 45 (the ten digits, then `A`-`Z`, then the nine others) is the table's entry at that index; for indices below 10 it is the decimal digit |
| QrSpec.NumericSpec | src/com/google/zxing/qrcode/decoder/DecodedBitStreamParser.java:207-238 | a decoded numeric segment has `count` characters and uses 10 bits per three digits plus 7 or 4 bits for a last two or one |
| QrSpec.NumericSpecDigits | src/com/google/zxing/qrcode/decoder/DecodedBitStreamParser.java:211-237 | every character of a decoded numeric segment is a decimal digit |
| QrSpec.NumericRoundTrip | src/com/google/zxing/qrcode/decoder/DecodedBitStreamParser.java:207-238 | decoding the encoding of any digit sequence gives back those digits and stops right after them |
| QrSpec.AlphanumericRawSpec | src/com/google/zxing/qrcode/decoder/DecodedBitStreamParser.java:178-189 | a decoded alphanumeric segment has `count` characters and uses 11 bits per pair plus 6 for an odd last one |
| QrSpec.AlphanumericSpecChars | src/com/google/zxing/qrcode/decoder/DecodedBitStreamParser.java:180-189 | every decoded alphanumeric character is the table character of some index below 45 |
| QrSpec.AlphanumericRoundTrip | src/com/google/zxing/qrcode/decoder/DecodedBitStreamParser.java:174-189 | decoding the encoding of any sequence of table indices gives back their characters |
| QrSpec.Fnc1Rewrite | src/com/google/zxing/qrcode/decoder/DecodedBitStreamParser.java:191-204 | the FNC1 rewrite never lengthens the text |
| QrSpec.Fnc1RoundTrip | src/com/google/zxing/qrcode/decoder/DecodedBitStreamParser.java:191-204 | the FNC1 rewrite undoes escaping (`%` to `%%`, GS to `%`) wherever the escaping is unambiguous |
| QrSpec.KanjiBytesRoundTrip | src/com/google/zxing/qrcode/decoder/DecodedBitStreamParser.java:123-133 | each 13-bit Kanji value becomes a Shift_JIS lead byte in 0x81-0x9F or 0xE0-0xEB and a trail byte from 0x40, from which the value is recovered |
| QrSpec.KanjiSpec | src/com/google/zxing/qrcode/decoder/DecodedBitStreamParser.java:119-136 | a Kanji segment of `count` characters yields 2·count bytes from 13·count bits |
| QrSpec.ByteSpec | src/com/google/zxing/qrcode/decoder/DecodedBitStreamParser.java:149-155 | a byte segment fails exactly when fewer than 8·count bits remain; otherwise it yields `count` bytes |
| QrSpec.ByteSegmentRoundTrip | src/com/google/zxing/qrcode/decoder/DecodedBitStreamParser.java:149-155 | a byte segment read at a byte boundary yields exactly the input bytes there |
| QrSpec.EciSpec | src/com/google/zxing/qrcode/decoder/DecodedBitStreamParser.java:295-310 | an ECI value takes 8, 16 or 24 bits and is below 2^21 |
| QrSpec.EciMasks | src/com/google/zxing/qrcode/decoder/DecodedBitStreamParser.java:297-307 | the source's bit masks on the first byte select the ranges and the values the ECI function uses |
| QrSpec.EciRoundTrip | src/com/google/zxing/qrcode/decoder/DecodedBitStreamParser.java:295-310 | every ECI value below 2^21, encoded in its shortest form, parses back to itself |
| QrSpec.GuessIsoWithoutCandidates | src/com/google/zxing/qrcode/decoder/DecodedBitStreamParser.java:240-293 | with no 0x80-0x9F byte before the last and no UTF-8 byte order mark, the guess is ISO-8859-1 |
| QrSpec.CandidatesBetween | src/com/google/zxing/qrcode/decoder/DecodedBitStreamParser.java:265-274 | the candidate count rises by one at a candidate and not again before the next candidate |
| QrSpec.GuessLeadFlagPersists | src/com/google/zxing/qrcode/decoder/DecodedBitStreamParser.java:265-274 | for every byte string, the candidate lead byte that follows a checked one is not checked, whatever non-candidate bytes lie between them |
| QrSpec.GuessLeadFlagExample | src/com/google/zxing/qrcode/decoder/DecodedBitStreamParser.java:258-282 | an example: `81 40 81 00 00` is guessed Shift_JIS although its second `81 00` is no Shift_JIS pair |
| QrSpec.ByteTextSpec | src/com/google/zxing/qrcode/decoder/DecodedBitStreamParser.java:145-172 | a decoded byte segment ends 8·count bits further on |
| QrSpec.KanjiTextSpec | src/com/google/zxing/qrcode/decoder/DecodedBitStreamParser.java:114-143 | a decoded Kanji segment ends 13·count bits further on |
| QrSpec.SegmentSpec | src/com/google/zxing/qrcode/decoder/DecodedBitStreamParser.java:87-97 | a decoded segment never moves the position backwards or past the end |
| QrSpec.CountedSegmentSpec | src/com/google/zxing/qrcode/decoder/DecodedBitStreamParser.java:84-98 | after the count is read, the segment stays within the bits |
| QrSpec.DecodeExtends | src/com/google/zxing/qrcode/decoder/DecodedBitStreamParser.java:58-112 | decoding only appends: the text so far is a prefix of the final text |
| QrSpec.DecodeFnc1OnlySetsFlag | src/com/google/zxing/qrcode/decoder/DecodedBitStreamParser.java:73-75 | an FNC1 mode indicator only switches FNC1 processing on and consumes its 4 bits |
| QrSpec.DecodeUnsupportedModeFails | src/com/google/zxing/qrcode/decoder/DecodedBitStreamParser.java:95-96 | a mode with no decoder here (structured append) makes decoding fail |
| DecodedBitStreamParser.DecodeNumericSegment | src/com/google/zxing/qrcode/decoder/DecodedBitStreamParser.java:207-238 | the buffer gains the numeric text and the cursor moves to its end, or the method fails exactly when the specification does |
| DecodedBitStreamParser.DecodeDigitGroups | src/com/google/zxing/qrcode/decoder/DecodedBitStreamParser.java:211-221 | the group loop appends the digits of every full group and leaves fewer than three to read, the rest of the segment decoding as before; or it fails exactly when the specification does |
| DecodedBitStreamParser.AppendThreeDigits | src/com/google/zxing/qrcode/decoder/DecodedBitStreamParser.java:212-220 | one group moves three digits from the segment still to read to the text, 10 bits further on, or fails where the specification fails |
| DecodedBitStreamParser.DecodeThreeDigits | src/com/google/zxing/qrcode/decoder/DecodedBitStreamParser.java:211-221 | a 10-bit group below 1000 gives its three digits; any larger value fails |
| DecodedBitStreamParser.DecodeNumericTail | src/com/google/zxing/qrcode/decoder/DecodedBitStreamParser.java:222-237 | the last two or one digits are read as the specification says, with their range checks |
| DecodedBitStreamParser.DecodeAlphanumericSegment | src/com/google/zxing/qrcode/decoder/DecodedBitStreamParser.java:174-205 | the buffer gains the alphanumeric text, FNC1-rewritten when FNC1 is on, or the method fails exactly when the specification does |
| DecodedBitStreamParser.DecodeCharacterPairs | src/com/google/zxing/qrcode/decoder/DecodedBitStreamParser.java:180-185 | the pair loop appends the characters of every pair and leaves at most one to read, the rest of the segment decoding as before; or it fails exactly when the specification does |
| DecodedBitStreamParser.AppendCharacterPair | src/com/google/zxing/qrcode/decoder/DecodedBitStreamParser.java:181-183 | one pass moves two characters from the segment still to read to the text, 11 bits further on, or fails (too few bits, or a first index of 45 or more) where the specification fails |
| DecodedBitStreamParser.DecodeAlphanumericTail | src/com/google/zxing/qrcode/decoder/DecodedBitStreamParser.java:186-189 | an odd last character is read from 6 bits |
| DecodedBitStreamParser.Fnc1InPlace | src/com/google/zxing/qrcode/decoder/DecodedBitStreamParser.java:191-204 | the in-place loop leaves the text before `start` alone and rewrites the rest exactly as the FNC1 function does |
| DecodedBitStreamParser.DecodeKanjiSegment | src/com/google/zxing/qrcode/decoder/DecodedBitStreamParser.java:114-143 | the buffer gains the Shift_JIS text of the Kanji bytes, or the method fails as the specification does |
| DecodedBitStreamParser.ReadByteArray | src/com/google/zxing/qrcode/decoder/DecodedBitStreamParser.java:153-155 | the array receives the next `count` bytes of the stream, exactly the bytes the byte segment specifies, and the cursor moves 8·count bits |
| DecodedBitStreamParser.DecodeByteSegment | src/com/google/zxing/qrcode/decoder/DecodedBitStreamParser.java:145-172 | the buffer gains the bytes decoded in the ECI or guessed encoding, or the method fails as the specification does |
| DecodedBitStreamParser.ParseEciValue | src/com/google/zxing/qrcode/decoder/DecodedBitStreamParser.java:295-310 | returns the ECI value and advances past it, or fails on a first byte 111xxxxx and on too few bits |
| DecodedBitStreamParser.GuessEncoding | src/com/google/zxing/qrcode/decoder/DecodedBitStreamParser.java:240-293 | the loop computes exactly the guessed encoding |
| DecodedBitStreamParser.DecodeCountedSegment | src/com/google/zxing/qrcode/decoder/DecodedBitStreamParser.java:84-98 | reads the count and dispatches on the mode, as the specification does |
| DecodedBitStreamParser.DecodeSegment | src/com/google/zxing/qrcode/decoder/DecodedBitStreamParser.java:87-97 | the segment decoder chosen by the mode appends the specified text and moves to its end, or fails exactly when the specification does (structured append and the other modes fail) |
| DecodedBitStreamParser.ReadMode | src/com/google/zxing/qrcode/decoder/DecodedBitStreamParser.java:66-71 | an exhausted stream reads as the terminator without moving; otherwise the next 4 bits are read and the mode they name returned, and the read fails when fewer than 4 bits remain or the indicator is unknown |
| DecodedBitStreamParser.DecodeStep | src/com/google/zxing/qrcode/decoder/DecodedBitStreamParser.java:64-98 | one pass of the loop either ends the stream with the specified text, or moves forward to a state (position, FNC1 flag, ECI) from which decoding gives the same result as before; it fails only where decoding fails |
| DecodedBitStreamParser.Decode | src/com/google/zxing/qrcode/decoder/DecodedBitStreamParser.java:58-112 | the whole decoding loop returns the specified text or fails exactly when the specification does |
| Code39Spec.EncodingsThreeOfNine | src/com/google/zxing/oned/Code39Reader.java:43-49 | there are 44 patterns, one per alphabet character, and each has exactly three wide elements out of nine |
| Code39Spec.EncodingsDistinct | src/com/google/zxing/oned/Code39Reader.java:43-49 | no two characters share a pattern |
| Code39Spec.AlphabetDistinct | src/com/google/zxing/oned/Code39Reader.java:35 | the 44 alphabet characters are distinct |
| Code39Spec.NarrowWideSound | src/com/google/zxing/oned/Code39Reader.java:199-225 | a pattern found has exactly three wide elements, and each wide element is wider than each narrow one |
| Code39Spec.NarrowWideComplete | src/com/google/zxing/oned/Code39Reader.java:199-225 | whenever some width splits the counters into exactly three wider ones, the classification finds that split |
| Code39Spec.PatternCharInverse | src/com/google/zxing/oned/Code39Reader.java:227-234 | each character's pattern decodes to that character |
| Code39Spec.PatternCharDefined | src/com/google/zxing/oned/Code39Reader.java:227-234 | a pattern decodes exactly when it is in the table |
| Code39Spec.AsteriskPattern | src/com/google/zxing/oned/Code39Reader.java:51 | the asterisk pattern decodes to `*` and no other pattern does |
| Code39Spec.SkipWhite | src/com/google/zxing/oned/Code39Reader.java:100-103 | white-space skipping stops at the first black pixel or the row end and passes only white pixels |
| Code39Spec.RunLengthExact | src/com/google/zxing/oned/Code39Reader.java:169-172 | a run is as long as the pixels of its colour from its start, up to the first pixel of the other colour or the row end |
| Code39Spec.RunLengthPixels | src/com/google/zxing/oned/Code39Reader.java:169-172 | every pixel of a run has its colour, and the pixel after it, if any, does not |
| Code39Spec.RunsFromWidths | src/com/google/zxing/oned/Code39Reader.java:169-194 | counters that hold consecutive runs of the row, alternating from a bar, are the row's run widths from the first one |
| Code39Spec.RunsGrow | src/com/google/zxing/oned/Code39Reader.java:171-172 | a pixel of the current colour extends the current run |
| Code39Spec.RunsFlip | src/com/google/zxing/oned/Code39Reader.java:189-193 | a pixel of the other colour closes the current run and opens a one-pixel run of that colour |
| Code39Spec.RunsShift | src/com/google/zxing/oned/Code39Reader.java:182-193 | dropping the first bar and space moves the window start to the next bar and keeps the remaining runs |
| Code39Spec.RunsFound | src/com/google/zxing/oned/Code39Reader.java:176-177 | nine counted runs that classify as the asterisk, from where a bar starts, are a start pattern of the row |
| Code39Spec.ScanFromFound | src/com/google/zxing/oned/Code39Reader.java:169-195 | the scan's window start is always where a bar starts and its counters are the row's runs, so whatever it returns is a start pattern at or after where it began |
| Code39Spec.FindAsteriskFound | src/com/google/zxing/oned/Code39Reader.java:153-197 | a start pattern found lies after the leading white space, starts where a bar starts, and the row's nine run widths from there sum to its length and classify as the asterisk |
| Code39Spec.WindowFails | src/com/google/zxing/oned/Code39Reader.java:174-181 | nine runs of the row from a bar that do not classify as the asterisk (including those `toNarrowWidePattern` rejects) begin no start pattern, whatever its end |
| Code39Spec.NoBarInBarAndSpace | src/com/google/zxing/oned/Code39Reader.java:182 | no bar starts inside the first bar and space of a window, so moving the window start past them skips no candidate |
| Code39Spec.RunsToEnd | src/com/google/zxing/oned/Code39Reader.java:169-195 | runs that reach the row's end take up the rest of the row, so the run widths from their start sum to what is left |
| Code39Spec.RunsFromBarToEnd | src/com/google/zxing/oned/Code39Reader.java:169-195 | from any bar that starts among runs reaching the row's end, the nine run widths sum to the rest of the row |
| Code39Spec.RunsReachEnd | src/com/google/zxing/oned/Code39Reader.java:169-196 | when the scan reaches the row's end, no bar at or after the window start begins a start pattern, as its nine runs would end at the row's end |
| Code39Spec.EndPassesOver | src/com/google/zxing/oned/Code39Reader.java:195-196 | when the scan reaches the row's end, no bar from where it began begins a start pattern |
| Code39Spec.ShiftPassesOver | src/com/google/zxing/oned/Code39Reader.java:174-188 | a full window that is not the asterisk, once shifted, leaves no start pattern behind the new window start |
| Code39Spec.ScanFromFirst | src/com/google/zxing/oned/Code39Reader.java:169-196 | the scan passes over no start pattern: no bar between where it began and the start it returns begins one, and when it fails no bar after where it began does |
| Code39Spec.GrowFirst | src/com/google/zxing/oned/Code39Reader.java:171-172 | a pixel of the current colour keeps the scan from passing over a start pattern |
| Code39Spec.FlipFirst | src/com/google/zxing/oned/Code39Reader.java:189-193 | a pixel of the other colour before the window is full keeps the scan from passing over a start pattern |
| Code39Spec.FullFirst | src/com/google/zxing/oned/Code39Reader.java:174-188 | at a full window the scan either returns its start or shifts, passing over no start pattern |
| Code39Spec.ShiftFirst | src/com/google/zxing/oned/Code39Reader.java:182-193 | shifting a window that is not the asterisk passes over no start pattern |
| Code39Spec.FindAsteriskFirst | src/com/google/zxing/oned/Code39Reader.java:153-197 | the start pattern found is the first in the row: no bar before it begins one |
| Code39Spec.FindAsteriskComplete | src/com/google/zxing/oned/Code39Reader.java:196 | the search throws "Can't find pattern" only when no bar of the row begins a start pattern |
| Code39Spec.AlphabetValueIsIndex | src/com/google/zxing/oned/Code39Reader.java:129-131 | a character's value as written is its `indexOf` position in the 44-character alphabet |
| Code39Spec.CharValuesDiffer | src/com/google/zxing/oned/Code39Reader.java:129-131 | the values as written and the standard check values differ exactly on `*`, `$`, `/`, `+` and `%` |
| Code39Spec.CheckValueIsIndex | src/com/google/zxing/oned/Code39Reader.java:129-131 | a character's check value is its position in the 43-character check set, and it has one exactly when it is a data character |
| Code39Spec.CheckDigitRoundTrip | src/com/google/zxing/oned/Code39Reader.java:125-135 | text with its check character appended passes the check and gives back the text |
| Code39Spec.CheckDigitOnlyAppended | src/com/google/zxing/oned/Code39Reader.java:125-135 | text over the check set passes only if it is some text plus that text's check character |
| Code39Spec.CheckDigitAsWrittenRejectsPercent | src/com/google/zxing/oned/Code39Reader.java:129-131 | with the check as written, a last character `%` never passes |
| Code39Spec.PercentIsACheckCharacter | src/com/google/zxing/oned/Code39Reader.java:125-135 | `%` is the standard check character of "%", so "%%" passes the corrected check and fails the check as written |
| Code39Spec.FullAsciiPairAsWrittenCollides | src/com/google/zxing/oned/Code39Reader.java:261-270 | as written, `%L` decodes to `A`, which is already a plain character, and no pair yields `[` |
| Code39Spec.FullAsciiEncodeDecodes | src/com/google/zxing/oned/Code39Reader.java:241-280 | every ASCII character is either a plain alphabet character or a shift pair that decodes to it |
| Code39Spec.PairTablesDiffer | src/com/google/zxing/oned/Code39Reader.java:261-270 | the pair table as written and the standard one differ exactly on `%K` to `%Z`; `%X` to `%Z` fail as written and give DEL in the standard |
| Code39Spec.DecodeExtendedPlain | src/com/google/zxing/oned/Code39Reader.java:285-287 | under either table, text without shift characters is returned unchanged |
| Code39Spec.TrailingShiftFails | src/com/google/zxing/oned/Code39Reader.java:241-242 | under either table, a shift character with nothing after it fails |
| Code39Spec.FullAsciiRoundTrip | src/com/google/zxing/oned/Code39Reader.java:236-290 | with the standard pair table, decoding the Full ASCII encoding of any ASCII text gives back the text |
| Code39Spec.FullAsciiRoundTripAsWrittenFails | src/com/google/zxing/oned/Code39Reader.java:261-270 | as written, the encoding `%K` of `[` decodes to `@`, `%L` and `A` decode to the same text, and `%X` fails where the standard gives DEL |
| Code39Spec.EncodeFullAsciiInAlphabet | src/com/google/zxing/oned/Code39Reader.java:236-290 | the Full ASCII encoding uses only alphabet characters |
| Code39Spec.PatternCharInAlphabet | src/com/google/zxing/oned/Code39Reader.java:227-234 | every decoded character is an alphabet character |
| Code39Spec.ReadOne | src/com/google/zxing/oned/Code39Reader.java:110-121 | one read yields an alphabet character and moves strictly forward, staying in the row |
| Code39Spec.Reader | src/com/google/zxing/oned/Code39Reader.java:110-121 | when the recorded runs stay in the row, every read moves forward within the row |
| Code39Spec.ReadCharactersShape | src/com/google/zxing/oned/Code39Reader.java:109-122 | the read loop's text ends at the first `*`, and all characters before it are non-`*` alphabet characters |
| Code39Spec.DecodeRowPlain | src/com/google/zxing/oned/Code39Reader.java:92-151 | under either table and without options, the start pattern is a start pattern after the leading white space and no bar before it begins one, and the text is the characters read between the start and stop patterns minus the final `*`, in order, none of them `*` |
| Code39Spec.DecodeRowNoStartPattern | src/com/google/zxing/oned/Code39Reader.java:94 | `decodeRow` fails with the search's error, whatever its options, when the search fails, and then no bar of the row begins a start pattern |
| Code39Spec.DecodeRowCheckDigit | src/com/google/zxing/oned/Code39Reader.java:123-135 | with the standard values and the check on, the characters read are the returned text plus its check character plus `*` |
| Code39Spec.DecodeRowCheckDigitAsWritten | src/com/google/zxing/oned/Code39Reader.java:123-135 | as written and with the check on, the characters read are the returned text, then a character whose alphabet position is the text's total modulo 43, then `*`; that character is never `%` |
| Code39Spec.CheckedTextAsWritten | src/com/google/zxing/oned/Code39Reader.java:125-135 | text that passes the check as written is its result plus a last character whose position is the result's total modulo 43, never `%` |
| Code39Spec.CheckedTextAppended | src/com/google/zxing/oned/Code39Reader.java:125-135 | text that passes the check is its result plus that result's check character |
| Code39Reader.MinCounterAbove | src/com/google/zxing/oned/Code39Reader.java:204-210 | the loop finds the smallest counter above the threshold |
| Code39Reader.WidePattern | src/com/google/zxing/oned/Code39Reader.java:212-219 | the loop builds the bit pattern of the counters above the threshold and counts them |
| Code39Reader.ToNarrowWidePattern | src/com/google/zxing/oned/Code39Reader.java:199-225 | computes exactly the narrow/wide classification |
| Code39Reader.PatternToChar | src/com/google/zxing/oned/Code39Reader.java:227-234 | computes exactly the table lookup |
| Code39Reader.ShiftCounters | src/com/google/zxing/oned/Code39Reader.java:182-187 | the counters move two places to the front and the last two become zero |
| Code39Reader.SkipWhiteSpace | src/com/google/zxing/oned/Code39Reader.java:100-103 | computes exactly the white-space skip |
| Code39Reader.FindAsteriskPattern | src/com/google/zxing/oned/Code39Reader.java:153-197 | the in-place counter scan computes exactly the start-pattern search |
| Code39Reader.DecodeExtended | src/com/google/zxing/oned/Code39Reader.java:236-290 | computes the Full ASCII decoding under the given pair table |
| Code39Reader.RecordPattern | src/com/google/zxing/oned/Code39Reader.java:110 | the counters receive the recorded runs, or the read fails |
| Code39Reader.ReadCharacter | src/com/google/zxing/oned/Code39Reader.java:110-121 | one pass of the read loop computes exactly one read |
| Code39Reader.ReadCharactersInto | src/com/google/zxing/oned/Code39Reader.java:105-122 | the buffer receives exactly the characters the read loop specifies, with the last and next start |
| Code39Reader.VerifyCheckDigit | src/com/google/zxing/oned/Code39Reader.java:125-135 | under the given values, the buffer loses its check character when the check passes; the method fails with the check's message, the buffer unchanged, otherwise |
| Code39Reader.FinishText | src/com/google/zxing/oned/Code39Reader.java:123-140 | drops the `*`, then applies the check and the Full ASCII decoding as configured, under the given tables |
| Code39Reader.Code39Reader.constructor | src/com/google/zxing/oned/Code39Reader.java:60-63 | neither check character nor Full ASCII |
| Code39Reader.Code39Reader.WithCheckDigit | src/com/google/zxing/oned/Code39Reader.java:72-75 | the check as given, without Full ASCII |
| Code39Reader.Code39Reader.WithOptions | src/com/google/zxing/oned/Code39Reader.java:87-90 | both options as given |
| Code39Reader.Code39Reader.DecodeRow | src/com/google/zxing/oned/Code39Reader.java:92-151 | computes the row decoding under the reader's options with the tables as written |
| Code39Reader.Code39Reader.DecodeRowAfter | src/com/google/zxing/oned/Code39Reader.java:96-151 | computes the decoding that follows a found start pattern, with the tables as written |
| GridSampling.Nudge | src/com/google/zxing/common/GridSampler.java:123-129 | -1 becomes 0, the limit becomes limit-1, and any other value is unchanged |
| GridSampling.NudgePair | src/com/google/zxing/common/GridSampler.java:123-136 | only the two coordinates of the pair change, each nudged against its own side |
| GridSampling.NudgePairInImage | src/com/google/zxing/common/GridSampler.java:119-136 | a pair that is not far off lies inside the image once nudged |
| GridSampling.ForwardFrame | src/com/google/zxing/common/GridSampler.java:116-137 | the forward scan changes no coordinate outside the pairs it visited |
| GridSampling.ForwardSteps | src/com/google/zxing/common/GridSampler.java:116-137 | the forward scan continues exactly while pairs needed a nudge, and fails exactly at a far-off pair |
| GridSampling.ForwardInImage | src/com/google/zxing/common/GridSampler.java:116-137 | after a successful forward scan, every visited pair is inside the image |
| GridSampling.BackwardFrame | src/com/google/zxing/common/GridSampler.java:140-161 | the backward scan changes no coordinate outside the pairs it visited |
| GridSampling.BackwardSteps | src/com/google/zxing/common/GridSampler.java:140-161 | the backward scan continues exactly while pairs needed a nudge, and fails exactly at a far-off pair |
| GridSampling.BackwardInImage | src/com/google/zxing/common/GridSampler.java:140-161 | after a successful backward scan, every visited pair is inside the image |
| GridSampling.BackwardStopsAtSettled | src/com/google/zxing/common/GridSampler.java:140-161 | the backward scan stops at or before any pair that is already inside the image |
| GridSampling.ScansMeet | src/com/google/zxing/common/GridSampler.java:114-161 | the backward scan never passes the pair where the forward scan stopped |
| GridSampling.CheckFails | src/com/google/zxing/common/GridSampler.java:119-121 | the check fails exactly when one of the two scans reaches a far-off pair |
| GridSampling.CheckFrontInImage | src/com/google/zxing/common/GridSampler.java:114-137 | after a successful check, the pairs the forward scan visited are inside the image |
| GridSampling.CheckBackInImage | src/com/google/zxing/common/GridSampler.java:138-161 | after a successful check, the pairs the backward scan visited are inside the image |
| GridSampling.CheckMiddleUnchanged | src/com/google/zxing/common/GridSampler.java:114-161 | after a successful check, the coordinates between the two scans are as they were |
| GridSampling.NudgeAt | src/com/google/zxing/common/GridSampler.java:122-136 | nudges one pair in the array and reports whether it needed a nudge |
| GridSampling.ScanForward | src/com/google/zxing/common/GridSampler.java:114-137 | the first loop leaves the array as the forward scan specifies and reports a far-off pair exactly when the scan fails |
| GridSampling.ScanBackward | src/com/google/zxing/common/GridSampler.java:138-161 | the second loop leaves the array as the backward scan specifies and reports a far-off pair exactly when the scan fails |
| GridSampling.CheckAndNudgePoints | src/com/google/zxing/common/GridSampler.java:110-162 | the array ends up as the specified nudged points, and the method fails exactly when the specification does |
| GridSampling.SamplerRegistry.constructor | src/com/google/zxing/common/GridSampler.java:57-59 | the registry starts with the default sampler |
| GridSampling.SamplerRegistry.SetGridSampler | src/com/google/zxing/common/GridSampler.java:47-52 | a null sampler is refused and the installed one kept; any other sampler is installed |
| GridSampling.SamplerRegistry.GetInstance | src/com/google/zxing/common/GridSampler.java:57-59 | returns the installed sampler |
| CalendarResult.DigitsIn | src/com/google/zxing/client/result/CalendarParsedResult.java:109-113 | the character-by-character digit loop accepts exactly when every character in the range is a digit |
| CalendarResult.FormatValid | src/com/google/zxing/client/result/CalendarParsedResult.java:103-128 | every RFC 2445 DATE, DATE-TIME and UTC DATE-TIME passes the date check |
| CalendarResult.ValidDateIsFormatted | src/com/google/zxing/client/result/CalendarParsedResult.java:103-128 | every date that passes the check is the text of its own date and time parts |
| CalendarResult.ValidDateIffFormatted | src/com/google/zxing/client/result/CalendarParsedResult.java:103-128 | a date passes exactly when it is the text of a well-formed RFC 2445 date |
| CalendarResult.NewCalendarParsedResult | src/com/google/zxing/client/result/CalendarParsedResult.java:31-84 | construction succeeds exactly with a non-null valid start and a null or valid end, and the getters return the arguments |
| GeoResult.WithoutQuery | src/com/google/zxing/client/result/GeoResultParser.java:40-41 | the text kept holds no `?` |
| GeoResult.Parse | src/com/google/zxing/client/result/GeoResultParser.java:34-62 | a result exists only for `geo:` or `GEO:` text, and its URI is the text with the scheme in lower case |
| GeoResult.ParseGeoText | src/com/google/zxing/client/result/GeoResultParser.java:34-62 | a geo URI built from parseable numbers parses back to them, with altitude 0 when absent and whatever the query |
| GeoResult.ParseRejects | src/com/google/zxing/client/result/GeoResultParser.java:42-59 | text with no comma before the query, or with a latitude that does not parse, gives null |
| DecodeResult.ResultData.ToString | src/com/google/zxing/Result.java:94-100 | the text when there is one, otherwise `[`, the digits of the byte count and ` bytes]` |
| DecodeResult.ToStringCountsBytes | src/com/google/zxing/Result.java:94-100 | the byte count reads back from that text |
| DecodeResult.Result.constructor | src/com/google/zxing/Result.java:34-46 | the getters return the arguments and there is no metadata |
| DecodeResult.Result.PutMetadata | src/com/google/zxing/Result.java:87-92 | the table exists afterwards and maps the key to the value, and every other entry is as before |
| DecodeResult.NewResult | src/com/google/zxing/Result.java:34-46 | construction fails exactly when text and bytes are both null; otherwise it yields a fresh result holding the arguments and no metadata |
| MobileTagSimpleWeb.MobileTagSimpleWebParsedResult.GetDisplayResult | src/com/google/zxing/client/result/optional/MobileTagSimpleWebParsedResult.java:88-94 | the URI alone without a title; otherwise the title, a newline and the URI |
| MobileTagSimpleWeb.ExpandUri | src/com/google/zxing/client/result/optional/MobileTagSimpleWebParsedResult.java:66-75 | fails exactly for a URI shorter than three characters; a non-digit at index 2 leaves the URI alone, and a digit keeps all but its first character at the end |
| MobileTagSimpleWeb.ExpandUriPrefix | src/com/google/zxing/client/result/optional/MobileTagSimpleWebParsedResult.java:32-39 | the digits 1 to 5 select the five scheme prefixes in place of the first character |
| MobileTagSimpleWeb.ExpandUriNoPrefix | src/com/google/zxing/client/result/optional/MobileTagSimpleWebParsedResult.java:67-74 | the reserved 0 and the digits 6 to 9 only drop the first character |
| MobileTagSimpleWeb.Parse | src/com/google/zxing/client/result/optional/MobileTagSimpleWebParsedResult.java:50-78 | only Data Matrix text of service type "04" whose fields match gives a result, with the expanded URI field and the title field |
| MobileTagSimpleWeb.ParseRejects | src/com/google/zxing/client/result/optional/MobileTagSimpleWebParsedResult.java:55-62 | another service type, or fields that do not match, give null |
| MobileTagSimpleWeb.DisplaySplits | src/com/google/zxing/client/result/optional/MobileTagSimpleWebParsedResult.java:88-94 | a title without a newline and the URI can both be read back from the display text |
| MultiFormatReaders.FirstSuccess | src/com/google/zxing/oned/MultiFormatOneDReader.java:58-67 | a `ReaderException` outcome is only ever the "No barcode was detected" error |
| MultiFormatReaders.FirstSuccessIsFirst | src/com/google/zxing/oned/MultiFormatOneDReader.java:58-67 | the outcome is the first attempt not ending in a `ReaderException`, all earlier ones having ended in one, and it is the error exactly when every attempt does |
| MultiFormatReaders.UncheckedPropagates | src/com/google/zxing/oned/MultiFormatOneDReader.java:60-64 | an attempt ending in another exception, after only `ReaderException`s, is the outcome whatever later readers do |
| MultiFormatReaders.UpcEanSelection | src/com/google/zxing/oned/MultiFormatUPCEANReader.java:39-58 | at least one reader, each at most once, in the order EAN-13, UPC-A, EAN-8, UPC-E; EAN-13 replaces UPC-A; every requested UPC/EAN format has a reader |
| MultiFormatReaders.UpcEanDefault | src/com/google/zxing/oned/MultiFormatUPCEANReader.java:53-58 | with no UPC/EAN format requested the default EAN-13, EAN-8, UPC-E is used; otherwise only readers for requested formats |
| MultiFormatReaders.ConvertEan13 | src/com/google/zxing/oned/MultiFormatUPCEANReader.java:80-83 | only an EAN-13 result whose text starts with '0' is changed; other formats are returned as they are; a null or empty EAN-13 text throws an unchecked exception and nothing else does |
| MultiFormatReaders.ConvertEan13RoundTrip | src/com/google/zxing/oned/MultiFormatUPCEANReader.java:70-82 | the EAN-13 reading "0"+t of a UPC-A code becomes the UPC-A result t with the same points and no bytes |
| MultiFormatReaders.BuildUpcEanReaders | src/com/google/zxing/oned/MultiFormatUPCEANReader.java:39-58 | the list built element by element is the selected reader list |
| MultiFormatReaders.UpcEanDecodeRow | src/com/google/zxing/oned/MultiFormatUPCEANReader.java:37-87 | returns the start-guard error, the first outcome not a `ReaderException` (a result converted from EAN-13), or "No barcode was detected", as specified |
| MultiFormatReaders.OneDSelection | src/com/google/zxing/oned/MultiFormatOneDReader.java:36-56 | at least one reader, each once, in the order UPC/EAN, Code 39, Code 128; every requested 1D format has its reader; with none requested, all three are used |
| MultiFormatReaders.BuildOneDReaders | src/com/google/zxing/oned/MultiFormatOneDReader.java:36-56 | the list built element by element is the selected reader list |
| MultiFormatReaders.OneDDecodeRow | src/com/google/zxing/oned/MultiFormatOneDReader.java:34-68 | returns the first outcome that is not a `ReaderException`, unchanged, or "No barcode was detected" |

## Left out

- Floating point: the grid sampler works on the integer truncation of each coordinate, and the
  geo parser's numbers are reals. This leaves out NaN, infinities and the narrowing of the
  geo result to `float`.
- `Character.isDigit` (calendar dates) is modelled as ASCII `0`-`9`; other Unicode digits
  are not modelled.
- Java `int` overflow is not modelled: the Code 39 check-value total, the row offsets and the
  run sums are unbounded integers. The Code 39 counters themselves are kept within `int` range.
- `Mode.forBits`, `getCharacterCountBits`, `CharacterSetECI`, `new String(bytes, encoding)`
  and the `file.encoding` system property are parameters (the QR `Platform` record), because
  their source is not part of this model.
- `BitSource` and `StringBuffer` are modelled from their use in the decoder. Their source
  is not part of this model.
- `recordPattern`, `matchDelimitedFields`, `Double.parseDouble`, `findStartGuardPattern` and
  the individual UPC/EAN, Code 39 and Code 128 row readers are parameters, because their
  source is not part of this model.
- Result points of the Code 39 row are returned as the pixel positions they are computed
  from. The float midpoints and the `Result` construction at Code39Reader.java lines 141-149
  are not modelled.
- `CalendarParsedResult.getDisplayResult` is not modelled: it depends on `maybeAppend` in
  `ParsedResult`, which is not part of this model.
- The metadata keys and values of `Result` are named by strings; `ResultMetadataType` is not
  part of this model.
- `GridSampler.sampleGrid` is abstract in the source and is not modelled; the sampler
  implementations are named by `Sampler` values.
- The decoded row readers of the multi-format readers see the row and the hints only through
  the `decode` parameter. The row number, the row bits and the hints table are not modelled.
- Code39Spec.CheckDigitWith: an empty text fails with `String index out of range: -1`, which
  in Java is an unchecked `StringIndexOutOfBoundsException`, and a shift character at the end
  of the text is one too; the Code 39 outcomes do not mark these apart from the
  `ReaderException`s. The multi-format readers, which are the ones that care, receive a
  reader's outcome with its kind through their `decode` parameter.

## Findings

| source | as written | input that shows it | evidently intended | confidence | as-written member | corrected member |
|---|---|---|---|---|---|---|
| src/com/google/zxing/oned/Code39Reader.java:261-270 | `%F` to `%W` all decode to `next - 11`; that is right for `%F`..`%J`, but it makes `%K`..`%W` give `@`..`L`; `%X` to `%Z` are rejected | `[` is encoded `%K`, which decodes to `@`; `%L` decodes to `A`, which plain `A` already encodes; `%X` fails | the Full ASCII table: `%K`..`%O` to `[`..`_`, `%P`..`%T` to `{`..DEL, `%U` to NUL, `%V` to `@`, `%W` to a backquote, `%X`..`%Z` to DEL | medium, not executed | Code39Spec.FullAsciiRoundTripAsWrittenFails | Code39Spec.FullAsciiRoundTrip |
| src/com/google/zxing/oned/Code39Reader.java:125-135 | check values are positions in `ALPHABET_STRING`, which has `*` at 39, so `$`, `/`, `+` and `%` count one too high | "%%" (text "%" with its check character `%`, value 42) fails, because `%` counts 43 and 43 mod 43 is 0 | the standard 43-character check set without `*` | medium, not executed | Code39Spec.PercentIsACheckCharacter | Code39Spec.CheckDigitRoundTrip |
