# nasa.py telemetry frame decoder, modelled in Dafny

`nasa.py` reads a binary archive of fixed-size telemetry frames, 3572 bytes each.
From every frame it takes 893 four-byte slices, drops the first two, and decodes
the remaining 891 words as one record. Word 0 of a record is its type tag (1 to 8).
Each tag has a layout function. The layout function first inserts a placeholder
at the front of the list it is given, and then reads fixed word offsets. It reads
each word as a big-endian unsigned integer (`int_`), as a pair of 16-bit halves
(`o_range`) or as a base-16 floating-point number (`ibm360`).

The model has one module per part of the program:

- `BigEndian` (bigendian.dfy) covers bytes, 4-byte words, `int_` and `o_range`, with the inverse encoder.
- `IbmFloat` (ibm360.dfy) covers `ibm360` as the code computes it. It also has the IBM System/360
  short hexadecimal format as an independent reference, and proves exactly where the two differ.
- `Records` (records.dfy) covers the record types, the record datatype, `orbit_times` and eight pure
  offset tables. The tables are stated on the words of a record as `process_record` receives them.
- `WordLists` (lists.dfy) covers the eight `make_*` functions as methods on a mutable word list. Each
  inserts its placeholder, reads the shifted offsets, and is proved equal to its table on the list as it was.
- `Dispatch` (dispatch.dfy) covers `process_record`: the length check, the tag lookup and the `RECORD_TYPES` table.
- `Archive` (archive.dfy) covers the chunking of a frame, the reading of a file frame by frame, and the
  `while frame:` loop of `process_file`. The loop is a method proved equal to a recursive specification,
  and the specification is proved to stop at the first failing frame.
- `Slices` (slices.dfy), `Arith` (arith.dfy) and `Wrappers` (wrappers.dfy) are support. `Slices` gives
  Python's clamping slices and `range`. `Arith` holds the arithmetic facts. `Wrappers` holds `Option` and `Result`.

Points where the model follows the code rather than the intended format:

- **Exponent.** Python reads `(b>>24)&127 -64` as `(b>>24) & 63`, because `-` binds tighter than `&`.
  So the exponent is bits 24..29 with no bias, and bit 30 is never read.
- **Fraction.** `hex()` writes no leading zeros. So the fraction is `m / 16^d` for the `d` hex digits
  of the 24-bit mantissa `m`, not `m / 16^6`.
- **Agreement with the IBM format.** `IbmFloat.AgreesWithFormat` proves, for every 32-bit word, when the
  code's value equals the format's value: exactly when the mantissa is 0, or when bit 30 is set and the
  leading hex digit is not 0.
- **Exact values.** Values are exact reals. The Python float is exact here: the fraction has at most
  24 significant bits and the scale is a power of two no larger than 2^252.
- **Short frames.** A frame shorter than 3572 bytes is not rejected; the code does not check for it.
  It gives shorter or empty words. An empty word reads as 0, and the record still has 891 words. So
  `process_record` never reports a wrong length for a frame read from a file (`Archive.DecodeFrame`).

## Model

| member | source | states |
|---|---|---|
| `Slices.Slice` | nasa.py:275 | a slice has the clamped length; within bounds it is the ordinary subsequence |
| `Slices.Take` | nasa.py:105 | `s[:j]` has min(j, len(s)) elements and is a prefix of `s` |
| `Slices.Drop` | nasa.py:147 | `s[i:]` has len(s) - min(i, len(s)) elements |
| `Slices.Range` | nasa.py:275 | `range(start, stop, step)` has ceil((stop - start) / step) elements, element j is start + j·step, all below stop |
| `Slices.ShiftedSlice` | nasa.py:108-110 | after inserting one element at the front, the slice one place later, and the suffix one place later, are the old ones |
| `BigEndian.Int` | nasa.py:256-257 | the big-endian value of n bytes is below 256^n (0 for no bytes) |
| `BigEndian.IntAppend` | nasa.py:256-257 | the value of a + b is value(a)·256^len(b) + value(b) |
| `BigEndian.IntEncode` | nasa.py:256-257 | decoding the len-byte encoding of any n below 256^len gives n back |
| `BigEndian.EncodeInt` | nasa.py:256-257 | encoding the value of a byte string at its own length gives the bytes back |
| `BigEndian.ORange` | nasa.py:259-260 | both halves are below 65536 |
| `BigEndian.ORangeSplit` | nasa.py:259-260 | on a 4-byte word the value is first·65536 + second |
| `BigEndian.ORangeEncode` | nasa.py:259-260 | any pair of 16-bit numbers comes back unchanged and in order; no ordering between them is imposed |
| `IbmFloat.SignOf` | nasa.py:250 | `b >> 31` is a single bit for every 32-bit word |
| `IbmFloat.ExponentOf` | nasa.py:251 | the exponent the code uses is below 64 (bits 24..29 only) |
| `IbmFloat.MantissaOf` | nasa.py:252 | the mantissa is below 2^24 |
| `IbmFloat.HexDigits` | nasa.py:252 | `hex(m)[2:]` has at least one digit, each below 16 |
| `IbmFloat.HexDigitsBounds` | nasa.py:252 | d digits: m < 16^d and, for m > 0, 16^(d-1) ≤ m with a non-zero leading digit |
| `IbmFloat.HexDigitCount` | nasa.py:252 | the digit count is the unique d with 16^(d-1) ≤ m < 16^d |
| `IbmFloat.FromHexFraction` | nasa.py:252 | no contract; the body reads `'.' + digits` as `float.fromhex` does, the first digit counting sixteenths; its positional law is `AppendDigit` |
| `IbmFloat.AppendDigit` | nasa.py:252 | a digit appended to the hex fraction adds digit / 16^(n+1) |
| `IbmFloat.Fraction` | nasa.py:252 | no contract; the body is `frac`, `FromHexFraction` of the digits of `hex(m)[2:]`; its value is given by `FractionClosedForm` and `FractionRange` |
| `IbmFloat.FractionClosedForm` | nasa.py:252 | `float.fromhex('.' + hex(m)[2:])` is m / 16^d for the d digits of m |
| `IbmFloat.FractionRange` | nasa.py:252 | the fraction is 0 exactly when m = 0, and otherwise lies in [1/16, 1) |
| `IbmFloat.Multiplier` | nasa.py:254 | `(-sign or 1)` is never 0, and is positive exactly when the sign is 0 |
| `IbmFloat.Value` | nasa.py:254 | no contract; the body is `(-sign or 1) * frac * 16**ex` on exact reals; its zero and sign are given by `ValueSign` |
| `IbmFloat.ValueSign` | nasa.py:252-254 | `(-sign or 1) * frac * 16**ex` is 0 exactly for a zero mantissa, and negative exactly for a non-zero sign with a non-zero mantissa |
| `IbmFloat.DecodeBits` | nasa.py:249-254 | no contract; the body applies `Value` to the sign, the six exponent bits and the mantissa of the integer `b`; its properties are the lemmas from `ComposeFields` to `ExponentStep` and `AgreesWithFormat` |
| `IbmFloat.Ibm360` | nasa.py:248-254 | no contract; the body is `DecodeBits` of the word's big-endian integer (`WordBits`) |
| `IbmFloat.ComposeFields` | nasa.py:249-252 | a word built from sign, bit 30, six exponent bits and mantissa gives those fields back and is below 2^32 |
| `IbmFloat.Decompose` | nasa.py:249-252 | every 32-bit word is the composition of its four fields; sign and bit 30 are bits |
| `IbmFloat.ValueSplit` | nasa.py:254 | `(-sign or 1) * frac * 16**ex` is ±1 times the magnitude frac·16^ex |
| `IbmFloat.MagnitudeRange` | nasa.py:252-254 | the magnitude is 0 for a zero mantissa and at least 1/16 otherwise |
| `IbmFloat.MagnitudeStep` | nasa.py:254 | one more exponent multiplies the magnitude by 16 |
| `IbmFloat.ZeroMantissa` | nasa.py:252-254 | an all-zero mantissa decodes to 0 whatever the sign and exponent |
| `IbmFloat.SignOfValue` | nasa.py:250-254 | with a non-zero mantissa the value is negative exactly when bit 31 is set and positive exactly when it is clear |
| `IbmFloat.SignFlip` | nasa.py:250-254 | flipping only bit 31 negates the value |
| `IbmFloat.Bit30Ignored` | nasa.py:251 | flipping only bit 30 never changes the value |
| `IbmFloat.ExponentStep` | nasa.py:251-254 | raising the six exponent bits by one (below 63) multiplies the value by 16 |
| `IbmFloat.FormatValue` | nasa.py:251-252 | no contract; the body is the IBM System/360 short format the code evidently aims at: ±1 by bit 31, times the mantissa over 16^6, times 16 to the seven-bit exponent of bits 24..30 less 64; its properties are the three lemmas below |
| `IbmFloat.FormatSign` | nasa.py:250-254 | in the format a value is 0 exactly for a zero mantissa, and negative exactly when bit 31 is set and the mantissa is not zero |
| `IbmFloat.FormatExponentFields` | nasa.py:251 | the format's seven-bit exponent is 64 · bit 30 plus the six bits the code reads |
| `IbmFloat.FormatUnbiased` | nasa.py:251 | the format's exponent is in excess 64: at exponent 64 the value is the signed six-digit fraction |
| `IbmFloat.FractionAgainstFormat` | nasa.py:252 | for a non-zero mantissa, the code's fraction equals the format's six-digit fraction exactly when the leading hex digit is not 0 |
| `IbmFloat.AgreementBit30Set` | nasa.py:251-254 | for a non-zero mantissa with bit 30 set, the magnitudes agree exactly when the leading hex digit is not 0 |
| `IbmFloat.AgreementBit30Clear` | nasa.py:251-254 | with bit 30 clear and a non-zero mantissa the magnitudes never agree |
| `IbmFloat.FormatBelowSixteenth` | nasa.py:251 | with bit 30 clear the format's exponent is negative, so its magnitude is below 1/16 |
| `IbmFloat.MagnitudeAgreement` | nasa.py:251-254 | the magnitudes agree exactly for a zero mantissa, or for bit 30 set with a non-zero leading digit |
| `IbmFloat.FieldsAgreement` | nasa.py:250-254 | the same, on signed values built from the four fields |
| `IbmFloat.AgreesWithFormat` | nasa.py:248-254 | for every 32-bit word: the code's value equals the IBM System/360 short format's value exactly when the mantissa is 0 or bit 30 is set with a non-zero leading hex digit |
| `IbmFloat.WordBits` | nasa.py:249 | a word's integer is below 2^32, and `ibm360` decodes that integer |
| `Records.TypeValue` | nasa.py:9-17 | every record type has an enumeration value from 1 to 8 |
| `Records.RecordTypeOf` | nasa.py:9-17 | the lookup finds a type exactly for values 1 to 8, and that type has the value looked up |
| `Records.TypeValueRoundTrip` | nasa.py:9-17 | every type is found again under its own value |
| `Records.IntAll` | nasa.py:105 | one integer per word, element k is `int_` of word k |
| `Records.IbmAll` | nasa.py:147 | one value per word, element k is `ibm360` of word k |
| `Records.OrbitTimes` | nasa.py:104-105 | the two tuples together are the integers of all words in order; the first has min(4, n) of them |
| `Records.OrbitSlices` | nasa.py:110 | a SUMMARY record has 18 orbit groups |
| `Records.OrbitsOf` | nasa.py:110 | one orbit entry per group |
| `Records.SummaryOrbits` | nasa.py:110 | a SUMMARY record has 18 orbit entries, one `orbit_times` per group (`SummaryOrbitEntries` gives their contents) |
| `Records.SummaryOf` | nasa.py:107-134 | the SUMMARY table builds a SUMMARY record |
| `Records.ColdOf` | nasa.py:136-149 | the COLD_REFERENCE table builds a cold record whose trailing array is `ibm360` of the words from 29 on |
| `Records.WarmOf` | nasa.py:151-164 | the same for WARM_REFERENCE |
| `Records.ResponsivityOf` | nasa.py:166-174 | the same for AVERAGE_RESPONSIVITY |
| `Records.NerOf` | nasa.py:176-184 | the same for NOISE_EQUIVALENT_RADIANCE |
| `Records.AitOf` | nasa.py:186-194 | the same for AVERAGE_INSTRUMENT_TEMP |
| `Records.SdOfItOf` | nasa.py:196-204 | the same for SD_INSTRUMENT_TEMP |
| `Records.CasOf` | nasa.py:206-236 | the same for CALIBRATED_ATMOSPHERIC_SPECTRUM |
| `Records.Layout` | nasa.py:238-245 | the table gives each type a record of that type; every type but SUMMARY has the trailing array of words 29 on |
| `Records.TrailingArray` | nasa.py:147 | on an 891-word record every trailing array has 862 values, value k decoded from word 29 + k |
| `Records.OrbitRange` | nasa.py:107-204 | start and end orbit are the high and low 16 bits of their word (word 5 for SUMMARY, word 1 otherwise) |
| `Records.OrbitEntryWords` | nasa.py:104-110 | orbit entry j holds the integers of words 25+8j..28+8j and 29+8j..32+8j |
| `Records.SummaryOrbitEntries` | nasa.py:110 | on an 891-word record SUMMARY has 18 entries, entry j as above |
| `Records.UnreadWord` | nasa.py:107-236 | changing the tag, or a word in a gap of the layout, leaves the record unchanged |
| `Records.UnreadCasWord` | nasa.py:206-236 | the same for CALIBRATED_ATMOSPHERIC_SPECTRUM (gaps at words 23, 24 and 28) |
| `Records.UnreadSummaryWord` | nasa.py:107-134 | the same for SUMMARY (gaps at words 6, 19..21, 23, and words from 169 on) |
| `Records.UnreadOrbitWord` | nasa.py:110 | a word before 25 or from 169 on is in no orbit group |
| `WordLists.WordList.constructor` | nasa.py:278 | the new list holds exactly the given words |
| `WordLists.WordList.Insert` | nasa.py:108 | `insert(i, x)`: one longer, x at min(i, n), the words before and after it unchanged |
| `WordLists.InsertFront` | nasa.py:108 | inserting at 0 puts x in front of all the words |
| `WordLists.ShiftedOrbits` | nasa.py:110 | the groups at 26, 34, …, 162 after the insertion are the table's groups at 25, 33, …, 161 |
| `WordLists.MakeSummary` | nasa.py:107-134 | prepends one placeholder and returns exactly the SUMMARY table of the list as it was |
| `WordLists.MakeCold` | nasa.py:136-149 | the same for COLD_REFERENCE |
| `WordLists.MakeWarm` | nasa.py:151-164 | the same for WARM_REFERENCE |
| `WordLists.MakeResponsivity` | nasa.py:166-174 | the same for AVERAGE_RESPONSIVITY |
| `WordLists.MakeNer` | nasa.py:176-184 | the same for NOISE_EQUIVALENT_RADIANCE |
| `WordLists.MakeAit` | nasa.py:186-194 | the same for AVERAGE_INSTRUMENT_TEMP |
| `WordLists.MakeSdOfIt` | nasa.py:196-204 | the same for SD_INSTRUMENT_TEMP |
| `WordLists.MakeCas` | nasa.py:206-236 | the same for CALIBRATED_ATMOSPHERIC_SPECTRUM |
| `WordLists.MakeRecord` | nasa.py:238-245 | the layout function of the type prepends one placeholder and returns that type's table |
| `Dispatch.DecodeRecord` | nasa.py:262-268 | ok exactly for 891 words with a tag from 1 to 8; a wrong length first, then an unknown tag; on success the type has the tag's value and the record is that type's table |
| `Dispatch.DecodeTagged` | nasa.py:265-266 | an 891-word record tagged with a type's value decodes to that type's table |
| `Dispatch.ProcessRecord` | nasa.py:262-268 | the method returns the decoding of the list as it was; on success the list gained the placeholder, on an error it is unchanged |
| `Archive.Chunk` | nasa.py:275 | every frame gives 893 slices, slice k the clamped bytes 4k to 4k + 3 |
| `Archive.ChunkPrefix` | nasa.py:275 | the first n slices end to end are the first 4n bytes of the frame |
| `Archive.ChunkBytes` | nasa.py:275 | all 893 slices end to end are the first 3572 bytes: nothing is lost or invented |
| `Archive.FullFrameWords` | nasa.py:275 | every slice of a full frame is a whole 4-byte word |
| `Archive.FrameTag` | nasa.py:265 | `int_(raw[0])` of a frame, its bytes 8..11, is below 2^32, and 0 for a frame of at most 8 bytes |
| `Archive.DecodeFrame` | nasa.py:275-278 | a frame of any length never fails on length; it decodes exactly when bytes 8..11 hold 1 to 8, and otherwise fails with that value |
| `Archive.Frames` | nasa.py:272-279 | the frames end to end are the file; each has 1 to 3572 bytes and all but the last have 3572 |
| `Archive.Read` | nasa.py:272 | a read returns min(3572, bytes left) bytes |
| `Archive.FirstFailureStep` | nasa.py:274-279 | taking one more frame in front keeps the stop-at-first-failure property |
| `Archive.Results` | nasa.py:278 | one result per frame |
| `Archive.ReadStep` | nasa.py:272-279 | a non-empty read is the next frame, and the decoding from there is that frame's result in front of the rest |
| `Archive.DecodeFrom` | nasa.py:272-279 | from byte position pos, n records mean more than (n - 1) · 3572 bytes were left, since each read takes up to 3572 bytes and only the last may be short; read to the end without an error, n · 3572 bytes cover what was left |
| `Archive.DecodeArchive` | nasa.py:270-279 | the same from the start of the file: read to its end without an error, a file of L bytes gives the ceiling of L / 3572 records, one per frame |
| `Archive.CollectFirstFailure` | nasa.py:274-279 | collecting results in order keeps the successes before the first failure and stops at it |
| `Archive.DecodeFromFrames` | nasa.py:270-279 | decoding from any position collects the results of the frames from there |
| `Archive.ArchiveOrder` | nasa.py:270-279 | the file's records are the results of its first frames, in file order, up to the first failing frame, or all frames if none fails |
| `Archive.ArchiveFailure` | nasa.py:265-278 | a file that stops early stops at a frame whose tag is not from 1 to 8, with that tag as the error |
| `Archive.ProcessFrame` | nasa.py:275-278 | chunking, dropping two slices and processing a fresh list gives the frame's decoding |
| `Archive.ProcessFile` | nasa.py:270-279 | the read loop's result is the decoding of the whole file |

## Left out

- The `cli` command (nasa.py:282-292): argument parsing, the unused `--count` option, grouping by type and printing.
- File I/O in `process_file`: `open` is replaced by the whole file content as a byte sequence, and `dat.read(FRAME)` by `Archive.Read` at a position.
- The generator's laziness: `Archive.ProcessFile` returns every record up to the first error, then the error. A consumer that stops early, or one that sees records before the error is raised, is not modelled.
- Python floats: an exact `real` stands for the float. The −0.0 produced by a set sign bit with a zero mantissa is 0 here.
- The namedtuple and enum machinery: records are a datatype with named fields; the enum is a datatype with its values given by `Records.TypeValue`.
- `orbit_times(*dat)` takes its words as separate arguments; the model passes the slice as a sequence.
- WordLists.MakeSummary: requires at least 25 words. On a shorter list Python raises `IndexError`; this is not modelled, because `process_record` only passes 891 words.
- WordLists.MakeCold: requires at least 7 words, for the same reason.
- WordLists.MakeWarm: requires at least 7 words, for the same reason.
- WordLists.MakeResponsivity: requires at least 2 words, for the same reason.
- WordLists.MakeNer: requires at least 2 words, for the same reason.
- WordLists.MakeAit: requires at least 2 words, for the same reason.
- WordLists.MakeSdOfIt: requires at least 2 words, for the same reason.
- WordLists.MakeCas: requires at least 28 words, for the same reason.
- WordLists.MakeRecord: requires the layout's minimum length, for the same reason.
- Records.Layout: the tables, like the methods, require the layout's minimum length, since Python would raise `IndexError` on a shorter list.
