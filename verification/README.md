# Verified models of the MSSQL extension's codecs, catalog cache and loader

DuckDB's MSSQL extension moves columns of values between DuckDB vectors and SQL Server's TDS stream, keeps a cache of
the tables of a schema that many threads read and invalidate, and loads rows in bulk. Most of that code exists twice:
a plain form that handles one value, or takes one lock, and a fast or concurrent form that must agree with it. This
project models the fast forms as the loops, buffers, cursors and lock steps they are, and proves what ties them to the
plain ones.

`dafny verify dfyconfig.toml` checks everything.

| files | what they model |
|---|---|
| `Unicode`, `Utf8Text`, `Encodings`, `WordScan`, `Buffers` | UTF-8 (section 3 of RFC 3629) and UTF-16 (section 2 of RFC 2781), what tells them from any other encoding, the word tests, little-endian numbers, scatter positions |
| `Staging`, `StringDecode` | reading a UTF-16 column: staging, one conversion for the whole column, four ways to find the value boundaries |
| `StringScatter` | writing a string column: planning, truncation, PLP framing (section 2.2.5.2.3 of [MS-TDS]), scatter, row encoder |
| `Decimal`, `DecimalScatter` | DECIMAL rescaling, range check, bytes (section 2.2.5.5.1.6 of [MS-TDS]), fast and general kernels |
| `Datetime`, `DatetimeScatter`, `Calendar` | timestamps, times and offsets (section 2.2.5.5.1.8 of [MS-TDS]) in both directions, their kernels, and the civil calendar they are held against |
| `TableSet*` | the table-set cache as a machine of any number of threads over three mutexes, an epoch, two flags, a single-flight set and counted entries; its invariant, what holds over every run, lifetimes, progress, runs steered from any state, the critical sections on real fields, what scans and lookups answer and why, and what an invalidation that has returned rules out |
| `RegexLike`, `RegexMeaning`, `RegexTheorem`, `RegexSql`, `RegexLimits`, `RegexTexts` | the compiler from a filter regex to LIKE / OR / IN, what both sides mean, about exactly which names they agree, the SQL text as a server reads it, the patterns for which they do not agree, and every text the compiler takes |
| `BulkFrames`, `BulkWriter`, `BulkSession` | TDS packets (section 2.2.3.1 of [MS-TDS]), the streaming writer, the session that cuts batches, the slot counter |
| `ConnString`, `Base64Url` | the connection-string tokenizer, percent decoding, base64url (section 5 of RFC 4648) |

How the pieces fit:

- Loops and in-place updates are methods over arrays, cursors and fields; each is proved against a function of its
  inputs, and the lemmas about that function carry the properties. 128-bit and 64-bit integers are unbounded integers
  with explicit ranges, and every wrap is written out.
- The cache is a state machine: a step is one atomic action of one thread, mutexes are taken and given back by what a
  program counter holds, and the fetches from the server are answered by any listing read between the start and the end
  of the fetch. The proof gives each thread an assertion, shows that the thread's own steps keep it, and that the steps
  of the others cannot disturb it because of the mutexes it holds. `clock`, the epochs that have cleared, the names
  published and what an invalidation under way had still to clear at a snapshot are history the code does not store;
  they are there so that freshness can be said at all.
- An entry is owned by the cache, by the shared pointers on threads' stacks and by the contexts' anchors. A step after
  which it has no owner frees it, for good. Raw pointers own nothing: anchoring is one step, handing out the next.
- Whatever is written is also read: the SQL text of a filter, the frames and the DONE of a bulk load, the framing of a
  string, a DECIMAL's payload and a connection string have readers defined without the writers, by literal words, offsets
  and numbers. The encodings and the calendar are pinned by their order and by counting on from one value to the next.
- The meaning of a regex, of a LIKE pattern and of an IN list are defined separately from the compiler, on names of
  ASCII characters without line breaks, with ASCII case folded on both sides.

Properties of the code that turned out not to hold as its comments or its shape suggest are stated exactly:

- A scan that reads the epoch while an invalidation is past its bump and has not yet taken `names_mutex_` for its last
  clear can raise both flags over containers without the names that invalidation covers: from any such state of any run
  there is a continuation that does (`TableSetWitness.SnapshotInsideBreaksFlags`). For every other name it cannot
  (`TableSetTheorems.SnapshotDecides`), and with `load_mutex_` free at the snapshot it cannot for any.
- About which names predicate and regex agree is an equivalence over every pattern of the fragment and every name
  (`RegexTheorem.ConvertedExactly`). They disagree in three ways, each shown on a whole pattern and a name:
  in a group anchored at its end an alternative that ends in an escaped dollar is left open at the end, because the test
  of the last character takes the escape for an anchor (`RegexLimits.EscapedDollarSelects`); in a fully anchored group
  of literals an alternative with an anchor of its own becomes a value that still holds the anchor's character
  (`RegexLimits.InnerAnchorMisses`); and T-SQL equality ignores trailing blanks (`RegexLimits.PaddedNameSelects`).
- The verdict of the cut at `|` is ignored: a last piece that is empty, or that holds a parenthesis as a bracket
  expression, `[(]`, is dropped with all that follows it, bare or in a group. About which names the predicate is then
  right is an equivalence too (`RegexLimits.TailDroppedExactly`, `RegexLimits.BracketMisses`).
- The time kernel and the row path differ on 24:00:00 in a time(7) column and nowhere else
  (`DatetimeScatter.KernelIsRowPath`).
- Flooring a negative tick count leaves int64 for exactly the lowest day's worth of counts
  (`Datetime.OnlyTheFloorOverflows`, `Datetime.FloorBoundary`): the subtraction comes before the addition of one.
- `src/include/codec/string_codec.hpp` says that over-long values throw; the code truncates them, and the model follows
  the code.

## Model

| member | source | states |
|---|---|---|
| WordScan.WordTestsExact | src/codec/string_codec.cpp:44-51 | the eight-byte zero test holds exactly when some byte is zero, the mask test exactly when some byte is not ASCII |
| WordScan.IsAsciiRun | src/codec/string_codec.cpp:44-59 | true exactly when every byte is below 0x80, for every length |
| WordScan.FindDelimiter | src/codec/string_codec.cpp:291-314 | the sweep and memchr both return the first zero byte at or after `from`, or `limit` |
| Staging.ColumnStaging.AppendVarDelimited | src/include/codec/staging/column_staging.hpp:470-476 | stages the value and one U+0000 after it, or nothing when the payload cap would be passed |
| Staging.ColumnStaging.AppendNull | src/include/codec/staging/column_staging.hpp:341-352 | a NULL row stages no payload |
| Unicode.ToUtf8Resume | src/codec/string_codec.cpp:325-345 | converting a valid run, one U+FFFD for the unit that stops it, and the rest converts the whole |
| Unicode.ToUtf8Zeros | src/codec/string_codec.cpp:373-378 | zero bytes of the output are the zero units of the input, one for one |
| Unicode.ToUtf8Length | src/codec/string_codec.cpp:491-495 | output length equals unit count exactly for pure ASCII, and is at most three times it |
| Unicode.TrimCommutes | src/codec/string_codec.cpp:347-357 | trimming U+0020 before converting equals trimming 0x20 after, ill-formed units included |
| Encodings.Utf8Ordered | src/codec/string_codec.cpp:481-488 | the UTF-8 of a smaller scalar value comes before that of a larger one, byte by byte |
| Encodings.Utf8Next | src/codec/string_codec.cpp:481-488 | counting on from one scalar value to the next counts on its last byte, with the carry over continuation bytes |
| Encodings.OnlyUtf8 | src/codec/string_codec.cpp:481-488 | an encoding that starts each length where UTF-8 does and counts on like that is UTF-8 |
| Encodings.PairsOrdered | src/codec/string_codec.cpp:757-763 | surrogate pairs are ordered by first, then second unit, as the scalar values are, between their two ends |
| Encodings.NextPair | src/codec/string_codec.cpp:757-763 | counting on past a second unit of 0xDFFF carries into the first |
| Encodings.ReplacementIsFFFD | src/codec/string_codec.cpp:325-345 | the three bytes put for an ill-formed unit are the UTF-8 of U+FFFD, EF BF BD |
| Encodings.IllFormedIs | src/codec/string_codec.cpp:325-345 | a unit stops the conversion exactly when it is a surrogate outside a pair |
| Encodings.ConvertedAs | src/codec/string_codec.cpp:325-345 | the converted text, unit by unit: EF BF BD for an ill-formed unit, else the one UTF-8 form of the scalar value |
| StringDecode.BlobIsConversion | src/codec/string_codec.cpp:481-490 | one conversion of the staged column is the conversions of the values, a zero byte after each |
| StringDecode.ConvertChecked | src/codec/string_codec.cpp:481-488 | the checked conversion writes the UTF-8 and its length, or returns 0 on ill-formed input |
| StringDecode.ConvertReplacingInvalid | src/codec/string_codec.cpp:325-345 | the resume loop writes the conversion with U+FFFD for each ill-formed unit and counts those |
| StringDecode.TrimTrailingUtf8Spaces | src/codec/string_codec.cpp:352-357 | the length of the value without its trailing spaces |
| StringDecode.WalkDelimited | src/codec/string_codec.cpp:437-450 | the walk ends on the last byte written exactly when no value holds a U+0000, and then every row is its own value |
| StringDecode.SplitWithEmbeddedNuls | src/codec/string_codec.cpp:386-412 | the re-split gives every row its own value whatever U+0000 the values hold |
| StringDecode.SplitHit | src/codec/string_codec.cpp:395-410 | the zero byte with exactly the row's own zeros before it is the row's delimiter |
| StringDecode.StoreAsciiOffsets | src/codec/string_codec.cpp:491-504 | in a pure ASCII column halved input offsets cut out every value |
| StringDecode.FindBoundaries | src/codec/string_codec.cpp:506-539 | which of sweep, memchr and re-split decides the boundaries, and that the rows come out right in each |
| StringDecode.DecodeChunk | src/codec/string_codec.cpp:452-540 | every non-NULL row is exactly the UTF-8 of its own units, trimmed for NCHAR, NULL rows are untouched, and the strategy recorded says what the column holds |
| StringDecode.RowPathAgrees | src/codec/string_codec.cpp:784-828 | the per-value decoder gives the same text as the batch for every value |
| StringDecode.PaddingIsTrimmed | src/codec/string_codec.cpp:347-357 | blanks behind a fixed-length value are gone from its text, and kept in other columns |
| StringDecode.OutputFits32 | src/codec/string_codec.cpp:409-410 | under the payload cap every output length and offset fits 32 bits |
| Utf8Text.Utf16RoundTrip | src/codec/string_codec.cpp:757-763 | valid UTF-8 converted to UTF-16 and back is itself |
| Utf8Text.Utf8RoundTrip | src/codec/string_codec.cpp:481-488 | well-formed UTF-16 converted to UTF-8 and back is itself |
| Utf8Text.Utf8PrefixForUtf16Limit | src/codec/string_codec.cpp:82-111 | the walk by lead bytes returns the clip and its UTF-16 size |
| Utf8Text.ClipIsLargest | src/codec/string_codec.cpp:71-81 | the clip is a valid prefix that fits, and no longer prefix on a character boundary does |
| Utf8Text.Utf8PrefixForByteLimit | src/codec/string_codec.cpp:116-126 | stepping back off continuation bytes gives the byte clip |
| Utf8Text.ClipBytesIsLargest | src/codec/string_codec.cpp:113-126 | the byte clip is a valid prefix that fits, and no longer valid prefix does |
| Utf8Text.BoundaryTest | src/codec/string_codec.cpp:121-124 | inside valid UTF-8 a byte is a continuation byte exactly when the text before it is cut within a character |
| Utf8Text.ClipTwice | src/codec/string_codec.cpp:224-228 | truncating a truncated value changes nothing, for either bound |
| StringScatter.WireReadsBack | src/codec/string_codec.cpp:705-766 | a reader of the framing gets NULL or the payload back from the bytes of a row, PLP or not, and what follows them |
| StringScatter.MarkersAre | src/codec/string_codec.cpp:705-766 | the PLP header is 2^64 - 2 and the NULL markers are 2^64 - 1 and 2^16 - 1, little-endian |
| StringScatter.KeptIsLargest | src/codec/string_codec.cpp:210-261 | a MAX column keeps every value whole; any other keeps the longest prefix that fits its bound in bytes, of whole characters for text |
| StringScatter.EncodeNVarcharFromUtf8 | src/codec/string_codec.cpp:210-261 | the row encoder appends the framed, clipped UTF-16 of a valid value |
| StringScatter.EncodeVarcharUtf8 | src/codec/string_codec.cpp:864-898 | the row encoder appends the framed, clipped bytes |
| StringScatter.ClampToBound | src/codec/string_codec.cpp:577-613 | the second pass re-plans every row with its value clipped to the bound |
| StringScatter.MeasureColumn | src/codec/string_codec.cpp:645-697 | the first pass measures every row, and says whether one exceeds the bound and whether all are ASCII |
| StringScatter.PlanColumn | src/codec/string_codec.cpp:615-703 | accepts exactly the plannable kinds and texts, and an accepted plan holds each row's payload length, wire size and source length |
| StringScatter.WidenedIsConverted | src/codec/string_codec.cpp:61-69 | widening ASCII bytes is converting them to UTF-16LE |
| StringScatter.WidenAscii | src/codec/string_codec.cpp:64-69 | the widening loop writes exactly those bytes in place |
| Buffers.PackedRowsApart | src/codec/string_codec.cpp:725-765 | cursors spaced by the wire sizes never make two rows overlap |
| StringScatter.ScatterVarBlock | src/codec/string_codec.cpp:718-766 | every row of the block gets exactly the row encoder's bytes at its cursor, cursors advance by the planned wire size, and no other byte changes |
| Decimal.AcceptedExactly | src/codec/decimal_codec.cpp:93-109 | for precision 1-38 a mantissa is accepted exactly when the number it means at the target's scale is below 10^precision, and that number is what is written |
| Decimal.RescaleKeepsNumber | src/codec/decimal_codec.cpp:133-179 | the rescaled mantissa is the same number, exact or rounded half away from zero, and stays in int128 |
| Decimal.RescaleRounds | src/codec/decimal_codec.cpp:158-178 | quotient, remainder and half give the nearest integer, halves away from zero |
| Decimal.RescaleWidens | src/codec/decimal_codec.cpp:137-156 | widening is exact where accepted and refused only beyond 10^38 |
| Decimal.RoundedUnique | src/codec/decimal_codec.cpp:158-161 | rounding half away from zero determines its result |
| Decimal.FarBelow | src/codec/decimal_codec.cpp:162-165 | a source more than 38 digits finer rounds to zero |
| Decimal.MagnitudeFits | src/codec/decimal_codec.cpp:245-252 | the announced byte count holds every magnitude of the precision |
| Decimal.SmallestSize | src/codec/decimal_codec.cpp:245-252 | it is the smallest of 5, 9, 13 and 17 that does |
| Decimal.PayloadIs | src/codec/decimal_codec.cpp:237-253 | the sign byte is one for zero and above and zero below, the bytes behind it are the magnitude, lowest first |
| Decimal.DecimalRoundTrip | src/codec/decimal_codec.cpp:183-197 | decoding the bytes of an accepted value returns it at its storage width |
| Decimal.PayloadConverts | src/tds/encoding/decimal_encoding.cpp:33-62 | two loads and a sign read back the magnitude |
| DecimalScatter.ScatterToBcp | src/codec/decimal_codec.cpp:237-253 | refuses exactly what is not accepted, and otherwise writes the sign and magnitude bytes taken from the two halves |
| DecimalScatter.EncodeToBcp | src/codec/decimal_codec.cpp:538-546 | the appending form adds the length prefix and those bytes |
| DecimalScatter.HalvesNegate | src/codec/decimal_codec.cpp:311-319 | the hand-written negation of an int128 by halves is negation modulo 2^128 |
| DecimalScatter.FastIsLossless | src/codec/decimal_codec.cpp:469-497 | where the fast loop is chosen every value is accepted unchanged and its one store is the row path's bytes |
| DecimalScatter.WithoutTheSizeTestSignsFlip | src/codec/decimal_codec.cpp:485-497 | without the size test every DECIMAL(19) value from 2^63 on would be written with the wrong sign |
| DecimalScatter.WideningKeepsValue | src/codec/decimal_codec.cpp:370-383 | every source value survives the widening, unsigned ones from 2^63 on included |
| DecimalScatter.SmallestPhysical | src/codec/decimal_codec.cpp:60-84 | the integer a DECIMAL of a width is stored in is the smallest of the signed ones that holds its values |
| DecimalScatter.ImageIsMagnitude | src/codec/decimal_codec.cpp:400-403 | the first bytes of the 16-byte pair in memory are the little-endian magnitude |
| DecimalScatter.ScatterGeneral | src/codec/decimal_codec.cpp:385-407 | the general loop's body, with its own widening and one copy off the pair, writes the row path's bytes or refuses exactly what the row path refuses |
| DecimalScatter.ScatterChunkPos | src/codec/decimal_codec.cpp:351-407 | over a whole column, strided or by cursor, fast or general: the row path's bytes at every row, or a refusal exactly when the row path refuses some value |
| DecimalScatter.StridedRowsApart | src/include/codec/scatter_position.hpp:41-52 | rows a full value apart never overlap |
| Datetime.ComponentsAreExact | src/codec/datetime_codec.cpp:192-242 | time and date are in range and stand for the tick count at the target's scale, exact or rounded to the nearest tick, with the carry into the next day |
| Calendar.NextDayNumber | src/codec/datetime_codec.cpp:166-166 | the day numbers counted by the proleptic Gregorian rule go up by one from each civil date to the next |
| Calendar.UnixEpochDay | src/codec/datetime_codec.cpp:166-166 | by that count 0001-01-01 is day 0 and 1970-01-01 is day 719162 |
| Calendar.FieldsAreCivil | src/codec/datetime_codec.cpp:192-242 | for every civil date and time of day the date field is that date's day number and the time field the nearest tick, or both are those of the midnight it rounds to |
| Calendar.DecodedIsCivil | src/codec/datetime_codec.cpp:650-686 | fields that hold a civil date's day number and a time of day decode to that date and time |
| Calendar.WireIsCivil | src/codec/datetime_codec.cpp:899-949 | the bytes of a datetime2 or datetimeoffset, read little-endian, are that time and day number, and a zero offset |
| Calendar.DateIsCivil | src/codec/datetime_codec.cpp:899-949 | the three bytes of a date are its day number |
| Calendar.TickZero | src/codec/datetime_codec.cpp:192-242 | tick zero is midnight of 1970-01-01 for every unit and scale |
| Datetime.SmallestTimeSize | src/tds/encoding/bcp_row_encoder.cpp:1328-1336 | three, four or five bytes: the smallest that hold every tick of a day |
| Datetime.SplitFloors | src/codec/datetime_codec.cpp:197-204 | the truncating division floors days before the epoch too |
| Datetime.EncodingIsMonotone | src/codec/datetime_codec.cpp:192-242 | a later instant never gets earlier fields |
| Datetime.OnlyTheFloorOverflows | src/codec/datetime_codec.cpp:197-211 | the floor's subtraction is the only step that can leave int64, and it does so exactly for counts below -2^63 plus a day |
| Datetime.FloorBoundary | src/codec/datetime_codec.cpp:203-203 | the lowest count that is safe, and that the one below it is not although the sum would fit |
| Datetime.Datetime2WireToNativeUnit | src/codec/datetime_codec.cpp:650-686 | on any wire bytes an accepted value is the exact instant with nothing outside int64 on the way, and only the guards refuse |
| Datetime.GuardsExact | src/codec/datetime_codec.cpp:674-684 | the day guards refuse exactly the days whose ticks lie outside int64 |
| Datetime.CoarseUnitsAlwaysAccept | src/codec/datetime_codec.cpp:670-678 | seconds, milliseconds and microseconds are never refused |
| Datetime.TimestampRoundTrip | src/codec/datetime_codec.cpp:638-686 | encoding and decoding returns the ticks when the scale is at least as fine, and else ticks at most half a wire tick off |
| DatetimeScatter.ComputeDatetime2Components | src/codec/datetime_codec.cpp:192-242 | the out-parameters are the fields, in range and exact on the calendar |
| DatetimeScatter.KernelFields | src/codec/datetime_codec.cpp:278-304 | the loop body with hoisted constants computes the row path's pair, for every count, unit and scale |
| DatetimeScatter.DateBytes | src/codec/datetime_codec.cpp:424-426 | the three bytes stored of a wrapped day number are the row path's arithmetic shifts, before year 1 too |
| DatetimeScatter.EncodeTime | src/tds/encoding/bcp_row_encoder.cpp:1197-1239 | the row encoder's loops append the rounded, held ticks of a time of day |
| DatetimeScatter.TicksAreNearest | src/tds/encoding/bcp_row_encoder.cpp:1197-1239 | both paths write the microseconds rounded to the nearest tick, halves up, held below midnight by the kernel at every scale and by the row path up to scale 6 |
| DatetimeScatter.EncodeToBcp | src/codec/datetime_codec.cpp:899-949 | the row path appends the bytes of one value of any of these columns, or the NULL marker |
| DatetimeScatter.TimesAgreeExactly | src/codec/datetime_codec.cpp:328-357 | kernel and row path find the same ticks of a day but for 24:00:00 at scale 7 |
| DatetimeScatter.KernelIsRowPath | src/codec/datetime_codec.cpp:265-455 | the bytes the kernels store, cut from 64-bit ticks and a 32-bit date, are the row path's exactly but for that value |
| DatetimeScatter.ScatterChunkPos | src/codec/datetime_codec.cpp:462-620 | over a whole datetime2, datetimeoffset, time or date column, and a datetime2 column fed with dates: each row's bytes at its place, cursors advanced, nothing else changed |
| TableSetSafety.Stable | src/catalog/mssql_table_set.cpp:200-234 | no step of another thread disturbs what a thread relies on, because of the mutexes both hold |
| TableSetSafety.StepKeeps | src/catalog/mssql_table_set.cpp:36-416 | every step keeps the memory's invariant and its own thread's assertion |
| TableSetSafety.FillKeeps | src/catalog/mssql_table_set.cpp:199-234 | filling on a clean epoch adds only entries loaded since every clear of their names |
| TableSetRuns.LocksKept | src/catalog/mssql_table_set.cpp:376-416 | a mutex is recorded with a thread exactly when that thread is where the code holds it |
| TableSetRuns.RunsKeepInv | src/catalog/mssql_table_set.cpp:36-416 | every state of every run of any number of threads meets the invariant |
| TableSetRuns.EntriesAreFresh | src/catalog/mssql_table_set.cpp:345-360 | every cached entry was loaded under an epoch at least that of every invalidation of its name that cleared, and read no earlier than that invalidation's bump |
| TableSetRuns.SingleFlight | src/catalog/mssql_table_set.cpp:287-304 | the load set is exactly the names being fetched, and one thread fetches each |
| TableSetTheorems.InvalidationHolds | src/catalog/mssql_table_set.cpp:376-416 | after an invalidation has cleared a name, no later state caches an entry for it from before the invalidation |
| TableSetTheorems.FlagsHonest | src/catalog/mssql_table_set.cpp:256-267 | after a scan published, and until flags are lowered, every listed name is in both containers but for what an invalidation under way at its snapshot had still to clear |
| TableSetTheorems.SnapshotDecides | src/catalog/mssql_table_set.cpp:128-130 | a listed name is in both containers while the flags are up unless an invalidation covering it was between its bump and its last clear at the scan's snapshot; none was with `load_mutex_` free |
| TableSetAnswers.ScanHandsOut | src/catalog/mssql_table_set.cpp:251-254 | from pass C to the publication a scan hands its callback exactly the entries it listed, each once |
| TableSetAnswers.ScanAnswers | src/catalog/mssql_table_set.cpp:124-267 | over a whole scan, by names: every listed name without an entry in pass A gets its new entry, or on an unmoved epoch the one cached meanwhile; every other listed name still cached at pass C gets that entry; nothing else is handed out |
| TableSetAnswers.ScanHasMoments | src/catalog/mssql_table_set.cpp:124-267 | every scan of every run that gets to its publication has been through the moments that statement speaks of |
| TableSetAnswers.CachedIsAnswered | src/catalog/mssql_table_set.cpp:46-62 | a look at a cached name is answered with the entry cached at that moment and nothing else |
| TableSetAnswers.FetchedIsAnswered | src/catalog/mssql_table_set.cpp:362-370 | what the server finds is handed to the caller that fetched it, published or not |
| TableSetAnswers.AnswersTheName | src/catalog/mssql_table_set.cpp:36-122 | every entry GetEntry hands out has the name it was asked for |
| TableSetReasons.FetchIsNeeded | src/catalog/mssql_table_set.cpp:46-122 | the server is asked only after the five checks of the call, in their order |
| TableSetReasons.EmptyHasReason | src/catalog/mssql_table_set.cpp:46-122 | a call that hands nothing out met one of the moments that say there is no such table, or met the name in the cache and found it gone at a second look |
| TableSetEffects.EveryEffect | src/catalog/mssql_table_set.cpp:36-416 | after any event of any run, name by name, what each container holds, and the flags and the epoch |
| TableSetEffects.EveryAnchor | src/catalog/mssql_bind_anchors.cpp:10-32 | after any step every context keeps what it kept and the entry now being handed out in it, and nothing once its query has ended |
| TableSetEffects.MutexGuards | src/catalog/mssql_table_set.cpp:36-416 | without the mutex of a container a step goes the same way whatever that container holds, and leaves it alone |
| TableSetEffects.LoadMutexGuards | src/catalog/mssql_table_set.cpp:256-267 | without `load_mutex_` no step changes a flag or the epoch |
| TableSetFresh.InvalidationDoesAll | src/catalog/mssql_table_set.cpp:376-416 | an invalidation that has returned has moved the epoch, lowered both flags and emptied each container of the names it covers, in that order |
| TableSetFresh.InvalidateWorks | src/catalog/mssql_table_set.cpp:376-416 | once the call has returned every entry cached for a name it covers was read from the server after the call began |
| TableSetFresh.GetSeesInvalidation | src/catalog/mssql_table_set.cpp:36-122 | a GetEntry called after an invalidation of its name has returned hands out no entry read before that invalidation was called |
| TableSetFresh.ScanSeesInvalidation | src/catalog/mssql_table_set.cpp:124-267 | nor does a scan begun after it |
| TableSetFresh.FullyMeansListed | src/catalog/mssql_table_set.cpp:372-374 | while the schema is marked fully loaded every name some scan published is cached and known, but for what an invalidation under way at its snapshot had still to clear |
| TableSetFresh.ScanRaisesFlags | src/catalog/mssql_table_set.cpp:256-267 | a scan raises both flags, the names first, exactly when the epoch has not moved since its snapshot |
| TableSetFresh.LoadCaches | src/catalog/mssql_table_set.cpp:346-360 | a finished load leaves what was cached, else what the server found if the epoch did not move since the slot was taken, else nothing |
| TableSetOwners.PointersStayLive | src/catalog/mssql_bind_anchors.cpp:10-32 | an entry whose pointer was handed out is not freed before that context's query ends, whatever the others invalidate |
| TableSetOwners.NothingFreedIsTouched | src/catalog/mssql_table_set.cpp:50-62 | no step of any run looks at an entry that has been freed, through the cache, a shared pointer or a pointer handed out |
| TableSetOwners.FreedExactly | src/catalog/mssql_bind_anchors.cpp:10-24 | an entry once owned is freed exactly when neither the cache, nor a stack, nor any anchors own it, and stays freed |
| TableSetProgress.AsksUpwards | src/catalog/mssql_table_set.cpp:199-201 | a thread asks only for mutexes above those it holds in the order load, names, entry, and sleeps holding none |
| TableSetProgress.NoCircularWait | src/catalog/mssql_table_set.cpp:289-290 | in no reachable state do threads wait in a circle, and no wait chain has more than five threads |
| TableSetProgress.NoDeadlock | src/catalog/mssql_table_set.cpp:36-416 | following who waits for whom from any busy thread leads in at most four hops to a thread that can step |
| TableSetSteering.Settle | src/catalog/mssql_table_set.cpp:199-201 | from any state of a run in which an invalidation holds `load_mutex_`, the other threads can give back every mutex in a few steps of their own |
| TableSetWitness.SnapshotInsideBreaksFlags | src/catalog/mssql_table_set.cpp:376-416 | the converse: from any state of any run in which a scan reads the epoch inside an invalidation covering a name, the run can go on to both flags up with the name listed and missing |
| TableSetWitness.FlagsOverEmptyContainers | src/catalog/mssql_table_set.cpp:128-130 | a reachable state with both flags up and both containers empty after a scan listed a table |
| TableSetWitness.AnchorsOutliveTheCache | src/catalog/mssql_table_set.cpp:236-254 | a reachable state in which only anchors keep an entry the cache has dropped, alive until the query's end frees it |
| TableSetFields.Tables.EnterLoad | src/catalog/mssql_table_set.cpp:288-304 | on the fields, exactly the machine's step at the entry of a load: its branch, its fields after |
| TableSetFields.Tables.FinishLoad | src/catalog/mssql_table_set.cpp:346-360 | on the fields, exactly the machine's two steps that compare the epoch and publish |
| TableSetFields.Tables.FillPass | src/catalog/mssql_table_set.cpp:198-234 | the three loops of pass C emplace, collect and record exactly what the machine's step says |
| TableSetFields.Tables.Invalidate | src/catalog/mssql_table_set.cpp:376-416 | on the fields, what the machine's seven steps of an invalidation lead to when nobody else moves |
| TableSetFields.Tables.PublishFlags | src/catalog/mssql_table_set.cpp:261-267 | on the fields, what the machine's steps from the comparison to the end of a scan lead to |
| TableSetFields.BindAnchors.AnchorTable | src/catalog/mssql_bind_anchors.cpp:26-32 | the vector's entries become what the machine's anchoring step makes a context own, and a null pointer changes nothing |
| RegexLike.ConvertSinglePatternToLike | src/catalog/mssql_catalog_filter.cpp:106-212 | the loop's text is the quoted LIKE of the scanned constructs, or nothing |
| RegexLike.SplitAlternatives | src/catalog/mssql_catalog_filter.cpp:216-246 | pieces and verdict of the cut at bars outside parentheses, escapes respected |
| RegexLike.IsPlainLiteral | src/catalog/mssql_catalog_filter.cpp:249-258 | true exactly when no metacharacter occurs |
| RegexLike.ExactValues | src/catalog/mssql_catalog_filter.cpp:322-351 | when the alternatives become an IN list, and of which values |
| RegexLike.FindAlternatives | src/catalog/mssql_catalog_filter.cpp:283-315 | the alternatives and the group anchors they stand under |
| RegexSql.TryRegexToSQLLike | src/catalog/mssql_catalog_filter.cpp:277-394 | the text returned is read as the converted predicate, is empty when there is none, and for a faithful pattern selects the names the search finds |
| RegexMeaning.WidenFinds | src/catalog/mssql_catalog_filter.cpp:187-200 | a LIKE with one wildcard at each open side, or one that is there already, means the unanchored search |
| RegexMeaning.BranchMeaning | src/catalog/mssql_catalog_filter.cpp:106-212 | an alternative's LIKE matches exactly the names some stretch of which the alternative matches |
| RegexMeaning.SplitTexts | src/catalog/mssql_catalog_filter.cpp:214-246 | the text of non-empty alternatives is cut back into exactly those |
| RegexTheorem.FindsAlternatives | src/catalog/mssql_catalog_filter.cpp:283-315 | group and flat patterns are told apart and their alternatives and anchors found |
| RegexTheorem.EqualOrPadded | src/catalog/mssql_catalog_filter.cpp:353-363 | T-SQL equality is equality up to case or a difference in trailing blanks |
| RegexTheorem.ConvertedExactly | src/catalog/mssql_catalog_filter.cpp:277-394 | every pattern of the fragment has a predicate, and about which names predicate and case-insensitive search agree: an equivalence |
| RegexTheorem.ConvertedMeansSearch | src/catalog/mssql_catalog_filter.cpp:277-394 | for every faithful pattern a name satisfies the predicate exactly when the search finds the pattern |
| RegexLimits.EscapedDollarIsLeftOpen | src/catalog/mssql_catalog_filter.cpp:370-372 | each alternative ending in an escaped dollar in an end-anchored group accepts a name that alternative does not match |
| RegexLimits.EscapedDollarSelects | src/catalog/mssql_catalog_filter.cpp:370-372 | a whole pattern, a group anchored at both ends of an escaped dollar after `a` and of `b`: it selects `a$x`, which it does not match |
| RegexLimits.InnerAnchorIsQuoted | src/catalog/mssql_catalog_filter.cpp:322-330 | an anchor inside a fully anchored group of literals ends up in the value |
| RegexLimits.InnerAnchorMisses | src/catalog/mssql_catalog_filter.cpp:322-330 | a whole pattern, the same group with `^a` inside: it misses `a`, which it matches |
| RegexLimits.PaddedNameSelects | src/catalog/mssql_catalog_filter.cpp:353-363 | a whole pattern, the same group of `a` and `b`: it selects `a` with a blank behind it |
| RegexLimits.CutStops | src/catalog/mssql_catalog_filter.cpp:216-246 | the cut stops in an empty last piece and in every piece that holds `[(]` or `[)]`, whatever follows it |
| RegexLimits.UnfinishedTailIsDropped | src/catalog/mssql_catalog_filter.cpp:303-315 | a last piece at which the cut stops, bare or in a group, is converted as if it were not there |
| RegexLimits.OneBeforeTail | src/catalog/mssql_catalog_filter.cpp:314-393 | with one alternative before such a piece nothing is converted |
| RegexLimits.LoneGroupRefused | src/catalog/mssql_catalog_filter.cpp:297-305 | a group in which the cut finds one alternative is not converted |
| RegexLimits.TailDroppedExactly | src/catalog/mssql_catalog_filter.cpp:303-315 | about which names the predicate of a pattern with such a piece is right, bare or in a group: an equivalence |
| RegexLimits.BracketMisses | src/catalog/mssql_catalog_filter.cpp:303-303 | a whole pattern, the same group with `[(]` as its last alternative: it misses the parenthesis it matches |
| RegexLimits.LastEmptyExactly | src/catalog/mssql_catalog_filter.cpp:235-243 | with an empty last alternative the predicate is right about a name exactly when the rest finds it |
| RegexTexts.ConvertedBranch | src/catalog/mssql_catalog_filter.cpp:122-182 | every text that converts is the text of terms of the fragment, but for stray anchors, parentheses and a last backslash |
| RegexTexts.CutIsWhole | src/catalog/mssql_catalog_filter.cpp:214-246 | a cut whose verdict is true lost nothing of the text |
| RegexTexts.ConvertedIsRegex | src/catalog/mssql_catalog_filter.cpp:277-394 | every text that converts, is cut through and holds no strays is the text of a pattern of the fragment |
| RegexTexts.ConvertedTextsExactly | src/catalog/mssql_catalog_filter.cpp:277-394 | so for every such text and every name the exact statement about agreement holds |
| RegexSql.LiteralsReadBack | src/catalog/mssql_catalog_filter.cpp:261-271 | a T-SQL reader gets every quoted value back and stops right behind it |
| RegexSql.PredicateReadsBack | src/catalog/mssql_catalog_filter.cpp:353-394 | a reader of one LIKE, of a parenthesised list with OR, or of an IN list gets every predicate back from its text: kind, patterns or values, and order |
| RegexSql.TextMeansSearch | src/catalog/mssql_catalog_filter.cpp:277-394 | for every faithful pattern a query with the text returned selects exactly the names in which the search finds the pattern |
| BulkFrames.FramesSplit | src/copy/bcp_writer.cpp:575-589 | cutting at a frame boundary and sending early gives the frames of sending at once |
| BulkFrames.FramesShape | src/copy/bcp_writer.cpp:606-640 | type 7, the length in two bytes high first, the last flag only on the last frame, packet ids modulo 256, zero bytes elsewhere; all frames but the last are full |
| BulkFrames.MessageArrives | src/copy/bcp_writer.cpp:591-641 | a receiver of the frames gets the message back and nothing of what follows |
| BulkFrames.AllReceived | src/copy/bcp_writer.cpp:591-641 | a receiver that reads message after message finds exactly those that arrive |
| BulkWriter.BCPWriter.WriteFrames | src/copy/bcp_writer.cpp:591-641 | the send loop sends exactly the frames of the data from the next packet id |
| BulkWriter.BCPWriter.WriteColmetadata | src/copy/bcp_writer.cpp:162-173 | opens the message with the column metadata, once |
| BulkWriter.BCPWriter.WriteRows | src/copy/bcp_writer.cpp:175-232 | adds the chunk to the message and the counters, bounds what is held between drains, and refuses before the metadata |
| BulkWriter.BCPWriter.DrainWholeFrames | src/copy/bcp_writer.cpp:575-589 | sends whole frames, keeps less than one, and the message is unchanged |
| BulkWriter.BCPWriter.WriteDone | src/copy/bcp_writer.cpp:234-245 | the frames sent for the batch are those of the whole message, DONE included, cut in one go |
| BulkWriter.DoneReadsBack | src/copy/bcp_writer.cpp:551-569 | a reader of the last thirteen bytes, at fixed offsets, finds 0xFD, status 0x0010, command 0x00C3 and the count |
| BulkWriter.MessageHolds | src/copy/bcp_writer.cpp:162-232 | where the parts of a batch lie: the metadata in front, each chunk right behind the one before, thirteen bytes at the end |
| BulkWriter.BCPWriter.ResetForNextBatch | src/copy/bcp_writer.cpp:426-444 | clears the batch and keeps packet ids, totals and what was sent |
| BulkWriter.StreamArrives | src/copy/bcp_writer.cpp:591-641 | over any number of batches a receiver gets exactly the messages, in order |
| BulkWriter.StreamIds | src/copy/bcp_writer.cpp:623-623 | packet ids run on across batches modulo 256 |
| BulkSession.BulkLoadSession.Write | src/copy/bulk_load_session.cpp:168-187 | takes the chunk, ends the batch exactly when it reaches the limit, and reopens the stream |
| BulkSession.BulkLoadSession.Finish | src/copy/bulk_load_session.cpp:189-211 | ends the last batch even when empty; everything sent is the messages of the batches, the batches are the chunks given, and the counts read off what was sent sum to their rows |
| BulkSession.CountsConserved | src/copy/bulk_load_session.cpp:174-184 | the counts read from the ends of the messages that arrive sum to the rows of all the chunks, one message a batch |
| BulkSession.WritersNeverExceedLimit | src/copy/bulk_load_session.cpp:102-108 | under any order of adds and subtractions the sessions there are never exceed the limit |
| ConnString.TokenizeConnectionString | src/mssql_storage.cpp:507-585 | the index loop returns the pairs, and ends on every input |
| ConnString.PrintedReadsBack | src/mssql_storage.cpp:490-501 | pairs printed with brace-quoted values, arbitrary ones, or plain values, in any mixture, are tokenized back |
| ConnString.PlainReadsBack | src/mssql_storage.cpp:566-578 | a value free of semicolons that does not start with a brace is read as it stands, trimmed |
| ConnString.TrimIs | src/mssql_storage.cpp:573-573 | trimming takes the six whitespace characters off both ends and nothing else |
| ConnString.JunkPassedOver | src/mssql_storage.cpp:521-531 | a piece without an equals sign is passed over |
| ConnString.KeylessPassedOver | src/mssql_storage.cpp:579-581 | a value with a blank key is passed over |
| ConnString.UrlDecode | src/mssql_storage.cpp:371-384 | the index loop is the decoding that takes a percent sign only before two hex digits |
| ConnString.EncodingsDecode | src/mssql_storage.cpp:349-384 | decoding inverts every encoding that escapes the percent signs digits follow, and keeps a percent sign that starts no escape |
| Base64Url.Base64UrlDecode | src/azure/jwt_parser.cpp:49-77 | the loop with a wrapping 32-bit accumulator yields the decoded bytes |
| Base64Url.EncodeDecodes | src/azure/jwt_parser.cpp:49-77 | the encoding of any bytes, padded or not, in either alphabet, decodes to them |
| Base64Url.Alphabet | src/azure/jwt_parser.cpp:26-47 | a character has the value of its place in the table of RFC 4648, in either alphabet, and no other character has one |
| Base64Url.JunkIsPassedOver | src/azure/jwt_parser.cpp:49-77 | characters outside the alphabet are passed over wherever they stand |
| Base64Url.PaddingIsTheEnd | src/azure/jwt_parser.cpp:49-77 | nothing behind a padding character is read |

## Left out

- StringScatter.EncodeNVarcharFromUtf8: asks for valid UTF-8, because the append path for invalid text lives in an encoder that is not part of this model.
- StringScatter.PlanColumn: values of 2 GiB and more are not modelled, because their lengths leave the 32 bits the plan stores them in.
- StringScatter.ScatterVarBlock: compared with the row encoder for nvarchar and UTF-8 varchar; for binary columns the planned bytes are proved, but the row encoder for binary neither clips nor uses the plan's lengths.
- StringDecode.DecodeChunk: works on UTF-16 units, so an odd byte at the end of a value is not modelled; pointers into the shared text buffer and their lifetime are not modelled, only the text.
- Datetime.ComponentsAreExact: asks that the day and the one after it fit the three date bytes, because beyond them the wire has no date.
- StringDecode.RowPathAgrees: the row decoder is a function over units, so what it does with an odd byte at the end is not modelled.
- RegexTheorem.ConvertedExactly: names outside ASCII or with line breaks, and case-sensitive collations, are not covered.
- RegexTexts.ConvertedTextsExactly: texts with stray characters (`^^a`, an anchor in the middle, an unmatched parenthesis) convert, but what a regex engine makes of them is not modelled.
- TableSetFields.Tables.Invalidate: states the invalidation run alone; how its sections interleave with other threads is the machine's business.
- TableSetOwners.PointersStayLive: schema anchors, and callbacks that call back into the table set before they return, are not modelled; `mutex_` of the anchors guards one context's own list and is not either.
- The simdutf conversions and memchr are taken to do what they are documented to do.
- TableSetReasons.EmptyHasReason: names the moment an empty answer rests on and does not claim that the table is absent, because a flag read before an invalidation, a negative inserted after a clear and a waiter that finds its entry gone can each make an existing table look absent.
- The metadata cache, its time-to-live and its own locks: the server's answers are an oracle.
- Sockets, connection pools, transactions, INSERT BULK itself and the parsing of server responses: a send succeeds and the server confirms each batch.
- The warm-up gate of TryStart, a heuristic that only delays claims.
- Growth and capacity of buffers, timings, counters and debug output.
- The read side of DATE, DATETIME and SMALLDATETIME, boolean, float, uuid, money and plain binary codecs: direct copies with nothing to prove.
- The batch decode of DECIMAL columns, which is the per-value decode in a loop over rows including the meaningless ones of NULL rows.
- SQL text other than the filter predicate: DDL, quoting of identifiers, literals.
- URI parsing around percent decoding, JSON parsing around base64, and the mapping of keys to settings.
