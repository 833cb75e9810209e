# async-1brc: a verified model of the parsing and aggregation core

async-1brc answers the "one billion row challenge". It reads a text file of lines
`<station name>;<reading>\n`, with readings that have one decimal digit. It reports, per
station and in name order, the minimum, the maximum and the mean reading. The program
reads the file in chunks, hands each chunk to one of several consumer tasks, and merges
their per-station tables at the end.

This project models the part of the program that turns bytes into tables and tables into
the result.

- **The station key** (`HashableBuffer`) is a byte buffer. Its hash packs the buffer's
  length and first seven bytes into one 64-bit word. Its order is the derived
  lexicographic order of the bytes. The type's documentation speaks of hashing the
  first seven bytes; the code seeds the fold with the length and ORs byte 0 into that
  same low byte. So besides the documented collision, same-length keys whose first
  bytes differ only in bits the length sets also collide (`HashLengthOverlap`).
- **The per-station summary** `StationStats` (`Stats`) holds a minimum, a maximum, an
  `i32` sum and a `usize` count. It has `new`, `extend`, `+` and `+=`, including `+=` of
  an `Option`.
- **The table** `StationRecords` (`Records`) maps each key to its summary. It offers:
  - `insert`, `get`, `len` and `is_empty`;
  - `+` and `+=` between tables, and `Sum`;
  - the sorted iterator and the text export.

  The consumer task's fold is the `+=` of every consumer's table into one.
- **Three line parsers**, each of which feeds `insert`:
  - **The cursor parser** (`Line`) reads a name byte by byte up to `;`. It then reads a
    value up to `\n` and folds the value's digits into an `i16` number of tenths.
  - **The slice parser** (`Sync`) splits the chunk on `\n` and drops empty pieces. It
    splits each line on `;`, and a line that is not exactly `name;value` stops parsing
    with an error.
  - **The separator-offset parser** (`SimdSeparators`, `Simd`) finds the `;` and `\n`
    positions in windows of up to 64 bytes. It turns them into (name length, value
    length) pairs and slices the lines with them. The 64-byte lane comparison is
    modelled as boolean masks, which are proved equal to the scalar search.
- **The reader's buffer helpers** (`ReaderFunc`) move or copy the read buffer into the
  export buffer. They also include the test that decides when a chunk is full.

Each parser method is proved against a specification function of its input:
- `Line.Lines` is the list of (name, value text) pairs the cursor meets.
- `Sync.SyncLines` and `Sync.FirstBad` are the lines and the first bad line.
- `Simd.Run` is the items the separator parser yields.

The table a parser leaves behind is then proved equal to `Records.Build`: the records
inserted one at a time. The lemmas about `Build` and `Merge` establish two things:
- splitting the input across consumers and merging their tables gives the table of the
  whole input;
- the merge is commutative and associative, with the empty table as identity.

The three parsers do not agree everywhere:
- The cursor parser negates a reading that has a `-` anywhere in it. The slice parser
  only looks at the first byte (`ParserAgreement.InnerMinusDisagrees`). On well-formed
  readings the two agree (`ParserAgreement.ValuesAgree`).
- The separator parser's windows only ever cover 64 bytes. A line longer than a window
  therefore ends the parse of the chunk: the parser yields the short lines before it and
  nothing from it on (`Simd.ParsesUntilLong`).
- The pairing in `find_separators_iter` treats a separator at offset 0 of a window as if
  no separator preceded it (`SimdSeparators.IterQuirk`).

Fixed-width arithmetic is kept explicit:
- readings are `i16`;
- each method that performs a fold, a sum or a count requires that the fixed-width result
  stays in range (`Line.ValueFits`, `Sync.SyncValueFits`, `Stats.Fits`,
  `Records.InsertsFit`, `Records.MergeFits`). In a debug build the source panics when
  such a value is out of range.

## Model

| member | source | states |
|---|---|---|
| ParserFunc.U8ToDigit | src/parser/func.rs:4-8 | the result is the low four bits of the byte, below 16; for an ASCII digit it is that digit's value |
| ParserFunc.U8ToDigitIdempotent | src/parser/func.rs:4-8 | applying the mask to its own result changes nothing |
| ParserFunc.FindFrom | src/parser/line.rs:54-75 | the position of the first occurrence of the byte at or after the start, or the end of the input: every byte before it differs |
| ParserFunc.FoldDecimalAppend | src/parser/line.rs:123-126 | folding one more digit multiplies the accumulated number by ten and adds the digit |
| ParserFunc.FoldDecimalPrefixBounded | src/parser/line.rs:123-126 | the fold over a prefix of the digits never exceeds the fold over all of them, so no intermediate accumulator overflows when the final one fits (`Line.FoldDigits` relies on it at every step) |
| HashableBuffer.New | src/parser/hashable_buffer.rs:15-17 | dereferencing a new key gives back exactly the bytes it was made from |
| HashableBuffer.DerefRoundTrip | src/parser/hashable_buffer.rs:54-59 | a key rebuilt from its dereferenced bytes is the same key |
| HashableBuffer.FieldShiftInjective | src/parser/hashable_buffer.rs:44-46 | the seven byte positions are shifted to seven distinct byte-aligned offsets of the 64-bit word |
| HashableBuffer.HashFields | src/parser/hashable_buffer.rs:38-48 | byte i of the hash is byte i of the length or-ed with the buffer's byte i for the first min(7, length) positions; every other byte of the hash is the length's |
| HashableBuffer.LenWordSmall | src/parser/hashable_buffer.rs:40-44 | for a buffer shorter than 256 bytes the seed of the fold is its length, within the lowest byte |
| HashableBuffer.HashShortKey | src/parser/hashable_buffer.rs:38-48 | for such a buffer, byte 0 of the hash is the length or-ed with the first byte, and bytes 1 to 6 are the buffer's own bytes |
| HashableBuffer.HashFoldAgree | src/parser/hashable_buffer.rs:38-48 | the fold over the first n bytes reads nothing beyond them |
| HashableBuffer.HashPrefixCollision | src/parser/hashable_buffer.rs:3-7 | two buffers of the same length whose first seven bytes agree hash alike: the collision the type's documentation accepts |
| HashableBuffer.HashFoldFromFirst | src/parser/hashable_buffer.rs:44-46 | the fold over n bytes is fixed by its first step and the bytes after the first |
| HashableBuffer.HashLengthOverlap | src/parser/hashable_buffer.rs:44-45 | two buffers of the same length hash alike when bytes 1 to 6 agree and byte 0 differs only in bits the length already sets |
| HashableBuffer.PlaceFirst | src/parser/hashable_buffer.rs:45 | byte 0 enters the word unshifted |
| HashableBuffer.FirstStepOverlap | src/parser/hashable_buffer.rs:44-45 | from the length 1, or-ing in 0x61 and or-ing in 0x60 give the same word |
| HashableBuffer.LengthOverlapExample | src/parser/hashable_buffer.rs:44-45 | the different one-byte keys `a` and backquote hash alike |
| HashableBuffer.CommonPrefix | src/parser/hashable_buffer.rs:8 | the length of the longest common prefix: the two agree below it and differ at it when both go on |
| HashableBuffer.LessIsFirstDifference | src/parser/hashable_buffer.rs:8 | the derived order: a is below b exactly when a is a proper prefix of b or a's byte is smaller at the first difference |
| HashableBuffer.LessIrreflexive | src/parser/hashable_buffer.rs:8 | no key is below itself |
| HashableBuffer.LessTransitive | src/parser/hashable_buffer.rs:8 | the order is transitive |
| HashableBuffer.LessTotal | src/parser/hashable_buffer.rs:8 | of two different keys one is below the other |
| HashableBuffer.LessAsymmetric | src/parser/hashable_buffer.rs:8 | two keys are never each below the other |
| Stats.New | src/parser/models.rs:44-51 | the summary of one reading: minimum, maximum and sum are the reading and the count is one, the same as extending the default summary by it |
| Stats.Extend | src/parser/models.rs:54-64 | the minimum is the smaller of the old minimum and the reading, the maximum the larger, the sum grows by the reading and the count by one |
| Stats.Combine | src/parser/models.rs:84-102 | `+` and `+=`: the smaller minimum, the larger maximum, sums and counts added |
| Stats.CombineOption | src/parser/models.rs:104-114 | `+=` of `None` leaves the summary as it was; `+=` of `Some` combines |
| Stats.CombineCommutative | src/parser/models.rs:84-92 | the order of the two summaries does not matter |
| Stats.CombineAssociative | src/parser/models.rs:84-92 | the grouping of three summaries does not matter |
| Stats.CombineIdentity | src/parser/models.rs:31-40 | the default summary (minimum `i16::MAX`, maximum `i16::MIN`, nothing counted) is the identity of `+` on either side |
| Stats.CombineNew | src/parser/models.rs:78-82 | adding the summary built from one reading is the same as extending by that reading |
| Stats.OfSummarizes | src/parser/models.rs:54-64 | the summary that extending the default by a sequence of readings builds holds their number, their sum, their least and their greatest value; for no readings it is the default |
| Stats.OfAppend | src/parser/models.rs:84-102 | the summary of two runs of readings one after the other is the combination of their summaries |
| Stats.OfConsistent | src/parser/models.rs:24-29 | every summary of readings has minimum at most maximum and a sum between count times minimum and count times maximum |
| Stats.ExtendConsistent | src/parser/models.rs:54-64 | `extend` keeps that consistency |
| Stats.CombineConsistent | src/parser/models.rs:84-102 | `+` keeps that consistency |
| Stats.ExtendOneToTen | src/parser/models.rs:322-339 | extending by the readings 1 to 10 gives minimum 1, maximum 10, sum 55 and count 10 |
| Records.Upsert | src/parser/models.rs:164-180 | after `insert` the keys are the old ones plus the name; a known name's summary is extended, a new name gets a one-reading summary, every other entry is unchanged |
| Records.MergeEntry | src/parser/models.rs:266-278 | one step of `+=`: the entry is combined with the one already there or stored as it is, and nothing else changes |
| Records.Merge | src/parser/models.rs:280-287 | `+` of two tables has the keys of both; a name present on both sides gets the combination of its two summaries, every other name keeps its own |
| Records.MergeCommutative | src/parser/models.rs:280-287 | merging tables does not depend on their order |
| Records.MergeAssociative | src/parser/models.rs:280-287 | nor on the grouping |
| Records.MergeIdentity | src/parser/models.rs:133-155 | the empty table is the identity of the merge |
| Records.MergeStep | src/parser/models.rs:266-278 | taking one entry out of the right-hand table and adding it to the left first does not change the merge |
| Records.BuildStep | src/parser/models.rs:164-180 | the table of k+1 records is the table of the first k with record k inserted |
| Records.BuildEntry | src/parser/models.rs:164-180 | after inserting records into a table a name has an entry exactly when it had one or occurs among the records; its summary is its old one combined with the summary of its readings in input order |
| Records.BuildAppend | src/parser/models.rs:164-180 | inserting one run of records and then another is inserting their concatenation |
| Records.MergeBuild | src/parser/models.rs:266-278 | `+=` of a table built from records equals inserting those records directly |
| Records.SplitMerge | src/parser/models.rs:280-287 | tables built from two halves of the input merge into the table of the whole input |
| Records.FoldMergeBuild | src/parser/task.rs:32-35 | folding the consumers' tables with `+=` from an empty table gives the table of all their records in chunk order |
| Records.SumIsFold | src/parser/models.rs:289-293 | `Sum` by `reduce` agrees with the fold from an empty table, so the sum of no tables is the empty table |
| Records.TotalCountUpdate | src/parser/models.rs:189-191 | replacing one entry changes `len` by the difference of the two counts |
| Records.TotalCountBuild | src/parser/models.rs:189-191 | inserting records raises `len` by exactly their number |
| Records.TotalCountMerge | src/parser/models.rs:189-191 | `len` of a merge is the sum of the two lengths |
| Records.TotalCountAtLeastSize | src/parser/models.rs:189-191 | when every entry counts at least one reading, `len` is at least the number of stations |
| Records.SortedKeys | src/parser/models.rs:211-219 | the names in strictly ascending order: every key once and nothing else |
| Records.SortedUnique | src/parser/models.rs:211-219 | a set has only one strictly ascending listing |
| Records.SortNames | src/parser/models.rs:211-219 | collecting and sorting the keys gives that listing |
| Records.Entries | src/parser/models.rs:223-231 | the i-th rendered entry is the rendering of the i-th name with its summary |
| Records.JoinRendered | src/parser/models.rs:223-231 | draining the iterator joins the rendered entries of its names with `, ` and leaves it empty |
| Records.StationRecords.constructor | src/parser/models.rs:133-161 | a new table is empty |
| Records.StationRecords.Insert | src/parser/models.rs:164-180 | the table becomes the upsert of the old one, and summaries stay within range |
| Records.StationRecords.Get | src/parser/models.rs:183-185 | `Some` exactly for a known name, with its summary |
| Records.StationRecords.Len | src/parser/models.rs:189-191 | the sum of the counts of all entries |
| Records.StationRecords.IsEmpty | src/parser/models.rs:195-197 | true exactly when the table has no entry, because every entry counts at least one reading |
| Records.StationRecords.IterSorted | src/parser/models.rs:211-219 | a fresh iterator over this table whose remaining names are the keys in ascending order |
| Records.StationRecords.ExportText | src/parser/models.rs:223-231 | the rendered entries in name order, joined by `, `, in braces, followed by a newline |
| Records.StationRecords.AddAssign | src/parser/models.rs:266-278 | the table becomes the merge of both tables and the right-hand table is drained |
| Records.IterStationRecords.constructor | src/parser/models.rs:295-302 | the iterator holds the given names over the given table |
| Records.IterStationRecords.Next | src/parser/models.rs:304-315 | `None` once the names are used up; otherwise the first name with its summary, and that name is consumed |
| RecordsExamples.InsertExample | src/parser/models.rs:357-381 | inserting 1, 2, 3, 4, 5 under two names gives (1, 5, 13, 4) and (2, 2, 2, 1), and no other entry |
| RecordsExamples.AddExampleLeft | src/parser/models.rs:384-412 | the left table of the test |
| RecordsExamples.AddExampleRight | src/parser/models.rs:384-412 | the right table of the test |
| RecordsExamples.AddExample | src/parser/models.rs:384-412 | their sum is (1, 5, 13, 4) and (2, 8, 23, 4) |
| RecordsExamples.ExampleNamesAscending | src/parser/models.rs:415-446 | bar < baz < foo < that < this in the derived order |
| RecordsExamples.FiveInsertsTable | src/parser/models.rs:416-421 | the five inserts of the tests (this 4, that 5, foo 1, bar 2, baz 3) into an empty table give five entries, each the summary of its one reading |
| RecordsExamples.SortedFive | src/parser/models.rs:423-445 | the five test names, as a set, sort to bar, baz, foo, that, this |
| RecordsExamples.IterSortedExample | src/parser/models.rs:415-446 | the sorted iteration of the table the five inserts build gives bar, baz, foo, that, this |
| RecordsExamples.FiveEntries | src/parser/models.rs:416-421 | in that table bar holds the summary of 2, baz of 3, foo of 1, that of 5 and this of 4 |
| RecordsExamples.ExportFive | src/parser/models.rs:456-459 | the export of that table joins the five rendered entries in name order |
| RecordsExamples.ExportExample | src/parser/models.rs:449-461 | the export of the table the five inserts build is its five entries in name order, `, `-separated, in braces, with a final newline |
| Line.ValueSnoc | src/parser/line.rs:99-121 | reading one more byte of a value: `-` and `.` add no digit, any other byte adds its low four bits, and a `-` makes the value negative |
| Line.NameAt | src/parser/line.rs:46-81 | a name exists exactly when a `;` follows; it is the bytes before that `;` and holds none |
| Line.LinesCons | src/parser/line.rs:28-39 | input that starts with a name, `;`, a value and `\n` yields that pair followed by the pairs of the rest |
| Line.LinesLast | src/parser/line.rs:28-39 | a last line without `\n` still yields its pair |
| Line.LinesNone | src/parser/line.rs:28-39 | input with no `;` left yields no pair |
| Line.ToRecords | src/parser/line.rs:31-37 | one record per pair, with its name and the value of its text |
| Line.Cursor.constructor | src/parser/line.rs:29 | a cursor at the start of the bytes |
| Line.Cursor.ReadU8 | src/parser/line.rs:55 | the byte at the position, which then advances by one, or nothing at the end with the position unchanged |
| Line.ParseName | src/parser/line.rs:46-81 | returns the name before the next `;` and stops just after it, or returns `None` at the end of the input when no `;` is left |
| Line.FoldDigits | src/parser/line.rs:123-126 | the `i16` fold `acc * 10 + digit` ends at the decimal value of the digits, and no step overflows when that value fits |
| Line.ParseValue | src/parser/line.rs:90-127 | returns the value of the text up to the next `\n` or the end, and stops just after that `\n` |
| Line.ReadValue | src/parser/line.rs:99-121 | the loop collects exactly the digits of the value text and the sign of the whole text |
| Line.AcceptValueByte | src/parser/line.rs:100-113 | one iteration of that loop keeps the digits and the sign in step with the text read so far |
| Line.ParseBytes | src/parser/line.rs:28-39 | the table becomes the old table with the records of every line inserted in input order |
| Line.FeedLines | src/parser/line.rs:31-38 | the `while let` loop inserts the records of all remaining lines |
| Line.FeedLine | src/parser/line.rs:31-38 | one iteration inserts the record of the next line and moves to the line after it |
| Line.ParseLine | src/parser/line.rs:32-37 | reading the value of the current line and inserting it upserts that record |
| Line.ParseLineValue | src/parser/line.rs:32 | the value read is the value of the current line's text, and the cursor is at the next line |
| Line.ParseNextName | src/parser/line.rs:31 | the name read agrees with the next pending line, or is `None` when there is none |
| LineExamples.ValueReadWhole | src/parser/line.rs:142-149 | a value is read to the end of the input with or without a trailing `\n`, so nothing is left to read |
| LineExamples.DigitOne | src/parser/line.rs:110-113 | a single ASCII digit reads as its value |
| LineExamples.DigitSnoc | src/parser/line.rs:110-113 | a digit appended multiplies by ten and adds it |
| LineExamples.DotSnoc | src/parser/line.rs:109 | a `.` appended changes nothing |
| LineExamples.NegatedValue | src/parser/line.rs:101-105 | a leading `-` negates the rest |
| LineExamples.ValueDigitsAppend | src/parser/line.rs:99-121 | the digits and sign of two texts one after the other combine |
| LineExamples.ValueExamples | src/parser/line.rs:155-167 | "0", "10", "-0" and "-1" read as 0, 10, 0 and -1 |
| LineExamples.ValueExamplesFraction | src/parser/line.rs:155-167 | "535.4" and "-535.4" read as 5354 and -5354 |
| LineExamples.NameBeforeSemicolon | src/parser/line.rs:46-81 | the name of `name;rest` is `name` when it holds no `;` |
| LineExamples.NameExamples | src/parser/line.rs:190-203 | "abc;" gives abc and "hello, world!;123.4" gives "hello, world!" |
| LineExamples.NameOfFirstLine | src/parser/line.rs:204 | "jack;1.2\njill:3.4" gives jack |
| LineExamples.NameUnterminated | src/parser/line.rs:194-198 | "hello, world!" gives no name |
| LineExamples.TenthsExamples | src/parser/line.rs:238-241 | "1.2", "2.3", "3.4" and "4.5" read as 12, 23, 34 and 45 |
| LineExamples.JackLine | src/parser/line.rs:231 | "jack;1.2" is one line whose record is jack with 12 |
| LineExamples.JackLineNewline | src/parser/line.rs:232-236 | "jack;1.2\n" is the same one line |
| LineExamples.JillsLines | src/parser/line.rs:237-241 | the four-line input splits into its four (name, value) pairs |
| LineExamples.JillsRecords | src/parser/line.rs:237-241 | and its records are jill 34, jack 12, jill 23, jill 45 |
| LineExamples.JillsTable | src/parser/line.rs:237-241 | the table built from them gives jill (23, 45, 102, 3) and jack (12, 12, 12, 1) |
| LineExamples.ParseBytesExamples | src/parser/line.rs:207-242 | running the parser on the three inputs of the tests gives sums 12, 12 and 102 |
| Sync.SplitOn | src/parser/sync.rs:17-18 | `split` yields at least one piece and no piece holds the separator |
| Sync.JoinSplit | src/parser/sync.rs:17-18 | joining the pieces with the separator gives back the input |
| Sync.SplitJoin | src/parser/sync.rs:17-18 | splitting pieces joined by the separator gives back the pieces |
| Sync.SplitAppend | src/parser/sync.rs:17-18 | splitting `a sep b` gives the pieces of a followed by the pieces of b |
| Sync.NonEmpty | src/parser/sync.rs:19 | the filter leaves only non-empty pieces |
| Sync.SyncLines | src/parser/sync.rs:17-19 | the lines handed on are non-empty and contain no `\n` |
| Sync.SyncLinesAppend | src/parser/sync.rs:17-19 | the lines of two chunks joined by `\n` are the lines of the first followed by those of the second |
| Sync.TrailingNewline | src/parser/sync.rs:17-19 | a trailing `\n` adds no line |
| Sync.SplitLine | src/parser/sync.rs:29-33 | a line is accepted exactly as `name;value` with no other `;`, and is otherwise rejected as an invalid line |
| Sync.SplitLineValid | src/parser/sync.rs:29-34 | every `name;value` without another `;` is accepted with that name and value |
| Sync.SyncDigits | src/parser/sync.rs:52-54 | only ASCII digits contribute, each as its value |
| Sync.SyncValue | src/parser/sync.rs:45-56 | an empty value is an error (the indexing panic); otherwise a negative result means the first byte is `-`, a leading `-` makes the result at most zero, and its magnitude is the fold of the digits |
| Sync.ParseValue | src/parser/sync.rs:45-56 | the `i16` computation agrees with that value, error included |
| Sync.LineRecordOf | src/parser/sync.rs:29-40 | `name;raw` gives that name with the value of raw, or the empty-value error |
| Sync.LineRecordInvalid | src/parser/sync.rs:35-40 | a line without exactly one `;` is the invalid-line error |
| Sync.ParseLine | src/parser/sync.rs:29-40 | the `i16` line parse agrees with that record, error included |
| Sync.FirstBad | src/parser/sync.rs:20-41 | the index of the first line that fails: every earlier line parses, and that one does not |
| Sync.LineToRecord | src/parser/sync.rs:34 | the record of a good line carries its name and value |
| Sync.SyncRecords | src/parser/sync.rs:17-41 | one record per good line |
| Sync.InsertLine | src/parser/sync.rs:29-40 | a good line upserts its record; a bad one fails with its error and leaves the table unchanged |
| Sync.FeedLine | src/parser/sync.rs:20-41 | one `for_each` step: before the first bad line it inserts the next record; at it, it stops with that line's error |
| Sync.ParseLines | src/parser/sync.rs:17-41 | the records of all lines before the first bad one are inserted in order; the result is an error exactly when a bad line exists, and it is that line's error |
| Sync.ParseBytes | src/parser/sync.rs:13-42 | the same for the lines of the chunk |
| ParserAgreement.DigitsAgree | src/parser/sync.rs:52-54 | on digits, `.` and `-`, both parsers collect the same digits |
| ParserAgreement.ValuesAgree | src/parser/sync.rs:45-56 | on a well-formed reading (an optional leading `-`, then digits and `.`) both parsers give the same value |
| ParserAgreement.InnerMinusDisagrees | src/parser/line.rs:101-105 | on "1-2" the slice parser gives 12 and the cursor parser gives -12 |
| SimdSeparators.FindSep | src/parser/simd_parser.rs:43-49 | the next `;` or `\n` at or after the start, or the end |
| SimdSeparators.LaneEq | src/parser/simd_parser.rs:25 | one boolean per lane of the 64-byte window |
| SimdSeparators.MaskOr | src/parser/simd_parser.rs:25 | the or of two masks lane by lane |
| SimdSeparators.LanesAreSeps | src/parser/simd_parser.rs:25-28 | the set lanes of the or-ed mask are exactly the separator positions of the window, in order |
| SimdSeparators.SimdIsIter | src/parser/simd_parser.rs:19-36 | the SIMD search over a chunk of at least 64 bytes gives what the scalar search gives on its first 64 bytes |
| SimdSeparators.FindSeparatorsIsIter | src/parser/simd_parser.rs:58-65 | a chunk shorter than a lane, or exactly one lane long, gets the scalar search's result |
| SimdSeparators.IterIsPieces | src/parser/simd_parser.rs:41-56 | when the chunk does not start with a separator, the pairs are the lengths of the consecutive separator-free pieces, two by two, and an unpaired last piece is dropped |
| SimdSeparators.IterQuirk | src/parser/simd_parser.rs:50-53 | when the chunk starts with a separator, the first pair counts from offset 0 without skipping it, and the pairing continues after the next separator |
| SimdSeparators.IterFits | src/parser/simd_parser.rs:41-56 | every pair lies within the buffer from the cursor on, so the slicing never goes out of bounds |
| SimdSeparators.PiecesOfPrefix | src/parser/simd_parser.rs:41-56 | on a prefix of well-formed lines followed by at most one separator, the pieces pair up into the lengths of the lines the prefix holds whole |
| SimdSeparators.IterOfOne | src/parser/simd_parser.rs:41-56 | text with at most one separator gives no pair |
| SimdSeparators.SeparatorsOfPrefix | src/parser/simd_parser.rs:41-56 | the scalar search on such a prefix gives the (name, value) lengths of its whole lines |
| Simd.Window | src/parser/simd_parser.rs:88 | the window is at most 64 bytes from the cursor and lies inside the buffer |
| Simd.RefillFits | src/parser/simd_parser.rs:86-90 | a refill keeps the pending pairs inside the buffer |
| Simd.Step | src/parser/simd_parser.rs:84-107 | `parse_line` on the model state: `None` exactly when no pair is pending after the refill, with the state kept; otherwise the next item, the cursor past its name, value and two separators, and that pair consumed |
| Simd.Run | src/parser/simd_parser.rs:109-116 | the items a parser yields; at most one per two bytes left |
| Simd.RunStep | src/parser/simd_parser.rs:113-115 | the items are the next item followed by the rest, or nothing once a step yields `None` |
| Simd.StepExhausted | src/parser/simd_parser.rs:92-94 | after a `None` the parser keeps yielding `None` |
| Simd.ItemRecords | src/parser/simd_parser.rs:113-114 | one record per item, under the item's name |
| Simd.LineParser.constructor | src/parser/simd_parser.rs:76-82 | cursor at 0 and no pending pair |
| Simd.LineParser.ParseLine | src/parser/simd_parser.rs:85-107 | the state moves as `Step` says and the result is the item's name with its value converted |
| Simd.LineParser.Next | src/parser/simd_parser.rs:123-125 | the iterator's `next` is `parse_line` |
| Simd.ParseBytes | src/parser/simd_parser.rs:110-116 | the table becomes the old table with the record of every item the parser yields inserted in order |
| Simd.FeedLine | src/parser/simd_parser.rs:113-115 | one iteration of the `while let` inserts the next record, or stops once every record is in |
| Simd.StepLine | src/parser/simd_parser.rs:96-104 | with the pair of a line pending, a step yields exactly its name and value and moves the cursor past it |
| Simd.RunLayout | src/parser/simd_parser.rs:109-116 | from any cursor at a run of well-formed lines of at most 64 bytes each, followed by bytes whose first window holds at most one separator, the parser yields their items in order and nothing more |
| Simd.ParsesLayout | src/parser/simd_parser.rs:109-116 | a chunk of such lines, followed by a trailing fragment with at most one separator, parses into exactly its lines |
| Simd.ParsesUntilLong | src/parser/simd_parser.rs:86-116 | short well-formed lines followed by a line longer than 64 bytes: the parser yields exactly the short lines, whatever follows the long one |
| Simd.LongLineStops | src/parser/simd_parser.rs:86-94 | a first line longer than 64 bytes yields nothing at all |
| Simd.PrefixQuiet | src/parser/simd_parser.rs:86-90 | a prefix of bytes with at most one separator has at most one too |
| Simd.QuietPrefix | src/parser/simd_parser.rs:86-90 | every window that does not reach past the first 64 bytes of a quiet tail holds at most one separator |
| Simd.PrefixThroughTail | src/parser/simd_parser.rs:87-88 | a window over lines and a tail reads no more of the tail than its own length |
| Simd.LayoutAppend | src/parser/simd_parser.rs:109-116 | the bytes of two runs of lines are the bytes of the first run followed by those of the second |
| SimdExamples.SampleLayout | src/parser/simd_parser.rs:133-134 | the sample chunk is four whole lines (61 bytes) followed by the unfinished line `12345678` |
| SimdExamples.SampleShape | src/parser/simd_parser.rs:133-134 | its lines are well formed and short enough |
| SimdExamples.SampleLengths | src/parser/simd_parser.rs:136-143 | their (name, value) lengths are the test's expected pairs |
| SimdExamples.IterSample | src/parser/simd_parser.rs:136-143 | the scalar search gives those pairs |
| SimdExamples.SimdSample | src/parser/simd_parser.rs:136-143 | the SIMD search and the dispatching search give those pairs |
| SimdExamples.ParseSample | src/parser/simd_parser.rs:145-158 | the parser yields the names and value texts of the four whole lines, and nothing for the unfinished one |
| ReaderFunc.ByteVec.WithCapacity | src/reader/models.rs:143 | an empty buffer with the requested capacity |
| ReaderFunc.ByteVec.Reserve | src/reader/func.rs:20 | the bytes stay as they were and the capacity grows only when it must, to hold n more |
| ReaderFunc.TransferBuffer | src/reader/func.rs:16-21 | the export buffer gains the read buffer's bytes at its end, the read buffer is left empty with its capacity, and no byte is lost |
| ReaderFunc.CloneBuffer | src/reader/func.rs:23-31 | the export buffer gains a copy of the read slice at its end |
| ReaderFunc.Threshold | src/reader/func.rs:37 | the threshold plus one chunk plus one line is the capacity |
| ReaderFunc.BufferFull | src/reader/func.rs:33-51 | not full exactly when one more chunk and the rest of a line still fit below the capacity |
| ReaderFunc.RoomAfterChunk | src/reader/func.rs:33-38 | a buffer that was not full, after one chunk is cloned into it, still has room for a line of up to 30 bytes |

## Left out

- Reading the file, the `RowsReader` (src/reader/models.rs) and the chunk loop around the buffer helpers are not part of this model. `ByteVec.WithCapacity` stands for the `Vec::with_capacity` calls there.
- Task spawning and channels are left out. So are the `async` machinery of the cursor parser, timing (src/timed), the result assertion (src/assertion) and the binaries. The consumer task's fold is stated by `Records.FoldMergeBuild`.
- `bytes_to_string` (src/parser/func.rs:11-15) is used in two places. One is the panic message of the slice parser, whose error in the model carries the raw line. The other is `StationStats::export_text` (src/parser/models.rs:70), to render the name; that per-entry rendering is the `render` parameter of `ExportText`.
- `StationStats::export_text` (src/parser/models.rs:67-75) renders `f32` numbers. Floating point is out of scope, so the rendering of one entry is a function parameter of `ExportText`.
- `export_file` and `read_from_reader` of `StationRecords` (src/parser/models.rs:234-263) do file I/O and spawn tasks, and are left out.
- The unordered `iter` (src/parser/models.rs:201-209) is not modelled. Its order depends on the hasher, and nothing calls it.
- `digits_to_number`, which the separator parser calls, is not part of this model. It is a function parameter `digits` of `Simd.LineParser.ParseLine` and `Simd.ParseBytes`.
- The hash map with either hasher is a Dafny `map`. The hash (`HashableBuffer.Hash`) is modelled and its properties proved, but which bucket an entry lands in is not.
- The `VecDeque` of pending separator pairs is a sequence. The SIMD vectors are sequences of booleans, one per lane.
- Records.StationRecords.Insert: does not model the debug-build overflow panics of the `i32` sum and the `usize` count. It requires instead that they stay in range (`Stats.Fits`). The release build's wrap-around is not modelled either.
- Records.StationRecords.AddAssign: requires that every merged sum and count stays in range (`Records.MergeFits`), for the same reason as `Insert`.
- Line.ParseValue: requires that the `i16` fold of the digits does not overflow (`Line.ValueFits`). A wrapped value is not modelled.
- Line.FoldDigits: requires that the decimal value of the digits fits an `i16`. The overflowing fold is not modelled.
- Line.ParseBytes: requires that every line's value fits an `i16` (`Line.LinesFit`) and that every insert stays in range (`Records.InsertsFit`).
- Sync.ParseValue: requires that the `i16` fold of the digits does not overflow (`Sync.SyncValueFits`).
- Sync.ParseLine: requires that the line's value fits an `i16` (`Sync.LineFits`).
- Sync.ParseBytes: requires that the values of the lines before the first bad one fit an `i16` (`Sync.LinesFit`) and that their inserts stay in range (`Records.InsertsFit`).
- Simd.ParseBytes: requires that the inserts of the records it yields stay in range (`Records.InsertsFit`).
- Records.StationRecords.Len: requires that the `usize` total does not overflow.
- Records.StationRecords.IsEmpty: requires that the `usize` total does not overflow, since it calls `len`. A non-empty table whose counts wrap to 0 is not modelled.
- ReaderFunc.BufferFull: requires that the capacity covers one chunk and one line. Otherwise the `usize` subtraction in the source underflows.
- ReaderFunc.Threshold: requires that the capacity covers one chunk and one line (`chunk_size + 30`). Below that, the `usize` subtraction of src/reader/func.rs:37 underflows, which a `max_chunk_size` smaller than the chunk size plus 30 can reach; that case is not modelled.
- ReaderFunc.ByteVec.Reserve: grows the capacity to exactly what is needed. `Vec`'s real growth policy may reserve more; the contract allows any larger capacity except when no growth is needed.
- The debug printing in `buffer_full` and in the slice parser is left out.
- `StationStats` is a `Copy` value held inside the table. Its `&mut self` methods (`extend`, `+=`) are pure functions that return the new summary.
- The standard library's sort in `iter_sorted` is modelled by insertion into a sorted sequence. Only its result is stated: the keys in ascending order.
- Simd.ParsesLayout: proves the parse only for lines of at most 64 bytes. `Simd.ParsesUntilLong` shows that a longer line ends the parse of the chunk: the lines before it are yielded, and none from it on.
- The separator parser module is not declared in src/parser/mod.rs, so no binary reaches it. It is modelled as written.
