# Verified models of OpossumDB's column store and of cpplint.py's structural scanners

Two parts of the repository are modelled in Dafny 4.11 and proved correct. `dafny verify dfyconfig.toml` checks
everything.

**The column store** (`src/lib/storage`, read back by `src/test/base_test.cpp`). A table is a list of chunks of fixed
capacity, each with one segment per column. Rows are appended to the last chunk; `compress_chunk` replaces a chunk by
dictionary-encoded segments, built by one thread per column. The question is whether a compressed, chunked table can
be told apart from the plain list of appended rows.

- `ordering.dfy`, `values.dfy`: the standard algorithms used (sort, unique, binary search) over any strict total
  order, and the order of cell values and rows.
- `dictionary_encoding.dfy`: what a dictionary-encoded column contains and what its ids mean, 32-bit and narrower
  arithmetic included.
- `table_model.dfy`: the table as a value, its operations with their exceptions, and what every run keeps.
- `compress_protocol.dfy`: overlapping `compress_chunk` calls and their threads as a transition system; one schedule
  entry is one step of one caller or one thread.
- `segments.dfy`, `table.dfy`, `table_comparison.dfy`: the classes and test helpers as objects that change in place,
  proved to do what the value model says.
- `tokenizer.dfy`: the line splitter of `load_table`.

**The scanners of cpplint.py.**

- `brackets.dfy`: properly nested text as a grammar, the partner relation of brackets, and two plain matchers proved
  to compute it. This is the reference for the three scanners of the tool.
- `line_scanners.dfy`, `expression_scanner.dfy`: the per-line scanners with their heuristics for `<`, `>`, `<<`, `->`,
  `operator<` and `;`, the two searches across lines, and the text extractor.
- `nesting_model.dfy`, `nesting_state.dfy`: the brace-nesting machine on values, and with mutable block objects and
  deep copies.
- `comment_eraser.dfy`, `include_order.dfy`, `text.dfy`: the in-place comment eraser, the include-order automaton, and
  the white-space stripping the scanners share.

How the model reads the source:

- Exceptions are a second result (`ok`, `None` or an error value); an exception in the middle of a row leaves the
  columns before it appended, as in the source.
- Debug assertions are modelled as active (they throw), as in a debug build.
- Lexical and numeric casts are a function parameter that may fail; casting a value of the right type is the identity.
- Floating-point cells are real numbers, so there is no NaN, and both zeros are one value.
- Unsigned arithmetic is written out where it can wrap: the chunk offset passed to `operator[]`, value ids, stored
  codes, the 16-bit column count that `Chunk::append` compares with, the row offset of `_table_to_matrix` and the row
  counter of `_table_equal`. Callers are taken to stay within 65535 columns, 2^32 - 1 chunks and 32-bit chunk ids; chunk
  sizes fit because a good chunk holds at most its 32-bit capacity.
- The regular expression for a preceding `operator` is a parameter of the scanners. The forward scan is proved for any
  answer, the backward scan for any test that never succeeds right after a bracket; the tool's own test is proved to
  be of that kind. The tests for comment starts and ends are a parameter of the eraser in the same way, and the tool's
  own tests are supplied.
- The nesting machine receives each line as the list of things its regular expressions find on it.

Where the code and its comments differ, the code is followed: `width()` returns the width of the code type, and 0 for
an empty vector, not the width of the largest id stored; `_table_equal` reports success even when cells differ, and
records the difference as failed expectations; `CheckNextIncludeOrder` returns a message and never raises.

Four things the code is meant to do fail at its numeric limits. The exact condition is proved for each: scans on value
ids when all 2^32 ids are taken (`ScansNeedOnlyIds`, with an example in `EveryScanCanFail`), reading back more than 2^32
rows (`TableToMatrix`, with an example in `LongTable`), comparing tables of 2^32 or more rows, which does not return
(`TableEqual`, `RowLoopEndsIff`), and appending to more than 65535 columns (`FullRowsFitIff`).

The main results are `CompressionIsInvisible`, `CompressionTakesPlace`, `RunKeepsRows`, `RunLayout` and `ReadBackRun`
(every run of a table),
`EveryInterleavingIsSafe` and `EveryInterleavingEndsAlike` (every schedule of overlapping compressions), `RoundTrip`,
`CompressionIsCanonical` and `ScansNeedOnlyIds` (dictionary encoding), `UnorderedComparisonIsMultisetEquality` (table
comparison), `CloseFindsPartner`, `ReverseCloseFindsPartner` and `ScansAreInverse` (bracket scanners),
`DiscardedBranchesDoNotCount`, `BranchStartsFromIf` and `WellNestedRun` (nesting machine).

## Model

| member | source | states |
|---|---|---|
| `Ordering.SortCorrect` | src/lib/storage/dictionary_segment.hpp:44 | sorting gives an ascending rearrangement |
| `Ordering.SortedPermutationIsUnique` | src/lib/storage/dictionary_segment.hpp:44 | ascending rearrangements of the same elements are equal, so the sorting algorithm cannot be observed |
| `Ordering.SortEqualIffSameMultiset` | src/test/base_test.cpp:119-123 | sorted sequences are equal exactly when the originals hold the same elements equally often |
| `Ordering.UniqueStrictlySorted` | src/lib/storage/dictionary_segment.hpp:45 | removing neighbouring duplicates from an ascending sequence leaves a strictly ascending one |
| `Ordering.StrictEnumerationIsUnique` | src/lib/storage/dictionary_segment.hpp:43-45 | a set of values has one strictly ascending enumeration |
| `Ordering.LowerBound` | src/lib/storage/dictionary_segment.hpp:62 | binary search by halving returns the partition point of "less than v" |
| `Ordering.UpperBound` | src/lib/storage/dictionary_segment.hpp:104 | binary search by halving returns the partition point of "not greater than v" |
| `Values.ValueOrder` | src/lib/all_type_variant.hpp:60-64 | cell values, strings included, are strictly and totally ordered |
| `Values.RowOrder` | src/test/base_test.cpp:121-122 | rows are strictly and totally ordered |
| `Values.PayloadOrder` | src/lib/storage/dictionary_segment.hpp:44 | within one column the order is the natural one: numbers by size, strings by their first difference |
| `Values.RowOrderMeaning` | src/test/base_test.cpp:121-122 | rows of one schema are ordered by the first column in which they differ |
| `Values.Cast` | src/lib/type_cast.hpp:39-56 | a value already of the requested type is unchanged; otherwise a successful lexical cast to that type is the result, and a failing one an exception |
| `DictionaryEncoding.DictionaryIsEnumeration` | src/lib/storage/dictionary_segment.hpp:35-45 | the dictionary is strictly ascending and holds exactly the values fetched, those at 32-bit offsets |
| `DictionaryEncoding.DictionaryAscends` | src/lib/storage/dictionary_segment.hpp:44-45 | for each data type, entries at ascending positions have ascending payloads, strings compared at their first difference |
| `DictionaryEncoding.DictionarySize` | src/lib/storage/dictionary_segment.hpp:47-55 | no column has more distinct values than there are ids |
| `DictionaryEncoding.NoCodeIsTruncated` | src/lib/storage/dictionary_segment.hpp:49-65 | through ValueID conversion, width choice and narrowing store, every code is the true dictionary position of its value, for columns of any length |
| `DictionaryEncoding.WidthIsLeast` | src/lib/storage/dictionary_segment.hpp:23-55 | the width is 1, 2 or 4 bytes and the least whose down-cast sentinel (255, 65535, 4294967295) exceeds the number of entries |
| `DictionaryEncoding.SentinelIsFree` | src/lib/storage/dictionary_segment.hpp:23-25 | down-cast, INVALID_VALUE_ID is the largest code value, and it exceeds every stored code if and only if the dictionary has fewer than 2^32 entries, as with fewer than 2^32 rows |
| `DictionaryEncoding.EveryEntryIsUsed` | src/lib/storage/dictionary_segment.hpp:60-65 | every dictionary position is the code of some row |
| `DictionaryEncoding.RoundTrip` | src/lib/storage/dictionary_segment.hpp:34-77 | reading a compressed column gives back the values it was built from |
| `DictionaryEncoding.CompressionIsCanonical` | src/lib/storage/dictionary_segment.hpp:34-66 | for columns of any length, dictionary, width and codes are equal if and only if the values fetched are, which up to 2^32 rows are the columns themselves; compressing again changes nothing |
| `DictionaryEncoding.DictionaryIsCanonical` | src/lib/storage/dictionary_segment.hpp:43-45 | any strictly ascending sequence of the values fetched is the dictionary |
| `DictionaryEncoding.LowerBoundIdMeaning` | src/lib/storage/dictionary_segment.hpp:91-96 | lower_bound is the first id not below the search value, INVALID_VALUE_ID exactly when all smaller ids are below; it means "all values are below" unless 2^32 entries leave no id unused and only the largest is not below |
| `DictionaryEncoding.UpperBoundIdMeaning` | src/lib/storage/dictionary_segment.hpp:101-106 | upper_bound is the first id above the search value, INVALID_VALUE_ID exactly when no smaller id is above; it means "none is above" unless 2^32 entries leave no id unused and only the largest is above |
| `DictionaryEncoding.BoundsOnPayloads` | src/lib/storage/dictionary_segment.hpp:91-106 | the two bounds of a typed column, in terms of the payloads |
| `DictionaryEncoding.IntegerBounds` | src/lib/storage/dictionary_segment.hpp:91-106 | in an integer column an id is below lower_bound(x) iff its entry is less than x, and below upper_bound(x) iff it is at most x, the id INVALID_VALUE_ID apart |
| `DictionaryEncoding.EvenNumberBounds` | src/test/storage/dictionary_segment_test.cpp:82-95 | for the column 0, 2, 4, 6, 8, 10 the bounds of 4, 5 and 15 are those the test expects |
| `DictionaryEncoding.IdsPreserveOrder` | src/lib/storage/dictionary_segment.hpp:91-106 | for every row of every column: its id is below lower_bound iff its value is below the search value, and below upper_bound iff its value is at most the search value, except that the id INVALID_VALUE_ID is below neither |
| `DictionaryEncoding.ScansNeedOnlyIds` | src/lib/types.hpp:54 | each of the six scan comparisons is decided for all rows by id and bounds if and only if an id is left unused or the largest value is harmless for that comparison |
| `DictionaryEncoding.MatchesMeaning` | src/lib/types.hpp:54 | the six comparisons on values of one type are the natural ones on payloads |
| `DictionaryEncoding.LowerBoundKeepsOrderIff` | src/lib/storage/dictionary_segment.hpp:93-96 | "less than v" is decided by lower_bound for all rows if and only if an id is left unused or the largest value is not below v |
| `DictionaryEncoding.UpperBoundKeepsOrderIff` | src/lib/storage/dictionary_segment.hpp:103-106 | "at most v" is decided by upper_bound for all rows if and only if an id is left unused or the largest value is above v |
| `DictionaryEncoding.FullDictionary` | src/lib/storage/dictionary_segment.hpp:23-25 | there is a column whose 2^32 values take every id, INVALID_VALUE_ID included |
| `DictionaryEncoding.EveryScanCanFail` | src/lib/storage/dictionary_segment.hpp:91-106 | on that column each of the six comparisons goes wrong on ids for some row and search value |
| `Segments.FixedSizeAttributeVector.Set` | src/lib/storage/fixed_size_attribute_vector.cpp:20-24 | stores the id reduced to the code type at that position and nothing else changes |
| `Segments.FixedSizeAttributeVector.Width` | src/lib/storage/fixed_size_attribute_vector.cpp:32-42 | the width of the code type, 0 for an empty vector |
| `Segments.ValueSegment.Append` | src/lib/storage/value_segment.cpp:23-26 | pushes a value of the column's type unchanged and any other as its lexical cast, or throws and changes nothing |
| `Segments.DictionarySegment.constructor` | src/lib/storage/dictionary_segment.hpp:34-66 | builds the compressed form of whatever its base segment reads as, in new objects, with an ascending dictionary of the column's type that the bounds can search |
| `Segments.DictionarySegment.LowerBound` | src/lib/storage/dictionary_segment.hpp:91-96 | the first id whose value is not below v, also as payloads, or INVALID_VALUE_ID if no smaller id has one |
| `Segments.DictionarySegment.UpperBound` | src/lib/storage/dictionary_segment.hpp:101-106 | the first id whose value is above v, also as payloads, or INVALID_VALUE_ID if no smaller id has one |
| `Segments.Segment.Append` | src/lib/storage/dictionary_segment.hpp:79-80 | a dictionary segment refuses every append and keeps its contents |
| `TableModel.ChunkAppendAddsRow` | src/lib/storage/chunk.cpp:19-24 | appending a castable row to value segments adds exactly that row and keeps the chunk rectangular |
| `TableModel.FullRowsFitIff` | src/lib/storage/chunk.cpp:19-34 | a row with a castable value for every column is accepted if and only if there are at most 65535 columns |
| `TableModel.FailedAppendIsRaggedUnlessFirst` | src/lib/storage/chunk.cpp:19-24 | a row that does not cast leaves the chunk rectangular if and only if its first column is the one that fails |
| `TableModel.FailedAppendIsPartial` | src/lib/storage/chunk.cpp:22-23 | after a failed append the columns before the first one that does not cast have got their value, the others are as before |
| `TableModel.CompressChunkKeepsRows` | src/lib/storage/table.cpp:105-142 | compressing a chunk changes nothing that can be read from it |
| `TableModel.AppendStep` | src/lib/storage/table.cpp:47-61 | append adds exactly the cast row, or throws and changes nothing; it throws iff the last chunk is compressed and not full; full chunks are never touched |
| `TableModel.AddColumnStep` | src/lib/storage/table.cpp:33-45 | columns are added exactly when the table has no rows, and rows never change |
| `TableModel.CompressStep` | src/lib/storage/table.cpp:105-142 | compressing succeeds exactly for existing chunks and keeps rows, chunk count and sizes |
| `TableModel.CompressionTakesPlace` | src/lib/storage/table.cpp:105-142 | for an existing id every column of that chunk becomes a dictionary segment, its entries ascending, exactly the old column's values, reading the same; every other chunk is unchanged; for any other id nothing happens |
| `TableModel.AppendAfterCompressionFails` | src/lib/storage/dictionary_segment.hpp:79-80 | once the last chunk is compressed before it is full, the next append throws and changes nothing |
| `TableModel.StepKeepsRows` | src/lib/storage/table.cpp:33-142 | every operation keeps the table good and grows its rows by exactly the row it contributes |
| `TableModel.RunKeepsRows` | src/lib/storage/table.cpp:33-142 | after any run of add_column, append and compress_chunk the rows are the old rows and the successfully appended ones, in order |
| `TableModel.DisciplinedStepSucceeds` | src/lib/storage/dictionary_segment.hpp:79-80 | if only full chunks are compressed, no append ever reaches a dictionary segment |
| `TableModel.CompressionIsInvisible` | src/lib/storage/table.cpp:33-142 | columns first, then appends and compressions of full chunks in any order: the table has exactly the columns added and holds exactly the rows handed to append |
| `TableModel.ChunkCounts` | src/lib/storage/table.cpp:69-77 | n rows at capacity m make max(1, ceil(n / m)) chunks and a row count of n |
| `TableModel.RowPlacement` | src/lib/storage/table.cpp:47-61 | row r is in chunk r / m at offset r % m |
| `TableModel.RunLayout` | src/lib/storage/table.cpp:22-77 | the same after any run on a new table of chunk size m, in terms of m: chunk count, full chunks, and the place of every row |
| `CompressProtocol.NoSlotIsReadEarly` | src/lib/storage/table.cpp:127-132 | the joining loop finds every slot written, with the compression of its own column |
| `CompressProtocol.WorkerWritesTheSame` | src/lib/storage/table.cpp:114-119 | a thread writes the same segment whether it finds the column compressed already or not |
| `CompressProtocol.StepKeepsInv` | src/lib/storage/table.cpp:105-142 | every step of every caller and thread keeps the invariant: slots, joins, mutex, and each chunk untouched or wholly compressed |
| `CompressProtocol.RowsAreConstant` | src/lib/storage/table.cpp:134-141 | in every such state the table reads as the same rows |
| `CompressProtocol.SomeoneCanMove` | src/lib/storage/table.cpp:121-141 | no deadlock: while a call has not returned, some caller or thread can move |
| `CompressProtocol.StepUsesWork` | src/lib/storage/table.cpp:105-142 | every step uses up work, so every schedule is finite |
| `CompressProtocol.EveryInterleavingIsSafe` | src/lib/storage/table.cpp:105-142 | any number of overlapping calls under any schedule: the invariant holds, the rows are unchanged, and the number of steps is bounded |
| `CompressProtocol.EveryInterleavingEndsAlike` | src/lib/storage/table.cpp:105-142 | a schedule that cannot go on has finished every call, released the mutex and compressed exactly the requested chunks, whatever the interleaving |
| `Tables.Chunk.Append` | src/lib/storage/chunk.cpp:19-24 | appends column by column, an exception leaving the columns before it appended; no other object changes |
| `Tables.Table.constructor` | src/lib/storage/table.cpp:22-27 | a table with one chunk without columns |
| `Tables.Table.RowCount` | src/lib/storage/table.cpp:69-75 | the sum of the chunk sizes |
| `Tables.Table.AddColumn` | src/lib/storage/table.cpp:33-45 | throws exactly when there are rows; adds a column to every chunk; rows unchanged |
| `Tables.Table.Append` | src/lib/storage/table.cpp:47-61 | the rows grow by exactly the cast row, or stay if it throws, which it does exactly when the last chunk is compressed and not full |
| `Tables.Table.CompressChunk` | src/lib/storage/table.cpp:105-142 | for an existing id the chunk object is replaced by a new one whose columns are dictionary segments for the old columns, and no other chunk object is; rows unchanged |
| `Tables.CompressColumns` | src/lib/storage/table.cpp:112-125 | one new segment per column, none sharing an object, each the compression of its column |
| `Tables.AssembleChunk` | src/lib/storage/table.cpp:127-132 | the new chunk holds the finished segments in column order |
| `TableComparison.TableToMatrix` | src/test/base_test.cpp:33-56 | the matrix is exactly the table's rows up to 2^32 rows; beyond, of rows with the same 32-bit number the last is kept and nothing is filled from row 2^32 on, so the matrix is right if and only if every row r >= 2^32 and row r % 2^32 hold default values |
| `TableComparison.LongTable` | src/test/base_test.cpp:38-52 | there is a table for which it is not |
| `TableComparison.ReadBackRun` | src/lib/storage/table.cpp:33-142 | a new table taken through any run (columns first, only full chunks compressed) and read back with _table_to_matrix gives exactly the rows handed to append, cast and in order |
| `TableComparison.RowLoopEndsIff` | src/test/base_test.cpp:125 | a loop over n rows with a 32-bit counter ends if and only if n < 2^32 |
| `TableComparison.CountDifferences` | src/test/base_test.cpp:125-156 | for fewer than 2^32 rows, no expectation fails exactly when all cells agree |
| `TableComparison.TableEqual` | src/test/base_test.cpp:69-159 | with strict types and tables of any size: it does not return exactly for equal schemas, equal row counts and at least 2^32 rows; when it returns, success without a recorded failure means that schemas and (sorted) rows agree, and conversely |
| `TableComparison.TablesAgreeExactly` | src/test/base_test.cpp:125-156 | for any column types: tables of one schema agree iff they have equally many rows and, in order or sorted, all cells are equal or, in floating-point columns, at most 0.0001 apart |
| `TableComparison.FarFloatsCompareUnequal` | src/test/base_test.cpp:127-154 | if tables agree in order, no floating-point cells are further apart than 0.0001 and all other cells are equal |
| `TableComparison.FarDoublesCompareUnequal` | src/test/base_test.cpp:137-146 | tables holding 1.0 and 1000.0 compare unequal |
| `TableComparison.UnorderedComparisonIsMultisetEquality` | src/test/base_test.cpp:119-156 | equal row multisets always compare equal without order, equal row lists always in order, whatever the chunking and compression; without floating-point columns the converse holds too |
| `TableComparison.CloseFloatsCompareEqual` | src/test/base_test.cpp:127-146 | with a floating-point column, tables holding different rows can compare equal |
| `Brackets.ForwardFindsPair` | cpplint.py:1466-1541 | the plain left-to-right matcher finds q if and only if q closes the bracket at p in the nesting grammar, which pairs `(` with `)`, `[` with `]` and `{` with `}` |
| `Brackets.BackwardFindsPair` | cpplint.py:1588-1662 | the plain right-to-left matcher finds p if and only if p opens the bracket at q |
| `LineScanners.FindEndOfExpressionInLine` | cpplint.py:1466-1541 | returns what the forward scan of the line returns, stack included |
| `LineScanners.FindStartOfExpressionInLine` | cpplint.py:1588-1662 | returns what the backward scan of the line returns, stack included |
| `LineScanners.ScanEndIsForward` | cpplint.py:1479-1541 | from a bracket, the forward scan is the plain matcher; no heuristic for `<`, `>`, `<<`, `->`, `operator<` or `;` changes it |
| `LineScanners.ScanStartIsBackward` | cpplint.py:1604-1662 | the mirror image for the backward scan |
| `LineScanners.SkippedIsNoBracket` | cpplint.py:1614-1625 | a character skipped together with `>` or `<` is never a bracket |
| `LineScanners.OperatorIsNeverAfterBracket` | cpplint.py:1617 | the tool's own `operator` test never succeeds right after a bracket |
| `LineScanners.OperatorMeaning` | cpplint.py:1617 | that test succeeds iff the text ends with the whole word `operator` and white space |
| `LineScanners.GetTextInside` | cpplint.py:4535-4551 | the text up to the partner of the opening bracket, or None when the plain matcher finds none |
| `LineScanners.LineScanFindsPartner` | cpplint.py:1466-1541 | from any opening bracket of a text the line scanner succeeds exactly when there is a partner, and its position is just past it |
| `LineScanners.TextScanAgreesWithLineScan` | cpplint.py:4535-4551 | called on the same bracket of any text, text scanner and line scanner fail together or succeed together, and the extracted text ends just before the bracket the line scanner reports |
| `ExpressionScanner.CloseExpression` | cpplint.py:1544-1585 | line, line number and position of the search's result, or the last line looked at with the failure codes |
| `ExpressionScanner.ReverseCloseExpression` | cpplint.py:1665-1700 | the same for the backward search |
| `ExpressionScanner.CloseIsForward` | cpplint.py:1567-1585 | the search across lines is the plain matcher on the flattened text, success or failure |
| `ExpressionScanner.ReverseCloseIsBackward` | cpplint.py:1682-1700 | the mirror image |
| `ExpressionScanner.CloseFindsPartner` | cpplint.py:1544-1585 | from a bracket, CloseExpression finds its partner, and fails exactly when it has none |
| `ExpressionScanner.ReverseCloseFindsPartner` | cpplint.py:1665-1700 | from a closing bracket, ReverseCloseExpression finds its partner, and fails exactly when it has none |
| `ExpressionScanner.ScansAreInverse` | cpplint.py:1544-1700 | closing from one bracket ends just past another if and only if reversing from that one ends at the first |
| `ExpressionScanner.CloseThenReverse` | cpplint.py:1544-1700 | closing finds the bracket of the same kind, and reversing from it returns to the start |
| `ExpressionScanner.ReverseThenClose` | cpplint.py:1544-1700 | reversing finds the bracket of the same kind, and closing from it returns to the start |
| `NestingModel.StackFollowsBraces` | cpplint.py:2585-2622 | with no head pending, the stack height is the brace depth, blocks below the smallest depth are untouched, those above were opened on this line |
| `NestingModel.NestedBracesRestoreStack` | cpplint.py:2585-2622 | braces that close what they open restore the stack |
| `NestingModel.HeadLeavesNoTrace` | cpplint.py:2594-2621 | a class or namespace head disappears at `;` or `)`, or with the brace that closes its body |
| `NestingModel.InnermostBlockFollows` | cpplint.py:2486-2566 | over any lines without heads and tokens only the innermost block changes: its parentheses add up, a class takes the last access keyword and becomes derived by a bare colon before its brace |
| `NestingModel.AsmStartsAndEnds` | cpplint.py:2491-2505 | when a line enters, stays in and leaves an inline assembly statement |
| `NestingModel.AsmLastsToClosingParenthesis` | cpplint.py:2491-2505 | over any lines the statement lasts until its parentheses are balanced |
| `NestingModel.HeadsBecomeBlocks` | cpplint.py:2507-2566 | the heads on a line become blocks in order, with their names, lines, braces, default access and derivation |
| `NestingModel.NoClassInParentheses` | cpplint.py:2536-2537 | a class head inside open parentheses opens no block |
| `NestingModel.TokensComeLast` | cpplint.py:2585-2622 | tokens are consumed after everything else on the line |
| `NestingModel.BraceOpensBlock` | cpplint.py:2593-2604 | an opening brace completes the pending head, or opens an extern "C", assembly or plain block |
| `NestingModel.TokenEndsBlock` | cpplint.py:2606-2621 | a closing brace ends the innermost block, complete or not; a semicolon or closing parenthesis only a pending head |
| `NestingModel.DirectiveKeepsEffective` | cpplint.py:2424-2457 | no directive changes the stack that counts |
| `NestingModel.FlagsFollowDirectives` | cpplint.py:2424-2457 | whether a line counts depends on the directives before it alone, never on the blocks |
| `NestingModel.DiscardedBranchesDoNotCount` | cpplint.py:2403-2457 | for every sequence of lines the stack that counts is that of the lines outside #else and #elif branches, run without any directives |
| `NestingModel.PreprocessorStackReturns` | cpplint.py:2403-2457 | well-nested directives return the preprocessor stack to its start |
| `NestingModel.WellNestedRun` | cpplint.py:2403-2622 | after well-nested directives the whole state, block fields included, is that of the surviving lines |
| `NestingModel.DiscardedTextIsInvisible` | cpplint.py:2413-2419 | files with the same surviving lines end in the same state |
| `NestingModel.ElseRestores` | cpplint.py:2424-2439 | at an #else or #elif, whatever its #if has contained, the stack from before the #if is open again |
| `NestingModel.BranchStartsFromIf` | cpplint.py:2424-2457 | anywhere inside an #else or #elif branch the live stack is the stack from before its #if run through the lines of that branch alone, nested directives included |
| `NestingObjects.DeepCopy` | cpplint.py:2427-2439 | a copy holds equal fields in new, pairwise distinct objects |
| `NestingObjects.NestingState.UpdatePreprocessor` | cpplint.py:2403-2457 | the directive's effect on all live and saved blocks; no block is ever shared between the live stack and a saved one, or between any two saved ones, the two of one #if included |
| `NestingObjects.NestingState.Update` | cpplint.py:2460-2622 | one line's effect on all live and saved blocks, fields changed in place included; nothing becomes shared; the previous top is remembered |
| `NestingObjects.Block.Count` | cpplint.py:2486-2505 | counts parentheses and follows inline assembly in the innermost block |
| `NestingObjects.NestingState.ConsumeToken` | cpplint.py:2592-2621 | one brace, semicolon or parenthesis |
| `CommentEraser.RemoveMultiLineComments` | cpplint.py:1339-1352 | erases in place exactly the lines of closed comments, and returns the line of the comment left open, if any |
| `CommentEraser.RemoveMultiLineCommentsFromRange` | cpplint.py:1331-1336 | overwrites the lines of the range and no other |
| `CommentEraser.FindNextMultiLineCommentStart` | cpplint.py:1311-1319 | the first comment start at or after the line, or the number of lines |
| `CommentEraser.FindNextMultiLineCommentEnd` | cpplint.py:1322-1328 | the first comment end at or after the line, or the number of lines |
| `CommentEraser.StartMeaning` | cpplint.py:1314-1317 | a line opens a comment iff, after white space, it starts with a comment mark that is not closed on the line |
| `CommentEraser.EndMeaning` | cpplint.py:1325-1326 | a line ends a comment iff its last characters before white space are the end mark |
| `Text.StripMeaning` | cpplint.py:1314-1325 | stripping removes all outer white space and nothing else |
| `CommentEraser.NoStartIsLeft` | cpplint.py:1341-1352 | without an error no comment start is left; with one, none before the reported line and no end after it |
| `CommentEraser.ErasingIsIdempotent` | cpplint.py:1339-1352 | erasing again changes nothing and reports the same error, also after an error |
| `CommentEraser.CommentsAreErasedOnce` | cpplint.py:1311-1352 | the same for the tool's own tests for comment starts and ends, every erased line being `/**/` |
| `Tokenizer.SplitLine` | src/lib/utils/load_table.hpp:12-23 | the getline loop collects the tokens of the line |
| `Tokenizer.SplitThenJoin` | src/lib/utils/load_table.hpp:12-23 | tokens are free of the delimiter and their join is the line up to one trailing delimiter |
| `Tokenizer.JoinThenSplit` | src/lib/utils/load_table.hpp:12-23 | splitting a join gives the tokens back if and only if there are none, or they are delimiter-free and the last is not empty |
| `IncludeOrder.IncludeState.CheckNextIncludeOrder` | cpplint.py:770-821 | the next section, the error and the reset of the last header |
| `IncludeOrder.ReportedExactly` | cpplint.py:790-816 | a header is reported iff it is a C header after a C++, other or late own header, or a C++ header after an other or late own header |
| `IncludeOrder.SectionMeaning` | cpplint.py:790-816 | what each section says about the headers seen: none, some, one that is not own, one that closes the C section, one that closes the C++ section |
| `IncludeOrder.SectionsNeverDecrease` | cpplint.py:671-677 | the section never moves back, and a reported header leaves it unchanged |

## Left out

- A search started at `<` or `>`: the scans are modelled for it, but which angle bracket they stop at is a heuristic
  and nothing is proved about it.
- `TableComparison.TableEqual`: models strict types only; with `strict_types` off, columns are converted between number
  types by casts whose rounding is not modelled.
- `Tables.Table.Append`: takes rows that have the right arity and cast to the column types. What an append does with
  other rows is in `TableModel.ChunkAppend` and `TableModel.FailedAppendIsRaggedUnlessFirst`.
- `TableModel.RunKeepsRows`: at most 65535 columns and fewer than 2^32 chunks, so that 16-bit and 32-bit ids and loop
  counters do not wrap; beyond the first limit appends fail (`TableModel.FullRowsFitIff`).
- `TableModel.CompressionIsInvisible`: the same limits.
- `Tables.Table.AddColumn`: the same limits.
- `Segments.FixedSizeAttributeVector.Width`: fewer than 2^32 values; with more, the 32-bit loop counter never gets there.
- `Segments.DictionarySegment.constructor`: the base segment's values are of the segment's type, as in `compress_chunk`.
- `LineScanners.GetTextInside`: starts just past the opening bracket; the pattern search before it is not modelled.
- A chunk capacity of 0, unknown type names, and NaN.
- White space outside ASCII, which `strip` and `\s` also recognise in Unicode strings.
- Appends running concurrently with compression, and the memory model behind the unlocked read of a chunk pointer: one
  read and one swap are single steps.
- `lexical_cast` and `numeric_cast` themselves, Boost.Hana dispatch, memory usage estimates and performance warnings.
- `TableScan`, `GetTable`, `ReferenceSegment`, `StorageManager`, `AbstractOperator`, `TableWrapper`, printing, file
  reading and the members of `Table` without an implementation: thin, undefined, or only easy members to add.
- `Table::column_id_by_name`, `column_name`, `column_type`: simple look-ups.
- In cpplint.py: the regular expressions of `Update` and the template look-ahead, `CheckEnd` and the messages it and the
  access check report, `IsInAlphabeticalOrder`, and all style checks that are not scanners.
