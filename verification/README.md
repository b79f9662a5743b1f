# columnstore: a verified model

columnstore is an in-memory column store written in C++17. This project models its two query
engines and its dictionary encoding, and proves that each agrees with a simple specification.

* **The vectorised pipeline.** Scan, filter and aggregate exchange batches of at most 4096 rows. The
  specification is one fold over the rows that pass the predicate (`Rows.Fold` of `Rows.Selected`).
  The implementation decodes runs through a resumable state machine, reuses one scratch buffer,
  packs decisions into bitmaps in 64-row, 8-row and single-row regions, and sums in four 64-bit
  lanes under a bit mask. `Pipeline.RunRaw`, `Pipeline.RunColumn` and `Pipeline.RleAndRawAgree`
  state that none of this can be observed, for every column, predicate, aggregate and SIMD path.
* **The SQL front end.** A tokenizer, a recursive-descent parser and an executor with WHERE,
  aggregates and GROUP BY. The tokenizer returns exactly the maximal-munch reading of a text, the
  parser accepts exactly the grammar in `src/sql/sql.h` and undoes a printer, and every GROUP BY row
  is the answer of the ungrouped statement over that group's rows. Double arithmetic is an arbitrary
  record of operations (`SqlExec.Arith`), so these results do not depend on rounding.
  `CrossEngine.EnginesAgree` assumes that integers up to 2^53 are exact (binary64, section 3.6 of
  IEEE 754-2008) and proves that both engines give the same integers.
* **Dictionary encoding.** The builder, the byte-code equality filter and the count-distinct
  shortcuts agree with the raw column.

`dafny verify dfyconfig.toml` checks everything.

## Modules

| file | contents |
|---|---|
| Machine.dfy | fixed-width integers, batch size, `Option` |
| Bits.dfy | selection bitmaps and popcount |
| Rows.dfy | the row-at-a-time specification of a query |
| Simd.dfy, Words.dfy | the AVX2 intrinsics, lane by lane; 64-bit registers and their stores |
| FilterKernels.dfy, SumKernels.dfy | scalar and vector kernels |
| Rle.dfy, Decoder.dfy | run-length encoder, decoder, columns |
| Operators.dfy, Pipeline.dfy | scan and filter; aggregate, sink and whole queries |
| Dict.dfy | dictionary columns |
| SqlLexer.dfy, Decimal.dfy, SqlParser.dfy, SqlPrinter.dfy, SqlKeywords.dfy | from text to statement and back, in any case |
| SqlExec.dfy, SqlRun.dfy | cells, comparisons and states; the answer and the executor's loops |
| Binary64.dfy | rounding of integers to doubles |
| SqlMeaning.dfy, SqlAnswers.dfy, GroupBy.dfy | what WHERE, plain statements, aggregates and GROUP BY mean, in terms of the table |
| CrossEngine.dfy | agreement of the two engines |

## Results that qualify a promise

* A scan is documented to be transparent to run-length encoding. On run lists with empty runs it is
  not always: `Decoder.ScanIsTransparent` gives the exact condition. Runs produced by the encoder
  always meet it.
* A filter on top of a filter forgets the inner decisions (`Pipeline.OuterFilterWins`), so two
  stacked filters act as a conjunction exactly under the condition of `Pipeline.StackingConjoins`.
* A dictionary column decodes to its input exactly up to 256 distinct values, whatever `max_card`
  allows (`Dict.RoundTrip`).
* WHERE compares integers as doubles. For an integer literal n all six operators agree with the
  integers on every int64 row exactly when |n| < 2^53, or |n| < 2^54 and n % 4 == 2
  (`SqlMeaning.WhereOnWideIntegers`); any other literal passes an equality test against a neighbour
  of itself (`SqlMeaning.WhereMergesWideIntegers`).
* MIN and MAX of an integer column go through a double, too: the cell is a value of the column
  exactly when rounding keeps that value (`SqlMeaning.MinCell`, `SqlMeaning.MaxCell`,
  `SqlMeaning.MinLosesAWideInteger`).
* A batch pulled from an encoded scan is overwritten by the next pull (`Pipeline.PullTwice`); the
  aggregate and the sink are correct because they finish with each batch before they pull again.

Where text and code differ, the model follows the code: docs/avx2-operators.md shows an older sum
kernel with 32-bit accumulators; docs/rle-encoding.md counts one run per change of value, while the
encoder splits runs at 2^32 - 1; src/rle/decoder.h speaks of empty runs past index 0, while an empty
first run is rejected as well; src/exec/filter.h says the kernel is chosen at construction, while it
is chosen on every pull; `AggregateResult::count` is maintained for Sum, Avg and Count only.

## Model

| member | source | states |
|---|---|---|
| Bitmap.PackBit | src/core/batch.h:18-20 | bit k of a batch's bitmap is the decision for row k, and the padding bits are zero |
| Bitmap.PackUnique | src/simd/kernels.h:10-12 | a bitmap of minimal length is determined by its decisions and zero padding, so equal decisions mean equal bytes |
| Bitmap.BitsOfPack | src/core/batch.h:18-22 | reading a packed bitmap returns the decisions that were packed |
| Bitmap.MarksNext | src/simd/filter_int32_scalar.cpp:16-22 | or-ing one bit per passing row extends the recorded prefix by one row and touches nothing else |
| Bitmap.PopCountBitmap | src/core/batch.cpp:5-17 | counting full bytes and a masked last byte gives the number of set rows among the first n |
| Rows.Fold | src/exec/aggregate.h:19-30 | the row fold reports the sum, count, least or greatest of the rows, leaves the other fields at their defaults, and is empty exactly for no rows |
| Rows.ExtremesAreRows | src/simd/sum_int32_scalar.cpp:22-58 | the minimum and maximum are rows of the input and bound all rows |
| Rows.MaxRowsIsTight | src/simd/kernels.h:28-32 | up to 2^32 rows no prefix sum leaves int64, and the bound is tight: 2^32 rows of the least int32 reach the least int64, one more leaves it |
| Simd.AndIsBitwise | src/simd/sum_int32_avx2.cpp:80-82 | and of two's complement integers is the conjunction of their bits, sign included |
| Simd.AndSingle | src/simd/sum_int32_avx2.cpp:79-81 | and with a lane bit isolates that bit of the splatted selection byte |
| Simd.AndMask | src/simd/sum_int32_avx2.cpp:82 | and with an all-ones or all-zeros lane keeps or clears the value |
| Simd.MoveMask8Bytes | src/simd/filter_dict_eq_avx2.cpp:29-33 | byte q of the 32-bit mask holds the top bits of lanes 8q to 8q + 7 |
| FilterKernels.CompareChunkPacks | src/simd/filter_int32_avx2.cpp:48-56 | compare and move-mask of eight rows give the bitmap byte of those rows, for both comparison directions |
| Words.OrShifted | src/simd/filter_int32_avx2.cpp:41 | or-ing a mask byte shifted by 8j bits into a 64-bit word changes the byte stored at address j and no other |
| FilterKernels.CompareBlock | src/simd/filter_int32_avx2.cpp:27-42 | shifting and or-ing the eight masks of a block gives a word whose bytes are the bitmap of its 64 rows |
| FilterKernels.StoreWord | src/simd/filter_int32_avx2.cpp:43 | the little-endian store of that word puts the block's bitmap bytes in row order |
| FilterKernels.BlockRegion | src/simd/filter_int32_avx2.cpp:26-44 | the 64-row loop packs whole blocks, leaves fewer than 64 rows, and leaves the later bytes clear |
| FilterKernels.ByteRegion | src/simd/filter_int32_avx2.cpp:46-58 | the 8-row loop packs whole bytes and leaves fewer than 8 rows |
| FilterKernels.RowRegion | src/simd/filter_int32_avx2.cpp:60-66 | the row loop records every remaining row and counts those that pass |
| FilterKernels.FilterAvx2 | src/simd/filter_int32_avx2.cpp:17-80 | the vector kernel writes byte for byte the packed decisions, returns their popcount, and does not touch the buffer beyond them |
| FilterKernels.FilterScalar | src/simd/filter_int32_scalar.cpp:9-24 | the scalar kernel writes the same bytes and returns the same count, for every length, data and threshold |
| SumKernels.KeepMaskLane | src/simd/sum_int32_avx2.cpp:74-81 | a lane's keep mask is all ones exactly when its bit of the selection byte is set |
| SumKernels.AddExtendedIsExact | src/simd/sum_int32_avx2.cpp:30-36 | one vector step adds its eight rows exactly and no 64-bit lane wraps within 2^32 rows |
| SumKernels.HSum | src/simd/sum_int32_avx2.cpp:38-42 | the horizontal sum and each of its partial sums is an int64 |
| SumKernels.SumAllAvx2 | src/simd/sum_int32_avx2.cpp:49-64 | the unmasked vector sum is the sum of all rows |
| SumKernels.SumMaskedAvx2 | src/simd/sum_int32_avx2.cpp:67-93 | the masked vector sum is the sum of the selected rows |
| SumKernels.SumAvx2 | src/simd/sum_int32_avx2.cpp:44-94 | the vector kernel returns the sum of the rows its nullable bitmap keeps |
| SumKernels.SumScalar | src/simd/sum_int32_scalar.cpp:5-20 | the scalar kernel returns the same sum, and no partial sum leaves int64 |
| SumKernels.MinScalar | src/simd/sum_int32_scalar.cpp:22-39 | the least kept row, or 0 and empty when none is kept |
| SumKernels.MaxScalar | src/simd/sum_int32_scalar.cpp:41-58 | the greatest kept row, or 0 and empty when none is kept |
| SumKernels.CountScalar | src/simd/sum_int32_scalar.cpp:60-75 | the number of kept rows |
| Rle.RleEncode | src/rle/encoder.cpp:5-32 | the encoder's output expands to its input, holds no empty run, and repeats a value only after a full run |
| Rle.CanonicalIsUnique | src/rle/encoder.cpp:12-30 | two run lists of that shape with the same rows are equal, so re-encoding an encoded column returns it unchanged |
| Rle.CanonicalIsMinimal | src/rle/encoder.h:11-13 | no run list with uint32 lengths describes the same rows in fewer runs |
| Decoder.RleDecoder.constructor | src/rle/decoder.cpp:5-13 | a new decoder has all rows before the first empty run to deliver, and is malformed exactly when the first run is empty |
| Decoder.RleDecoder.NextRun | src/rle/decoder.cpp:25-35 | moving to the next run loses no row; at the end it reports the end, at an empty run it sets malformed |
| Decoder.RleDecoder.Take | src/rle/decoder.cpp:36-44 | copying part of a run moves rows from the pending ones to the batch and makes progress |
| Decoder.RleDecoder.NextBatch | src/rle/decoder.cpp:15-47 | a call delivers the next 4096 pending rows; with fewer it delivers them all and reports the end, or fails for good when the stream is broken |
| Decoder.RleBatch.Fill | src/rle/decoder.cpp:40-43 | the fill loop appends copies of one value and keeps what the batch held |
| Decoder.CutsDeliver | src/exec/source.cpp:13-25 | all batches of a scan together are all its rows, or whole batches only when the stream breaks |
| Decoder.CutsAreFull | src/rle/decoder.h:24-27 | every batch has 4096 rows except a non-empty last one, and their number follows from the row count |
| Decoder.ScanIsTransparent | src/exec/source.h:12-13 | scanning yields the materialized rows exactly when no run is empty, or the empty runs come last and the row count is a multiple of 4096 |
| Decoder.Column.Materialize | src/core/column.cpp:5-19 | materializing returns the raw rows or the full expansion |
| Decoder.EncodeColumn | src/rle/encoder.cpp:34-37 | the encoded column expands to the data |
| Operators.Int32ColumnScan.Raw | src/exec/source.cpp:5-6 | a raw scan has the first n rows to deliver |
| Operators.Int32ColumnScan.Rle | src/exec/source.cpp:8-11 | an encoded scan has the rows before the first empty run to deliver |
| Operators.NextCut | src/exec/source.cpp:26-35 | one pull takes the first at most 4096 rows off the rows to come; a broken stream gives no partial batch |
| Operators.Int32ColumnScan.Next | src/exec/source.cpp:13-36 | a pull delivers the next batch of the rows to come, ends exactly when there is none, and in run-length mode always hands out the scratch buffer |
| Operators.BatchList.Next | src/exec/operator.h:11-20 | any other child: it delivers an arbitrary list of batches, of any size up to the batch limit, empty ones included, with any selection |
| Operators.Operator.Next | src/exec/operator.h:11-20 | through the interface: next batch, stable end of stream, and filter counters that follow every batch |
| Operators.Int32Filter.Next | src/exec/filter.cpp:11-49 | a filter forwards each batch with the decisions of its own predicate and adds its rows and its passing rows to the counters |
| Operators.Int32Filter.Mark | src/exec/filter.cpp:16-48 | the forwarded batch names the same rows, carries the packed decisions, and is counted |
| Operators.Int32Filter.Select | src/exec/filter.cpp:22-45 | either SIMD path yields the same bitmap and the same count |
| Pipeline.FoldConcat | src/exec/aggregate.cpp:34-43 | sum and count of a concatenation are those of its parts |
| Pipeline.FoldExtremes | src/exec/aggregate.cpp:47-65 | minimum and maximum of a concatenation come from those of its parts |
| Pipeline.AbsorbSum | src/exec/aggregate.cpp:23-38 | the Sum and Avg branch folds a batch exactly, without int64 overflow |
| Pipeline.AbsorbCount | src/exec/aggregate.cpp:39-43 | the Count branch folds a batch exactly |
| Pipeline.AbsorbMin | src/exec/aggregate.cpp:44-54 | the Min branch folds a batch exactly, also when nothing was selected before or now |
| Pipeline.AbsorbMax | src/exec/aggregate.cpp:55-66 | the Max branch folds a batch exactly, also when nothing was selected before or now |
| Pipeline.Int32Aggregate.Run | src/exec/aggregate.cpp:11-69 | run terminates, drains any child, and returns the fold of all rows its batches select; the child's counters account for every row |
| Pipeline.AggregateBatches | src/exec/aggregate.h:32-33 | for every list of batches, empty and fully filtered ones included, run returns the fold of the selected rows, and empty exactly when there is none |
| Pipeline.SameRowsSameResult | src/exec/aggregate.h:32-33 | two lists of batches that select the same rows give equal results on any SIMD paths |
| Pipeline.Int32Sink.Collect | src/exec/sink.cpp:7-27 | collect drains any child and returns the selected rows in order; the child's counters account for every row |
| Pipeline.CollectBatches | src/exec/sink.cpp:7-27 | for every list of batches collect returns the rows they select, in order |
| Pipeline.CopySelected | src/exec/sink.cpp:14-24 | the rows of one batch whose bit is set, or all of them without a bitmap |
| Pipeline.BatchingIsIrrelevant | src/exec/aggregate.h:32-33 | however rows are cut into batches, a filter selects the passing rows of their concatenation |
| Pipeline.OuterFilterWins | src/exec/filter.cpp:16-20 | a filter over a filter delivers what the outer one alone would |
| Pipeline.StackingConjoins | src/exec/filter.cpp:16-20 | a filter over a filter selects the rows passing both, on every list of batches, exactly when the outer filter passes nothing or asks the same comparison at least as strictly |
| Pipeline.CollectStacked | src/exec/filter.cpp:11-49 | draining two stacked filters over a scan collects the rows passing the outer one, which are those passing both when it is at least as strict |
| Pipeline.FilterOver | src/exec/pipeline.cpp:9-10 | a new filter over a scan has exactly the passing rows to select and its counters at zero |
| Pipeline.RunRaw | src/exec/pipeline.cpp:7-13 | a query over a raw buffer returns the fold of the passing rows in every result field, on either SIMD path |
| Pipeline.RunColumn | src/exec/pipeline.cpp:15-26 | a query over a column returns the fold of the passing rows the scan delivers, for raw, encoded and broken columns |
| Pipeline.EncodingIsInvisible | src/rle/encoder.cpp:34-37 | scanning an encoded column delivers the rows that were encoded |
| Pipeline.RleAndRawAgree | tests/integration/query_test.cpp:60-83 | the raw buffer and its encoding give the same result in every field, whatever kernels each run uses |
| Pipeline.CollectFiltered | src/exec/filter.h:23-25 | after a full drain rows_seen is the number of rows scanned and rows_passed the number of rows collected |
| Pipeline.PullTwice | src/exec/source.cpp:15-24 | two pulls of an encoded scan return the same buffer, which then holds the second batch |
| Dict.DistinctIsExact | src/core/dict.h:15 | the dictionary lists exactly the values that occur, each once |
| Dict.DistinctInOrder | src/core/dict.h:25-47 | an earlier dictionary entry occurs in the column before any later one does |
| Dict.TryBuild | src/core/dict.h:25-47 | nothing is built exactly when there are more than max_card distinct values; otherwise the dictionary is in first-occurrence order and every code is the truncated index of its row's value |
| Dict.Materialize | src/core/dict.h:68-75 | decoding looks every code up in the dictionary |
| Dict.RoundTrip | src/core/dict.h:44 | every code of a built column is in range, and decoding returns the input exactly when there are at most 256 distinct values |
| Dict.CodeFor | src/core/dict.h:57-64 | the truncated index of the first entry equal to the value, or nothing when the value is absent |
| Dict.Pushdown | src/core/dict.h:57-64 | a code equals the code of v exactly when its row holds v, and v without a code equals no row |
| Dict.FilterByValue | src/exec/count_distinct.h:58-65 | build, look up and filter on either kernel: the bitmap and the count are those of comparing the raw rows with v, and v without a code occurs in no row |
| Dict.FilterDictEqScalar | src/exec/count_distinct.cpp:5-19 | the scalar code filter writes the packed matches and counts them |
| Dict.CompareCodes | src/simd/filter_dict_eq_avx2.cpp:27-34 | the mask of 32 codes holds their four bitmap bytes, and its popcount counts their matches |
| Dict.FilterDictEqAvx2 | src/simd/filter_dict_eq_avx2.cpp:16-43 | the 32-lane code filter writes byte for byte the same bitmap and returns the same count |
| Dict.RunDict | src/exec/count_distinct.h:24 | the dictionary size is the number of distinct raw values |
| Dict.RunScalar | src/exec/count_distinct.h:48-55 | the hash-set fallback counts the distinct values |
| Dict.RunDictFiltered | src/exec/count_distinct.h:29-45 | the filtered shortcut counts the dictionary slots that kept rows refer to |
| Dict.CountDistinctKept | src/exec/count_distinct.h:26-45 | build and count under a bitmap: the number of distinct raw values among the kept rows |
| Dict.FilteredCountIsDistinct | src/exec/count_distinct.h:26-28 | those slots are as many as the distinct raw values among the kept rows |
| SqlLexer.CharacterClasses | src/sql/sql.cpp:32-37 | letters, digits and white space are those of the C locale, listed one by one |
| SqlLexer.NextTokenIsSound | src/sql/sql.cpp:43-115 | the token scanned is well formed, spelled by the text, and cannot be extended by the next character |
| SqlLexer.NextTokenIsComplete | src/sql/sql.cpp:43-115 | any token a text starts with and that ends maximally is the one scanned, including numbers with at most one dot and two-character operators |
| SqlLexer.LexIsTerminated | src/sql/sql.cpp:118-119 | a token list ends with its only End token and is otherwise well formed |
| SqlLexer.LexIsExact | src/sql/sql.cpp:39-120 | the tokenizer returns exactly the maximal-munch reading of the text, so it throws exactly when there is none |
| SqlLexer.LexUndoesRender | src/sql/sql.cpp:39-120 | tokenizing well-formed tokens joined by spaces returns those tokens and End |
| SqlLexer.ScanToken | src/sql/sql.cpp:43-116 | the loops for one token stop where the specification says, and the index strictly grows |
| SqlLexer.Tokenize | src/sql/sql.cpp:39-120 | the scan loop computes the token list of the text or fails |
| Decimal.StollUndoesPrint | src/sql/sql.cpp:253 | reading the decimal form of any int64 returns it |
| Decimal.StollIsExact | src/sql/sql.cpp:253 | an integer token reads as its positional value with its sign, and is refused exactly when that is no int64 |
| Decimal.PrintIsInjective | src/sql/sql.cpp:343-346 | different int64 values print differently |
| SqlParser.ProjsAreExact | src/sql/sql.cpp:237-241 | the projection list is parsed exactly when the grammar derives it, for projections with and without aggregate |
| SqlParser.ParserIsExact | src/sql/sql.h:15-24 | the parser returns a statement exactly when the grammar derives it from the tokens, so statements have one parse and all else is rejected |
| SqlParser.Parser.ParseProjection | src/sql/sql.cpp:193-211 | one projection, with an aggregate only before a parenthesis; the cursor stays within the tokens |
| SqlParser.Parser.ParseList | src/sql/sql.cpp:238-241 | the list loop parses what the recursive definition does |
| SqlParser.Parser.ParseWhereClause | src/sql/sql.cpp:244-260 | the optional WHERE clause, with the literal's type decided by its spelling |
| SqlParser.Parser.ParseGroupClause | src/sql/sql.cpp:261-264 | the optional GROUP BY clause |
| SqlParser.Parser.ParseStatement | src/sql/sql.cpp:235-269 | the parser object computes the parse and its cursor never passes the End token |
| SqlParser.Parse | src/sql/sql.cpp:436-440 | parsing a text is parsing its tokens, and fails exactly when either step does |
| SqlPrinter.ParseUndoesPrint | src/sql/sql.h:69-70 | parsing the printed text of any well-formed statement returns that statement |
| SqlPrinter.ReparseIsIdentity | src/sql/sql.h:69-70 | every statement that parses can be printed and parsed again to the same statement |
| SqlPrinter.ComparisonsAreExact | src/sql/sql.cpp:213-233 | each comparison operator has exactly one spelling |
| SqlPrinter.LiteralsAreExact | src/sql/sql.cpp:248-259 | a literal is a quoted string, a number with a dot that std::stod accepts, or one without whose value is an int64; all else is refused |
| SqlKeywords.UpperIgnoresCase | src/sql/sql.cpp:124-129 | upper() identifies exactly the spellings that differ in the case of ASCII letters |
| SqlKeywords.KeywordsIgnoreCase | src/sql/sql.cpp:138-144 | an identifier is a keyword exactly when it spells it in some case |
| SqlKeywords.AggregatesIgnoreCase | src/sql/sql.cpp:169-191 | an identifier is an aggregate name exactly when it spells it in some case |
| SqlKeywords.RespelledDerives | src/sql/sql.cpp:235-269 | a parse survives rewriting its keywords and aggregate names in any case |
| SqlKeywords.AnyCaseParses | src/sql/sql.cpp:436-440 | a printed statement parses to itself in whatever case its keywords and aggregate names are written |
| SqlExec.InsertKeepsOrder | src/sql/sql.cpp:517-521 | inserting a key keeps the keys strictly ascending and adds just that key |
| SqlExec.KeysAreExact | src/sql/sql.cpp:532 | group keys come out strictly ascending and are exactly the keys of the matching rows |
| SqlRun.TestRow | src/sql/sql.cpp:288-325 | the WHERE test of one row throws exactly when a string meets a non-string |
| SqlRun.RunPlain | src/sql/sql.cpp:478-490 | a plain query returns the projected matching rows in order, or fails |
| SqlRun.FoldAll | src/sql/sql.cpp:496-499 | one row is folded into every aggregate state |
| SqlRun.RunAggregate | src/sql/sql.cpp:491-507 | an aggregate query returns one row, the aggregates of the matching rows, or fails |
| SqlRun.FoldGroup | src/sql/sql.cpp:522-530 | one row is folded into the states of its group, plain projections untouched |
| SqlRun.AddToGroup | src/sql/sql.cpp:516-530 | after each row the maps hold, per key, the states of that key's rows and the value of its first row |
| SqlRun.EmitGroup | src/sql/sql.cpp:533-549 | a group's row takes its key value for plain projections and fails when one names another column |
| SqlRun.RunGroups | src/sql/sql.cpp:509-551 | a GROUP BY query returns one row per key in key order, or fails |
| SqlRun.Execute | src/sql/sql.cpp:442-552 | execute returns the declared answer for every statement and table, including each error |
| SqlMeaning.StringLessIsLexicographic | src/sql/sql.cpp:309-314 | strings are ordered lexicographically: the first difference decides, and a proper prefix is less |
| SqlMeaning.StringOperators | src/sql/sql.cpp:292-314 | the six operators on strings are those of one total order |
| Binary64.RoundIsNearest | src/sql/sql.cpp:274-286 | conversion of an integer to double goes to a nearest multiple of the unit, and to the even one in the middle |
| Binary64.SignificandFits | src/sql/sql.cpp:274-286 | the unit leaves a 53-bit significand |
| Binary64.RoundIsMonotone | src/sql/sql.cpp:274-286 | conversion to double never reverses two integers |
| SqlMeaning.GuaranteesAreConsistent | src/sql/sql.cpp:274-286 | one arithmetic meets everything assumed of doubles on integers |
| SqlMeaning.WhereIsExact | src/sql/sql.cpp:315-324 | a test against a literal n of magnitude below 2^53, or below 2^54 with n % 4 == 2, is the integer comparison for all six operators and every int64 row |
| SqlMeaning.WhereOnWideIntegers | src/sql/sql.cpp:315-324 | for any int64 literal, all tests on all int64 columns agree with the integers exactly under that condition |
| SqlMeaning.WhereMergesWideIntegers | src/sql/sql.cpp:315-324 | any other literal passes an equality test against a neighbour of itself, as 2^53 does against 2^53 + 1 |
| SqlMeaning.WhereOnStrings | src/sql/sql.cpp:309-314 | a string test compares the row with the literal in lexicographic order, for all six operators |
| SqlMeaning.WhereOnDoubles | src/sql/sql.cpp:315-324 | a numeric test compares the real value of the row with that of the literal, for integer and double columns and literals; NaN passes != only |
| SqlMeaning.MatchingIsExact | src/sql/sql.cpp:479-483 | WHERE keeps exactly the rows that pass its test, each once and in row order |
| SqlMeaning.RowsOfIsExact | src/sql/sql.cpp:516-531 | a group holds exactly the matching rows with its key |
| SqlMeaning.RowsOfKeepsOrder | src/sql/sql.cpp:512-531 | a group's rows are folded in row order |
| SqlMeaning.MinIsLeast | src/sql/sql.cpp:408-416 | the MIN state is the double of a matching row that no matching row is below, on any numeric column without NaN |
| SqlMeaning.MaxIsGreatest | src/sql/sql.cpp:417-425 | the MAX state is the double of a matching row that is below no matching row, on any numeric column without NaN |
| SqlMeaning.MinCell | src/sql/sql.cpp:491-507 | the MIN cell of an integer column is the rounded least matching value, hence that value exactly when it survives rounding, as a multiple of its unit; on doubles it is a least matching value, and without matching rows the integer 0 |
| SqlMeaning.MaxCell | src/sql/sql.cpp:491-507 | the same for MAX and the greatest matching value |
| SqlMeaning.MinLosesAWideInteger | src/sql/sql.cpp:374-378 | MIN over the single row 2^53 + 1 answers 2^53, which no row holds |
| SqlAnswers.FindIsFirst | src/io/csv.h:38-45 | a name denotes the first column of that name, and fails exactly when there is none |
| SqlAnswers.ResolveIsExact | src/sql/sql.cpp:442-465 | every projection, WHERE and GROUP BY name denotes the first column of its name; resolution fails exactly when one has none |
| SqlAnswers.MatchingSelects | src/sql/sql.cpp:478-495 | the rows the executor keeps are the one increasing list of the rows that pass WHERE on the named column |
| SqlAnswers.AnswerFails | src/sql/sql.cpp:442-552 | execution fails exactly when a name has no column, WHERE compares a string with a number on some row, or a group has to show a column it does not group by |
| SqlAnswers.ColumnNames | src/sql/sql.cpp:467-470 | the header lists the aliases of the projections in order |
| SqlAnswers.PlainAnswer | src/sql/sql.cpp:478-490 | a plain statement has one row per matching row, and cell k shows what the k-th named column stores there |
| SqlAnswers.AggregateReports | src/sql/sql.cpp:366-432 | for every aggregate, column type and list of rows the cell is the left-to-right sum, its quotient by the count, the count, the extreme, or the number of distinct keys of those rows |
| SqlAnswers.AggregateAnswer | src/sql/sql.cpp:491-507 | an ungrouped aggregate statement has one row, and cell k reports about the matching rows of the k-th named column |
| SqlAnswers.IntegerSums | src/sql/sql.cpp:400-404 | on int32 and int64 columns SUM is the integer sum and AVG its quotient while values and partial sums are exact doubles |
| GroupBy.GroupedAnswer | src/sql/sql.cpp:509-551 | GROUP BY the named column gives one row per key of a matching row, in ascending key order, that shows the value of the group's first row and reports each aggregate about the group's rows |
| GroupBy.GroupByDecomposes | src/sql/sql.cpp:509-551 | every aggregate cell of a result row is the cell of the ungrouped statement over the table holding just the matching rows with one key of the named GROUP BY column, in order, with double addition left open |
| GroupBy.GroupsPartition | src/sql/sql.cpp:516-521 | every matching row belongs to exactly one group |
| GroupBy.GroupCountsAddUp | src/sql/sql.cpp:532-550 | the COUNT cells of all groups add up to the COUNT without GROUP BY |
| GroupBy.KeysAreValues | src/sql/sql.cpp:341-353 | on integer and string columns rows share a key exactly when they hold the same value |
| GroupBy.GroupShowsItsValue | src/sql/sql.cpp:533-549 | a projection without aggregate names the GROUP BY column and shows the value that every row of the group holds, on integer and string columns |
| GroupBy.DistinctCountsValues | src/sql/sql.cpp:426-428 | COUNT_DISTINCT is the number of distinct matching values of an integer or string column, and GROUP BY makes as many groups |
| GroupBy.KeysAreSpellings | src/sql/sql.cpp:347-348 | rows of a double column share a key exactly when std::to_string spells them alike |
| GroupBy.DistinctCountsSpellings | src/sql/sql.cpp:426-428 | COUNT_DISTINCT of a double column is the number of distinct spellings, and GROUP BY makes as many groups |
| GroupBy.KeyTexts | src/sql/sql.cpp:341-353 | the key is the decimal text of an integer, the spelling of a double, or the marked text of a string |
| CrossEngine.SameSelection | src/sql/sql.cpp:492-495 | WHERE keeps the rows the filter kernel keeps |
| CrossEngine.ScanTextParses | src/sql/sql.h:69-70 | the text of such a statement parses to it |
| CrossEngine.EnginesAgree | src/sql/sql.cpp:473-507 | an aggregate with a < or > condition on an int32 column gives the field of the pipeline's result, including 0 when no row passes |
| CrossEngine.RunBothEngines | src/sql/sql.cpp:436-507 | running the SQL engine on the text and the pipeline on the buffer, the only cell of the one is the field of the other |

## Left out

- Pipeline.RunRaw: Sum and Avg assume at most 2^32 selected rows, beyond which the C++ sum may overflow a signed int64.
- CrossEngine.EnginesAgree: Sum and Avg assume at most 2^22 selected rows, so that every partial sum is an exact double.
- SqlMeaning.MinIsLeast: assumes the column's values are ordered, which NaN is not; with NaN the result depends on row order. The same holds for SqlMeaning.MaxIsGreatest.
- SqlMeaning.MinCell: leaves open the cell of an integer that rounds to 2^63, because C++ does not define its conversion back to int64. The same holds for SqlMeaning.MaxCell.
- Dict.FilterByValue: assumes max_card at most 256, beyond which codes are ambiguous. The same holds for Dict.CountDistinctKept.
- SqlAnswers.IntegerSums: assumes that values and partial sums stay within 2^53; beyond, SqlAnswers.AggregateReports still gives the sum of doubles.
- GroupBy.KeysAreValues: leaves double columns out, because std::to_string prints six decimals and merges values; GroupBy.KeysAreSpellings covers them.
- SqlExec.CellKey, SqlPrinter.ParseUndoesPrint: std::to_string and std::stod on doubles are parameters; the printer must know a spelling that std::stod reads back.
- Pointers to data nobody writes during a call (kernel inputs, run arrays, code arrays) are sequences; only the output bitmap, the scratch buffer and batch data are arrays, so aliasing is modelled exactly where something is overwritten.
- Virtual dispatch is a datatype of the scan, the filter and an arbitrary list of batches; a child that overwrites its own earlier batches is modelled by the scan.
- std::size_t and the int64 row counters are unbounded, since no buffer can hold 2^63 rows.
- Aggregate states, group maps and dictionary columns are values that the methods reassign; the vector of ungrouped states is an array updated in place.
- std::set, std::map and the hash containers are mathematical sets and maps with an explicit key order; their internals are not modelled.
- Exceptions are one failure value without a text, and character classes are those of the C locale.
- CSV ingest: a table's columns are assumed to have one value per row.
- CPU detection: the SIMD path is a parameter, and no result depends on it.
- The unused helper hsum_epi32, schema lookup, StringColumn, the latency histogram, main and the benchmarks would add only easy members.
