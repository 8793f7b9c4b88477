# pg_duckdb: the joints between two engines

pg_duckdb runs DuckDB inside a Postgres backend. This project models the places where the two
engines have to agree, and proves what that agreement is:

- **Parallel scan.** DuckDB threads share one reader over a shrinking array of worker queues.
  `WorkerRing` has the ring and one polling call (and the class that shifts the array in place);
  `ParallelScan` interleaves any number of scan threads with workers that fill and close queues, with
  the global lock, the signed registration count and the cleanup; `CountScan` has count-only mode.
- **Filter pushdown.** `ExpressionPushdown` prints DuckDB expressions, `SimpleFilters` has the
  comparisons, null tests and IN lists that DuckDB prints itself, and `TableFilters` extracts the
  WHERE clause from filter trees. `SqlLexer` and `SqlParser` read the printed characters the way
  Postgres does (lexical rules and operator precedence of sections 4.1.2, 4.1.3 and 4.1.6 of the
  PostgreSQL documentation) and evaluate in three-valued logic; `LikePattern` has LIKE matching in
  both engines. `PushdownMeaning` connects them.
- **Value conversion.** `Numeric` and `Decimal` are the two directions between scaled integers and
  base-10000 digits, in fixed-width arithmetic. `ArrayFlatten` turns nested lists into arrays,
  `ListVectors` turns arrays into list vectors and fills chunks.
- **Transactions.** `Transactions` has the command-id claims, the DuckDB transaction and the two-copy
  set of temporary tables as a machine over backend events; `MixedWrites` runs statements on it.
- **Names, target lists, catalog sync.** `SchemaCodec` is the `ddb$` codec, `StarReconstruction` the
  star rewriting, `CatalogSync` one sync round with commands that can fail anywhere.

Code that works in steps is modelled as classes and loops proved equal to specification functions;
the properties are lemmas about those functions. Text and names are sequences of bytes. Automatic
induction is switched off on every lemma: inductions are written out.

## Where the code falls short of its promise

Each of these is a branch of the code, kept as it is, with the exact condition or an example proved.

- The `ddb$` decoder does not step over the second `$` of a pair: it inverts the encoder exactly for
  database names without `$` whose schema is `main`, or is non-empty, does not start with `$` and has
  at most one `$` (`SchemaCodec.RoundTripExactly`). Schemas of the default database called `public`,
  `pg_temp` or `ddb$...` do not come back either (`SchemaCodec.NameRoundTripExactly`).
- A DuckDB `NOT` on the left of a comparison is printed without parentheses of its own and is read
  back as the negation of the comparison (`PushdownMeaning.NegatedOperandIsMisread`). On booleans this
  keeps the meaning if and only if the operator is `=` or `!=`
  (`PushdownMeaning.NegatedOperandKeptExactly`). Expressions whose comparisons are over text have no
  such operand (`ExpressionPushdown.TypedIsSafe`).
- DuckDB's LIKE operator has no default escape character, Postgres's has the backslash: the operator
  is pushed down exactly if and only if its pattern holds no backslash
  (`PushdownMeaning.LikeOperatorExactly`).
- DuckDB prints `a!=-5` without a space, and Postgres takes `!=-` as one operator name: the text of a
  simple filter is read as that filter if and only if it is not `!=` before a negative number
  (`SimpleFilters.SimpleReadExactly`).
- An OR filter without children disappears instead of rejecting every row (`TableFilters.EmptyOrIsLost`).
- `ConvertNumeric` overflows exactly when the fraction, aligned to whole groups, does not fit the type.
- Count-only mode ends early, or drops counts, exactly when a full fetch of 2048 partial counts adds
  up to 0 or to more than 2048 (`CountScan.ChunksSumToCounts`). A scan gets one count per worker, and
  Postgres limits workers (src/scan/postgres_table_reader.cpp:217) to 1024, so such a fetch does not
  occur.
- The LIST writer takes only the dimension just above as its entry count: an array survives exactly
  when all dimensions but the last two are 1 (`ListVectors.NewRowExactly`).
- The array append state multiplies its expected count by each dimension twice, so its buffer is
  sized for the square of the number of values, and Postgres refuses allocations beyond 1 GB: a
  rectangular list without an empty dimension is flattened if and only if it has at most 11585 values
  (`ArrayFlatten.FlattenedExactly`), and a plain list of 11586 values is refused. Only the second
  multiplication is checked, and a first one that wraps can leave a buffer that is too small
  (`ArrayFlatten.WrapIsUnnoticed`).
- PRE_COMMIT drops the saved set of temporary tables before the outcome is known: an abort restores
  the set if and only if PRE_COMMIT had not got past its mixed-write check, or nothing had changed
  (`Transactions.AbortRestoresExactly`). On the same path DuckDB may have committed what Postgres
  then aborts (`Transactions.EnginesDivergeExactly`).
- A claim made while a Postgres write is open absorbs that write (`MixedWrites.NestedWriteEscapes`).
- A schema that cannot be made available does not clear the sync's success flag, so its live tables
  are dropped (`CatalogSync.LiveRelationLost`, `CatalogSync.UnavailableSchemaLosesTable`).
- The sync records a catalog version before it knows the outcome, so a failed round is not repeated
  until upstream changes again (`CatalogSync.RoundIsNotRetried`).

## Model

| member | source | states |
|---|---|---|
| `ParallelScan.StepKeepsInv` | src/scan/postgres_table_reader.cpp:312-377 | every enabled step of a thread or a worker keeps the joint invariant of ring, log, lock, registration count and threads |
| `ParallelScan.ExactlyOnceInOrder` | src/scan/postgres_scan.cpp:585-644 | after any interleaving, what was handed out from a queue followed by what is still queued is what its worker sent, in order; every thread holds exactly what it took |
| `ParallelScan.CallFillsChunk` | src/scan/postgres_scan.cpp:598-642 | over every run, the rows a thread gains between a call and its end are at most 2048, and exactly 2048 unless the thread is then exhausted |
| `ParallelScan.ThreadsGoOn` | src/scan/postgres_scan.cpp:585-644 | in every reachable state before destruction each thread can take a step or needs a lock whose holder can, and a call by a thread that is not exhausted leaves it at work |
| `ParallelScan.ExhaustedMeansDelivered` | src/scan/postgres_scan.cpp:606-642 | a thread is exhausted only when every queue is closed and drained and every tuple sent was handed out |
| `ParallelScan.CleanupIsSafe` | src/scan/postgres_scan.cpp:455-474 | at most one cleanup, never while a registered thread is live unless the reader is destroyed, and no enabled step touches the reader after it, refused threads included |
| `ParallelScan.CleanupHappens` | src/scan/postgres_scan.cpp:455-474 | once a thread has unregistered and no registered thread is left, the cleanup has been done |
| `ParallelScan.WaitsOnlyWhenAllEmpty` | src/scan/postgres_table_reader.cpp:327-377 | in every reachable state a thread waiting on the latch has polled every remaining reader empty, and it alone holds the lock |
| `ParallelScan.RingStepKeepsRingInv` | src/scan/postgres_table_reader.cpp:340-361 | a removal takes out only a closed and drained queue, and the remaining readers stay distinct |
| `WorkerRing.RingStepActive` | src/scan/postgres_table_reader.cpp:335-361 | a finished reader leaves the active list, the others keep their order, and no other answer changes the list |
| `WorkerRing.PollingIsFair` | src/scan/postgres_table_reader.cpp:327-377 | from any legal index and visit count, a wait happens only when every remaining reader answered empty since the last wait |
| `WorkerRing.PollsBetweenWaits` | src/scan/postgres_table_reader.cpp:327-377 | without a wait a call makes at most twice as many polls as there are readers |
| `WorkerRing.ReturnsTheFirstTuple` | src/scan/postgres_table_reader.cpp:327-377 | a returned tuple is the last answer used and no earlier answer held one |
| `WorkerRing.TableReader.Shift` | src/scan/postgres_table_reader.cpp:346-347 | the in-place move removes the entry at the index and leaves the rest in order |
| `WorkerRing.TableReader.RemoveReader` | src/scan/postgres_table_reader.cpp:340-352 | removal in place equals the ring step for a finished reader |
| `WorkerRing.TableReader.SkipReader` | src/scan/postgres_table_reader.cpp:358-373 | an empty answer in place equals the ring step, wait included |
| `WorkerRing.TableReader.GetNextWorkerTuple` | src/scan/postgres_table_reader.cpp:327-377 | the loop over fields and array ends in the state, with the result, polls and waits of the call's specification |
| `CountScan.ChunksFit` | src/pgduckdb_types.cpp:2048-2053 | every emitted chunk is non-empty and within the vector size |
| `CountScan.ChunksSumToCounts` | src/scan/postgres_scan.cpp:552-644 | chunk sizes add up to the partial counts if and only if no full fetch sums to zero or beyond a vector |
| `CountScan.FullFetchLosesCounts` | src/scan/postgres_scan.cpp:585-644 | 2048 partial counts of 2 do not come out |
| `CountScan.FewPartialsAreExact` | src/scan/postgres_scan.cpp:585-644 | with fewer partial counts than a vector holds nothing is lost |
| `CountScan.LocalState.SetOutputCardinality` | src/scan/postgres_scan.cpp:552-558 | the emitted size and the carried-over rest |
| `CountScan.LocalState.PostgresScanFunction` | src/scan/postgres_scan.cpp:585-644 | one scan call over the remaining partial counts |
| `LikePattern.EscapeNeedleIsQuotedPattern` | src/scan/postgres_scan.cpp:48-77 | the four successive replacements equal one per-character escape with quotes doubled |
| `LikePattern.LiteralMatches` | src/scan/postgres_scan.cpp:48-77 | an escaped needle in a pattern matches exactly the needle |
| `LikePattern.ContainsPattern` | src/scan/postgres_scan.cpp:48-77 | LIKE on percent, escaped needle, percent holds exactly for haystacks that contain the needle |
| `LikePattern.PrefixPattern` | src/scan/postgres_scan.cpp:48-77 | the prefix pattern holds exactly for haystacks that start with the needle |
| `LikePattern.SuffixPattern` | src/scan/postgres_scan.cpp:48-77 | the suffix pattern holds exactly for haystacks that end with the needle |
| `LikePattern.PatternsAgreeExactly` | src/pgduckdb_ruleutils.cpp:1238-1245 | a pattern means the same in both engines on every text if and only if it holds no backslash |
| `LikePattern.BackslashSeparates` | src/pgduckdb_ruleutils.cpp:1238-1245 | for every pattern with a backslash, a text the engines judge differently |
| `PushdownMeaning.NeedleText` | src/scan/postgres_scan.cpp:48-77 | the characters written for a needle are the quoted form of its LIKE pattern |
| `PushdownMeaning.ReadNeedle` | src/scan/postgres_scan.cpp:48-77 | the lexer reads those characters back as one string token that holds the pattern |
| `PushdownMeaning.TreeMeaning` | src/scan/postgres_scan.cpp:128-272 | the intended syntax tree of a printable expression evaluates in Postgres to the three-valued result of DuckDB, whose LIKE operator has no escape, on every row without a backslash in a pattern of that operator |
| `PushdownMeaning.PrintedIsUnderstood` | src/scan/postgres_scan.cpp:128-272 | the printed characters lex and parse, with Postgres precedence, to that tree, in any context the printer puts them |
| `PushdownMeaning.PushdownIsExact` | src/scan/postgres_scan.cpp:79-272 | every printable expression with atomic operands, read back by Postgres, has the meaning of DuckDB on every row that gives no LIKE operator a backslash |
| `PushdownMeaning.TypedPushdownIsExact` | src/scan/postgres_scan.cpp:79-272 | the same for every printable expression with the types the binder gives, operands of comparisons and of the LIKE family being text |
| `ExpressionPushdown.PrintableForAnyName` | src/scan/postgres_scan.cpp:128-272 | success of printing does not depend on the column name |
| `ExpressionPushdown.PrintedExactly` | src/scan/postgres_scan.cpp:79-272 | exactly which expressions are printed: the functions by name, with the argument counts, types and constants the printer takes |
| `ExpressionPushdown.ConstantPatternsArePlain` | src/scan/postgres_scan.cpp:234-245 | constant patterns without a backslash meet the row condition on every row |
| `ExpressionPushdown.TypedIsSafe` | src/scan/postgres_scan.cpp:128-272 | a printable expression with those types has atomic operands throughout |
| `PushdownMeaning.GateIsSufficient` | src/scan/postgres_scan.cpp:513-516 | what the gate accepts with the name dummy is printable at the unchecked dereference for the real column and is read back by Postgres; it is exact under the row condition, which constant patterns without a backslash always meet |
| `PushdownMeaning.LikeOperatorExactly` | src/scan/postgres_scan.cpp:234-245 | the printed operator is exact on every row if and only if its constant pattern holds no backslash |
| `PushdownMeaning.BackslashPatternIsMisread` | src/scan/postgres_scan.cpp:234-245 | one pattern and text on which the engines differ |
| `PushdownMeaning.DefaultEscapeText` | src/scan/postgres_scan.cpp:115-124 | the escape argument is left out exactly when it is the default backslash |
| `PushdownMeaning.NegatedOperandIsMisread` | src/scan/postgres_scan.cpp:128-272 | every comparison with a negation on the left is read as the negation of the comparison, and what either engine then computes |
| `PushdownMeaning.NegatedOperandIsKept` | src/scan/postgres_scan.cpp:128-272 | with = and != the misread text keeps the value on every row, for all operands that are boolean there |
| `PushdownMeaning.NegatedOperandKeptExactly` | src/scan/postgres_scan.cpp:128-272 | a negated column compared with the column keeps its meaning on every boolean row if and only if the operator is = or != |
| `PushdownMeaning.NegatedOperandLosesRow` | src/scan/postgres_scan.cpp:128-272 | a row that DuckDB keeps and Postgres drops |
| `SqlParser.JoinedIsPrimary` | src/scan/postgres_scan.cpp:128-272 | a parenthesised list of operands joined by one connective parses to their nested conjunction or disjunction, whatever follows |
| `SqlParser.NestedMeaning` | src/scan/postgres_scan.cpp:128-272 | the nested tree of any number of operands has the three-valued meaning of the flat connective |
| `SimpleFilters.SimpleIsRead` | src/scan/postgres_scan.cpp:280-286 | every comparison with a number, string, boolean or typed literal, null test and IN list is read as one operand with its own tree, whatever follows it |
| `SimpleFilters.SimpleMeaning` | src/scan/postgres_scan.cpp:280-286 | that tree is true in Postgres exactly on the rows the filter accepts in DuckDB |
| `SimpleFilters.SimpleReadExactly` | src/scan/postgres_scan.cpp:280-286 | the text is read as the filter if and only if it is not != before a negative number |
| `SimpleFilters.MisreadIsNoCondition` | src/scan/postgres_scan.cpp:280-286 | != directly before a minus is read as no condition at all, for every column and number |
| `SimpleFilters.NumberFilters` | test/regression/expected/query_filter.out:7 | an example: a<=50 is such a filter |
| `SimpleFilters.NegativeFilters` | src/scan/postgres_scan.cpp:280-286 | an example: a=-1.5 is such a filter |
| `SimpleFilters.ListFilters` | src/scan/postgres_scan.cpp:283-286 | an example: a IN (1, 2) is such a filter |
| `SimpleFilters.DateFilters` | src/scan/postgres_scan.cpp:280-286 | examples: comparisons with dates and zoned timestamps are such filters |
| `TableFilters.ExtractQueryFilters` | src/scan/postgres_scan.cpp:276-336 | the recursive walk throws, drops or appends exactly as the extraction function says |
| `TableFilters.ExtractConjunction` | src/scan/postgres_scan.cpp:287-310 | the loop over the children of a conjunction, with the OR that is dropped as a whole |
| `TableFilters.ExtractSandwich` | src/scan/postgres_scan.cpp:276-336 | the extracted condition is implied by the filter with all optional parts and implies it without them; a return of 0 outside optional means the mandatory part always holds |
| `TableFilters.ExtractedExactly` | src/scan/postgres_scan.cpp:276-336 | extraction throws if and only if an unknown filter outside every optional node or an unprintable expression is reached before an OR is dropped, and drops a filter exactly under the other stated condition |
| `TableFilters.ClauseExistsExactly` | src/scan/postgres_scan.cpp:407-424 | a filter list gives a clause if and only if none of its filters fails in that sense |
| `TableFilters.OptionalNeverFails` | src/scan/postgres_scan.cpp:311-330 | a filter whose expressions are all printable never fails inside an optional node |
| `TableFilters.NoOptionalNoSlack` | src/scan/postgres_scan.cpp:276-336 | without optional nodes both readings of a filter agree |
| `TableFilters.WhereClauseIsExact` | src/scan/postgres_scan.cpp:407-424 | the joined clause, parsed by Postgres, lies between the two readings on every row, and is exact without optional filters |
| `TableFilters.SimpleClauseExactly` | src/scan/postgres_scan.cpp:407-424 | a clause of one simple filter is read as that filter if and only if it is well formed |
| `TableFilters.EmptyOrIsLost` | src/scan/postgres_scan.cpp:276-336 | an OR without children accepts nothing but is dropped |
| `Numeric.NumericOfIsExact` | src/pgduckdb_types.cpp:380-446 | for every integer and scale the digits are in 0..9999 and denote exactly value / 10^scale |
| `Numeric.SplitIntegral` | src/pgduckdb_types.cpp:404-416 | the digit loop over the whole part stays inside its buffer and writes its digits, last first |
| `Numeric.SplitFraction` | src/pgduckdb_types.cpp:417-431 | the digit loop over the aligned fraction writes exactly its groups |
| `Numeric.ConvertNumeric` | src/pgduckdb_types.cpp:380-446 | in fixed-width arithmetic the conversion succeeds if and only if the value is not the smallest one and the aligned fraction fits, and then builds the exact numeric |
| `Numeric.RoomForGroups` | src/pgduckdb_types.cpp:421-431 | when whole groups of the fraction fit the type, nothing overflows for any value |
| `Numeric.NineDecimalsOverflow` | src/pgduckdb_types.cpp:426-427 | scale 9 in a 32-bit type overflows |
| `Decimal.DecimalExactly` | src/pgduckdb_types.cpp:1738-1798 | the result is value * 10^dscale if and only if the last digit holds nothing beyond the scale |
| `Decimal.StripKeepsValue` | src/pgduckdb_types.cpp:1738-1798 | stripping zero digits from either end keeps the number denoted |
| `Decimal.StripStaysTidy` | src/pgduckdb_types.cpp:1766-1792 | stripping keeps the exactness condition |
| `Decimal.StripDoesNotMatter` | src/pgduckdb_types.cpp:1738-1798 | for every numeric that meets it, stripping any zeros, all digits of a zero included, does not change what is read |
| `Decimal.BuiltIsTidy` | src/pgduckdb_types.cpp:417-446 | numerics built by the other direction meet the exactness condition, however they are stripped |
| `Decimal.RoundTrip` | src/pgduckdb_types.cpp:1738-1798 | every scaled integer converted to a numeric, stripped anyhow and read back is itself |
| `Decimal.IntegralPart` | src/pgduckdb_types.cpp:1748-1758 | the integer loop, no intermediate beyond its result |
| `Decimal.LeadingFraction` | src/pgduckdb_types.cpp:1766-1776 | the fraction loop up to the last digit |
| `Decimal.Compensate` | src/pgduckdb_types.cpp:1776-1791 | the last digit divided or multiplied to the scale, with its intermediates |
| `Decimal.ConvertDecimal` | src/pgduckdb_types.cpp:1738-1798 | in fixed-width arithmetic the result is right, nothing overflows when the scaled value and the power fit and the last digit exceeds the scale by at most one group, and a scale beyond the table of powers is an error |
| `ArrayFlatten.FlattenSound` | src/pgduckdb_types.cpp:952-1051 | success implies a rectangular list without inner NULLs; the datums are its row-major leaves, as many as the product of the dimensions |
| `ArrayFlatten.FlattenComplete` | src/pgduckdb_types.cpp:952-1051 | every rectangular list whose squared size fits one allocation is flattened, and every write stays inside the buffer allocated at the first leaf |
| `ArrayFlatten.FlattenExactly` | src/pgduckdb_types.cpp:985-1039 | for every rectangular list of any size: exception, write behind the buffer, or its row-major leaves, by the expected count modulo 2^64 and the limit on allocations |
| `ArrayFlatten.GrantedExactly` | src/pgduckdb_types.cpp:1027-1028 | the two requests are granted if and only if eight times the count is at most 1 GB, although the first size can wrap |
| `ArrayFlatten.FlattenedExactly` | src/pgduckdb_types.cpp:985-1039 | a rectangular list without an empty dimension is flattened if and only if it has at most 11585 values |
| `ArrayFlatten.FlattenedUnlessTooLarge` | src/pgduckdb_types.cpp:985-1039 | the same with empty dimensions, for sizes whose squares fit 64 bits |
| `ArrayFlatten.PlainListIsRefused` | src/pgduckdb_types.cpp:1027-1028 | a plain list of 11586 values is refused |
| `ArrayFlatten.OverflowIsRejected` | src/pgduckdb_types.cpp:997-1006 | sizes whose product first overflows in the checked multiplication are rejected |
| `ArrayFlatten.WrapIsUnnoticed` | src/pgduckdb_types.cpp:1000-1001 | sizes whose unchecked multiplication wraps to zero lead to a write behind the buffer |
| `ArrayFlatten.AppendUsesBuffer` | src/pgduckdb_types.cpp:1023-1038 | no datum is written before the buffer is allocated |
| `ArrayFlatten.ArrayAppendState.SetDimension` | src/pgduckdb_types.cpp:994-1010 | the dimension check and the two multiplications of the expected count, on the fields |
| `ArrayFlatten.ArrayAppendState.WriteValues` | src/pgduckdb_types.cpp:1023-1038 | the two allocations at the first leaf, which may be refused, and the writes into the buffer |
| `ArrayFlatten.ArrayAppendState.AppendValueAtDimension` | src/pgduckdb_types.cpp:985-1039 | the recursive append on the fields ends as the specification says |
| `ListVectors.ConvertLevel` | src/pgduckdb_types.cpp:1992-2009 | the entry loop of one dimension writes the entries of the level specification |
| `ListVectors.ConvertList` | src/pgduckdb_types.cpp:1966-2036 | the loops over dimensions and elements, and both dimension errors |
| `ListVectors.CoveredReadsBack` | src/pgduckdb_types.cpp:1989-2036 | where the entry count at each level is the number of lists there, reading through the entries gives the nested value |
| `ListVectors.UncoveredIsLost` | src/pgduckdb_types.cpp:1992-2007 | where it is smaller, some list has no entry and cannot be read |
| `ListVectors.NewRowExactly` | src/pgduckdb_types.cpp:1989-2036 | a row reads back as its array if and only if all dimensions but the last two are 1 |
| `ListVectors.WriteIsExact` | src/pgduckdb_types.cpp:1966-2036 | one write keeps the column well formed and every earlier row, whatever the shape of the array |
| `ListVectors.ColumnReadsBack` | src/pgduckdb_types.cpp:1966-2036 | after any sequence of writes every row reads back exactly when its own shape survives |
| `ListVectors.ThreeDimensionsAreLost` | src/pgduckdb_types.cpp:1992-2007 | a 2x1x1 array does not read back |
| `ListVectors.NestKeepsLeaves` | src/pgduckdb_types.cpp:1966-2036 | the nested value of an array lists the array's elements in row-major order |
| `ListVectors.ArrayRoundTrip` | src/pgduckdb_types.cpp:952-1051 | an array whose shape survives, written, read back and flattened again, gives its dimensions and elements if and only if it has at most 11585 elements |
| `ListVectors.BatchIsRowByRow` | src/pgduckdb_types.cpp:2103-2156 | filling column by column equals filling row by row, failures included |
| `ListVectors.ChunkReadsBack` | src/pgduckdb_types.cpp:2043-2156 | every cell of a batch reads back exactly when its shape survives, and earlier rows are unchanged |
| `ListVectors.WrittenExactly` | src/pgduckdb_types.cpp:1966-2036 | a write fails if and only if the datum is neither NULL, nor a plain value for a plain column, nor an array without dimensions or with as many as the list column is deep |
| `ListVectors.ColumnWrittenExactly` | src/pgduckdb_types.cpp:1966-2036 | a sequence of writes fails if and only if one of its data does not fit |
| `ListVectors.ChunkWrittenExactly` | src/pgduckdb_types.cpp:2043-2156 | a batch is refused if and only if some attribute of some tuple does not fit its column |
| `ListVectors.Chunk.InsertTupleIntoChunk` | src/pgduckdb_types.cpp:2043-2081 | one tuple over all columns |
| `ListVectors.Chunk.InsertTuplesIntoChunk` | src/pgduckdb_types.cpp:2103-2156 | the column-at-a-time loops do what inserting the tuples one by one does |
| `MixedWrites.DetectionIsExact` | src/pgduckdb_xact.cpp:55-98 | for every run of a block, PRE_COMMIT rejects it if and only if DuckDB wrote and a Postgres write was counted before a claim and not forgiven by a forced one |
| `MixedWrites.StatementKeepsBlock` | src/pgduckdb_hooks.cpp:341-396 | every well-nested statement keeps the relation between the command id, the expected id and what was written so far |
| `MixedWrites.PgStatementCountsUp` | src/pgduckdb_hooks.cpp:264-296 | statements without DuckDB only raise the command id, and a Postgres write raises it |
| `MixedWrites.NoMixedCommit` | src/pgduckdb_xact.cpp:109-128 | an accepted block of well-nested statements did not write to both engines, cached plans included |
| `MixedWrites.BlockCommitsExactly` | src/pgduckdb_hooks.cpp:219-296 | with DuckDB used at the top level of the block and command ids left, all statements succeed and PRE_COMMIT accepts if and only if the statements write to at most one engine |
| `MixedWrites.LateWriteIsRefused` | src/pgduckdb_xact.cpp:55-128 | a DuckDB write after a Postgres write is refused at once, and so is a Postgres write after a DuckDB write unless its plan was cached |
| `MixedWrites.DuckInFunctionIsRefused` | src/pgduckdb_hooks.cpp:219-296 | the planner refuses every DuckDB query it plans inside a function |
| `MixedWrites.NestedWriteEscapes` | src/pgduckdb_xact.cpp:40-58 | a DuckDB write nested in an unfinished Postgres write goes undetected |
| `Transactions.EnginesStayTogether` | src/pgduckdb_duckdb.cpp:362-391 | in every run of a backend an open DuckDB transaction never coexists with a subtransaction; a subtransaction is refused if and only if a DuckDB transaction is open, a connection if and only if it would have to open one inside a subtransaction, and it opens one exactly in a block or when forced; at COMMIT the DuckDB transaction has ended |
| `Transactions.ClaimExactly` | src/pgduckdb_xact.cpp:109-128 | a claim is refused if and only if the id is not the expected one in a block without override, or no command id is left; accepted, the expected id is the current unused one |
| `Transactions.PreCommitExactly` | src/pgduckdb_xact.cpp:225-249 | PRE_COMMIT is refused if and only if both engines were written in a block without override, or DuckDB cannot commit |
| `Transactions.CommitKeepsTempTables` | src/pgduckdb_xact.cpp:188-249 | after a commit the temporary-table set is the fold of the transaction's registrations and removals |
| `Transactions.AbortRestoresTempTables` | src/pgduckdb_xact.cpp:188-266 | after an abort before PRE_COMMIT, or one forced by its check, the set is the one at the start of the transaction |
| `Transactions.TransactionEnds` | src/pgduckdb_xact.cpp:188-266 | every ending leaves a state from which the next transaction starts, and the set keeps the changes exactly when PRE_COMMIT got past its check |
| `Transactions.AbortRestoresExactly` | src/pgduckdb_xact.cpp:225-266 | over every run that ends in an abort, the set is restored if and only if DuckDB is initialised and PRE_COMMIT did not get past its check, or nothing had changed it |
| `Transactions.LateAbortKeepsTable` | src/pgduckdb_xact.cpp:240-261 | a run in which Postgres aborts after a good PRE_COMMIT and the new table stays in the set |
| `Transactions.TempTablesOverTransactions` | src/pgduckdb_xact.cpp:188-266 | after any sequence of transactions, however each ended, the set is the fold of exactly the kept registrations and removals |
| `Transactions.EnginesDivergeExactly` | src/pgduckdb_xact.cpp:233-266 | a commit keeps every DuckDB write; after an abort one remains if and only if it was made outside a DuckDB transaction or Postgres aborted after DuckDB had committed |
| `Transactions.LateAbortKeepsDuckWrite` | src/pgduckdb_xact.cpp:245-266 | a run in which DuckDB has committed and Postgres aborts |
| `Transactions.FailedDuckCommitKeepsChanges` | src/pgduckdb_xact.cpp:233-261 | after a failed DuckDB commit the set is restored if and only if nothing had changed it |
| `Transactions.UninitialisedEndKeepsClaims` | src/pgduckdb_xact.cpp:226-228 | without DuckDB initialised an abort leaves the expected command id stale |
| `Transactions.Backend.Claim` | src/pgduckdb_xact.cpp:109-128 | the claim on the process-wide variables, or its exception |
| `Transactions.Backend.Connection` | src/pgduckdb_duckdb.cpp:362-391 | starting the DuckDB transaction, or refusing inside a subtransaction |
| `Transactions.Backend.RegisterDuckdbTempTable` | src/pgduckdb_xact.cpp:192-199 | registration saves the set once and adds the table |
| `Transactions.Backend.UnregisterDuckdbTempTable` | src/pgduckdb_xact.cpp:201-208 | removal saves the set once and removes the table |
| `Transactions.Backend.OnPreCommit` | src/pgduckdb_xact.cpp:233-249 | the order of check, reset, set and DuckDB commit, with what an exception leaves behind |
| `Transactions.Backend.OnAbort` | src/pgduckdb_xact.cpp:225-266 | the resets and the restore of an abort |
| `SchemaCodec.EncodingInjective` | src/pgduckdb_background_worker.cpp:548-565 | two different database and schema pairs never share a name, for schemas not starting with a dollar |
| `SchemaCodec.SameNameExactly` | src/pgduckdb_background_worker.cpp:548-565 | two database and schema pairs share a name if and only if they agree once the dollars at the head of the schema are moved to the database |
| `SchemaCodec.LeadingDollarCollides` | src/pgduckdb_background_worker.cpp:548-565 | every schema name with a leading dollar, except $main, shares its name with a schema of another database |
| `SchemaCodec.DollarMainCollides` | src/pgduckdb_background_worker.cpp:548-565 | $main shares its name if and only if the database name ends in a dollar |
| `SchemaCodec.DbAndSchema` | src/pgduckdb_ruleutils.cpp:474-546 | the guards and pointer loops equal a closed form: special names first, then the first run of dollars loses one, and the first run of the rest loses one |
| `SchemaCodec.SchemaRoundTrip` | src/pgduckdb_ruleutils.cpp:534-544 | a schema part survives if and only if it has at most one dollar |
| `SchemaCodec.RoundTripExactly` | src/pgduckdb_ruleutils.cpp:503-546 | the decoder inverts the encoder if and only if the names meet the stated condition |
| `SchemaCodec.NameRoundTripExactly` | src/pgduckdb_ruleutils.cpp:474-546 | a schema gets its own database and name back if and only if, in the default database, it is main or none of the names with a meaning of their own, and elsewhere the names meet the decoder condition |
| `SchemaCodec.RefusedExactly` | src/pgduckdb_ruleutils.cpp:474-528 | a name is refused if and only if the table is of DuckDB's access method, the name is neither pg_temp nor public, and MotherDuck is off or the name ends in its only run of dollars after the prefix |
| `SchemaCodec.DefaultNames` | src/pgduckdb_background_worker.cpp:548-556 | in the default database main becomes public and every other schema keeps its name |
| `SchemaCodec.DefaultDatabaseCollides` | src/pgduckdb_background_worker.cpp:548-556 | two schemas of the default database share a name if and only if they are main and public |
| `SchemaCodec.DefaultTakesOtherName` | src/pgduckdb_background_worker.cpp:548-565 | a default-database schema shares the name of another database exactly when it is spelled so |
| `CatalogSync.CreationIsAtomic` | src/pgduckdb_background_worker.cpp:769-975 | a failed creation leaves the catalog as it was; a successful one replaces only its own MotherDuck relation, freshly stamped, of the kind asked for and with the identity its last command gave it |
| `CatalogSync.CreationSucceedsExactly` | src/pgduckdb_background_worker.cpp:769-975 | a creation succeeds if and only if the name has at most 63 characters, no foreign relation has it, the schema name can be decoded and its one or two commands succeed |
| `CatalogSync.Session.RunUtilityCommand` | src/pgduckdb_background_worker.cpp:733-767 | a failing command, whatever it wrecked, leaves catalog and open subtransactions unchanged |
| `CatalogSync.Session.CreateShell` | src/pgduckdb_background_worker.cpp:873-975 | drop and create in nested subtransactions equal the atomic creation, and the depth is back where it started |
| `CatalogSync.Session.MakeSchemaAvailable` | src/pgduckdb_background_worker.cpp:1045-1154 | creation and grants of a schema, all or nothing |
| `CatalogSync.Session.DropOutdated` | src/pgduckdb_background_worker.cpp:1318-1348 | the batches of 100 visit every row of the cursor once |
| `CatalogSync.Session.Sync` | src/pgduckdb_background_worker.cpp:1160-1356 | one database's round on the session equals the specification, ending outside any subtransaction |
| `CatalogSync.SchemasGrow` | src/pgduckdb_background_worker.cpp:1208-1286 | what a round makes lies in the available upstream schemas, has the kinds asked for, is all of it while the flag is set, and leaves every other relation alone |
| `CatalogSync.UpstreamKindsExactly` | src/pgduckdb_background_worker.cpp:1208-1286 | read off the upstream list: which relations should exist, and that each has the kind of its last entry, the three schemas left out being named |
| `CatalogSync.RoundIsSafe` | src/pgduckdb_background_worker.cpp:1160-1356 | whatever fails: foreign relations are untouched, nothing made in the round is dropped, and only outdated relations disappear, in rounds whose flag stayed set |
| `CatalogSync.RoundIsExact` | src/pgduckdb_background_worker.cpp:1288-1350 | after a round with all creations and drops successful, exactly which version-stamped relations a database has, all at the current stamp, and the kinds of those upstream |
| `CatalogSync.RoundAgrees` | src/pgduckdb_background_worker.cpp:1160-1356 | with every schema available and names that round trip, they are exactly the upstream entries, each of the kind of its last entry |
| `CatalogSync.RoundSucceeds` | src/pgduckdb_background_worker.cpp:1160-1356 | when no command raises and no name or privilege stands in the way, every schema is reached and every creation and drop succeeds |
| `CatalogSync.CatalogMirrorsUpstream` | src/pgduckdb_background_worker.cpp:1160-1356 | on inputs alone: after such a round the version-stamped relations of the database are exactly what the last entry of every name asks for, kind included |
| `CatalogSync.KeptExactly` | src/pgduckdb_background_worker.cpp:1310-1348 | of the relations a round did not make it keeps exactly those that are not MotherDuck's, those of other databases, and those without a version or of the current one under the same default database |
| `CatalogSync.KnownVersionIsSkipped` | src/pgduckdb_background_worker.cpp:1177-1205 | polls that find the known version of a database change nothing, whatever is polled between them |
| `CatalogSync.RoundIsNotRetried` | src/pgduckdb_background_worker.cpp:1177-1205 | after one round of a version, failed or not, no further poll changes anything for that database until another version is found |
| `CatalogSync.RoundsFollowVersions` | src/pgduckdb_background_worker.cpp:1177-1205 | however polls of databases are mixed, a round runs if and only if a poll finds another version than the poll of that database before it |
| `CatalogSync.LiveRelationLost` | src/pgduckdb_background_worker.cpp:1234-1237 | a live outdated relation is dropped if and only if no available schema lists it |
| `CatalogSync.AvailableExactly` | src/pgduckdb_background_worker.cpp:1045-1154 | when no command raises, a schema is unavailable exactly when its name is too long or it is a default-database schema without privilege |
| `CatalogSync.DeniedIsNotReached` | src/pgduckdb_background_worker.cpp:1209-1237 | such a schema is not reached in any round, whatever the commands do |
| `CatalogSync.DeniedRelationIsLost` | src/pgduckdb_background_worker.cpp:1234-1237 | every live outdated relation in such a schema is dropped by a round that cleans up |
| `CatalogSync.UnavailableSchemaLosesTable` | src/pgduckdb_background_worker.cpp:1234-1237 | a concrete round in which a failed grant costs a live table |
| `StarReconstruction.InsideRun` | src/pgduckdb_ruleutils.cpp:259-318 | inside a run the steps write the star once and skip every other entry |
| `StarReconstruction.ReconstructionIsCorrect` | src/pgduckdb_ruleutils.cpp:180-318 | the steps over any target list write one star per maximal run that holds a duckdb.row, and every other entry in order |
| `StarReconstruction.StarsExactly` | src/pgduckdb_ruleutils.cpp:180-318 | said of the list itself: an entry is written as it is if and only if it lies in no consecutive run from column 1 that holds a duckdb.row, and exactly the FROM entries with such a run get a star |
| `StarReconstruction.ReconstructionRestores` | src/pgduckdb_ruleutils.cpp:180-318 | when those runs list whole FROM entries, expanding the stars gives the list back |
| `StarReconstruction.StarContext.CheckStart` | src/pgduckdb_ruleutils.cpp:180-241 | the look-ahead loop starts a star exactly at a run from column 1 that holds a duckdb.row |
| `StarReconstruction.StarContext.Step` | src/pgduckdb_ruleutils.cpp:259-318 | one step on the context fields |
| `StarReconstruction.DeparseTargetList` | src/pgduckdb_ruleutils.cpp:259-318 | the loop over a target list with one context writes what the specification says |

## Left out

- Postgres and DuckDB internals: executor, SPI, catalogs, latches and locks other than the scan lock are state with nondeterministic results; allocation is assumed to succeed except for the size limit on the buffers of the array append state.
- Liveness: that a waiting thread is woken, and that workers finish, is not modelled; waiting ends when a worker acts.
- The single-threaded scan of rows, the column list of the scan query, and `GetNextMinimalWorkerTuple`'s tuple memory: they add no interleaving.
- CountScan: the 32-bit width of the total row counter is not modelled.
- Functions both engines have (lower, upper, the order of values, the value of a numeric or typed literal, ILIKE, LIKE with another escape) are uninterpreted and shared by both sides: that the engines agree on them, and that a type name of DuckDB exists in Postgres, is assumed. A LIKE pattern that ends in its escape character is an error in Postgres and matches nothing here.
- PushdownMeaning.PushdownIsExact: holds for operands that are columns, constants, parenthesised comparisons and conjunctions, or lower and upper calls, and rows without a backslash in a pattern of the LIKE operator; whether another expression or row happens to keep its meaning depends on the values, so beside the exact results for one operator and one negation there is no converse. The column text is a plain lower-case word outside the grammar, or double-quoted.
- MixedWrites.BlockCommitsExactly: the same blocks, with DuckDB at the top level only; the bound on command ids counts every step that can take one, and the exhaustion of ids is not characterised exactly.
- SqlParser covers the part of the expression grammar that printed conditions use; operators with other names, and a comparison that continues after IS NULL, are not parsed.
- ArrayFlatten: success means the append state; constructing the Postgres array, which also refuses more than 6 dimensions, is not part of this model.
- SimpleFilters: DuckDB's own printer is not part of this repository; its texts are modelled in the form the regression outputs show (column, operator and constant without spaces) and, for null tests and IN lists, as DuckDB documents them. ENUM and BLOB literals are left out, and text constants contain no NUL byte.
- lower and upper without arguments are not printable in the model; the binder always supplies one.
- Building the Postgres datum of a numeric is value-preserving zero stripping.
- Floating-point conversion, dates, timestamps, UUIDs, BLOBs and typmods.
- ARRAY (fixed-size) children of nested lists, and element type conversion: elements are opaque values.
- ListVectors: offsets and sizes are unbounded, and the overrun of the leaf buffer that a lost array causes is only visible as elements written behind the list size.
- MixedWrites.NoMixedCommit: covers explicit transaction blocks without the override flags (mixed transactions allowed, forced writes, sync in progress), starting with the expected command id at the current one, and no DuckDB statement inside an unfinished Postgres write; DuckDB execution inside functions is refused, its override flag is off.
- ROLLBACK TO SAVEPOINT: an exception ends the whole transaction; recovery inside a subtransaction, which is only possible while no DuckDB transaction is open, is in no run.
- Statements outside transaction blocks, prepared transactions, parallel-worker transaction events and tracking of top-level statements.
- DDL brackets other than claim, catalog writes, forced claim and DuckDB statement.
- The temporary-table set holds relation ids; the catalog queries that find them are not part of this model.
- CatalogSync: CASCADE drops, the abort on a changed cache version, changes by other sessions between the commits, and the reset of the known versions when the worker restarts.
- CatalogSync.RoundAgrees: a relation outside upstream that already carries the current stamp is kept by the code, so its absence is a premise; a catalog version names one state of the upstream catalog.
- Signals and exception guards, secrets, extension loading, COPY rewriting, EXPLAIN output, the vendored deparser and session hints.
