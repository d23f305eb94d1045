# glossgen schema inference, modelled in Dafny

glossgen builds a data glossary for a relational database. It reads each table's
catalog and data, and infers what the catalog may not record:

- which column is most likely a table's **primary key**;
- which column pairs across tables are likely **foreign-key relationships**.

This project models that inference core:

- the per-column **NULL and uniqueness percentages**;
- **primary-key inference**, which scores every readable column, sorts the
  scores and flags the best one;
- **foreign-key candidate scoring** between two tables, from type equality,
  name similarity and value overlap in a 100-row sample;
- **join-based validation** of a candidate, from the NULL ratio and join
  coverage;
- the **relationship matrix** over every unordered table pair;
- the in-memory helpers that compute the same statistics on a loaded frame,
  take per-column samples, merge schema, samples and statistics into glossary
  rows, and filter a relationship table by confidence.

The database is an immutable value (`Database.Db`). It maps each table name to:

- the table's catalog columns;
- its rows (a missing cell is NULL);
- the set of columns every query on which raises;
- the set of columns that accept `IS NULL` but reject `COUNT(DISTINCT ...)`
  (text, ntext or image columns on SQL Server);
- the set of equality joins from this table whose predicate the server rejects
  (for example a type mismatch), though each column's own queries succeed;
- whether the table can be queried at all.

Each SQL statement the source issues becomes an exact function of that value, under exact string comparison:

- `COUNT(*)`;
- `COUNT(*) ... IS NULL`;
- `COUNT(DISTINCT ...)`;
- the inner-join count;
- `LIMIT n`.

A statement that would raise yields `None`. Percentages and scores are exact
reals. The thresholds are parameters, and `ForeignKeys.FkMinScore` (30),
`Relationships.EdgeMinConfidence` (0.1), `ForeignKeys.SampleSize` (100),
`DataProcessing.DefaultSamples` (5) and `DataProcessing.DefaultMinConfidence`
(0.5) record the source's values.

Loops in the source are methods with loop invariants. Each method's `ensures`
states its result: for most of them, equality with a specification function;
for `NullPercentage`, `UniquenessPercentage`, `CalculateColumnStats`,
`ProcessSampleData` and `MergeGlossaryData`, the result entry by entry. The
lemmas state what the source promises about those results:

- sortedness;
- stability of ties;
- exactly-one-best;
- iff-membership;
- bounds;
- idempotence;
- each pair visited once.

### Behaviour that follows the code

- With `customer_id` against `id`, `"id"` is a substring of `"customer_id"`.
  The name test therefore adds 0.2, not nothing. Same type and full value
  overlap score 90, not 70 (`ForeignKeys.CustomerIdNameSignal`,
  `ForeignKeys.CustomerIdAgainstId`).
- Validation gives 100 exactly when neither column holds NULL and the distinct
  values of column 1 (at least one) all occur in column 2
  (`Relationships.ValidatePerfect`).
- `calculate_column_stats` divides by the frame's row count without a guard,
  so a frame with columns but no rows is an error (`DataProcessing.StatsError`).
  A frame with no columns yields an empty result. The database-backed
  statistics return an empty result for an empty table instead.

## Model

| member | source | states |
|---|---|---|
| `Database.RowCount` | glossgen/src/glossgen/tools/sql.py:55-56 | the row count is available exactly when the table can be queried, and it is then the number of rows |
| `Database.NullCountQuery` | glossgen/src/glossgen/tools/sql.py:64-65 | the NULL count is available exactly when the column is readable, and it never exceeds the row count |
| `Database.DistinctCountQuery` | glossgen/src/glossgen/tools/sql.py:97-98 | the distinct count is available exactly when the column accepts `COUNT(DISTINCT ...)`, and it never exceeds the row count |
| `Database.JoinMatchedQuery` | glossgen/src/glossgen/tools/sql.py:385-392 | the join's matched count is available exactly when column 1 accepts `COUNT(DISTINCT ...)`, column 2 is readable and the server accepts the join predicate; it never exceeds column 1's distinct count |
| `Database.TopRows` | glossgen/src/glossgen/tools/sql.py:27-36 | the sample is available exactly when the table can be queried; it is then a prefix of the rows, of length min(n, rows) |
| `Database.PercentNullPlusDistinctAtMost100` | glossgen/src/glossgen/tools/sql.py:254-261 | a column's NULL percentage plus its distinct percentage is at most 100 |
| `ColumnStats.NullEntry` | glossgen/src/glossgen/tools/sql.py:63-70 | a column gets a value exactly when its query succeeds; the value is in [0,100] |
| `ColumnStats.UniquenessEntry` | glossgen/src/glossgen/tools/sql.py:96-103 | a column gets a value exactly when its `COUNT(DISTINCT ...)` succeeds (a column can have a NULL percentage and no uniqueness); the value is in [0,100] |
| `ColumnStats.NullPercentage` | glossgen/src/glossgen/tools/sql.py:45-76 | empty map when the table cannot be queried or has no rows; otherwise exactly one entry per catalog column, each the column's NULL percentage or None when its query raises |
| `ColumnStats.UniquenessPercentage` | glossgen/src/glossgen/tools/sql.py:78-109 | empty map when the table cannot be queried or has no rows; otherwise exactly one entry per catalog column, each its distinct percentage or None |
| `ColumnStats.NullPlusUniquenessAtMost100` | glossgen/src/glossgen/tools/sql.py:96-100 | the two percentages of a column with both statistics add up to at most 100 |
| `PrimaryKey.Confidence` | glossgen/src/glossgen/tools/sql.py:263-267 | the confidence is 100 for a column without NULLs that is fully distinct, and 0 for an all-NULL column or one with no distinct value |
| `PrimaryKey.ConfidenceRange` | glossgen/src/glossgen/tools/sql.py:263-267 | the confidence is in [0,100]; it is 100 iff no NULLs and 100% unique, and 0 iff all NULL or nothing distinct |
| `PrimaryKey.ScoreColumn` | glossgen/src/glossgen/tools/sql.py:250-272 | a column is scored exactly when both its NULL and its distinct query succeed, and the score is for that column |
| `PrimaryKey.ScoredColumns` | glossgen/src/glossgen/tools/sql.py:249-272 | only catalog columns whose two queries succeed are scored |
| `PrimaryKey.ScoredColumnsValues` | glossgen/src/glossgen/tools/sql.py:253-269 | every entry of the results holds that column's own scores |
| `PrimaryKey.ScoredColumnsComplete` | glossgen/src/glossgen/tools/sql.py:249-272 | every catalog column whose two queries succeed has an entry (failing columns are the only ones skipped) |
| `PrimaryKey.ScoredColumnsInOrder` | glossgen/src/glossgen/tools/sql.py:249-269 | the results are in catalog order, with no column twice |
| `PrimaryKey.MarkBest` | glossgen/src/glossgen/tools/sql.py:282-295 | one report row per sorted score |
| `PrimaryKey.PrimaryKeyReport` | glossgen/src/glossgen/tools/sql.py:218-304 | no catalog columns gives "no columns"; a successful report comes from a queryable non-empty table, is non-empty, and flags its first row |
| `PrimaryKey.InferPrimaryKey` | glossgen/src/glossgen/tools/sql.py:218-304 | the method returns exactly the report the specification function defines |
| `PrimaryKey.ReportRows` | glossgen/src/glossgen/tools/sql.py:287-295 | the row-building loop produces the marked rows |
| `PrimaryKey.PrimaryKeyErrors` | glossgen/src/glossgen/tools/sql.py:232-304 | no catalog columns gives "no columns"; a table that cannot be queried gives an error; an empty table gives "no data"; "could not infer" happens iff no catalog column passes both its queries |
| `PrimaryKey.PrimaryKeyRowsSorted` | glossgen/src/glossgen/tools/sql.py:275-279 | report rows are in non-increasing confidence order |
| `PrimaryKey.PrimaryKeyExactlyOneBest` | glossgen/src/glossgen/tools/sql.py:282-294 | exactly one row, the first, is flagged as primary key |
| `PrimaryKey.PrimaryKeyRowScores` | glossgen/src/glossgen/tools/sql.py:254-267 | each row's confidence is the formula of its percentages; both percentages are in [0,100] and sum to at most 100; the confidence is in [0,100] |
| `PrimaryKey.ScoreBounds` | glossgen/src/glossgen/tools/sql.py:254-267 | the same bounds for a single scored column |
| `PrimaryKey.PrimaryKeyRowsCoverReadableColumns` | glossgen/src/glossgen/tools/sql.py:249-279 | a column has a report row iff it is a catalog column whose NULL and distinct queries both succeed |
| `PrimaryKey.SortedColumns` | glossgen/src/glossgen/tools/sql.py:275-279 | sorting neither adds nor drops a column |
| `PrimaryKey.PrimaryKeyTiesKeepCatalogOrder` | glossgen/src/glossgen/tools/sql.py:275-279 | rows with equal confidence appear in catalog order, as Python's stable sort keeps them |
| `PrimaryKey.SortedTiesInCatalogOrder` | glossgen/src/glossgen/tools/sql.py:275-279 | sorting scores that are in catalog order keeps ties in catalog order |
| `Sorting.SortDesc` | glossgen/src/glossgen/tools/sql.py:364 | the result is sorted by the key, highest first, and is a permutation of the input |
| `Sorting.SortDescStable` | glossgen/src/glossgen/tools/sql.py:364 | elements with equal keys keep their input order (reverse sorting in Python is stable) |
| `ForeignKeys.Lower` | glossgen/src/glossgen/tools/sql.py:342 | lower-casing keeps length and lowers each character |
| `ForeignKeys.ContainsAt` | glossgen/src/glossgen/tools/sql.py:344 | `a in b` holds iff `a` occurs at some position of `b` |
| `ForeignKeys.TypeSignal` | glossgen/src/glossgen/tools/sql.py:338-339 | 0.3 iff the rendered types are equal, otherwise 0 |
| `ForeignKeys.NameSignal` | glossgen/src/glossgen/tools/sql.py:341-345 | 0.3 iff the names are equal ignoring case; 0.2 iff they differ and one contains the other; otherwise 0 |
| `ForeignKeys.SampleValues` | glossgen/src/glossgen/tools/sql.py:348-350 | a sample's value set exists exactly when the sample was read, and holds exactly the column's non-NULL sampled values |
| `ForeignKeys.Overlap` | glossgen/src/glossgen/tools/sql.py:347-353 | the overlap ratio is in [0,1] |
| `ForeignKeys.OverlapFull` | glossgen/src/glossgen/tools/sql.py:348-353 | the overlap is 1 iff both samples have the column with at least one value and one value set contains the other |
| `ForeignKeys.OverlapSymmetric` | glossgen/src/glossgen/tools/sql.py:352 | the overlap does not depend on the side |
| `ForeignKeys.PairScore` | glossgen/src/glossgen/tools/sql.py:333-354 | a pair's score is in [0,100] |
| `ForeignKeys.PairScoreSymmetric` | glossgen/src/glossgen/tools/sql.py:333-354 | swapping the two columns and their samples does not change the score |
| `ForeignKeys.PairScoreFull` | glossgen/src/glossgen/tools/sql.py:333-354 | 100 iff same type, names equal ignoring case, and full overlap of non-empty samples |
| `ForeignKeys.ValuesAloneNotEnough` | glossgen/src/glossgen/tools/sql.py:337-355 | without type match or name similarity a pair scores at most 40 |
| `ForeignKeys.OverlapAloneIsCandidate` | glossgen/src/glossgen/tools/sql.py:337-355 | full value overlap alone, with different types and unrelated names, scores 40 and passes the 30 threshold |
| `ForeignKeys.ContainmentAndQuarterOverlapOnThreshold` | glossgen/src/glossgen/tools/sql.py:337-355 | name containment with a quarter of the sampled values shared and different types scores exactly 30, which the strict threshold drops |
| `ForeignKeys.SameNameAndTypeIsCandidate` | glossgen/src/glossgen/tools/sql.py:337-355 | same name and type scores at least 60, above the 30 threshold |
| `ForeignKeys.LowerUnchanged` | glossgen/src/glossgen/tools/sql.py:342 | lower-casing leaves a name without capitals unchanged |
| `ForeignKeys.CustomerIdNameSignal` | glossgen/src/glossgen/tools/sql.py:341-345 | `customer_id` against `id` earns the 0.2 substring score |
| `ForeignKeys.CustomerIdAgainstId` | glossgen/src/glossgen/tools/sql.py:333-354 | `customer_id` against `id`, both INTEGER, with full overlap, scores 90 |
| `ForeignKeys.ScorePair` | glossgen/src/glossgen/tools/sql.py:333-354 | the accumulating loop body computes the pair score, which is in [0,100] |
| `ForeignKeys.PotentialForeignKeys` | glossgen/src/glossgen/tools/sql.py:318-364 | the nested loops return the candidate list the specification defines, sorted by confidence, highest first |
| `ForeignKeys.RowCandidates` | glossgen/src/glossgen/tools/sql.py:332-362 | the inner loop yields at most one candidate per column of table 2, each from `col1` of table 1 to table 2 with a score above the threshold |
| `ForeignKeys.Candidates` | glossgen/src/glossgen/tools/sql.py:331-362 | both loops yield at most one candidate per column pair, each from table 1 to table 2 with a score above the threshold |
| `ForeignKeys.ForeignKeyCandidates` | glossgen/src/glossgen/tools/sql.py:318-364 | the candidates are sorted highest first, number at most one per column pair, run from table 1 to table 2 and score above the threshold |
| `ForeignKeys.RowCandidatesElement` | glossgen/src/glossgen/tools/sql.py:332-362 | the inner loop yields exactly the passing pairs of `col1` with some column of table 2 |
| `ForeignKeys.CandidatesElement` | glossgen/src/glossgen/tools/sql.py:331-362 | both loops yield exactly the passing pairs of some column of table 1 with some column of table 2 |
| `ForeignKeys.ForeignKeyCandidatesExactly` | glossgen/src/glossgen/tools/sql.py:318-364 | a relationship is a candidate iff it is some column pair, oriented table1 to table2, whose sampled score exceeds the threshold, carrying that score |
| `ForeignKeys.SortedCandidatesElement` | glossgen/src/glossgen/tools/sql.py:355-364 | sorting keeps exactly the passing pairs |
| `ForeignKeys.ForeignKeyCandidatesShape` | glossgen/src/glossgen/tools/sql.py:355-362 | every candidate runs from a catalog column of table 1 to one of table 2, with confidence above the threshold and at most 100 |
| `ForeignKeys.ForeignKeyCandidatesOrder` | glossgen/src/glossgen/tools/sql.py:364 | candidates are sorted highest first, and equal confidences keep loop order |
| `Relationships.NullScore` | glossgen/src/glossgen/tools/sql.py:374-382 | fails with a division by zero iff both tables are empty; otherwise in [0,1] |
| `Relationships.Coverage` | glossgen/src/glossgen/tools/sql.py:393 | the coverage is in [0,1] when matched is at most the distinct count |
| `Relationships.CountsScore` | glossgen/src/glossgen/tools/sql.py:382-397 | fails iff both tables are empty; otherwise the weighted score is in [0,100] |
| `Relationships.CountsScorePerfect` | glossgen/src/glossgen/tools/sql.py:382-397 | the score is 100 iff there are no NULLs and all distinct values (at least one) are matched |
| `Relationships.CountsScoreUnmatched` | glossgen/src/glossgen/tools/sql.py:393-397 | with nothing matched the score is at most 30 |
| `Relationships.Validate` | glossgen/src/glossgen/tools/sql.py:371-398 | a successful validation is in [0,100] |
| `Relationships.AssertRelationship` | glossgen/src/glossgen/tools/sql.py:366-402 | the confidence is in [0,100], and any raised error gives 0 |
| `Relationships.ValidateFails` | glossgen/src/glossgen/tools/sql.py:371-402 | fails with a query error iff a column is unreadable, or the tables have a row and the join query is rejected (a type-mismatched predicate included); with a division by zero iff both columns are readable and both tables are empty |
| `Relationships.ValidateCounts` | glossgen/src/glossgen/tools/sql.py:374-397 | when the join query succeeds and some row exists, the score is that of the exact NULL, row, join and distinct counts |
| `Relationships.ValidatePerfect` | glossgen/src/glossgen/tools/sql.py:374-397 | 100 iff the join query succeeds, neither column holds NULL, and column 1's distinct values (at least one) all occur in column 2 |
| `Relationships.NoSharedValueAtMost30` | glossgen/src/glossgen/tools/sql.py:385-397 | columns that share no value score at most 30 |
| `Relationships.Revalidate` | glossgen/src/glossgen/tools/sql.py:413-424 | a validated relationship keeps its tables and columns and carries the join-based confidence |
| `Relationships.Validated` | glossgen/src/glossgen/tools/sql.py:411-425 | at most one relationship per candidate, each with a confidence above the threshold and at most 100 |
| `Relationships.ValidateAll` | glossgen/src/glossgen/tools/sql.py:411-425 | the validation loop yields the validated survivors in candidate order |
| `Relationships.RelationshipMatrixForTwoTables` | glossgen/src/glossgen/tools/sql.py:404-426 | validates the given candidates, or the two tables' scored candidates when none are given |
| `Relationships.ValidatedElement` | glossgen/src/glossgen/tools/sql.py:412-424 | a relationship survives iff it is a revalidated candidate scoring above the threshold |
| `Relationships.ValidatedAppend` | glossgen/src/glossgen/tools/sql.py:412-424 | validation works candidate by candidate and never re-sorts |
| `Relationships.ValidatedIdempotent` | glossgen/src/glossgen/tools/sql.py:412-424 | validating the survivors again changes nothing |
| `Relationships.AsFrame` | glossgen/src/glossgen/tools/sql.py:426 | the frame of no relationships has no columns; any other frame holds exactly the relationships |
| `Relationships.PairRow` | glossgen/src/glossgen/tools/sql.py:436 | the inner loop visits n - i - 1 partners |
| `Relationships.PairsBeforeFacts` | glossgen/src/glossgen/tools/sql.py:435-436 | before outer index i, the loops have visited exactly the pairs with first index below i, in strictly increasing order, i(2n-i-1)/2 of them |
| `Relationships.IndexPairsFacts` | glossgen/src/glossgen/tools/sql.py:435-436 | every unordered pair i < j is visited exactly once, in lexicographic order: n(n-1)/2 pairs |
| `Relationships.ThreeTablePairs` | glossgen/src/glossgen/tools/sql.py:435-436 | three tables give (0,1), (0,2), (1,2) |
| `Relationships.Matrix` | glossgen/src/glossgen/tools/sql.py:428-447 | every relationship of the matrix has a confidence above the threshold and at most 100 |
| `Relationships.PairRelationships` | glossgen/src/glossgen/tools/sql.py:437-440 | a pair's relationships are its scored candidates, validated |
| `Relationships.MatrixRow` | glossgen/src/glossgen/tools/sql.py:436-442 | the inner loop appends the relationships of every later table |
| `Relationships.RelationshipMatrix` | glossgen/src/glossgen/tools/sql.py:428-447 | the double loop returns the concatenation, in pair order, of every pair's relationships |
| `Relationships.ConcatElement` | glossgen/src/glossgen/tools/sql.py:441-446 | a relationship is in the concatenation iff some pair contributes it |
| `Relationships.PairEdgesShape` | glossgen/src/glossgen/tools/sql.py:437-440 | a pair's relationships run from tables[i] to tables[j] between catalog columns, with the validated confidence above the threshold |
| `Relationships.MatrixShape` | glossgen/src/glossgen/tools/sql.py:428-447 | every matrix entry comes from some pair i < j, with the validated confidence above the threshold and at most 100 |
| `Relationships.MatrixNoSelfOrReversedPair` | glossgen/src/glossgen/tools/sql.py:435-436 | with distinct table names, no entry relates a table to itself or runs from a later table to an earlier one |
| `Relationships.FewTablesEmptyMatrix` | glossgen/src/glossgen/tools/sql.py:435-447 | a list of fewer than two tables meets the catalog requirement whatever the catalog holds, and gives no relationships |
| `DataProcessing.StatsOf` | glossgen/src/glossgen/utils/data_processing.py:28-37 | uniqueness and missing percentages are in [0,100] |
| `DataProcessing.CalculateColumnStats` | glossgen/src/glossgen/utils/data_processing.py:24-41 | fails iff there are columns but no rows; otherwise exactly one entry per column, holding that column's statistics |
| `DataProcessing.PkScore` | glossgen/src/glossgen/utils/data_processing.py:34-37 | the frame formula equals the primary-key confidence formula of the database path |
| `DataProcessing.StatsOfFacts` | glossgen/src/glossgen/utils/data_processing.py:28-37 | the percentages sum to at most 100; the score equals the primary-key confidence, lies in [0,100], and is 100 iff nothing is missing and every row is distinct |
| `DataProcessing.StatsAgreeWithQueries` | glossgen/src/glossgen/utils/data_processing.py:29-30 | on a whole table the frame percentages equal the query-based ones |
| `DataProcessing.Head` | glossgen/src/glossgen/utils/data_processing.py:21 | `head(n)` is a prefix of length min(n, len); for negative n it drops the last -n |
| `DataProcessing.ProcessSampleData` | glossgen/src/glossgen/utils/data_processing.py:17-22 | exactly one entry per column, holding the first n non-missing values |
| `DataProcessing.NonNullValuesPresent` | glossgen/src/glossgen/utils/data_processing.py:21 | every non-missing value listed is a cell of that column |
| `DataProcessing.SampleFacts` | glossgen/src/glossgen/utils/data_processing.py:19-22 | a sample has at most n values, is a prefix of the column's non-missing values, and holds only cells of that column |
| `DataProcessing.MergeGlossaryData` | glossgen/src/glossgen/utils/data_processing.py:43-67 | one row per schema column in schema order, with type and key flag (defaults "" and false), samples (default none), empty description and comments, and statistics iff present |
| `DataProcessing.FilterRelationships` | glossgen/src/glossgen/utils/data_processing.py:69-74 | keeps exactly the relationships with confidence at least the threshold |
| `DataProcessing.FilterRelationshipFrame` | glossgen/src/glossgen/utils/data_processing.py:69-74 | a frame without columns raises KeyError; otherwise exactly the rows with confidence at least the threshold are kept |
| `DataProcessing.FilterMatrixFrame` | glossgen/src/glossgen/tools/sql.py:445-447 | filtering the matrix builders' result fails exactly when they found no relationship |
| `DataProcessing.FilterAppend` | glossgen/src/glossgen/ui/components/relationships_tab.py:127-129 | the filter (also the table view's copy) keeps order, working row by row |
| `DataProcessing.FilterKeepsAll` | glossgen/src/glossgen/utils/data_processing.py:74 | filtering changes nothing iff every row passes |
| `DataProcessing.FilterTwice` | glossgen/src/glossgen/utils/data_processing.py:74 | filtering twice is filtering once at the higher threshold, so the filter is idempotent |

## Left out

- Connections, engines, SQL text and the printing of errors are not modelled. Which query raises is part of the database value, at the grain of a table, a column, a column's `COUNT(DISTINCT ...)` and a join predicate.
- `extract_schema` is left out: the catalog is part of the database value.
- `get_top_n_dataframe` uses dialect-specific SQL. Both forms are modelled as the first n stored rows. SQL leaves the order of an unordered `LIMIT` open.
- The error frame that `get_top_n_dataframe` returns is modelled as a missing sample. It has no named columns, so it never yields an overlap.
- `get_sample_data_query` and `get_sample_data` draw random rows, and randomness is out of scope.
- The helpers over all tables are left out. So are `get_table_stats`, `generate_schema_table_*`, the visualisations, the language-model calls, `process_ai_response` and the Streamlit UI. None of them is part of the inference core.
- Values are modelled by one string per cell. Join equality is string equality, so SQL type coercion is not modelled.
- `ForeignKeys.SampleValues`: the sample is read with `pd.read_sql`, and `astype(str)` renders each cell from the frame's column type, while the model uses the same string as the join. An INTEGER column with a NULL among the sampled rows is read as float, so 7 becomes "7.0" and no longer matches "7" from an integer column, although the SQL join matches them. The model keeps the overlap signal of such nullable key columns, where the source loses it; the candidates' confidences and order can differ there.
- `ForeignKeys.Lower`: `str.lower` is modelled on ASCII letters only. Python also lowers other letters, and on some (such as 'İ') it changes the length, which the model's length-keeping `Lower` does not.
- Floating point is not modelled; arithmetic is exact. In Python 0.3 * 100 is exactly 30.0, so a pair matching only on type, or only on exact name, is dropped by `> 30` in both. Rounding does differ elsewhere. Name containment (0.2) with a quarter of the sampled values shared gives (0.2 + 0.25 * 0.4) * 100, which is 30.000000000000004 in Python and passes. The model computes exactly 30 and drops the pair (`ForeignKeys.ContainmentAndQuarterOverlapOnThreshold`).
- `Database.DistinctCountQuery`: SQL collation is not modelled. The model compares strings exactly. The default collations of MySQL and SQL Server ignore case and trailing spaces, so there `COUNT(DISTINCT ...)` can count fewer values than the model.
- `Database.JoinMatchedQuery`: the join predicate is exact string equality, for the same reason. Under a case-insensitive collation the server matches more rows than the model. The sample overlap compares the fetched strings exactly in both the source and the model.
- `ColumnStats.NullPercentage`, `ColumnStats.UniquenessPercentage`, `PrimaryKey.InferPrimaryKey`: a failed statement on PostgreSQL aborts the connection's transaction, and every later statement on that connection then fails too. Each of these calls opens its own connection and runs its whole loop over columns on it. The model's failures are per table, column, distinct count or join, and do not depend on the order of the queries, so this cascade within a call is not captured.
- `Database.TopRows`, `ForeignKeys.PotentialForeignKeys`, `Relationships.RelationshipMatrix`: the sample reads of `get_top_n_dataframe` do not open a connection per call. They all use the one connection the extractor opens when it is constructed, and it lasts for the whole session. On PostgreSQL one failed sample read (for example a mixed-case table name that the unquoted `FROM` cannot find) therefore makes every later sample read of the session return the error frame. The later pairs of a relationship matrix then lose their overlap signal, and candidates can fall under the threshold. The model's `TopRows` depends only on the table, so this cascade across calls is not captured.
- `ForeignKeys.PotentialForeignKeys`: the source looks tables up with `schema_info[table]`. The KeyError for a missing table is not caught, so the model requires both tables to be in the catalog.
- `Relationships.RelationshipMatrix`: every table of a visited pair must be in the catalog, for the same reason. With two or more tables, every listed table is in some pair. A list of fewer than two tables visits no pair and needs nothing (`Relationships.FewTablesEmptyMatrix`).
- Duplicate column names in a catalog: the database statistics depend only on the name, so a repeated name gets the same entry again, and in primary-key inference it keeps the position of its first occurrence.
- Duplicate column labels in a frame are not represented. In pandas `df[column]` is then a frame, not a column: `process_sample_data` raises AttributeError at `.tolist()`, and `calculate_column_stats` stores per-label series instead of numbers. The model treats each label as one column.
- The result frames are sequences of records. The builders' empty result, a frame without columns, is `Relationships.AsFrame` of the empty sequence; filtering it raises KeyError (`DataProcessing.FilterRelationshipFrame`).
- `DataProcessing.MergeGlossaryData`: a statistics entry becomes an optional record, not a dictionary merge. The three statistics keys cannot collide with the glossary's own keys.
- `PrimaryKey.MarkBest`: its own contract states only the row count. The flags and the order are stated by `PrimaryKey.PrimaryKeyExactlyOneBest` and `PrimaryKey.PrimaryKeyRowsSorted`.
- `ForeignKeys.Overlap`: its own contract states only the range. Full overlap and symmetry are `ForeignKeys.OverlapFull` and `ForeignKeys.OverlapSymmetric`.
- `Relationships.Coverage`: its own contract states only the range. The 100 case is `Relationships.CountsScorePerfect`.
