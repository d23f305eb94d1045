/**
 * The in-memory helpers that work on a table already loaded as a data frame:
 * per-column statistics, per-column samples, the glossary rows that merge the
 * schema with both, and the confidence filter applied to a relationship table.
 * A frame is a list of column names and its rows; a cell missing from a row is
 * a missing value (NaN).
 */
module DataProcessing {
  import opened Wrappers
  import opened Database
  import PrimaryKey
  import ColumnStats
  import ForeignKeys
  import Relationships

  datatype Frame = Frame(columns: seq<string>, rows: seq<Row>)

  // ---------------------------------------------------------------------------
  // calculate_column_stats

  /** The three statistics reported for one column, in percent. */
  datatype Stats = Stats(uniqueness: real, nulls: real, pkConfidence: real)

  /** Computing statistics divides by the number of rows. */
  datatype StatsError = DivisionByZero

  /** The statistics of column `c` over `rows`: distinct non-missing values and
      missing values as percentages of the row count, and the primary-key score
      `uniqueness * (100 - nulls) / 100`. */
  function StatsOf(rows: seq<Row>, c: string): (s: Stats)
    requires |rows| > 0
    ensures 0.0 <= s.uniqueness <= 100.0 && 0.0 <= s.nulls <= 100.0
  {
    DistinctPlusNullAtMostRows(rows, c);
    var uniqueness := Percent(DistinctCount(rows, c), |rows|);
    var nulls := Percent(NullCount(rows, c), |rows|);
    Stats(uniqueness, nulls, PkScore(uniqueness, nulls))
  }

  /** The frame's primary-key score, `uniqueness * (100 - nulls) / 100`. */
  function PkScore(uniqueness: real, nulls: real): (r: real)
    ensures r == PrimaryKey.Confidence(nulls, uniqueness)
  {
    uniqueness * (100.0 - nulls) / 100.0
  }

  /** One entry per column of the frame; a frame with columns but no rows fails,
      as the unguarded division by the row count does. */
  method CalculateColumnStats(df: Frame) returns (r: Result<map<string, Stats>, StatsError>)
    ensures r.Failure? <==> |df.rows| == 0 && |df.columns| > 0
    ensures r.Success? ==> forall c :: c in r.value <==> c in df.columns
    ensures r.Success? ==> forall c :: c in r.value ==> |df.rows| > 0 && r.value[c] == StatsOf(df.rows, c)
  {
    var stats: map<string, Stats> := map[];
    for i := 0 to |df.columns|
      invariant i > 0 ==> |df.rows| > 0
      invariant forall c :: c in stats <==> c in df.columns[..i]
      invariant forall c :: c in stats ==> |df.rows| > 0 && stats[c] == StatsOf(df.rows, c)
    {
      var column := df.columns[i];
      if |df.rows| == 0 {
        return Failure(DivisionByZero);
      }
      stats := stats[column := StatsOf(df.rows, column)];
      assert df.columns[..i + 1] == df.columns[..i] + [df.columns[i]];
    }
    assert df.columns[..|df.columns|] == df.columns;
    return Success(stats);
  }

  /** A percentage of counts is 0 exactly for a zero count and 100 exactly for
      the whole total. */
  lemma PercentExtremes(count: nat, total: nat)
    requires total > 0
    ensures Percent(count, total) == 0.0 <==> count == 0
    ensures Percent(count, total) == 100.0 <==> count == total
  {
    RatioZero(count, total);
    RatioOne(count, total);
  }

  /** The two percentages never add up to more than 100, and the primary-key score
      is the same value the database-backed inference computes, so it lies in
      [0, 100] and reaches 100 exactly for a column with no missing and only
      distinct values. */
  lemma StatsOfFacts(rows: seq<Row>, c: string)
    requires |rows| > 0
    ensures StatsOf(rows, c).uniqueness + StatsOf(rows, c).nulls <= 100.0
    ensures StatsOf(rows, c).pkConfidence
            == PrimaryKey.Confidence(StatsOf(rows, c).nulls, StatsOf(rows, c).uniqueness)
    ensures 0.0 <= StatsOf(rows, c).pkConfidence <= 100.0
    ensures StatsOf(rows, c).pkConfidence == 100.0
            <==> NullCount(rows, c) == 0 && DistinctCount(rows, c) == |rows|
  {
    var s := StatsOf(rows, c);
    assert s.pkConfidence == PkScore(s.uniqueness, s.nulls);
    PercentNullPlusDistinctAtMost100(rows, c);
    PrimaryKey.ConfidenceRange(s.nulls, s.uniqueness);
    PercentExtremes(NullCount(rows, c), |rows|);
    PercentExtremes(DistinctCount(rows, c), |rows|);
  }

  /** On a table loaded whole, the frame statistics agree with the per-column
      percentages the database queries report. */
  lemma StatsAgreeWithQueries(db: Db, table: string, c: string)
    requires table in db && |db[table].rows| > 0
    requires DistinctReadable(db, table, c)
    ensures StatsOf(db[table].rows, c).nulls == ColumnStats.NullEntry(db, table, c).value
    ensures StatsOf(db[table].rows, c).uniqueness == ColumnStats.UniquenessEntry(db, table, c).value
  {
  }

  // ---------------------------------------------------------------------------
  // process_sample_data

  const DefaultSamples: int := 5

  /** pandas' `head(n)`: the first n items, or for negative n all but the last -n. */
  function Head<T>(s: seq<T>, n: int): (h: seq<T>)
    ensures h <= s
    ensures n >= 0 ==> |h| == if n <= |s| then n else |s|
    ensures n < 0 ==> |h| == if -n <= |s| then |s| + n else 0
  {
    if n >= 0 then (if n <= |s| then s[..n] else s)
    else (if -n <= |s| then s[..|s| + n] else [])
  }

  /** For every column, the first `n` non-missing values in row order. */
  method ProcessSampleData(df: Frame, n: int) returns (samples: map<string, seq<string>>)
    ensures forall c :: c in samples <==> c in df.columns
    ensures forall c :: c in samples ==> samples[c] == Head(NonNullValues(df.rows, c), n)
  {
    samples := map[];
    for i := 0 to |df.columns|
      invariant forall c :: c in samples <==> c in df.columns[..i]
      invariant forall c :: c in samples ==> samples[c] == Head(NonNullValues(df.rows, c), n)
    {
      var column := df.columns[i];
      samples := samples[column := Head(NonNullValues(df.rows, column), n)];
      assert df.columns[..i + 1] == df.columns[..i] + [df.columns[i]];
    }
    assert df.columns[..|df.columns|] == df.columns;
  }

  /** Some row holds `v` in column `c`. */
  predicate Holds(rows: seq<Row>, c: string, v: string) {
    exists i :: 0 <= i < |rows| && c in rows[i] && rows[i][c] == v
  }

  /** Each value the non-missing values of a column list is a value the column holds. */
  lemma {:induction false} NonNullValuesPresent(rows: seq<Row>, c: string, k: nat)
    requires k < |NonNullValues(rows, c)|
    ensures Holds(rows, c, NonNullValues(rows, c)[k])
  {
    if c in rows[0] && k == 0 {
      assert c in rows[0] && rows[0][c] == NonNullValues(rows, c)[k];
      assert Holds(rows, c, NonNullValues(rows, c)[k]);
    } else {
      var k' := if c in rows[0] then k - 1 else k;
      NonNullValuesPresent(rows[1..], c, k');
      var i :| 0 <= i < |rows[1..]| && c in rows[1..][i] && rows[1..][i][c] == NonNullValues(rows[1..], c)[k'];
      assert c in rows[i + 1] && rows[i + 1][c] == NonNullValues(rows, c)[k];
      assert Holds(rows, c, NonNullValues(rows, c)[k]);
    }
  }

  /** A sample never holds more than `n` values, keeps row order (it is a prefix of
      the column's non-missing values), and every value in it is a non-missing
      cell of that column. */
  lemma SampleFacts(rows: seq<Row>, c: string, n: int)
    ensures n >= 0 ==> |Head(NonNullValues(rows, c), n)| <= n
    ensures Head(NonNullValues(rows, c), n) <= NonNullValues(rows, c)
    ensures forall v :: v in Head(NonNullValues(rows, c), n) ==> Holds(rows, c, v)
  {
    var h := Head(NonNullValues(rows, c), n);
    forall v | v in h
      ensures Holds(rows, c, v)
    {
      var k :| 0 <= k < |h| && h[k] == v;
      NonNullValuesPresent(rows, c, k);
      assert h[k] == NonNullValues(rows, c)[k];
    }
  }

  // ---------------------------------------------------------------------------
  // merge_glossary_data

  /** What the schema records of one column; either key may be absent. */
  datatype ColumnInfo = ColumnInfo(sqlType: Option<string>, primaryKey: Option<bool>)

  /** One column of the schema, in the schema's order. */
  datatype SchemaEntry = SchemaEntry(name: string, info: ColumnInfo)

  /** One row of the glossary table; `stats` is present when statistics were given
      for the column. */
  datatype GlossaryRow = GlossaryRow(
    columnName: string,
    dataType: string,
    sampleData: seq<string>,
    description: string,
    comments: string,
    isPrimaryKey: bool,
    stats: Option<Stats>)

  /** One glossary row per schema column, in schema order, with empty description
      and comments, the type and primary-key flag from the schema (empty and false
      when absent), the column's samples (none when absent), and its statistics
      exactly when some were computed for it. */
  method MergeGlossaryData(schema: seq<SchemaEntry>, sampleData: map<string, seq<string>>,
                           columnStats: map<string, Stats>)
    returns (glossary: seq<GlossaryRow>)
    ensures |glossary| == |schema|
    ensures forall i :: 0 <= i < |schema| ==>
              && glossary[i].columnName == schema[i].name
              && glossary[i].dataType == schema[i].info.sqlType.GetOr("")
              && glossary[i].sampleData == (if schema[i].name in sampleData then sampleData[schema[i].name] else [])
              && glossary[i].description == ""
              && glossary[i].comments == ""
              && glossary[i].isPrimaryKey == schema[i].info.primaryKey.GetOr(false)
              && (glossary[i].stats.Some? <==> schema[i].name in columnStats)
              && (glossary[i].stats.Some? ==> glossary[i].stats.value == columnStats[schema[i].name])
  {
    glossary := [];
    for i := 0 to |schema|
      invariant |glossary| == i
      invariant forall k :: 0 <= k < i ==>
                  && glossary[k].columnName == schema[k].name
                  && glossary[k].dataType == schema[k].info.sqlType.GetOr("")
                  && glossary[k].sampleData == (if schema[k].name in sampleData then sampleData[schema[k].name] else [])
                  && glossary[k].description == ""
                  && glossary[k].comments == ""
                  && glossary[k].isPrimaryKey == schema[k].info.primaryKey.GetOr(false)
                  && (glossary[k].stats.Some? <==> schema[k].name in columnStats)
                  && (glossary[k].stats.Some? ==> glossary[k].stats.value == columnStats[schema[k].name])
    {
      var name := schema[i].name;
      var samples := if name in sampleData then sampleData[name] else [];
      var entry := GlossaryRow(name, schema[i].info.sqlType.GetOr(""), samples, "", "",
                               schema[i].info.primaryKey.GetOr(false), None);
      if name in columnStats {
        entry := entry.(stats := Some(columnStats[name]));
      }
      glossary := glossary + [entry];
    }
  }

  // ---------------------------------------------------------------------------
  // filter_relationships

  const DefaultMinConfidence: real := 0.5

  /** Filtering reads the `confidence` column, which a frame without columns lacks. */
  datatype FilterError = MissingConfidenceColumn

  /** `filter_relationships` on a relationship frame: a frame without columns (the
      empty result of the matrix builders) raises KeyError; a frame with columns
      keeps the rows whose confidence is at least `minConfidence`, in order. */
  function FilterRelationshipFrame(frame: Relationships.RelationshipFrame, minConfidence: real)
    : (r: Result<seq<ForeignKeys.Relationship>, FilterError>)
    ensures r.Failure? <==> frame.Columnless?
    ensures r.Success? ==> forall x :: x in r.value <==> x in frame.rows && x.confidence >= minConfidence
  {
    match frame
    case Columnless => Failure(MissingConfidenceColumn)
    case Columns(rows) => Success(FilterRelationships(rows, minConfidence))
  }

  /** Filtering what the matrix builders return fails exactly when they found no
      relationship. */
  lemma FilterMatrixFrame(rels: seq<ForeignKeys.Relationship>, minConfidence: real)
    ensures FilterRelationshipFrame(Relationships.AsFrame(rels), minConfidence).Failure? <==> rels == []
  {
  }

  /** The relationships whose confidence is at least `minConfidence`, in order. */
  function FilterRelationships(rels: seq<ForeignKeys.Relationship>, minConfidence: real)
    : (kept: seq<ForeignKeys.Relationship>)
    ensures |kept| <= |rels|
    ensures forall r :: r in kept <==> r in rels && r.confidence >= minConfidence
  {
    if rels == [] then []
    else (if rels[0].confidence >= minConfidence then [rels[0]] else [])
         + FilterRelationships(rels[1..], minConfidence)
  }

  /** Filtering commutes with concatenation: kept rows keep their relative order. */
  lemma {:induction false} FilterAppend(a: seq<ForeignKeys.Relationship>, b: seq<ForeignKeys.Relationship>,
                                        minConfidence: real)
    ensures FilterRelationships(a + b, minConfidence)
            == FilterRelationships(a, minConfidence) + FilterRelationships(b, minConfidence)
  {
    if a != [] {
      assert (a + b)[1..] == a[1..] + b;
      FilterAppend(a[1..], b, minConfidence);
    } else {
      assert a + b == b;
    }
  }

  /** Filtering leaves a table alone exactly when every row already passes. */
  lemma {:induction false} FilterKeepsAll(rels: seq<ForeignKeys.Relationship>, minConfidence: real)
    ensures FilterRelationships(rels, minConfidence) == rels
            <==> forall k :: 0 <= k < |rels| ==> rels[k].confidence >= minConfidence
  {
    if rels != [] {
      FilterKeepsAll(rels[1..], minConfidence);
      if rels[0].confidence < minConfidence {
        assert |FilterRelationships(rels, minConfidence)| < |rels|;
      } else {
        var rest := FilterRelationships(rels[1..], minConfidence);
        assert FilterRelationships(rels, minConfidence) == [rels[0]] + rest;
        assert ([rels[0]] + rest == rels) <==> rest == rels[1..];
        if forall k :: 0 <= k < |rels[1..]| ==> rels[1..][k].confidence >= minConfidence {
          assert forall k :: 0 <= k < |rels| ==> rels[k].confidence >= minConfidence by {
            forall k | 0 < k < |rels| ensures rels[k].confidence >= minConfidence {
              assert rels[k] == rels[1..][k - 1];
            }
          }
        }
      }
    }
  }

  /** Filtering twice is filtering once at the higher threshold; in particular
      filtering is idempotent. */
  lemma {:induction false} FilterTwice(rels: seq<ForeignKeys.Relationship>, low: real, high: real)
    requires low <= high
    ensures FilterRelationships(FilterRelationships(rels, low), high) == FilterRelationships(rels, high)
    ensures FilterRelationships(FilterRelationships(rels, high), low) == FilterRelationships(rels, high)
  {
    if rels != [] {
      FilterTwice(rels[1..], low, high);
      var head := if rels[0].confidence >= low then [rels[0]] else [];
      FilterAppend(head, FilterRelationships(rels[1..], low), high);
      var headHigh := if rels[0].confidence >= high then [rels[0]] else [];
      FilterAppend(headHigh, FilterRelationships(rels[1..], high), low);
    }
  }
}
