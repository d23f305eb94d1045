/**
 * Primary-key inference from the data rather than declared constraints: every
 * catalog column of a table is scored from its NULL and distinct percentages,
 * the scores are sorted highest first (stably), and the first column is flagged
 * as the primary key.
 */
module PrimaryKey {
  import opened Wrappers
  import opened Database
  import opened Sorting

  /** The statistics of one column that could be read. */
  datatype ColumnScore = ColumnScore(column: string, nullPct: real, uniqPct: real, confidence: real)

  /** A row of the report; `isPrimaryKey` marks the best candidate. */
  datatype PkRow = PkRow(column: string, nullPct: real, uniqPct: real, confidence: real, isPrimaryKey: bool)

  datatype PkError =
    | NoColumns(table: string)   // "No columns found for table ..."
    | NoData(table: string)      // "Table ... has no data"
    | NoCandidate                // "Could not infer primary key"
    | QueryFailed(table: string) // "Error inferring primary key: ..."

  /** A good primary key has no NULLs and only distinct values. */
  function Confidence(nullPct: real, uniqPct: real): (r: real)
    ensures nullPct == 0.0 && uniqPct == 100.0 ==> r == 100.0
    ensures nullPct == 100.0 || uniqPct == 0.0 ==> r == 0.0
  {
    (1.0 - nullPct / 100.0) * (uniqPct / 100.0) * 100.0
  }

  /** The confidence of percentages in [0,100] is in [0,100]; it is 100 exactly when
      the column has no NULLs and is fully distinct, and 0 exactly when the column
      is all NULL or has no distinct value. */
  lemma ConfidenceRange(nullPct: real, uniqPct: real)
    requires 0.0 <= nullPct <= 100.0 && 0.0 <= uniqPct <= 100.0
    ensures 0.0 <= Confidence(nullPct, uniqPct) <= 100.0
    ensures Confidence(nullPct, uniqPct) == 100.0 <==> nullPct == 0.0 && uniqPct == 100.0
    ensures Confidence(nullPct, uniqPct) == 0.0 <==> nullPct == 100.0 || uniqPct == 0.0
  {
    var a := 1.0 - nullPct / 100.0;
    var b := uniqPct / 100.0;
    assert 0.0 <= a * b <= a && a * b <= b;
    assert Confidence(nullPct, uniqPct) == a * b * 100.0;
    if a * b == 1.0 {
      assert a == 1.0 && b == 1.0;
    }
    if a * b == 0.0 {
      assert a == 0.0 || b == 0.0;
    }
  }

  function ScoreOf(s: ColumnScore): real {
    s.confidence
  }

  /** The statistics of column `c` of a table with `total` rows; None when one of
      its two queries fails. */
  function ScoreColumn(db: Db, table: string, c: string, total: nat): (r: Option<ColumnScore>)
    requires total > 0
    ensures r.Some? <==> DistinctReadable(db, table, c)
    ensures r.Some? ==> r.value.column == c
  {
    var nulls := NullCountQuery(db, table, c);
    var distinct := DistinctCountQuery(db, table, c);
    if nulls.Some? && distinct.Some? then
      var nullPct := Percent(nulls.value, total);
      var uniqPct := Percent(distinct.value, total);
      Some(ColumnScore(c, nullPct, uniqPct, Confidence(nullPct, uniqPct)))
    else None
  }

  /** The statistics of the readable columns among `names`, in their order. The
      report is keyed by column name, so a repeated name is scored once, at its
      first position. */
  function ScoredColumns(db: Db, table: string, names: seq<string>, total: nat): (r: seq<ColumnScore>)
    requires total > 0
    ensures forall s :: s in r ==> s.column in names && DistinctReadable(db, table, s.column)
  {
    if names == [] then []
    else
      var init := names[..|names| - 1];
      var last := names[|names| - 1];
      assert names == init + [last];
      var rest := ScoredColumns(db, table, init, total);
      var score := ScoreColumn(db, table, last, total);
      if score.Some? && last !in init then rest + [score.value] else rest
  }

  /** Each scored column carries the statistics of its own queries. */
  lemma {:induction false} ScoredColumnsValues(db: Db, table: string, names: seq<string>, total: nat, s: ColumnScore)
    requires total > 0
    requires s in ScoredColumns(db, table, names, total)
    ensures Some(s) == ScoreColumn(db, table, s.column, total)
  {
    var init := names[..|names| - 1];
    var last := names[|names| - 1];
    var rest := ScoredColumns(db, table, init, total);
    if s in rest {
      ScoredColumnsValues(db, table, init, total, s);
    }
  }

  /** Every readable column among `names` is scored. */
  lemma {:induction false} ScoredColumnsComplete(db: Db, table: string, names: seq<string>, total: nat, c: string)
    requires total > 0
    requires c in names && DistinctReadable(db, table, c)
    ensures exists s :: s in ScoredColumns(db, table, names, total) && s.column == c
  {
    var init := names[..|names| - 1];
    var last := names[|names| - 1];
    assert names == init + [last];
    var r := ScoredColumns(db, table, names, total);
    if c == last && c !in init {
      assert ScoreColumn(db, table, last, total).value in r;
    } else {
      ScoredColumnsComplete(db, table, init, total, c);
      var s :| s in ScoredColumns(db, table, init, total) && s.column == c;
      assert s in r;
    }
  }

  /** The scored columns follow the catalog order. */
  lemma {:induction false} ScoredColumnsInOrder(db: Db, table: string, names: seq<string>, total: nat)
    requires total > 0
    ensures InCatalogOrder(ScoredColumns(db, table, names, total), names)
  {
    if names != [] {
      var init := names[..|names| - 1];
      var last := names[|names| - 1];
      assert names == init + [last];
      ScoredColumnsInOrder(db, table, init, total);
      var rest := ScoredColumns(db, table, init, total);
      PrefixInOrder(names, init, rest);
      var r := ScoredColumns(db, table, names, total);
      if r != rest {
        var s := ScoreColumn(db, table, last, total).value;
        assert r == rest + [s];
        assert s.column == last && last !in init;
        AppendInOrder(names, init, rest, s);
      }
    }
  }

  /** Scores listed in the order of their columns' first positions in `names`. */
  ghost predicate InCatalogOrder(r: seq<ColumnScore>, names: seq<string>) {
    && (forall t :: t in r ==> t.column in names)
    && (forall i, j :: 0 <= i < j < |r| ==> IndexOf(names, r[i].column) < IndexOf(names, r[j].column))
  }

  lemma PrefixInOrder(names: seq<string>, init: seq<string>, rest: seq<ColumnScore>)
    requires init <= names
    requires InCatalogOrder(rest, init)
    ensures InCatalogOrder(rest, names)
    ensures forall t :: t in rest ==> IndexOf(names, t.column) < |init|
  {
    forall t | t in rest ensures IndexOf(names, t.column) == IndexOf(init, t.column) < |init| {
      IndexOfPrefix(names, init, t.column);
    }
    forall i, j | 0 <= i < j < |rest| ensures IndexOf(names, rest[i].column) < IndexOf(names, rest[j].column) {
      assert rest[i] in rest && rest[j] in rest;
    }
  }

  /** Appending the column behind all others keeps the scores in catalog order. */
  lemma AppendInOrder(names: seq<string>, init: seq<string>, rest: seq<ColumnScore>, s: ColumnScore)
    requires names == init + [s.column] && s.column !in init
    requires InCatalogOrder(rest, names)
    requires forall t :: t in rest ==> IndexOf(names, t.column) < |init|
    ensures InCatalogOrder(rest + [s], names)
  {
    var r := rest + [s];
    assert forall k :: 0 <= k < |init| ==> names[k] == init[k];
    IndexOfAtMost(names, s.column, |init|);
    forall i, j | 0 <= i < j < |r| ensures IndexOf(names, r[i].column) < IndexOf(names, r[j].column) {
      assert r[i] == rest[i] && r[i] in rest;
      if j < |rest| {
        assert r[j] == rest[j];
      }
    }
  }

  lemma IndexOfPrefix(names: seq<string>, init: seq<string>, c: string)
    requires init <= names && c in init
    ensures c in names && IndexOf(names, c) == IndexOf(init, c)
  {
    var k := IndexOf(init, c);
    assert names[k] == c;
    forall i | 0 <= i < k ensures names[i] != c {
      IndexOfFirst(init, c, i);
    }
    IndexOfAtMost(names, c, k);
  }

  /** The report rows of the sorted scores: the first column is the best one. */
  function MarkBest(sorted: seq<ColumnScore>): (rows: seq<PkRow>)
    requires sorted != []
    ensures |rows| == |sorted|
  {
    seq(|sorted|, k requires 0 <= k < |sorted| =>
      PkRow(sorted[k].column, sorted[k].nullPct, sorted[k].uniqPct, sorted[k].confidence,
            sorted[k].column == sorted[0].column))
  }

  /** What infer_primary_key returns for `table`. */
  function PrimaryKeyReport(db: Db, table: string): (r: Result<seq<PkRow>, PkError>)
    ensures CatalogColumns(db, table) == [] ==> r == Failure(NoColumns(table))
    ensures r.Success? ==> TableQueryable(db, table) && |db[table].rows| > 0
    ensures r.Success? ==> r.value != [] && r.value[0].isPrimaryKey
  {
    var names := Names(CatalogColumns(db, table));
    if names == [] then Failure(NoColumns(table))
    else match RowCount(db, table)
      case None => Failure(QueryFailed(table))
      case Some(total) =>
        if total == 0 then Failure(NoData(table))
        else
          var scored := ScoredColumns(db, table, names, total);
          if scored == [] then Failure(NoCandidate)
          else Success(MarkBest(SortDesc(scored, ScoreOf)))
  }

  /** Infers the primary key of `table`: scores each catalog column in turn,
      skipping those whose queries fail, then ranks them. */
  method InferPrimaryKey(db: Db, table: string) returns (r: Result<seq<PkRow>, PkError>)
    ensures r == PrimaryKeyReport(db, table)
  {
    var names := Names(CatalogColumns(db, table));
    if names == [] {
      return Failure(NoColumns(table));
    }
    var count := RowCount(db, table);
    if count.None? {
      return Failure(QueryFailed(table));
    }
    var total := count.value;
    if total == 0 {
      return Failure(NoData(table));
    }
    var results: seq<ColumnScore> := [];
    for i := 0 to |names|
      invariant results == ScoredColumns(db, table, names[..i], total)
    {
      assert names[..i + 1][..i] == names[..i];
      var score := ScoreColumn(db, table, names[i], total);
      // a repeated column name is the same key of the result dictionary
      if score.Some? && names[i] !in names[..i] {
        results := results + [score.value];
      }
    }
    assert names[..|names|] == names;
    assert results == ScoredColumns(db, table, names, total);
    if results == [] {
      return Failure(NoCandidate);
    }
    var sorted := SortDesc(results, ScoreOf);
    var rows := ReportRows(sorted);
    return Success(rows);
  }

  /** The report rows, built one by one; the first column is the best candidate. */
  method ReportRows(sorted: seq<ColumnScore>) returns (rows: seq<PkRow>)
    requires sorted != []
    ensures rows == MarkBest(sorted)
  {
    var best := sorted[0].column;
    rows := [];
    for k := 0 to |sorted|
      invariant rows == MarkBest(sorted)[..k]
    {
      var s := sorted[k];
      rows := rows + [PkRow(s.column, s.nullPct, s.uniqPct, s.confidence, s.column == best)];
    }
  }

  /** The error results: no catalog columns, an unreadable or empty table, or no
      column that could be scored. */
  lemma PrimaryKeyErrors(db: Db, table: string)
    ensures CatalogColumns(db, table) == [] ==> PrimaryKeyReport(db, table) == Failure(NoColumns(table))
    ensures CatalogColumns(db, table) != [] && !TableQueryable(db, table) ==>
              PrimaryKeyReport(db, table) == Failure(QueryFailed(table))
    ensures CatalogColumns(db, table) != [] && TableQueryable(db, table) && db[table].rows == [] ==>
              PrimaryKeyReport(db, table) == Failure(NoData(table))
    ensures CatalogColumns(db, table) != [] && TableQueryable(db, table) && db[table].rows != [] ==>
              (PrimaryKeyReport(db, table) == Failure(NoCandidate) <==>
               forall c :: c in Names(db[table].columns) ==> !DistinctReadable(db, table, c))
  {
    if CatalogColumns(db, table) != [] && TableQueryable(db, table) && db[table].rows != [] {
      var names := Names(CatalogColumns(db, table));
      var total := |db[table].rows|;
      var scored := ScoredColumns(db, table, names, total);
      if scored != [] {
        assert scored[0] in scored;
      } else {
        forall c | c in names ensures !DistinctReadable(db, table, c) {
          if DistinctReadable(db, table, c) {
            ScoredColumnsComplete(db, table, names, total, c);
          }
        }
      }
    }
  }

  /** A successful report is the marked, sorted list of the scored columns. */
  lemma ReportIs(db: Db, table: string)
    requires PrimaryKeyReport(db, table).Success?
    ensures TableQueryable(db, table) && |db[table].rows| > 0
    ensures var scored := ScoredColumns(db, table, Names(db[table].columns), |db[table].rows|);
      scored != [] && PrimaryKeyReport(db, table).value == MarkBest(SortDesc(scored, ScoreOf))
  {
  }

  /** The rows of a successful report are sorted by confidence, highest first. */
  lemma PrimaryKeyRowsSorted(db: Db, table: string)
    requires PrimaryKeyReport(db, table).Success?
    ensures var rows := PrimaryKeyReport(db, table).value;
      rows != [] && forall i, j :: 0 <= i < j < |rows| ==> rows[i].confidence >= rows[j].confidence
  {
    ReportIs(db, table);
    var scored := ScoredColumns(db, table, Names(db[table].columns), |db[table].rows|);
    var sorted := SortDesc(scored, ScoreOf);
    assert SortedDesc(sorted, ScoreOf);
    var rows := MarkBest(sorted);
    forall i, j | 0 <= i < j < |rows| ensures rows[i].confidence >= rows[j].confidence {
      assert ScoreOf(sorted[i]) >= ScoreOf(sorted[j]);
    }
  }

  /** Exactly one row of a successful report, the first, is flagged as the primary key. */
  lemma PrimaryKeyExactlyOneBest(db: Db, table: string)
    requires PrimaryKeyReport(db, table).Success?
    ensures var rows := PrimaryKeyReport(db, table).value;
      rows != [] && forall k :: 0 <= k < |rows| ==> (rows[k].isPrimaryKey <==> k == 0)
  {
    ReportIs(db, table);
    var names := Names(db[table].columns);
    var scored := ScoredColumns(db, table, names, |db[table].rows|);
    ScoredColumnsInOrder(db, table, names, |db[table].rows|);
    assert DistinctBy(scored, ColumnOf) by {
      forall i, j | 0 <= i < j < |scored| ensures scored[i].column != scored[j].column {
        assert IndexOf(names, scored[i].column) < IndexOf(names, scored[j].column);
      }
    }
    SortDescDistinctBy(scored, ScoreOf, ColumnOf);
    var sorted := SortDesc(scored, ScoreOf);
    forall k | 0 < k < |sorted| ensures sorted[k].column != sorted[0].column {
      assert ColumnOf(sorted[0]) != ColumnOf(sorted[k]);
    }
  }

  function ColumnOf(s: ColumnScore): string {
    s.column
  }

  /** Every row of a successful report carries its column's NULL and distinct
      percentages (within [0,100], adding up to at most 100) and their Confidence,
      which is within [0,100]. */
  lemma PrimaryKeyRowScores(db: Db, table: string)
    requires PrimaryKeyReport(db, table).Success?
    ensures var rows := PrimaryKeyReport(db, table).value;
      forall k :: 0 <= k < |rows| ==>
        && rows[k].confidence == Confidence(rows[k].nullPct, rows[k].uniqPct)
        && 0.0 <= rows[k].nullPct <= 100.0 && 0.0 <= rows[k].uniqPct <= 100.0
        && rows[k].nullPct + rows[k].uniqPct <= 100.0
        && 0.0 <= rows[k].confidence <= 100.0
  {
    ReportIs(db, table);
    var names := Names(db[table].columns);
    var total := |db[table].rows|;
    var scored := ScoredColumns(db, table, names, total);
    var sorted := SortDesc(scored, ScoreOf);
    var rows := MarkBest(sorted);
    forall k | 0 <= k < |rows| ensures
      && rows[k].confidence == Confidence(rows[k].nullPct, rows[k].uniqPct)
      && 0.0 <= rows[k].nullPct <= 100.0 && 0.0 <= rows[k].uniqPct <= 100.0
      && rows[k].nullPct + rows[k].uniqPct <= 100.0
      && 0.0 <= rows[k].confidence <= 100.0
    {
      var s := sorted[k];
      SortDescElement(scored, ScoreOf, s);
      ScoredColumnsValues(db, table, names, total, s);
      ScoreBounds(db, table, s.column, total);
    }
  }

  /** A readable column's score: percentages in [0,100] adding up to at most 100,
      and a confidence in [0,100]. */
  lemma ScoreBounds(db: Db, table: string, c: string, total: nat)
    requires TableQueryable(db, table) && total == |db[table].rows| > 0
    requires DistinctReadable(db, table, c)
    ensures var s := ScoreColumn(db, table, c, total).value;
      && s.confidence == Confidence(s.nullPct, s.uniqPct)
      && 0.0 <= s.nullPct <= 100.0 && 0.0 <= s.uniqPct <= 100.0
      && s.nullPct + s.uniqPct <= 100.0
      && 0.0 <= s.confidence <= 100.0
  {
    var s := ScoreColumn(db, table, c, total).value;
    PercentNullPlusDistinctAtMost100(db[table].rows, c);
    ConfidenceRange(s.nullPct, s.uniqPct);
  }

  /** A successful report has a row for exactly the readable catalog columns. */
  lemma PrimaryKeyRowsCoverReadableColumns(db: Db, table: string, c: string)
    requires PrimaryKeyReport(db, table).Success?
    ensures var rows := PrimaryKeyReport(db, table).value;
      (exists k :: 0 <= k < |rows| && rows[k].column == c) <==>
      c in Names(db[table].columns) && DistinctReadable(db, table, c)
  {
    ReportIs(db, table);
    var names := Names(db[table].columns);
    var total := |db[table].rows|;
    var scored := ScoredColumns(db, table, names, total);
    var sorted := SortDesc(scored, ScoreOf);
    var rows := MarkBest(sorted);
    SortedColumns(scored, c);
    assert forall k :: 0 <= k < |rows| ==> rows[k].column == sorted[k].column;
    if c in names && DistinctReadable(db, table, c) {
      ScoredColumnsComplete(db, table, names, total, c);
    }
  }

  /** Sorting neither adds nor drops a column. */
  lemma SortedColumns(scored: seq<ColumnScore>, c: string)
    ensures var sorted := SortDesc(scored, ScoreOf);
      (exists k :: 0 <= k < |sorted| && sorted[k].column == c) <==> (exists s :: s in scored && s.column == c)
  {
    var sorted := SortDesc(scored, ScoreOf);
    if exists k :: 0 <= k < |sorted| && sorted[k].column == c {
      var k :| 0 <= k < |sorted| && sorted[k].column == c;
      SortDescElement(scored, ScoreOf, sorted[k]);
    }
    if exists s :: s in scored && s.column == c {
      var s :| s in scored && s.column == c;
      SortDescElement(scored, ScoreOf, s);
    }
  }

  /** Ties in confidence keep the catalog order of their columns. */
  lemma PrimaryKeyTiesKeepCatalogOrder(db: Db, table: string)
    requires PrimaryKeyReport(db, table).Success?
    ensures var rows := PrimaryKeyReport(db, table).value;
      var names := Names(db[table].columns);
      forall i, j :: 0 <= i < j < |rows| && rows[i].confidence == rows[j].confidence ==>
        rows[i].column in names && rows[j].column in names &&
        IndexOf(names, rows[i].column) < IndexOf(names, rows[j].column)
  {
    ReportIs(db, table);
    var names := Names(db[table].columns);
    var total := |db[table].rows|;
    var scored := ScoredColumns(db, table, names, total);
    ScoredColumnsInOrder(db, table, names, total);
    SortedTiesInCatalogOrder(scored, names);
  }

  /** Sorting scores that are in catalog order keeps equal confidences in catalog order. */
  lemma SortedTiesInCatalogOrder(scored: seq<ColumnScore>, names: seq<string>)
    requires InCatalogOrder(scored, names)
    ensures var sorted := SortDesc(scored, ScoreOf);
      forall i, j :: 0 <= i < j < |sorted| && sorted[i].confidence == sorted[j].confidence ==>
        sorted[i].column in names && sorted[j].column in names &&
        IndexOf(names, sorted[i].column) < IndexOf(names, sorted[j].column)
  {
    var rank := (s: ColumnScore) => if s.column in names then IndexOf(names, s.column) else -1;
    assert forall i, j :: 0 <= i < j < |scored| ==> rank(scored[i]) < rank(scored[j]) by {
      forall i, j | 0 <= i < j < |scored| ensures rank(scored[i]) < rank(scored[j]) {
        assert scored[i] in scored && scored[j] in scored;
      }
    }
    SortDescTiesRanked(scored, ScoreOf, rank);
    var sorted := SortDesc(scored, ScoreOf);
    forall i, j | 0 <= i < j < |sorted| && sorted[i].confidence == sorted[j].confidence
      ensures sorted[i].column in names && sorted[j].column in names
      ensures IndexOf(names, sorted[i].column) < IndexOf(names, sorted[j].column)
    {
      SortDescElement(scored, ScoreOf, sorted[i]);
      SortDescElement(scored, ScoreOf, sorted[j]);
      assert ScoreOf(sorted[i]) == ScoreOf(sorted[j]);
      assert rank(sorted[i]) < rank(sorted[j]);
    }
  }
}
