/**
 * Per-column statistics of one table: the percentage of NULLs and the percentage
 * of distinct values in each catalog column, each `count / total_rows * 100`.
 * An empty table, or one whose row count cannot be read, yields no statistics
 * at all; a column whose own query fails is reported as None.
 */
module ColumnStats {
  import opened Wrappers
  import opened Database

  /** The NULL percentage reported for column `c`; None when its query fails. */
  function NullEntry(db: Db, table: string, c: string): (r: Option<real>)
    requires table in db && |db[table].rows| > 0
    ensures r.Some? <==> ColumnReadable(db, table, c)
    ensures r.Some? ==> 0.0 <= r.value <= 100.0
  {
    match NullCountQuery(db, table, c)
    case Some(nulls) => Some(Percent(nulls, |db[table].rows|))
    case None => None
  }

  /** The distinct-value percentage reported for column `c`; None when its query fails. */
  function UniquenessEntry(db: Db, table: string, c: string): (r: Option<real>)
    requires table in db && |db[table].rows| > 0
    ensures r.Some? <==> DistinctReadable(db, table, c)
    ensures r.Some? ==> 0.0 <= r.value <= 100.0
  {
    match DistinctCountQuery(db, table, c)
    case Some(distinct) => Some(Percent(distinct, |db[table].rows|))
    case None => None
  }

  /** The NULL percentage of each column of `table`. */
  method NullPercentage(db: Db, table: string) returns (stats: map<string, Option<real>>)
    ensures !TableQueryable(db, table) || |db[table].rows| == 0 ==> stats == map[]
    ensures TableQueryable(db, table) && |db[table].rows| > 0 ==>
              && (forall c :: c in stats <==> c in Names(db[table].columns))
              && (forall c :: c in stats ==> stats[c] == NullEntry(db, table, c))
    ensures forall c :: c in stats && stats[c].Some? ==> 0.0 <= stats[c].value <= 100.0
  {
    stats := map[];
    var total := RowCount(db, table);
    if total.None? || total.value == 0 {
      return;
    }
    var names := Names(CatalogColumns(db, table));
    for i := 0 to |names|
      invariant forall c :: c in stats <==> c in names[..i]
      invariant forall c :: c in stats ==> stats[c] == NullEntry(db, table, c)
    {
      var count := NullCountQuery(db, table, names[i]);
      var entry: Option<real> := None;
      if count.Some? {
        entry := Some(Percent(count.value, total.value));
      }
      assert entry == NullEntry(db, table, names[i]);
      stats := stats[names[i] := entry];
      assert names[..i + 1] == names[..i] + [names[i]];
    }
    assert names[..|names|] == names;
  }

  /** The percentage of distinct values of each column of `table`. */
  method UniquenessPercentage(db: Db, table: string) returns (stats: map<string, Option<real>>)
    ensures !TableQueryable(db, table) || |db[table].rows| == 0 ==> stats == map[]
    ensures TableQueryable(db, table) && |db[table].rows| > 0 ==>
              && (forall c :: c in stats <==> c in Names(db[table].columns))
              && (forall c :: c in stats ==> stats[c] == UniquenessEntry(db, table, c))
    ensures forall c :: c in stats && stats[c].Some? ==> 0.0 <= stats[c].value <= 100.0
  {
    stats := map[];
    var total := RowCount(db, table);
    if total.None? || total.value == 0 {
      return;
    }
    var names := Names(CatalogColumns(db, table));
    for i := 0 to |names|
      invariant forall c :: c in stats <==> c in names[..i]
      invariant forall c :: c in stats ==> stats[c] == UniquenessEntry(db, table, c)
    {
      var count := DistinctCountQuery(db, table, names[i]);
      var entry: Option<real> := None;
      if count.Some? {
        entry := Some(Percent(count.value, total.value));
      }
      assert entry == UniquenessEntry(db, table, names[i]);
      stats := stats[names[i] := entry];
      assert names[..i + 1] == names[..i] + [names[i]];
    }
    assert names[..|names|] == names;
  }

  /** A column's NULL and distinct percentages never add up to more than 100. */
  lemma NullPlusUniquenessAtMost100(db: Db, table: string, c: string)
    requires table in db && |db[table].rows| > 0
    requires DistinctReadable(db, table, c)
    ensures NullEntry(db, table, c).value + UniquenessEntry(db, table, c).value <= 100.0
  {
    PercentNullPlusDistinctAtMost100(db[table].rows, c);
  }
}
