/**
 * The live database that the inference engine queries, as an immutable value.
 *
 * Every query the engine issues is a plain aggregate (COUNT(*), a count of NULLs,
 * COUNT(DISTINCT col), a distinct count over an inner equality join) or a read of
 * the first rows of a table, so each becomes an exact function of this value.
 * A query that the database would reject is an explicit part of the value, at
 * the grain of the query: a table whose queries fail (`queryable` false), a
 * column every query on which fails (its name is in `unreadable`), a column that
 * accepts `IS NULL` but rejects `COUNT(DISTINCT ...)` (in `distinctFails`, as
 * text, ntext or image columns do on SQL Server), and an equality join whose predicate
 * the server rejects (in the first table's `joinFails`, e.g. mismatched types).
 */
module Database {
  import opened Wrappers

  /** A catalog column: its name and its declared type, rendered as text. */
  datatype Column = Column(name: string, sqlType: string)

  /** A row holds the value of each non-NULL column, rendered as text; a column
      missing from the map is NULL in that row. */
  type Row = map<string, string>

  /** The join `t1.column1 = table2.column2`, recorded on `t1`. */
  datatype JoinKey = JoinKey(column1: string, table2: string, column2: string)

  datatype Table = Table(
    columns: seq<Column>,
    rows: seq<Row>,
    unreadable: set<string>,
    distinctFails: set<string>,
    joinFails: set<JoinKey>,
    queryable: bool)

  /** The catalog and the data, by table name. */
  type Db = map<string, Table>

  function Names(cs: seq<Column>): (ns: seq<string>)
    ensures |ns| == |cs|
    ensures forall k :: 0 <= k < |cs| ==> ns[k] == cs[k].name
  {
    if cs == [] then [] else [cs[0].name] + Names(cs[1..])
  }

  /** Position of `c` in `ns`: its first occurrence. */
  function IndexOf(ns: seq<string>, c: string): (k: nat)
    requires c in ns
    ensures k < |ns| && ns[k] == c
  {
    if ns[0] == c then 0 else 1 + IndexOf(ns[1..], c)
  }

  /** The first position of `c` is at most any position holding it. */
  lemma {:induction false} IndexOfAtMost(ns: seq<string>, c: string, k: nat)
    requires k < |ns| && ns[k] == c
    ensures IndexOf(ns, c) <= k
  {
    if ns[0] != c {
      IndexOfAtMost(ns[1..], c, k - 1);
    }
  }

  /** No earlier position holds `c`. */
  lemma {:induction false} IndexOfFirst(ns: seq<string>, c: string, i: nat)
    requires c in ns && i < IndexOf(ns, c)
    ensures ns[i] != c
  {
    if i > 0 {
      IndexOfFirst(ns[1..], c, i - 1);
    }
  }

  /** The catalog's columns of `table`; none when the catalog does not list it. */
  function CatalogColumns(db: Db, table: string): seq<Column> {
    if table in db then db[table].columns else []
  }

  // ---------------------------------------------------------------------------
  // Aggregates over rows

  /** `COUNT(*) ... WHERE c IS NULL` */
  function NullCount(rows: seq<Row>, c: string): (n: nat)
    ensures n <= |rows|
  {
    if rows == [] then 0
    else (if c in rows[0] then 0 else 1) + NullCount(rows[1..], c)
  }

  /** The non-NULL values of column `c`, in row order (pandas' `dropna()`). */
  function NonNullValues(rows: seq<Row>, c: string): (vs: seq<string>)
    ensures |vs| + NullCount(rows, c) == |rows|
  {
    if rows == [] then []
    else (if c in rows[0] then [rows[0][c]] else []) + NonNullValues(rows[1..], c)
  }

  /** The set of distinct non-NULL values of column `c`. */
  function Values(rows: seq<Row>, c: string): (vs: set<string>)
    ensures forall v :: v in vs <==> v in NonNullValues(rows, c)
  {
    if rows == [] then {}
    else (if c in rows[0] then {rows[0][c]} else {}) + Values(rows[1..], c)
  }

  /** `COUNT(DISTINCT c)`: SQL ignores NULL when counting distinct values. */
  function DistinctCount(rows: seq<Row>, c: string): nat {
    |Values(rows, c)|
  }

  lemma {:induction false} DistinctAtMostNonNull(rows: seq<Row>, c: string)
    ensures |Values(rows, c)| <= |NonNullValues(rows, c)|
  {
    if rows != [] {
      DistinctAtMostNonNull(rows[1..], c);
      var rest := Values(rows[1..], c);
      if c in rows[0] {
        assert Values(rows, c) == {rows[0][c]} + rest;
        assert |{rows[0][c]} + rest| <= 1 + |rest|;
      } else {
        assert Values(rows, c) == rest;
      }
    }
  }

  /** A column's distinct values and its NULLs together never outnumber its rows:
      every distinct value needs a non-NULL row of its own. */
  lemma DistinctPlusNullAtMostRows(rows: seq<Row>, c: string)
    ensures DistinctCount(rows, c) + NullCount(rows, c) <= |rows|
  {
    DistinctAtMostNonNull(rows, c);
  }

  // ---------------------------------------------------------------------------
  // Queries against the database; None is a query that raises.

  predicate TableQueryable(db: Db, table: string) {
    table in db && db[table].queryable
  }

  /** A query naming column `c` of `table` succeeds (`IS NULL` at least). */
  predicate ColumnReadable(db: Db, table: string, c: string) {
    TableQueryable(db, table) && c in Names(db[table].columns) && c !in db[table].unreadable
  }

  /** `COUNT(DISTINCT c)` on column `c` of `table` succeeds. */
  predicate DistinctReadable(db: Db, table: string, c: string) {
    ColumnReadable(db, table, c) && c !in db[table].distinctFails
  }

  /** The join query of `t1.c1 = t2.c2` succeeds: it counts distinct values of
      `c1`, reads `c2`, and the server accepts the equality between them. */
  predicate JoinReadable(db: Db, t1: string, c1: string, t2: string, c2: string) {
    DistinctReadable(db, t1, c1) && ColumnReadable(db, t2, c2) && JoinKey(c1, t2, c2) !in db[t1].joinFails
  }

  /** `SELECT COUNT(*) FROM table` */
  function RowCount(db: Db, table: string): (r: Option<nat>)
    ensures r.Some? <==> TableQueryable(db, table)
    ensures r.Some? ==> r.value == |db[table].rows|
  {
    if TableQueryable(db, table) then Some(|db[table].rows|) else None
  }

  /** `SELECT COUNT(*) FROM table WHERE c IS NULL` */
  function NullCountQuery(db: Db, table: string, c: string): (r: Option<nat>)
    ensures r.Some? <==> ColumnReadable(db, table, c)
    ensures r.Some? ==> r.value <= |db[table].rows|
  {
    if ColumnReadable(db, table, c) then Some(NullCount(db[table].rows, c)) else None
  }

  /** `SELECT COUNT(DISTINCT c) FROM table` */
  function DistinctCountQuery(db: Db, table: string, c: string): (r: Option<nat>)
    ensures r.Some? <==> DistinctReadable(db, table, c)
    ensures r.Some? ==> r.value <= |db[table].rows|
  {
    if DistinctReadable(db, table, c) then
      DistinctPlusNullAtMostRows(db[table].rows, c);
      Some(DistinctCount(db[table].rows, c))
    else None
  }

  /** `SELECT COUNT(DISTINCT t1.c1) FROM t1 INNER JOIN t2 ON t1.c1 = t2.c2`:
      NULL never satisfies `=`, so the matched values are the common non-NULL ones. */
  function JoinMatchedQuery(db: Db, t1: string, c1: string, t2: string, c2: string): (r: Option<nat>)
    ensures r.Some? <==> JoinReadable(db, t1, c1, t2, c2)
    ensures r.Some? ==> r.value <= DistinctCount(db[t1].rows, c1)
  {
    if JoinReadable(db, t1, c1, t2, c2) then
      var v1 := Values(db[t1].rows, c1);
      var v2 := Values(db[t2].rows, c2);
      assert v1 * v2 <= v1;
      SubsetCardinality(v1 * v2, v1);
      Some(|v1 * v2|)
    else None
  }

  /** The first `n` rows of `table` (`SELECT * FROM table LIMIT n`); None when the
      read raises. */
  function TopRows(db: Db, table: string, n: nat): (r: Option<seq<Row>>)
    ensures r.Some? <==> TableQueryable(db, table)
    ensures r.Some? ==> r.value <= db[table].rows && |r.value| == Min(n, |db[table].rows|)
  {
    if TableQueryable(db, table) then Some(db[table].rows[..Min(n, |db[table].rows|)]) else None
  }

  // ---------------------------------------------------------------------------
  // Small facts

  function Min(a: nat, b: nat): nat {
    if a <= b then a else b
  }

  lemma {:induction false} SubsetCardinality<T>(a: set<T>, b: set<T>)
    requires a <= b
    ensures |a| <= |b|
    ensures |a| == |b| ==> a == b
  {
    if a != {} {
      var x :| x in a;
      SubsetCardinality(a - {x}, b - {x});
    } else if |b| == 0 {
      assert b == {};
    }
  }

  /** A ratio of counts is 1 exactly when the counts are equal. */
  lemma RatioOne(a: nat, b: nat)
    requires b > 0
    ensures a as real / b as real == 1.0 <==> a == b
  {
    var r := a as real / b as real;
    assert r * (b as real) == a as real;
  }

  /** A ratio of counts is 0 exactly when the numerator is. */
  lemma RatioZero(a: nat, b: nat)
    requires b > 0
    ensures a as real / b as real == 0.0 <==> a == 0
  {
    var r := a as real / b as real;
    assert r * (b as real) == a as real;
  }

  /** A ratio of counts with the numerator at most the denominator is in [0,1]. */
  lemma RatioInUnit(a: nat, b: nat)
    requires b > 0 && a <= b
    ensures 0.0 <= a as real / b as real <= 1.0
  {
  }

  /** `count / total * 100`, the percentage the statistics report. */
  function Percent(count: nat, total: nat): (p: real)
    requires total > 0
    ensures 0.0 <= p
    ensures count <= total ==> p <= 100.0
  {
    var q := count as real / total as real;
    assert count <= total ==> q <= 1.0;
    q * 100.0
  }

  /** Percentages of the same total add up like their counts. */
  lemma PercentAdd(a: nat, b: nat, total: nat)
    requires total > 0
    ensures Percent(a, total) + Percent(b, total) == Percent(a + b, total)
  {
    var t := total as real;
    assert (a as real) / t + (b as real) / t == ((a + b) as real) / t;
  }

  /** NULL and distinct percentages of a column add up to at most 100. */
  lemma PercentNullPlusDistinctAtMost100(rows: seq<Row>, c: string)
    requires |rows| > 0
    ensures Percent(NullCount(rows, c), |rows|) + Percent(DistinctCount(rows, c), |rows|) <= 100.0
  {
    DistinctPlusNullAtMostRows(rows, c);
    PercentAdd(NullCount(rows, c), DistinctCount(rows, c), |rows|);
  }
}
