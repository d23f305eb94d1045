/**
 * Validating foreign-key candidates against the data and assembling the
 * relationship matrix (`assert_relationship`,
 * `get_relationship_matrix_for_two_tables`, `get_relationship_matrix`).
 *
 * A candidate column1 -> column2 is validated by two queries: the NULL rates of
 * both columns, and how many distinct values of column1 find a partner in
 * column2 through an inner equality join. The matrix visits every unordered pair
 * of the given tables once, in index order, and concatenates the validated
 * relationships of each pair.
 */
module Relationships {
  import opened Wrappers
  import opened Database
  import opened ForeignKeys

  /** The validated confidence a relationship must exceed to be kept. */
  const EdgeMinConfidence: real := 0.1

  datatype ValidationError =
    | QueryFailed      // a query raised
    | DivisionByZero   // both tables are empty

  // ---------------------------------------------------------------------------
  // assert_relationship

  /** 1 - (nulls1 + nulls2) / (total1 + total2); the division raises when both
      tables are empty. */
  function NullScore(nulls1: nat, nulls2: nat, total1: nat, total2: nat): (r: Result<real, ValidationError>)
    ensures r.Failure? <==> total1 + total2 == 0
    ensures r.Failure? ==> r.error == DivisionByZero
    ensures r.Success? && nulls1 <= total1 && nulls2 <= total2 ==> 0.0 <= r.value <= 1.0
  {
    if total1 + total2 == 0 then Failure(DivisionByZero)
    else
      var q := (nulls1 + nulls2) as real / (total1 + total2) as real;
      assert nulls1 <= total1 && nulls2 <= total2 ==> q <= 1.0;
      Success(1.0 - q)
  }

  /** matched / total, or 0 when there is nothing to cover. */
  function Coverage(matched: nat, total: nat): (r: real)
    ensures matched <= total ==> 0.0 <= r <= 1.0
  {
    if total > 0 then matched as real / total as real else 0.0
  }

  /** The score from the counts the two queries return: 0.3 * null score +
      0.7 * coverage, as a percentage; fails when both tables are empty. */
  function CountsScore(nulls1: nat, nulls2: nat, total1: nat, total2: nat, matched: nat, distinct: nat)
    : (r: Result<real, ValidationError>)
    ensures r.Failure? <==> total1 + total2 == 0
    ensures r.Failure? ==> r.error == DivisionByZero
    ensures r.Success? && nulls1 <= total1 && nulls2 <= total2 && matched <= distinct ==> 0.0 <= r.value <= 100.0
  {
    match NullScore(nulls1, nulls2, total1, total2)
    case Failure(e) => Failure(e)
    case Success(nullScore) => Success((nullScore * 0.3 + Coverage(matched, distinct) * 0.7) * 100.0)
  }

  /** The score is 100 exactly when there are no NULLs and every distinct value
      (at least one) is matched. */
  lemma CountsScorePerfect(nulls1: nat, nulls2: nat, total1: nat, total2: nat, matched: nat, distinct: nat)
    requires total1 + total2 > 0 && nulls1 <= total1 && nulls2 <= total2 && matched <= distinct
    ensures CountsScore(nulls1, nulls2, total1, total2, matched, distinct) == Success(100.0) <==>
      nulls1 + nulls2 == 0 && distinct > 0 && matched == distinct
  {
    var q := (nulls1 + nulls2) as real / (total1 + total2) as real;
    RatioZero(nulls1 + nulls2, total1 + total2);
    RatioInUnit(nulls1 + nulls2, total1 + total2);
    var c := Coverage(matched, distinct);
    if distinct > 0 {
      RatioOne(matched, distinct);
    }
    assert CountsScore(nulls1, nulls2, total1, total2, matched, distinct) == Success(((1.0 - q) * 0.3 + c * 0.7) * 100.0);
  }

  /** With nothing matched only the NULL score counts: at most 30. */
  lemma CountsScoreUnmatched(nulls1: nat, nulls2: nat, total1: nat, total2: nat, distinct: nat)
    requires total1 + total2 > 0
    ensures CountsScore(nulls1, nulls2, total1, total2, 0, distinct).value <= 30.0
  {
    var q := (nulls1 + nulls2) as real / (total1 + total2) as real;
    assert 0.0 <= q;
  }

  /** The two validation queries and the score of their counts; a query that
      raises fails the validation. */
  function Validate(db: Db, table1: string, table2: string, column1: string, column2: string): (r: Result<real, ValidationError>)
    ensures r.Success? ==> 0.0 <= r.value <= 100.0
  {
    var nulls1 := NullCountQuery(db, table1, column1);
    var nulls2 := NullCountQuery(db, table2, column2);
    var total1 := RowCount(db, table1);
    var total2 := RowCount(db, table2);
    var matched := JoinMatchedQuery(db, table1, column1, table2, column2);
    var distinct := DistinctCountQuery(db, table1, column1);
    if nulls1.None? || nulls2.None? || total1.None? || total2.None? then Failure(QueryFailed)
    else if total1.value + total2.value == 0 then Failure(DivisionByZero)
    else if matched.None? || distinct.None? then Failure(QueryFailed)
    else CountsScore(nulls1.value, nulls2.value, total1.value, total2.value, matched.value, distinct.value)
  }

  /** `assert_relationship`: the validated score, or 0 when any step raises. */
  function AssertRelationship(db: Db, table1: string, table2: string, column1: string, column2: string): (r: real)
    ensures 0.0 <= r <= 100.0
    ensures Validate(db, table1, table2, column1, column2).Failure? ==> r == 0.0
  {
    match Validate(db, table1, table2, column1, column2)
    case Success(v) => v
    case Failure(_) => 0.0
  }

  /** Validation fails with a query error exactly when the NULL-count query fails
      (one of the columns cannot be read), or when it succeeds on some rows and the
      join query fails (a column without DISTINCT, or a join predicate the server
      rejects); it fails with a division by zero exactly when both tables are empty. */
  lemma ValidateFails(db: Db, table1: string, table2: string, column1: string, column2: string)
    ensures var r := Validate(db, table1, table2, column1, column2);
      && (r == Failure(QueryFailed) <==>
            || !(ColumnReadable(db, table1, column1) && ColumnReadable(db, table2, column2))
            || (|db[table1].rows| + |db[table2].rows| > 0 && !JoinReadable(db, table1, column1, table2, column2)))
      && (r == Failure(DivisionByZero) <==>
            ColumnReadable(db, table1, column1) && ColumnReadable(db, table2, column2) &&
            |db[table1].rows| + |db[table2].rows| == 0)
  {
  }

  /** When the join query succeeds and some row exists, validation scores the exact counts. */
  lemma ValidateCounts(db: Db, table1: string, table2: string, column1: string, column2: string)
    requires JoinReadable(db, table1, column1, table2, column2)
    requires |db[table1].rows| + |db[table2].rows| > 0
    ensures var rows1 := db[table1].rows;
      var rows2 := db[table2].rows;
      var v1 := Values(rows1, column1);
      Validate(db, table1, table2, column1, column2) ==
        CountsScore(NullCount(rows1, column1), NullCount(rows2, column2), |rows1|, |rows2|,
                    |v1 * Values(rows2, column2)|, |v1|)
  {
  }

  /** A relationship scores 100 exactly when neither column holds NULL and every
      (and at least one) distinct value of column1 also occurs in column2. */
  lemma ValidatePerfect(db: Db, table1: string, table2: string, column1: string, column2: string)
    ensures Validate(db, table1, table2, column1, column2) == Success(100.0) <==>
      && JoinReadable(db, table1, column1, table2, column2)
      && NullCount(db[table1].rows, column1) == 0 && NullCount(db[table2].rows, column2) == 0
      && Values(db[table1].rows, column1) != {}
      && Values(db[table1].rows, column1) <= Values(db[table2].rows, column2)
  {
    if JoinReadable(db, table1, column1, table2, column2) {
      var rows1 := db[table1].rows;
      var rows2 := db[table2].rows;
      var v1 := Values(rows1, column1);
      var v2 := Values(rows2, column2);
      DistinctPlusNullAtMostRows(rows1, column1);
      if |rows1| + |rows2| > 0 {
        ValidateCounts(db, table1, table2, column1, column2);
        assert v1 * v2 <= v1;
        SubsetCardinality(v1 * v2, v1);
        CountsScorePerfect(NullCount(rows1, column1), NullCount(rows2, column2), |rows1|, |rows2|, |v1 * v2|, |v1|);
        if v1 <= v2 {
          assert v1 * v2 == v1;
        }
      }
    }
  }

  /** Without a single shared value, only the NULL score counts: at most 30. */
  lemma NoSharedValueAtMost30(db: Db, table1: string, table2: string, column1: string, column2: string)
    requires table1 in db && table2 in db
    requires Values(db[table1].rows, column1) * Values(db[table2].rows, column2) == {}
    ensures AssertRelationship(db, table1, table2, column1, column2) <= 30.0
  {
    if JoinReadable(db, table1, column1, table2, column2) &&
       |db[table1].rows| + |db[table2].rows| > 0 {
      var rows1 := db[table1].rows;
      var rows2 := db[table2].rows;
      ValidateCounts(db, table1, table2, column1, column2);
      CountsScoreUnmatched(NullCount(rows1, column1), NullCount(rows2, column2), |rows1|, |rows2|, |Values(rows1, column1)|);
    }
  }

  // ---------------------------------------------------------------------------
  // get_relationship_matrix_for_two_tables

  /** A candidate with its confidence replaced by its validated score. */
  function Revalidate(db: Db, fk: Relationship): (r: Relationship)
    ensures r.table1 == fk.table1 && r.column1 == fk.column1
    ensures r.table2 == fk.table2 && r.column2 == fk.column2
    ensures r.confidence == AssertRelationship(db, fk.table1, fk.table2, fk.column1, fk.column2)
  {
    fk.(confidence := AssertRelationship(db, fk.table1, fk.table2, fk.column1, fk.column2))
  }

  /** The validated candidates whose score exceeds `minConfidence`, in candidate order. */
  function Validated(db: Db, fks: seq<Relationship>, minConfidence: real): (r: seq<Relationship>)
    ensures |r| <= |fks|
    ensures forall x :: x in r ==> minConfidence < x.confidence <= 100.0
  {
    if fks == [] then []
    else
      var r := Revalidate(db, fks[|fks| - 1]);
      Validated(db, fks[..|fks| - 1], minConfidence) + (if r.confidence > minConfidence then [r] else [])
  }

  /** The candidates a pair of tables is validated on: the given ones, or when none
      are given, the scored candidates of the two tables. */
  function CandidatesFor(db: Db, table1: string, table2: string, potentialFks: Option<seq<Relationship>>, minScore: real): seq<Relationship>
    requires potentialFks.None? ==> table1 in db && table2 in db
  {
    if potentialFks.Some? then potentialFks.value else ForeignKeyCandidates(db, table1, table2, minScore)
  }

  /** Validates each candidate in order and keeps those scoring above `minConfidence`. */
  method ValidateAll(db: Db, fks: seq<Relationship>, minConfidence: real) returns (relationships: seq<Relationship>)
    ensures relationships == Validated(db, fks, minConfidence)
  {
    relationships := [];
    for k := 0 to |fks|
      invariant relationships == Validated(db, fks[..k], minConfidence)
    {
      var fk := fks[k];
      var confidence := AssertRelationship(db, fk.table1, fk.table2, fk.column1, fk.column2);
      assert fks[..k + 1][..k] == fks[..k];
      assert Revalidate(db, fks[..k + 1][k]) == Relationship(fk.table1, fk.column1, fk.table2, fk.column2, confidence);
      if confidence > minConfidence {
        relationships := relationships + [Relationship(fk.table1, fk.column1, fk.table2, fk.column2, confidence)];
      }
    }
    assert fks[..|fks|] == fks;
  }

  /** Takes the given candidates, or scores the two tables when none are given,
      and validates them. */
  method RelationshipMatrixForTwoTables(db: Db, table1: string, table2: string, potentialFks: Option<seq<Relationship>>,
                                        minScore: real, minConfidence: real)
    returns (relationships: seq<Relationship>)
    requires potentialFks.None? ==> table1 in db && table2 in db
    ensures relationships == Validated(db, CandidatesFor(db, table1, table2, potentialFks, minScore), minConfidence)
  {
    var fks: seq<Relationship>;
    if potentialFks.None? {
      fks := PotentialForeignKeys(db, table1, table2, minScore);
    } else {
      fks := potentialFks.value;
    }
    relationships := ValidateAll(db, fks, minConfidence);
  }

  /** A relationship survives validation exactly when it is a candidate, revalidated,
      scoring above `minConfidence`. */
  lemma {:induction false} ValidatedElement(db: Db, fks: seq<Relationship>, minConfidence: real, r: Relationship)
    ensures r in Validated(db, fks, minConfidence) <==>
      exists k :: 0 <= k < |fks| && r == Revalidate(db, fks[k]) && r.confidence > minConfidence
  {
    if fks != [] {
      var init := fks[..|fks| - 1];
      ValidatedElement(db, init, minConfidence, r);
      if r in Validated(db, init, minConfidence) {
        var k :| 0 <= k < |init| && r == Revalidate(db, init[k]) && r.confidence > minConfidence;
        assert fks[k] == init[k];
      }
      if exists k :: 0 <= k < |fks| && r == Revalidate(db, fks[k]) && r.confidence > minConfidence {
        var k :| 0 <= k < |fks| && r == Revalidate(db, fks[k]) && r.confidence > minConfidence;
        if k < |init| {
          assert init[k] == fks[k];
        }
      }
    }
  }

  /** Validation works candidate by candidate: it keeps the candidates' order and
      never re-sorts. */
  lemma {:induction false} ValidatedAppend(db: Db, a: seq<Relationship>, b: seq<Relationship>, minConfidence: real)
    ensures Validated(db, a + b, minConfidence) == Validated(db, a, minConfidence) + Validated(db, b, minConfidence)
  {
    if b == [] {
      assert a + b == a;
    } else {
      var init := b[..|b| - 1];
      assert (a + b)[..|a + b| - 1] == a + init;
      assert (a + b)[|a + b| - 1] == b[|b| - 1];
      ValidatedAppend(db, a, init, minConfidence);
    }
  }

  /** Validating the survivors again keeps all of them, unchanged. */
  lemma {:induction false} ValidatedIdempotent(db: Db, fks: seq<Relationship>, minConfidence: real)
    ensures Validated(db, Validated(db, fks, minConfidence), minConfidence) == Validated(db, fks, minConfidence)
  {
    if fks != [] {
      var init := fks[..|fks| - 1];
      var r := Revalidate(db, fks[|fks| - 1]);
      var tail := if r.confidence > minConfidence then [r] else [];
      ValidatedIdempotent(db, init, minConfidence);
      ValidatedAppend(db, Validated(db, init, minConfidence), tail, minConfidence);
      if tail != [] {
        assert Revalidate(db, r) == r;
        assert Validated(db, tail, minConfidence) == Validated(db, [], minConfidence) + [r];
      }
    }
  }

  /** A relationship table as a data frame: `pd.DataFrame([])`, and the empty
      `pd.DataFrame()` the matrix returns when no pair has a relationship, have no
      columns at all; any other frame has the five relationship columns. */
  datatype RelationshipFrame = Columnless | Columns(rows: seq<Relationship>)

  /** The frame the builders return for the relationships `rels`. */
  function AsFrame(rels: seq<Relationship>): (f: RelationshipFrame)
    ensures f.Columnless? <==> rels == []
    ensures f.Columns? ==> f.rows == rels
  {
    if rels == [] then Columnless else Columns(rels)
  }

  // ---------------------------------------------------------------------------
  // get_relationship_matrix

  /** Index pairs (i, j), i < j < n, with i fixed: the inner loop over `tables[i+1:]`. */
  function PairRow(i: nat, n: nat): (ps: seq<(nat, nat)>)
    requires i < n
    ensures |ps| == n - i - 1
  {
    seq(n - i - 1, k requires 0 <= k < n - i - 1 => (i, i + 1 + k))
  }

  /** The pairs the two loops visit before the outer index reaches `i`. */
  function PairsBefore(n: nat, i: nat): seq<(nat, nat)>
    requires i <= n
  {
    if i == 0 then [] else PairsBefore(n, i - 1) + PairRow(i - 1, n)
  }

  /** Every pair (i, j) with i < j < n, in the order the loops visit them. */
  function IndexPairs(n: nat): seq<(nat, nat)> {
    PairsBefore(n, n)
  }

  /** (i, j) comes strictly before (i', j') in lexicographic order. */
  predicate LexLess(p: (nat, nat), q: (nat, nat)) {
    p.0 < q.0 || (p.0 == q.0 && p.1 < q.1)
  }

  /** Before the outer index reaches `i`, the loops have visited exactly the pairs
      i' < j < n with i' < i, in strictly increasing lexicographic order. */
  lemma PairsBeforeFacts(n: nat, i: nat)
    requires i <= n
    ensures var ps := PairsBefore(n, i);
      && (forall p :: p in ps <==> p.0 < i && p.0 < p.1 < n)
      && (forall k, l :: 0 <= k < l < |ps| ==> LexLess(ps[k], ps[l]))
      && 2 * |ps| == i * (2 * n - i - 1)
  {
    PairsBeforeMembers(n, i);
    PairsBeforeOrdered(n, i);
    PairsBeforeCount(n, i);
  }

  lemma {:induction false} PairsBeforeMembers(n: nat, i: nat)
    requires i <= n
    ensures forall p :: p in PairsBefore(n, i) <==> p.0 < i && p.0 < p.1 < n
  {
    if i > 0 {
      PairsBeforeMembers(n, i - 1);
      var prev := PairsBefore(n, i - 1);
      var row := PairRow(i - 1, n);
      assert PairsBefore(n, i) == prev + row;
      forall p: (nat, nat) | p.0 < i && p.0 < p.1 < n ensures p in prev + row {
        if p.0 == i - 1 {
          assert row[p.1 - i] == p;
        } else {
          assert p in prev;
        }
      }
    }
  }

  lemma {:induction false} PairsBeforeOrdered(n: nat, i: nat)
    requires i <= n
    ensures forall k, l :: 0 <= k < l < |PairsBefore(n, i)| ==> LexLess(PairsBefore(n, i)[k], PairsBefore(n, i)[l])
  {
    if i > 0 {
      PairsBeforeOrdered(n, i - 1);
      PairsBeforeMembers(n, i - 1);
      var prev := PairsBefore(n, i - 1);
      var row := PairRow(i - 1, n);
      var ps := prev + row;
      assert PairsBefore(n, i) == ps;
      forall k, l | 0 <= k < l < |ps| ensures LexLess(ps[k], ps[l]) {
        if l < |prev| {
          assert ps[k] == prev[k] && ps[l] == prev[l];
          assert LexLess(prev[k], prev[l]);
        } else if k < |prev| {
          assert ps[k] == prev[k] && prev[k] in prev;
          assert ps[k].0 < i - 1;
          assert ps[l] == row[l - |prev|] == (i - 1, i + (l - |prev|));
        } else {
          assert ps[k] == row[k - |prev|] == (i - 1, i + (k - |prev|));
          assert ps[l] == row[l - |prev|] == (i - 1, i + (l - |prev|));
        }
      }
    }
  }

  lemma {:induction false} PairsBeforeCount(n: nat, i: nat)
    requires i <= n
    ensures 2 * |PairsBefore(n, i)| == i * (2 * n - i - 1)
  {
    if i > 0 {
      PairsBeforeCount(n, i - 1);
      assert |PairsBefore(n, i)| == |PairsBefore(n, i - 1)| + (n - i);
      calc {
        2 * |PairsBefore(n, i)|;
        (i - 1) * (2 * n - i) + 2 * (n - i);
        i * (2 * n - i - 1);
      }
    }
  }

  /** The matrix loops visit every pair i < j < n, each exactly once, in increasing
      lexicographic order: n(n-1)/2 pairs. */
  lemma IndexPairsFacts(n: nat)
    ensures forall p :: p in IndexPairs(n) <==> p.0 < p.1 < n
    ensures forall k, l :: 0 <= k < l < |IndexPairs(n)| ==> LexLess(IndexPairs(n)[k], IndexPairs(n)[l])
    ensures |IndexPairs(n)| == n * (n - 1) / 2
  {
    PairsBeforeFacts(n, n);
  }

  /** Three tables give the pairs (0,1), (0,2), (1,2), in that order. */
  lemma ThreeTablePairs()
    ensures IndexPairs(3) == [(0, 1), (0, 2), (1, 2)]
  {
    assert PairsBefore(3, 1) == [(0, 1), (0, 2)];
    assert PairsBefore(3, 2) == [(0, 1), (0, 2), (1, 2)];
  }

  /** Every table of a pair the loops visit is in the catalog; `schema_info[table]`
      raises KeyError otherwise. A list of fewer than two tables visits no pair. */
  predicate PairsInCatalog(db: Db, tables: seq<string>) {
    forall i, j :: 0 <= i < j < |tables| ==> tables[i] in db && tables[j] in db
  }

  /** The validated relationships of the pair (tables[i], tables[j]). */
  function PairEdges(db: Db, tables: seq<string>, p: (nat, nat), minScore: real, minConfidence: real): seq<Relationship>
    requires PairsInCatalog(db, tables) && p.0 < p.1 < |tables|
  {
    Validated(db, ForeignKeyCandidates(db, tables[p.0], tables[p.1], minScore), minConfidence)
  }

  /** `PairEdges` as a function of the pair; pairs outside the table list have none. */
  function PairEdgesOf(db: Db, tables: seq<string>, minScore: real, minConfidence: real): ((nat, nat)) -> seq<Relationship> {
    (p: (nat, nat)) =>
      if PairsInCatalog(db, tables) && p.0 < p.1 < |tables| then PairEdges(db, tables, p, minScore, minConfidence) else []
  }

  /** The relationships of the given pairs, concatenated in pair order. */
  function Concat(pairs: seq<(nat, nat)>, edgesOf: ((nat, nat)) -> seq<Relationship>): seq<Relationship> {
    if pairs == [] then []
    else Concat(pairs[..|pairs| - 1], edgesOf) + edgesOf(pairs[|pairs| - 1])
  }

  /** What `get_relationship_matrix(tables)` returns. */
  function Matrix(db: Db, tables: seq<string>, minScore: real, minConfidence: real): (r: seq<Relationship>)
    ensures forall x :: x in r ==> minConfidence < x.confidence <= 100.0
  {
    ConcatBounded(IndexPairs(|tables|), PairEdgesOf(db, tables, minScore, minConfidence), minConfidence);
    Concat(IndexPairs(|tables|), PairEdgesOf(db, tables, minScore, minConfidence))
  }

  /** Concatenating parts whose confidences lie in (low, 100] keeps them there. */
  lemma {:induction false} ConcatBounded(pairs: seq<(nat, nat)>, edgesOf: ((nat, nat)) -> seq<Relationship>, low: real)
    requires forall p, x :: x in edgesOf(p) ==> low < x.confidence <= 100.0
    ensures forall x :: x in Concat(pairs, edgesOf) ==> low < x.confidence <= 100.0
  {
    if pairs != [] {
      ConcatBounded(pairs[..|pairs| - 1], edgesOf, low);
    }
  }

  /** The inner loop's pairs grow one at a time. */
  lemma PairRowSnoc(i: nat, j: nat)
    requires i < j
    ensures PairRow(i, j + 1) == PairRow(i, j) + [(i, j)]
  {
  }

  /** Appending a pair appends its relationships. */
  lemma ConcatSnoc(pairs: seq<(nat, nat)>, p: (nat, nat), edgesOf: ((nat, nat)) -> seq<Relationship>)
    ensures Concat(pairs + [p], edgesOf) == Concat(pairs, edgesOf) + edgesOf(p)
  {
    assert (pairs + [p])[..|pairs|] == pairs;
  }

  /** The relationships of the pair (tables[i], tables[j]): score, then validate. */
  method PairRelationships(db: Db, tables: seq<string>, i: nat, j: nat, minScore: real, minConfidence: real)
    returns (relationships: seq<Relationship>)
    requires PairsInCatalog(db, tables) && i < j < |tables|
    ensures relationships == PairEdgesOf(db, tables, minScore, minConfidence)((i, j))
  {
    var fks := PotentialForeignKeys(db, tables[i], tables[j], minScore);
    relationships := RelationshipMatrixForTwoTables(db, tables[i], tables[j], Some(fks), minScore, minConfidence);
  }

  /** One step of the inner loop: appending the relationships of (i, j) extends the
      concatenation by that pair. */
  lemma MatrixStep(n: nat, i: nat, j: nat, edgesOf: ((nat, nat)) -> seq<Relationship>,
                   all: seq<Relationship>, relationships: seq<Relationship>)
    requires i < j < n
    requires all == Concat(PairsBefore(n, i) + PairRow(i, j), edgesOf)
    requires relationships == edgesOf((i, j))
    ensures (if relationships != [] then all + relationships else all)
            == Concat(PairsBefore(n, i) + PairRow(i, j + 1), edgesOf)
  {
    var visited := PairsBefore(n, i) + PairRow(i, j);
    PairRowSnoc(i, j);
    assert visited + [(i, j)] == PairsBefore(n, i) + PairRow(i, j + 1);
    ConcatSnoc(visited, (i, j), edgesOf);
  }

  /** The inner loop's start and end: row `i` starts empty and, complete, makes the
      pairs visited before outer index i + 1. */
  lemma MatrixRowBounds(n: nat, i: nat)
    requires i < n
    ensures PairsBefore(n, i) + PairRow(i, i + 1) == PairsBefore(n, i)
    ensures PairsBefore(n, i) + PairRow(i, n) == PairsBefore(n, i + 1)
  {
  }

  /** The outer loop's start and end: no pairs before index 0, all of them after n. */
  lemma MatrixBounds(n: nat, edgesOf: ((nat, nat)) -> seq<Relationship>)
    ensures Concat(PairsBefore(n, 0), edgesOf) == []
    ensures Concat(PairsBefore(n, n), edgesOf) == Concat(IndexPairs(n), edgesOf)
  {
  }

  /** The inner loop for outer index `i`: appends the relationships of every pair
      (tables[i], tables[j]), j > i. */
  method MatrixRow(db: Db, tables: seq<string>, i: nat, minScore: real, minConfidence: real, before: seq<Relationship>)
    returns (all: seq<Relationship>)
    requires PairsInCatalog(db, tables) && i < |tables|
    requires before == Concat(PairsBefore(|tables|, i), PairEdgesOf(db, tables, minScore, minConfidence))
    ensures all == Concat(PairsBefore(|tables|, i + 1), PairEdgesOf(db, tables, minScore, minConfidence))
  {
    var n := |tables|;
    ghost var edgesOf := PairEdgesOf(db, tables, minScore, minConfidence);
    MatrixRowBounds(n, i);
    all := before;
    for j := i + 1 to n
      invariant all == Concat(PairsBefore(n, i) + PairRow(i, j), edgesOf)
    {
      var relationships := PairRelationships(db, tables, i, j, minScore, minConfidence);
      MatrixStep(n, i, j, edgesOf, all, relationships);
      if relationships != [] {
        all := all + relationships;
      }
    }
  }

  /** Scores and validates every pair tables[i], tables[j] with i < j, and
      concatenates the non-empty results. */
  method RelationshipMatrix(db: Db, tables: seq<string>, minScore: real, minConfidence: real)
    returns (all: seq<Relationship>)
    requires PairsInCatalog(db, tables)
    ensures all == Matrix(db, tables, minScore, minConfidence)
  {
    ghost var edgesOf := PairEdgesOf(db, tables, minScore, minConfidence);
    MatrixBounds(|tables|, edgesOf);
    all := [];
    for i := 0 to |tables|
      invariant all == Concat(PairsBefore(|tables|, i), edgesOf)
    {
      all := MatrixRow(db, tables, i, minScore, minConfidence, all);
    }
  }

  /** A relationship is in the concatenation exactly when some pair contributes it. */
  lemma {:induction false} ConcatElement(pairs: seq<(nat, nat)>, edgesOf: ((nat, nat)) -> seq<Relationship>, r: Relationship)
    ensures r in Concat(pairs, edgesOf) <==> exists k :: 0 <= k < |pairs| && r in edgesOf(pairs[k])
  {
    if pairs != [] {
      var init := pairs[..|pairs| - 1];
      ConcatElement(init, edgesOf, r);
      if r in Concat(init, edgesOf) {
        var k :| 0 <= k < |init| && r in edgesOf(init[k]);
        assert pairs[k] == init[k];
      }
      if exists k :: 0 <= k < |pairs| && r in edgesOf(pairs[k]) {
        var k :| 0 <= k < |pairs| && r in edgesOf(pairs[k]);
        if k < |init| {
          assert init[k] == pairs[k];
        }
      }
    }
  }

  /** Every relationship of a pair runs from a column of tables[i] to a column of
      tables[j], and its confidence is its validated score, above `minConfidence`. */
  lemma PairEdgesShape(db: Db, tables: seq<string>, p: (nat, nat), minScore: real, minConfidence: real, r: Relationship)
    requires PairsInCatalog(db, tables) && p.0 < p.1 < |tables|
    requires r in PairEdges(db, tables, p, minScore, minConfidence)
    ensures r.table1 == tables[p.0] && r.table2 == tables[p.1]
    ensures r.column1 in Names(db[tables[p.0]].columns) && r.column2 in Names(db[tables[p.1]].columns)
    ensures r.confidence == AssertRelationship(db, r.table1, r.table2, r.column1, r.column2)
    ensures minConfidence < r.confidence <= 100.0
  {
    var fks := ForeignKeyCandidates(db, tables[p.0], tables[p.1], minScore);
    ValidatedElement(db, fks, minConfidence, r);
    var k :| 0 <= k < |fks| && r == Revalidate(db, fks[k]) && r.confidence > minConfidence;
    ForeignKeyCandidatesShape(db, tables[p.0], tables[p.1], minScore, fks[k]);
  }

  /** Every relationship of the matrix comes from a pair (tables[i], tables[j]) with
      i < j, oriented tables[i] -> tables[j], and carries its validated score,
      above `minConfidence`. */
  lemma MatrixShape(db: Db, tables: seq<string>, minScore: real, minConfidence: real, r: Relationship)
    requires PairsInCatalog(db, tables)
    requires r in Matrix(db, tables, minScore, minConfidence)
    ensures exists i, j :: 0 <= i < j < |tables| && r.table1 == tables[i] && r.table2 == tables[j]
    ensures r.confidence == AssertRelationship(db, r.table1, r.table2, r.column1, r.column2)
    ensures minConfidence < r.confidence <= 100.0
  {
    var n := |tables|;
    IndexPairsFacts(n);
    var pairs := IndexPairs(n);
    var edgesOf := PairEdgesOf(db, tables, minScore, minConfidence);
    ConcatElement(pairs, edgesOf, r);
    var k :| 0 <= k < |pairs| && r in edgesOf(pairs[k]);
    assert pairs[k] in pairs;
    PairEdgesShape(db, tables, pairs[k], minScore, minConfidence, r);
  }

  /** A list of fewer than two tables visits no pair: any such list may be passed,
      whatever the catalog holds, and the matrix is empty. */
  lemma FewTablesEmptyMatrix(db: Db, tables: seq<string>, minScore: real, minConfidence: real)
    requires |tables| <= 1
    ensures PairsInCatalog(db, tables)
    ensures Matrix(db, tables, minScore, minConfidence) == []
  {
    assert PairsBefore(|tables|, 0) == [];
  }

  /** With distinct table names the matrix never relates a table to itself and
      never holds a relationship together with one in the opposite direction. */
  lemma MatrixNoSelfOrReversedPair(db: Db, tables: seq<string>, minScore: real, minConfidence: real,
                                   r: Relationship, s: Relationship)
    requires PairsInCatalog(db, tables)
    requires forall a, b :: 0 <= a < b < |tables| ==> tables[a] != tables[b]
    requires r in Matrix(db, tables, minScore, minConfidence) && s in Matrix(db, tables, minScore, minConfidence)
    ensures r.table1 != r.table2
    ensures !(s.table1 == r.table2 && s.table2 == r.table1)
  {
    MatrixShape(db, tables, minScore, minConfidence, r);
    MatrixShape(db, tables, minScore, minConfidence, s);
    var i, j :| 0 <= i < j < |tables| && r.table1 == tables[i] && r.table2 == tables[j];
    var i', j' :| 0 <= i' < j' < |tables| && s.table1 == tables[i'] && s.table2 == tables[j'];
  }
}
