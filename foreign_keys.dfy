/**
 * Foreign-key candidates between two tables (`get_potential_foreign_keys`).
 *
 * Every column pair (c1 of table1, c2 of table2) is scored on three signals: equal
 * declared types, equal or contained names (ignoring case), and overlap of the
 * non-NULL values in the first 100 rows of each table. Pairs scoring above the
 * threshold become candidates, oriented table1 -> table2, sorted by confidence,
 * highest first, with a stable sort.
 */
module ForeignKeys {
  import opened Wrappers
  import opened Database
  import opened Sorting

  /** A (candidate or validated) relationship column1 of table1 -> column2 of table2. */
  datatype Relationship = Relationship(table1: string, column1: string, table2: string, column2: string, confidence: real)

  /** The number of rows sampled from each table. */
  const SampleSize: nat := 100

  /** The threshold a pair's score must exceed to be kept. */
  const FkMinScore: real := 30.0

  // ---------------------------------------------------------------------------
  // Names

  function LowerChar(ch: char): char {
    if 'A' <= ch <= 'Z' then (ch as int + 32) as char else ch
  }

  /** `str.lower()` on ASCII letters. */
  function Lower(s: string): (r: string)
    ensures |r| == |s|
    ensures forall i :: 0 <= i < |s| ==> r[i] == LowerChar(s[i])
  {
    if s == [] then [] else [LowerChar(s[0])] + Lower(s[1..])
  }

  /** Python's `needle in hay` on strings: some suffix of `hay` starts with `needle`. */
  predicate Contains(hay: string, needle: string) {
    needle <= hay || (hay != [] && Contains(hay[1..], needle))
  }

  /** `needle` occurs in `hay` starting at position `i`. */
  predicate OccursAt(hay: string, needle: string, i: int) {
    0 <= i && i + |needle| <= |hay| && hay[i..i + |needle|] == needle
  }

  /** `Contains` holds exactly when `needle` occurs at some position of `hay`. */
  lemma {:induction false} ContainsAt(hay: string, needle: string)
    ensures Contains(hay, needle) <==> exists i :: OccursAt(hay, needle, i)
  {
    if needle <= hay {
      assert OccursAt(hay, needle, 0);
    } else if hay == [] {
    } else {
      ContainsAt(hay[1..], needle);
      if exists i :: OccursAt(hay, needle, i) {
        var i :| OccursAt(hay, needle, i);
        assert i != 0;
        assert OccursAt(hay[1..], needle, i - 1);
      }
      if exists i :: OccursAt(hay[1..], needle, i) {
        var i :| OccursAt(hay[1..], needle, i);
        assert OccursAt(hay, needle, i + 1);
      }
    }
  }

  // ---------------------------------------------------------------------------
  // Signals

  /** +0.3 when the declared types render to the same text. */
  function TypeSignal(type1: string, type2: string): (r: real)
    ensures r == 0.3 <==> type1 == type2
    ensures r == 0.0 || r == 0.3
  {
    if type1 == type2 then 0.3 else 0.0
  }

  /** +0.3 when the names are equal ignoring case; otherwise +0.2 when either
      contains the other ignoring case. */
  function NameSignal(name1: string, name2: string): (r: real)
    ensures r == 0.3 <==> Lower(name1) == Lower(name2)
    ensures r == 0.2 <==>
      (Lower(name1) != Lower(name2) && (Contains(Lower(name2), Lower(name1)) || Contains(Lower(name1), Lower(name2))))
    ensures r == 0.0 || r == 0.2 || r == 0.3
  {
    var l1 := Lower(name1);
    var l2 := Lower(name2);
    if l1 == l2 then 0.3
    else if Contains(l2, l1) || Contains(l1, l2) then 0.2
    else 0.0
  }

  /** The non-NULL sample values of column `c` as a set; None when the sample has
      no such column (the sample read failed). */
  function SampleValues(sample: Option<seq<Row>>, c: string): (r: Option<set<string>>)
    ensures r.Some? <==> sample.Some?
    ensures r.Some? ==> forall v :: v in r.value <==> v in NonNullValues(sample.value, c)
  {
    if sample.Some? then Some(Values(sample.value, c)) else None
  }

  /** |s1 ∩ s2| / min(|s1|, |s2|) when both sample columns exist and are non-empty,
      otherwise no overlap. */
  function Overlap(v1: Option<set<string>>, v2: Option<set<string>>): (r: real)
    ensures 0.0 <= r <= 1.0
  {
    if v1.Some? && v2.Some? && |v1.value| > 0 && |v2.value| > 0 then
      var s1 := v1.value;
      var s2 := v2.value;
      var m := Min(|s1|, |s2|);
      assert s1 * s2 <= s1 && s1 * s2 <= s2;
      SubsetCardinality(s1 * s2, s1);
      SubsetCardinality(s1 * s2, s2);
      assert |s1 * s2| <= m;
      RatioInUnit(|s1 * s2|, m);
      |s1 * s2| as real / m as real
    else 0.0
  }

  /** Full overlap means one non-empty value set lies inside the other. */
  lemma OverlapFull(v1: Option<set<string>>, v2: Option<set<string>>)
    ensures Overlap(v1, v2) == 1.0 <==>
      v1.Some? && v2.Some? && v1.value != {} && v2.value != {} &&
      (v1.value <= v2.value || v2.value <= v1.value)
  {
    if v1.Some? && v2.Some? && |v1.value| > 0 && |v2.value| > 0 {
      var s1 := v1.value;
      var s2 := v2.value;
      var m := Min(|s1|, |s2|);
      SubsetCardinality(s1 * s2, s1);
      SubsetCardinality(s1 * s2, s2);
      RatioOne(|s1 * s2|, m);
      if s1 <= s2 {
        assert s1 * s2 == s1;
        SubsetCardinality(s1, s2);
      } else if s2 <= s1 {
        assert s1 * s2 == s2;
        SubsetCardinality(s2, s1);
      }
    } else if v1.Some? && v2.Some? {
      assert v1.value == {} || v2.value == {};
    }
  }

  /** The overlap does not depend on which side is which. */
  lemma OverlapSymmetric(v1: Option<set<string>>, v2: Option<set<string>>)
    ensures Overlap(v1, v2) == Overlap(v2, v1)
  {
    if v1.Some? && v2.Some? {
      assert v1.value * v2.value == v2.value * v1.value;
    }
  }

  // ---------------------------------------------------------------------------
  // Pair score

  /** The score of column pair (col1, col2) given each table's sample. */
  function PairScore(col1: Column, col2: Column, sample1: Option<seq<Row>>, sample2: Option<seq<Row>>): (r: real)
    ensures 0.0 <= r <= 100.0
  {
    var overlap := Overlap(SampleValues(sample1, col1.name), SampleValues(sample2, col2.name));
    (TypeSignal(col1.sqlType, col2.sqlType) + NameSignal(col1.name, col2.name) + overlap * 0.4) * 100.0
  }

  /** Swapping the two columns (and their samples) does not change the score. */
  lemma PairScoreSymmetric(col1: Column, col2: Column, sample1: Option<seq<Row>>, sample2: Option<seq<Row>>)
    ensures PairScore(col1, col2, sample1, sample2) == PairScore(col2, col1, sample2, sample1)
  {
    OverlapSymmetric(SampleValues(sample1, col1.name), SampleValues(sample2, col2.name));
  }

  /** The score is 100 exactly when the types match, the names are equal ignoring
      case, and one sample's non-NULL values lie inside the other's, both non-empty. */
  lemma PairScoreFull(col1: Column, col2: Column, sample1: Option<seq<Row>>, sample2: Option<seq<Row>>)
    ensures var v1 := SampleValues(sample1, col1.name);
      var v2 := SampleValues(sample2, col2.name);
      PairScore(col1, col2, sample1, sample2) == 100.0 <==>
        && col1.sqlType == col2.sqlType
        && Lower(col1.name) == Lower(col2.name)
        && v1.Some? && v2.Some? && v1.value != {} && v2.value != {}
        && (v1.value <= v2.value || v2.value <= v1.value)
  {
    OverlapFull(SampleValues(sample1, col1.name), SampleValues(sample2, col2.name));
  }

  /** Without a shared type and without name similarity, the sampled values alone
      reach at most 40. */
  lemma ValuesAloneNotEnough(col1: Column, col2: Column, sample1: Option<seq<Row>>, sample2: Option<seq<Row>>)
    requires col1.sqlType != col2.sqlType
    requires NameSignal(col1.name, col2.name) == 0.0
    ensures PairScore(col1, col2, sample1, sample2) <= 40.0
  {
  }

  /** Full overlap of the sampled values alone scores 40, which clears the 30
      threshold: such a pair is a candidate even with different types and
      unrelated names. */
  lemma OverlapAloneIsCandidate(col1: Column, col2: Column, sample1: Option<seq<Row>>, sample2: Option<seq<Row>>)
    requires col1.sqlType != col2.sqlType
    requires NameSignal(col1.name, col2.name) == 0.0
    requires Overlap(SampleValues(sample1, col1.name), SampleValues(sample2, col2.name)) == 1.0
    ensures PairScore(col1, col2, sample1, sample2) == 40.0
    ensures PairScore(col1, col2, sample1, sample2) > FkMinScore
  {
  }

  /** Name containment with a quarter of the sampled values shared, and different
      types, scores exactly 30 and so is not a candidate: the threshold is strict. */
  lemma ContainmentAndQuarterOverlapOnThreshold(col1: Column, col2: Column, sample1: Option<seq<Row>>, sample2: Option<seq<Row>>)
    requires col1.sqlType != col2.sqlType
    requires NameSignal(col1.name, col2.name) == 0.2
    requires Overlap(SampleValues(sample1, col1.name), SampleValues(sample2, col2.name)) == 0.25
    ensures PairScore(col1, col2, sample1, sample2) == 30.0
    ensures !(PairScore(col1, col2, sample1, sample2) > FkMinScore)
  {
  }

  /** A pair of columns with the same type and the same name is always a candidate. */
  lemma SameNameAndTypeIsCandidate(col1: Column, col2: Column, sample1: Option<seq<Row>>, sample2: Option<seq<Row>>)
    requires col1.sqlType == col2.sqlType && col1.name == col2.name
    ensures PairScore(col1, col2, sample1, sample2) >= 60.0
    ensures PairScore(col1, col2, sample1, sample2) > FkMinScore
  {
  }

  predicate NoCapitals(s: string) {
    forall i :: 0 <= i < |s| ==> !('A' <= s[i] <= 'Z')
  }

  /** Lower-casing leaves a string without ASCII capitals unchanged. */
  lemma LowerUnchanged(s: string)
    requires NoCapitals(s)
    ensures Lower(s) == s
  {
  }

  /** "id" occurs in "customer_id", so the two names earn 0.2 rather than nothing. */
  lemma CustomerIdNameSignal(name1: string, name2: string)
    requires name1 == "customer_id" && name2 == "id"
    ensures NameSignal(name1, name2) == 0.2
  {
    assert NoCapitals(name1) by {
      assert name1 == ['c', 'u', 's', 't', 'o', 'm', 'e', 'r', '_', 'i', 'd'];
    }
    LowerUnchanged(name1);
    LowerUnchanged(name2);
    assert OccursAt(name1, name2, 9);
    ContainsAt(name1, name2);
  }

  /** `customer_id` against `id`, both INTEGER, with fully overlapping values,
      scores 90. */
  lemma CustomerIdAgainstId(col1: Column, col2: Column, sample1: Option<seq<Row>>, sample2: Option<seq<Row>>)
    requires col1 == Column("customer_id", "INTEGER") && col2 == Column("id", "INTEGER")
    requires Overlap(SampleValues(sample1, col1.name), SampleValues(sample2, col2.name)) == 1.0
    ensures PairScore(col1, col2, sample1, sample2) == 90.0
  {
    CustomerIdNameSignal(col1.name, col2.name);
  }

  // ---------------------------------------------------------------------------
  // Candidates

  function ConfidenceOf(r: Relationship): real {
    r.confidence
  }

  /** `r` is the pair (col1, col2), oriented table1 -> table2, carrying its score,
      and that score exceeds `minScore`. */
  predicate PassingPair(r: Relationship, table1: string, col1: Column, table2: string, col2: Column,
                        scoreOf: (Column, Column) -> real, minScore: real)
  {
    scoreOf(col1, col2) > minScore && r == Relationship(table1, col1.name, table2, col2.name, scoreOf(col1, col2))
  }

  /** The candidate for (col1, col2), if its score passes the threshold. */
  function PairCandidate(table1: string, col1: Column, table2: string, col2: Column,
                         scoreOf: (Column, Column) -> real, minScore: real): seq<Relationship>
  {
    var score := scoreOf(col1, col2);
    if score > minScore then [Relationship(table1, col1.name, table2, col2.name, score)] else []
  }

  /** The inner loop: `col1` against each column of `cols2`, in order. */
  function RowCandidates(table1: string, col1: Column, table2: string, cols2: seq<Column>,
                         scoreOf: (Column, Column) -> real, minScore: real): (r: seq<Relationship>)
    ensures |r| <= |cols2|
    ensures forall x :: x in r ==> x.table1 == table1 && x.column1 == col1.name && x.table2 == table2 && x.confidence > minScore
  {
    if cols2 == [] then []
    else
      RowCandidates(table1, col1, table2, cols2[..|cols2| - 1], scoreOf, minScore)
      + PairCandidate(table1, col1, table2, cols2[|cols2| - 1], scoreOf, minScore)
  }

  /** Both loops: each column of `cols1` against each column of `cols2`, row by row. */
  function Candidates(table1: string, cols1: seq<Column>, table2: string, cols2: seq<Column>,
                      scoreOf: (Column, Column) -> real, minScore: real): (r: seq<Relationship>)
    ensures |r| <= |cols1| * |cols2|
    ensures forall x :: x in r ==> x.table1 == table1 && x.table2 == table2 && x.confidence > minScore
  {
    if cols1 == [] then []
    else
      Candidates(table1, cols1[..|cols1| - 1], table2, cols2, scoreOf, minScore)
      + RowCandidates(table1, cols1[|cols1| - 1], table2, cols2, scoreOf, minScore)
  }

  /** The pair score under the two tables' samples. */
  function Scorer(sample1: Option<seq<Row>>, sample2: Option<seq<Row>>): (Column, Column) -> real {
    (col1: Column, col2: Column) => PairScore(col1, col2, sample1, sample2)
  }

  /** What `get_potential_foreign_keys(table1, table2)` returns. */
  function ForeignKeyCandidates(db: Db, table1: string, table2: string, minScore: real): (r: seq<Relationship>)
    requires table1 in db && table2 in db
    ensures SortedDesc(r, ConfidenceOf)
    ensures |r| <= |db[table1].columns| * |db[table2].columns|
    ensures forall x :: x in r ==> x.table1 == table1 && x.table2 == table2 && x.confidence > minScore
  {
    var found := Candidates(table1, db[table1].columns, table2, db[table2].columns,
                            Scorer(TopRows(db, table1, SampleSize), TopRows(db, table2, SampleSize)), minScore);
    SortDescAll(found, ConfidenceOf,
                (x: Relationship) => x.table1 == table1 && x.table2 == table2 && x.confidence > minScore);
    SortDesc(found, ConfidenceOf)
  }

  /** Adds up the three signals of one column pair, as the inner loop body does. */
  method ScorePair(col1: Column, col2: Column, sample1: Option<seq<Row>>, sample2: Option<seq<Row>>)
    returns (score: real)
    ensures score == PairScore(col1, col2, sample1, sample2)
    ensures 0.0 <= score <= 100.0
  {
    score := 0.0;
    if col1.sqlType == col2.sqlType {
      score := score + 0.3;
    }
    assert score == TypeSignal(col1.sqlType, col2.sqlType);
    var lower1 := Lower(col1.name);
    var lower2 := Lower(col2.name);
    if lower1 == lower2 {
      score := score + 0.3;
    } else if Contains(lower2, lower1) || Contains(lower1, lower2) {
      score := score + 0.2;
    }
    assert score == TypeSignal(col1.sqlType, col2.sqlType) + NameSignal(col1.name, col2.name);
    var v1 := SampleValues(sample1, col1.name);
    var v2 := SampleValues(sample2, col2.name);
    if v1.Some? && v2.Some? && |v1.value| > 0 && |v2.value| > 0 {
      score := score + Overlap(v1, v2) * 0.4;
    }
    score := score * 100.0;
  }

  /** One step of the inner loop: scoring (col1, cols2[j]) extends the row's
      candidates by that pair. */
  lemma RowStep(table1: string, col1: Column, table2: string, cols2: seq<Column>, j: nat,
                scoreOf: (Column, Column) -> real, minScore: real,
                before: seq<Relationship>, found: seq<Relationship>, score: real)
    requires j < |cols2|
    requires found == before + RowCandidates(table1, col1, table2, cols2[..j], scoreOf, minScore)
    requires score == scoreOf(col1, cols2[j])
    ensures (if score > minScore then found + [Relationship(table1, col1.name, table2, cols2[j].name, score)] else found)
            == before + RowCandidates(table1, col1, table2, cols2[..j + 1], scoreOf, minScore)
  {
    assert cols2[..j + 1][..j] == cols2[..j];
  }

  /** The end of the inner loop: the row is complete. */
  lemma OuterStep(table1: string, cols1: seq<Column>, table2: string, cols2: seq<Column>, i: nat,
                  scoreOf: (Column, Column) -> real, minScore: real,
                  before: seq<Relationship>, found: seq<Relationship>)
    requires i < |cols1|
    requires before == Candidates(table1, cols1[..i], table2, cols2, scoreOf, minScore)
    requires found == before + RowCandidates(table1, cols1[i], table2, cols2[..|cols2|], scoreOf, minScore)
    ensures found == Candidates(table1, cols1[..i + 1], table2, cols2, scoreOf, minScore)
  {
    assert cols2[..|cols2|] == cols2;
    assert cols1[..i + 1][..i] == cols1[..i];
  }

  /** The end of the outer loop: every column of table 1 is done. */
  lemma OuterEnd(table1: string, cols1: seq<Column>, table2: string, cols2: seq<Column>,
                 scoreOf: (Column, Column) -> real, minScore: real)
    ensures Candidates(table1, cols1[..|cols1|], table2, cols2, scoreOf, minScore)
            == Candidates(table1, cols1, table2, cols2, scoreOf, minScore)
  {
    assert cols1[..|cols1|] == cols1;
  }

  /** Scores every column pair of the two tables in nested loops and sorts the
      pairs that pass `minScore` by confidence, highest first. */
  method PotentialForeignKeys(db: Db, table1: string, table2: string, minScore: real)
    returns (fks: seq<Relationship>)
    requires table1 in db && table2 in db
    ensures fks == ForeignKeyCandidates(db, table1, table2, minScore)
    ensures SortedDesc(fks, ConfidenceOf)
  {
    var cols1 := db[table1].columns;
    var cols2 := db[table2].columns;
    var sample1 := TopRows(db, table1, SampleSize);
    var sample2 := TopRows(db, table2, SampleSize);
    var scoreOf := Scorer(sample1, sample2);
    var found: seq<Relationship> := [];
    for i := 0 to |cols1|
      invariant found == Candidates(table1, cols1[..i], table2, cols2, scoreOf, minScore)
    {
      var col1 := cols1[i];
      ghost var before := found;
      for j := 0 to |cols2|
        invariant found == before + RowCandidates(table1, col1, table2, cols2[..j], scoreOf, minScore)
      {
        var col2 := cols2[j];
        var score := ScorePair(col1, col2, sample1, sample2);
        RowStep(table1, col1, table2, cols2, j, scoreOf, minScore, before, found, score);
        if score > minScore {
          found := found + [Relationship(table1, col1.name, table2, col2.name, score)];
        }
      }
      OuterStep(table1, cols1, table2, cols2, i, scoreOf, minScore, before, found);
    }
    OuterEnd(table1, cols1, table2, cols2, scoreOf, minScore);
    fks := SortDesc(found, ConfidenceOf);
  }

  // ---------------------------------------------------------------------------
  // Properties of the candidates

  /** The single-pair output holds exactly the passing pair. */
  lemma PairCandidateElement(table1: string, col1: Column, table2: string, col2: Column,
                             scoreOf: (Column, Column) -> real, minScore: real, r: Relationship)
    ensures r in PairCandidate(table1, col1, table2, col2, scoreOf, minScore) <==>
      PassingPair(r, table1, col1, table2, col2, scoreOf, minScore)
  {
  }

  /** `r` is the passing pair of `col1` and some column of `cols2`. */
  predicate InRow(r: Relationship, table1: string, col1: Column, table2: string, cols2: seq<Column>,
                  scoreOf: (Column, Column) -> real, minScore: real)
  {
    exists j :: 0 <= j < |cols2| && PassingPair(r, table1, col1, table2, cols2[j], scoreOf, minScore)
  }

  /** A relationship is in the inner loop's output exactly when it is the passing
      pair of `col1` and some column of `cols2`. */
  lemma {:induction false} RowCandidatesElement(table1: string, col1: Column, table2: string, cols2: seq<Column>,
                                                scoreOf: (Column, Column) -> real, minScore: real,
                                                r: Relationship)
    ensures r in RowCandidates(table1, col1, table2, cols2, scoreOf, minScore) <==>
      InRow(r, table1, col1, table2, cols2, scoreOf, minScore)
  {
    if cols2 == [] {
      assert RowCandidates(table1, col1, table2, cols2, scoreOf, minScore) == [];
    } else {
      var init := cols2[..|cols2| - 1];
      var last := cols2[|cols2| - 1];
      RowCandidatesElement(table1, col1, table2, init, scoreOf, minScore, r);
      PairCandidateElement(table1, col1, table2, last, scoreOf, minScore, r);
      var rest := RowCandidates(table1, col1, table2, init, scoreOf, minScore);
      assert RowCandidates(table1, col1, table2, cols2, scoreOf, minScore)
        == rest + PairCandidate(table1, col1, table2, last, scoreOf, minScore);
      if r in rest {
        var j :| 0 <= j < |init| && PassingPair(r, table1, col1, table2, init[j], scoreOf, minScore);
        assert cols2[j] == init[j];
      }
      if r in PairCandidate(table1, col1, table2, last, scoreOf, minScore) {
        assert PassingPair(r, table1, col1, table2, cols2[|cols2| - 1], scoreOf, minScore);
      }
      if InRow(r, table1, col1, table2, cols2, scoreOf, minScore) {
        var j :| 0 <= j < |cols2| && PassingPair(r, table1, col1, table2, cols2[j], scoreOf, minScore);
        if j < |init| {
          assert init[j] == cols2[j];
          assert r in rest;
        } else {
          assert j == |cols2| - 1;
          assert cols2[j] == last;
        }
      }
    }
  }

  /** A relationship is a candidate exactly when it is the passing pair of some
      column of `cols1` and some column of `cols2`. */
  lemma {:induction false} CandidatesElement(table1: string, cols1: seq<Column>, table2: string, cols2: seq<Column>,
                                             scoreOf: (Column, Column) -> real, minScore: real,
                                             r: Relationship)
    ensures r in Candidates(table1, cols1, table2, cols2, scoreOf, minScore) <==>
      exists i :: 0 <= i < |cols1| && InRow(r, table1, cols1[i], table2, cols2, scoreOf, minScore)
  {
    if cols1 != [] {
      var init := cols1[..|cols1| - 1];
      var last := cols1[|cols1| - 1];
      CandidatesElement(table1, init, table2, cols2, scoreOf, minScore, r);
      RowCandidatesElement(table1, last, table2, cols2, scoreOf, minScore, r);
      var rest := Candidates(table1, init, table2, cols2, scoreOf, minScore);
      assert Candidates(table1, cols1, table2, cols2, scoreOf, minScore)
        == rest + RowCandidates(table1, last, table2, cols2, scoreOf, minScore);
      if r in rest {
        var i :| 0 <= i < |init| && InRow(r, table1, init[i], table2, cols2, scoreOf, minScore);
        assert cols1[i] == init[i];
      }
      if exists i :: 0 <= i < |cols1| && InRow(r, table1, cols1[i], table2, cols2, scoreOf, minScore) {
        var i :| 0 <= i < |cols1| && InRow(r, table1, cols1[i], table2, cols2, scoreOf, minScore);
        if i < |init| {
          assert init[i] == cols1[i];
        }
      }
    }
  }

  /** The candidates between two tables are exactly the column pairs, oriented
      table1 -> table2, whose pair score under the two samples exceeds `minScore`,
      each carrying that score. */
  lemma ForeignKeyCandidatesExactly(db: Db, table1: string, table2: string, minScore: real, r: Relationship)
    requires table1 in db && table2 in db
    ensures var scoreOf := Scorer(TopRows(db, table1, SampleSize), TopRows(db, table2, SampleSize));
      var cols1 := db[table1].columns;
      var cols2 := db[table2].columns;
      r in ForeignKeyCandidates(db, table1, table2, minScore) <==>
        exists i, j :: 0 <= i < |cols1| && 0 <= j < |cols2| &&
          PassingPair(r, table1, cols1[i], table2, cols2[j], scoreOf, minScore)
  {
    var scoreOf := Scorer(TopRows(db, table1, SampleSize), TopRows(db, table2, SampleSize));
    SortedCandidatesElement(table1, db[table1].columns, table2, db[table2].columns, scoreOf, minScore, r);
  }

  /** The sorted candidates are exactly the passing pairs of the two column lists. */
  lemma SortedCandidatesElement(table1: string, cols1: seq<Column>, table2: string, cols2: seq<Column>,
                                scoreOf: (Column, Column) -> real, minScore: real, r: Relationship)
    ensures r in SortDesc(Candidates(table1, cols1, table2, cols2, scoreOf, minScore), ConfidenceOf) <==>
      exists i, j :: 0 <= i < |cols1| && 0 <= j < |cols2| &&
        PassingPair(r, table1, cols1[i], table2, cols2[j], scoreOf, minScore)
  {
    var found := Candidates(table1, cols1, table2, cols2, scoreOf, minScore);
    SortDescElement(found, ConfidenceOf, r);
    CandidatesElement(table1, cols1, table2, cols2, scoreOf, minScore, r);
    if r in found {
      var i :| 0 <= i < |cols1| && InRow(r, table1, cols1[i], table2, cols2, scoreOf, minScore);
      var j :| 0 <= j < |cols2| && PassingPair(r, table1, cols1[i], table2, cols2[j], scoreOf, minScore);
    }
    if exists i, j :: 0 <= i < |cols1| && 0 <= j < |cols2| &&
        PassingPair(r, table1, cols1[i], table2, cols2[j], scoreOf, minScore) {
      var i, j :| 0 <= i < |cols1| && 0 <= j < |cols2| &&
        PassingPair(r, table1, cols1[i], table2, cols2[j], scoreOf, minScore);
      assert InRow(r, table1, cols1[i], table2, cols2, scoreOf, minScore);
    }
  }

  /** Every candidate points from a column of table1 to a column of table2 and has
      a confidence above `minScore` and at most 100. */
  lemma ForeignKeyCandidatesShape(db: Db, table1: string, table2: string, minScore: real, r: Relationship)
    requires table1 in db && table2 in db
    requires r in ForeignKeyCandidates(db, table1, table2, minScore)
    ensures r.table1 == table1 && r.table2 == table2
    ensures r.column1 in Names(db[table1].columns) && r.column2 in Names(db[table2].columns)
    ensures minScore < r.confidence <= 100.0
  {
    ForeignKeyCandidatesExactly(db, table1, table2, minScore, r);
    var cols1 := db[table1].columns;
    var cols2 := db[table2].columns;
    var i, j :| 0 <= i < |cols1| && 0 <= j < |cols2| &&
      PassingPair(r, table1, cols1[i], table2, cols2[j], Scorer(TopRows(db, table1, SampleSize), TopRows(db, table2, SampleSize)), minScore);
    assert Names(cols1)[i] == r.column1;
    assert Names(cols2)[j] == r.column2;
  }

  /** The candidates are sorted by confidence, highest first, and candidates of
      equal confidence keep the order the loops produced them in. */
  lemma ForeignKeyCandidatesOrder(db: Db, table1: string, table2: string, minScore: real, v: real)
    requires table1 in db && table2 in db
    ensures SortedDesc(ForeignKeyCandidates(db, table1, table2, minScore), ConfidenceOf)
    ensures var found := Candidates(table1, db[table1].columns, table2, db[table2].columns,
                                    Scorer(TopRows(db, table1, SampleSize), TopRows(db, table2, SampleSize)), minScore);
      WithKey(ForeignKeyCandidates(db, table1, table2, minScore), ConfidenceOf, v) == WithKey(found, ConfidenceOf, v)
  {
    var found := Candidates(table1, db[table1].columns, table2, db[table2].columns,
                            Scorer(TopRows(db, table1, SampleSize), TopRows(db, table2, SampleSize)), minScore);
    SortDescStable(found, ConfidenceOf, v);
  }
}
