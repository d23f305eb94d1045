/**
 * Python's `sorted(xs, key=k, reverse=True)`: a stable sort by a real-valued key,
 * largest key first, in which elements with equal keys keep their original order.
 * It is written here as an insertion sort that inserts each element in front of
 * every element with the same key (the elements behind it in the input).
 */
module Sorting {

  ghost predicate SortedDesc<T>(xs: seq<T>, key: T -> real) {
    forall i, j :: 0 <= i < j < |xs| ==> key(xs[i]) >= key(xs[j])
  }

  /** The elements of `xs` whose key is `v`, in their order in `xs`. */
  function WithKey<T>(xs: seq<T>, key: T -> real, v: real): seq<T> {
    if xs == [] then []
    else (if key(xs[0]) == v then [xs[0]] else []) + WithKey(xs[1..], key, v)
  }

  /** No two elements of `xs` share the same projection `f`. */
  ghost predicate DistinctBy<T, U>(xs: seq<T>, f: T -> U) {
    forall i, j :: 0 <= i < j < |xs| ==> f(xs[i]) != f(xs[j])
  }

  function Insert<T>(x: T, ys: seq<T>, key: T -> real): (r: seq<T>)
    ensures multiset(r) == multiset(ys) + multiset{x}
  {
    if ys == [] || key(x) >= key(ys[0]) then
      [x] + ys
    else
      assert ys == [ys[0]] + ys[1..];
      [ys[0]] + Insert(x, ys[1..], key)
  }

  /** A property of every input element holds of every sorted element. */
  lemma SortDescAll<T>(xs: seq<T>, key: T -> real, p: T -> bool)
    requires forall x :: x in xs ==> p(x)
    ensures forall x :: x in SortDesc(xs, key) ==> p(x)
  {
    forall x | x in SortDesc(xs, key) ensures p(x) {
      SortDescElement(xs, key, x);
    }
  }

  lemma {:induction false} InsertSorted<T>(x: T, ys: seq<T>, key: T -> real)
    requires SortedDesc(ys, key)
    ensures SortedDesc(Insert(x, ys, key), key)
  {
    if ys == [] || key(x) >= key(ys[0]) {
    } else {
      var rest := Insert(x, ys[1..], key);
      InsertSorted(x, ys[1..], key);
      forall z | z in rest ensures key(ys[0]) >= key(z) {
        InsertElement(x, ys[1..], key, z);
        if z != x {
          var k :| 0 <= k < |ys[1..]| && ys[1..][k] == z;
          assert ys[k + 1] == z;
        }
      }
      var r := [ys[0]] + rest;
      forall i, j | 0 <= i < j < |r| ensures key(r[i]) >= key(r[j]) {
        assert r[j] == rest[j - 1];
        if i == 0 {
          assert r[j] in rest;
        } else {
          assert r[i] == rest[i - 1];
        }
      }
    }
  }

  /** The stable descending sort. */
  function SortDesc<T>(xs: seq<T>, key: T -> real): (r: seq<T>)
    ensures SortedDesc(r, key)
    ensures multiset(r) == multiset(xs)
    ensures |r| == |xs|
  {
    if xs == [] then []
    else
      assert xs == [xs[0]] + xs[1..];
      InsertSorted(xs[0], SortDesc(xs[1..], key), key);
      Insert(xs[0], SortDesc(xs[1..], key), key)
  }

  lemma {:induction false} WithKeyAppend<T>(a: seq<T>, b: seq<T>, key: T -> real, v: real)
    ensures WithKey(a + b, key, v) == WithKey(a, key, v) + WithKey(b, key, v)
  {
    if a == [] {
      assert a + b == b;
    } else {
      WithKeyAppend(a[1..], b, key, v);
      assert (a + b)[0] == a[0];
      assert (a + b)[1..] == a[1..] + b;
    }
  }

  /** Sorting neither adds nor drops an element. */
  lemma SortDescElement<T>(xs: seq<T>, key: T -> real, z: T)
    ensures z in SortDesc(xs, key) <==> z in xs
  {
    assert z in SortDesc(xs, key) <==> z in multiset(SortDesc(xs, key));
    assert z in xs <==> z in multiset(xs);
  }

  lemma {:induction false} InsertWithKey<T>(x: T, ys: seq<T>, key: T -> real, v: real)
    ensures WithKey(Insert(x, ys, key), key, v)
         == (if key(x) == v then [x] else []) + WithKey(ys, key, v)
  {
    if ys == [] || key(x) >= key(ys[0]) {
      WithKeyAppend([x], ys, key, v);
    } else {
      var rest := Insert(x, ys[1..], key);
      InsertWithKey(x, ys[1..], key, v);
      assert Insert(x, ys, key) == [ys[0]] + rest;
      assert ys == [ys[0]] + ys[1..];
      WithKeyBehind(x, ys[0], rest, ys[1..], key, v);
    }
  }

  /** `x` placed behind `y`, whose key is larger, is selected in front of `y`'s successors. */
  lemma WithKeyBehind<T>(x: T, y: T, rest: seq<T>, tail: seq<T>, key: T -> real, v: real)
    requires key(x) < key(y)
    requires WithKey(rest, key, v) == (if key(x) == v then [x] else []) + WithKey(tail, key, v)
    ensures WithKey([y] + rest, key, v)
         == (if key(x) == v then [x] else []) + WithKey([y] + tail, key, v)
  {
    WithKeyAppend([y], rest, key, v);
    WithKeyAppend([y], tail, key, v);
    if key(x) == v {
      assert WithKey([y], key, v) == [];
    }
  }

  /** Stability: for every key value, the elements with that key appear in the
      sorted sequence in the same order as in the input. */
  lemma {:induction false} SortDescStable<T>(xs: seq<T>, key: T -> real, v: real)
    ensures WithKey(SortDesc(xs, key), key, v) == WithKey(xs, key, v)
  {
    if xs != [] {
      SortDescStable(xs[1..], key, v);
      InsertWithKey(xs[0], SortDesc(xs[1..], key), key, v);
    }
  }

  lemma {:induction false} InsertDistinctBy<T, U>(x: T, ys: seq<T>, key: T -> real, f: T -> U)
    requires DistinctBy(ys, f)
    requires forall y :: y in ys ==> f(y) != f(x)
    ensures DistinctBy(Insert(x, ys, key), f)
  {
    if ys == [] || key(x) >= key(ys[0]) {
    } else {
      InsertDistinctBy(x, ys[1..], key, f);
      var rest := Insert(x, ys[1..], key);
      forall z | z in rest ensures f(z) != f(ys[0]) {
        InsertElement(x, ys[1..], key, z);
        if z != x {
          assert z in ys[1..];
          var k :| 0 <= k < |ys[1..]| && ys[1..][k] == z;
          assert ys[k + 1] == z;
        }
      }
      var r := [ys[0]] + rest;
      forall i, j | 0 <= i < j < |r| ensures f(r[i]) != f(r[j]) {
        if i == 0 {
          assert r[j] == rest[j - 1];
          assert r[j] in rest;
        } else {
          assert r[i] == rest[i - 1] && r[j] == rest[j - 1];
        }
      }
    }
  }

  /** Sorting keeps a projection that was one-to-one one-to-one. */
  lemma {:induction false} SortDescDistinctBy<T, U>(xs: seq<T>, key: T -> real, f: T -> U)
    requires DistinctBy(xs, f)
    ensures DistinctBy(SortDesc(xs, key), f)
  {
    if xs != [] {
      var tail := xs[1..];
      assert DistinctBy(tail, f) by {
        forall i, j | 0 <= i < j < |tail| ensures f(tail[i]) != f(tail[j]) {
          assert tail[i] == xs[i + 1] && tail[j] == xs[j + 1];
        }
      }
      SortDescDistinctBy(tail, key, f);
      var s := SortDesc(tail, key);
      forall y | y in s ensures f(y) != f(xs[0]) {
        SortDescElement(tail, key, y);
        var k :| 0 <= k < |tail| && tail[k] == y;
        assert xs[k + 1] == y;
      }
      InsertDistinctBy(xs[0], s, key, f);
    }
  }

  /** Elements with equal keys are ordered by `rank`. */
  ghost predicate TiesRanked<T>(xs: seq<T>, key: T -> real, rank: T -> int) {
    forall i, j :: 0 <= i < j < |xs| && key(xs[i]) == key(xs[j]) ==> rank(xs[i]) < rank(xs[j])
  }

  /** The elements of an insertion are the inserted one and the old ones. */
  lemma InsertElement<T>(x: T, ys: seq<T>, key: T -> real, z: T)
    ensures z in Insert(x, ys, key) <==> z == x || z in ys
  {
    assert z in Insert(x, ys, key) <==> z in multiset(Insert(x, ys, key));
  }

  /** TiesRanked, split into the head and the tail of a sequence. */
  lemma TiesRankedCons<T>(y: T, rest: seq<T>, key: T -> real, rank: T -> int)
    ensures TiesRanked([y] + rest, key, rank) <==>
      && TiesRanked(rest, key, rank)
      && (forall z :: z in rest && key(z) == key(y) ==> rank(y) < rank(z))
  {
    var r := [y] + rest;
    if TiesRanked(r, key, rank) {
      forall i, j | 0 <= i < j < |rest| && key(rest[i]) == key(rest[j]) ensures rank(rest[i]) < rank(rest[j]) {
        assert rest[i] == r[i + 1] && rest[j] == r[j + 1];
      }
      forall z | z in rest && key(z) == key(y) ensures rank(y) < rank(z) {
        var k :| 0 <= k < |rest| && rest[k] == z;
        assert r[0] == y && r[k + 1] == z;
      }
    }
    if TiesRanked(rest, key, rank) && (forall z :: z in rest && key(z) == key(y) ==> rank(y) < rank(z)) {
      forall i, j | 0 <= i < j < |r| && key(r[i]) == key(r[j]) ensures rank(r[i]) < rank(r[j]) {
        assert r[j] == rest[j - 1] && r[j] in rest;
        if i > 0 {
          assert r[i] == rest[i - 1];
        }
      }
    }
  }

  lemma {:induction false} InsertTiesRanked<T>(x: T, ys: seq<T>, key: T -> real, rank: T -> int)
    requires TiesRanked(ys, key, rank)
    requires forall y :: y in ys ==> rank(x) < rank(y)
    ensures TiesRanked(Insert(x, ys, key), key, rank)
  {
    if ys == [] || key(x) >= key(ys[0]) {
      TiesRankedCons(x, ys, key, rank);
    } else {
      var y, tail := ys[0], ys[1..];
      assert ys == [y] + tail;
      TiesRankedCons(y, tail, key, rank);
      InsertTiesRanked(x, tail, key, rank);
      var rest := Insert(x, tail, key);
      forall z | z in rest && key(z) == key(y) ensures rank(y) < rank(z) {
        InsertElement(x, tail, key, z);
      }
      assert Insert(x, ys, key) == [y] + rest;
      TiesRankedCons(y, rest, key, rank);
    }
  }

  /** If `rank` increases along the input, the sort breaks every tie by `rank`:
      equal keys keep their input order. */
  lemma {:induction false} SortDescTiesRanked<T>(xs: seq<T>, key: T -> real, rank: T -> int)
    requires forall i, j :: 0 <= i < j < |xs| ==> rank(xs[i]) < rank(xs[j])
    ensures TiesRanked(SortDesc(xs, key), key, rank)
  {
    if xs != [] {
      var tail := xs[1..];
      assert forall i, j :: 0 <= i < j < |tail| ==> rank(tail[i]) < rank(tail[j]) by {
        forall i, j | 0 <= i < j < |tail| ensures rank(tail[i]) < rank(tail[j]) {
          assert tail[i] == xs[i + 1] && tail[j] == xs[j + 1];
        }
      }
      SortDescTiesRanked(tail, key, rank);
      var s := SortDesc(tail, key);
      forall y | y in s ensures rank(xs[0]) < rank(y) {
        SortDescElement(tail, key, y);
        var k :| 0 <= k < |tail| && tail[k] == y;
        assert xs[k + 1] == y;
      }
      InsertTiesRanked(xs[0], s, key, rank);
    }
  }
}
