/**
 Generic helpers over tables. A table is the sequence of its rows in storage
 order. The model reads a query without ORDER BY as returning the rows in
 storage order; no contract depends on that order.
 */
module Rows {

  datatype Option<+T> = None | Some(value: T)

  /** The rows of `xs` satisfying `f`, in their original order (a WHERE clause). */
  function Keep<T>(xs: seq<T>, f: T -> bool): (r: seq<T>)
    ensures |r| <= |xs|
    ensures forall x :: x in r ==> x in xs && f(x)
    ensures forall x :: x in xs && f(x) ==> x in r
    ensures multiset(r) <= multiset(xs)
    decreases |xs|
  {
    if |xs| == 0 then []
    else
      assert xs == [xs[0]] + xs[1..];
      if f(xs[0]) then [xs[0]] + Keep(xs[1..], f) else Keep(xs[1..], f)
  }

  /** The first row satisfying `f`, if any (`query.filter(...).first()`). */
  function Find<T>(xs: seq<T>, f: T -> bool): (r: Option<T>)
    ensures r.Some? ==> r.value in xs && f(r.value)
    ensures r.None? <==> forall x :: x in xs ==> !f(x)
    decreases |xs|
  {
    if |xs| == 0 then None
    else if f(xs[0]) then Some(xs[0])
    else Find(xs[1..], f)
  }

  /** Rewrites with `g` every row satisfying `f`; other rows are kept as they are (an UPDATE). */
  function Update<T>(xs: seq<T>, f: T -> bool, g: T -> T): (r: seq<T>)
    ensures |r| == |xs|
    ensures forall i :: 0 <= i < |xs| ==> r[i] == if f(xs[i]) then g(xs[i]) else xs[i]
  {
    seq(|xs|, i requires 0 <= i < |xs| => if f(xs[i]) then g(xs[i]) else xs[i])
  }

  /** No two rows of `xs` share a `key` (a primary key or UNIQUE constraint). */
  ghost predicate DistinctBy<T, K>(xs: seq<T>, key: T -> K)
  {
    forall i, j :: 0 <= i < j < |xs| ==> key(xs[i]) != key(xs[j])
  }

  /** Deleting rows never breaks a uniqueness constraint. */
  lemma {:induction false} KeepDistinct<T, K>(xs: seq<T>, f: T -> bool, key: T -> K)
    requires DistinctBy(xs, key)
    ensures DistinctBy(Keep(xs, f), key)
    decreases |xs|
  {
    if |xs| > 0 {
      var t := xs[1..];
      assert DistinctBy(t, key) by {
        forall i, j | 0 <= i < j < |t| ensures key(t[i]) != key(t[j]) {
          assert t[i] == xs[i + 1] && t[j] == xs[j + 1];
        }
      }
      KeepDistinct(t, f, key);
      if f(xs[0]) {
        var k := Keep(t, f);
        var r := [xs[0]] + k;
        forall i, j | 0 <= i < j < |r| ensures key(r[i]) != key(r[j]) {
          if i == 0 {
            assert r[j] in t;
            var m :| 0 <= m < |t| && t[m] == r[j];
            assert xs[m + 1] == r[j];
          } else {
            assert r[i] == k[i - 1] && r[j] == k[j - 1];
          }
        }
      }
    }
  }

  /** Appending a row whose key is not yet taken keeps a uniqueness constraint. */
  lemma AppendDistinct<T, K>(xs: seq<T>, x: T, key: T -> K)
    requires DistinctBy(xs, key)
    requires forall y :: y in xs ==> key(y) != key(x)
    ensures DistinctBy(xs + [x], key)
  {
    var r := xs + [x];
    forall i, j | 0 <= i < j < |r| ensures key(r[i]) != key(r[j]) {
      if j == |xs| {
        assert r[i] == xs[i];
      } else {
        assert r[i] == xs[i] && r[j] == xs[j];
      }
    }
  }

  /** An update that never changes a row's key keeps a uniqueness constraint. */
  lemma UpdateDistinct<T, K>(xs: seq<T>, f: T -> bool, g: T -> T, key: T -> K)
    requires DistinctBy(xs, key)
    requires forall x :: key(g(x)) == key(x)
    ensures DistinctBy(Update(xs, f, g), key)
  {
    var r := Update(xs, f, g);
    forall i, j | 0 <= i < j < |r| ensures key(r[i]) != key(r[j]) {
      assert key(r[i]) == key(xs[i]) && key(r[j]) == key(xs[j]);
    }
  }

  /** Every row of a prefix is a row of the whole table. */
  lemma PrefixIn<T>(a: seq<T>, b: seq<T>)
    requires |a| <= |b| && b[..|a|] == a
    ensures forall x :: x in a ==> x in b
  {
    forall x | x in a ensures x in b {
      var i :| 0 <= i < |a| && a[i] == x;
      assert b[i] == x;
    }
  }

  lemma {:induction false} KeepAppend<T>(xs: seq<T>, ys: seq<T>, f: T -> bool)
    ensures Keep(xs + ys, f) == Keep(xs, f) + Keep(ys, f)
    decreases |xs|
  {
    if |xs| > 0 {
      assert (xs + ys)[1..] == xs[1..] + ys;
      KeepAppend(xs[1..], ys, f);
    } else {
      assert xs + ys == ys;
    }
  }

  /** Keeping the rows of a table that already all satisfy the filter changes nothing. */
  lemma {:induction false} KeepAll<T>(xs: seq<T>, f: T -> bool)
    requires forall x :: x in xs ==> f(x)
    ensures Keep(xs, f) == xs
    decreases |xs|
  {
    if |xs| > 0 {
      KeepAll(xs[1..], f);
      assert xs == [xs[0]] + xs[1..];
    }
  }

  /** A filter no row passes keeps nothing. */
  lemma KeepNone<T>(xs: seq<T>, f: T -> bool)
    requires forall x :: x in xs ==> !f(x)
    ensures Keep(xs, f) == []
  {
  }
}
