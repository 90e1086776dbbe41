/**
 Ordering of query results. `ORDER BY key DESC` and Python's
 `list.sort(key=..., reverse=True)` are both modelled by one stable sort on an
 integer key: the result is a permutation of the input, non-increasing in the
 key, and rows with equal keys keep their input order.
 */
module Ordering {

  ghost predicate NonIncreasing<T>(xs: seq<T>, key: T -> int)
  {
    forall i, j :: 0 <= i < j < |xs| ==> key(xs[i]) >= key(xs[j])
  }

  ghost predicate NonDecreasing<T>(xs: seq<T>, key: T -> int)
  {
    forall i, j :: 0 <= i < j < |xs| ==> key(xs[i]) <= key(xs[j])
  }

  /** The rows of `xs` whose key is `k`, in their order in `xs`. */
  function WithKey<T>(xs: seq<T>, key: T -> int, k: int): (r: seq<T>)
    ensures forall x :: x in r ==> x in xs && key(x) == k
    decreases |xs|
  {
    if |xs| == 0 then []
    else if key(xs[0]) == k then [xs[0]] + WithKey(xs[1..], key, k)
    else WithKey(xs[1..], key, k)
  }

  /** Stability: for every key value, the rows carrying it appear in the same order. */
  ghost predicate StableFor<T>(r: seq<T>, xs: seq<T>, key: T -> int)
  {
    forall k :: WithKey(r, key, k) == WithKey(xs, key, k)
  }

  /** Places `x` in front of the first row whose key does not exceed its own. */
  function Insert<T>(x: T, xs: seq<T>, key: T -> int): (r: seq<T>)
    requires NonIncreasing(xs, key)
    ensures NonIncreasing(r, key)
    ensures multiset(r) == multiset(xs) + multiset{x}
    ensures |r| == |xs| + 1
    ensures r[0] == x || (|xs| > 0 && r[0] == xs[0])
    decreases |xs|
  {
    if |xs| == 0 then [x]
    else if key(x) >= key(xs[0]) then [x] + xs
    else
      var rest := Insert(x, xs[1..], key);
      assert xs == [xs[0]] + xs[1..];
      [xs[0]] + rest
  }

  /** Stable descending sort by `key` (insertion sort). */
  function SortDesc<T>(xs: seq<T>, key: T -> int): (r: seq<T>)
    ensures NonIncreasing(r, key)
    ensures multiset(r) == multiset(xs)
    ensures |r| == |xs|
    decreases |xs|
  {
    if |xs| == 0 then []
    else
      assert xs == [xs[0]] + xs[1..];
      Insert(xs[0], SortDesc(xs[1..], key), key)
  }

  /** Stable ascending sort by `key`: a descending sort on the negated key. */
  function SortAsc<T>(xs: seq<T>, key: T -> int): (r: seq<T>)
    ensures NonDecreasing(r, key)
    ensures multiset(r) == multiset(xs)
  {
    var r := SortDesc(xs, x => -key(x));
    assert forall i, j :: 0 <= i < j < |r| ==> -key(r[i]) >= -key(r[j]);
    r
  }

  lemma {:induction false} WithKeyAppend<T>(a: seq<T>, b: seq<T>, key: T -> int, k: int)
    ensures WithKey(a + b, key, k) == WithKey(a, key, k) + WithKey(b, key, k)
    decreases |a|
  {
    if |a| > 0 {
      assert (a + b)[1..] == a[1..] + b;
      WithKeyAppend(a[1..], b, key, k);
    } else {
      assert a + b == b;
    }
  }

  /** Inserting `x` adds it in front of the rows sharing its key and touches no other key group. */
  lemma {:induction false} InsertWithKey<T>(x: T, xs: seq<T>, key: T -> int, k: int)
    requires NonIncreasing(xs, key)
    ensures WithKey(Insert(x, xs, key), key, k) == (if key(x) == k then [x] else []) + WithKey(xs, key, k)
    decreases |xs|
  {
    if |xs| == 0 {
    } else if key(x) >= key(xs[0]) {
      WithKeyUnfold([x] + xs, key, k);
      assert ([x] + xs)[1..] == xs;
    } else {
      TailNonIncreasing(xs, key);
      InsertWithKey(x, xs[1..], key, k);
      InsertBehindHead(x, xs, key, k);
    }
  }

  /** The step of `InsertWithKey` where `x` goes behind the head of `xs`. */
  lemma InsertBehindHead<T>(x: T, xs: seq<T>, key: T -> int, k: int)
    requires NonIncreasing(xs, key) && |xs| > 0 && key(x) < key(xs[0])
    requires NonIncreasing(xs[1..], key)
    requires WithKey(Insert(x, xs[1..], key), key, k) == (if key(x) == k then [x] else []) + WithKey(xs[1..], key, k)
    ensures WithKey(Insert(x, xs, key), key, k) == (if key(x) == k then [x] else []) + WithKey(xs, key, k)
  {
    var r := Insert(x, xs, key);
    var rest := Insert(x, xs[1..], key);
    assert r == [xs[0]] + rest;
    WithKeyUnfold(r, key, k);
    assert r[1..] == rest;
    WithKeyUnfold(xs, key, k);
  }

  /** `SortDesc` is stable. */
  lemma {:induction false} SortDescStable<T>(xs: seq<T>, key: T -> int)
    ensures StableFor(SortDesc(xs, key), xs, key)
    decreases |xs|
  {
    if |xs| > 0 {
      forall k ensures WithKey(SortDesc(xs, key), key, k) == WithKey(xs, key, k) {
        SortDescStable(xs[1..], key);
        assert WithKey(SortDesc(xs[1..], key), key, k) == WithKey(xs[1..], key, k);
        InsertWithKey(xs[0], SortDesc(xs[1..], key), key, k);
      }
    }
  }

  /**
   A non-increasing, stable permutation is unique: any sequence with these
   three properties is exactly what `SortDesc` returns.
   */
  lemma {:induction false} SortDescUnique<T>(r: seq<T>, xs: seq<T>, key: T -> int)
    requires NonIncreasing(r, key)
    requires multiset(r) == multiset(xs)
    requires StableFor(r, xs, key)
    ensures r == SortDesc(xs, key)
  {
    SortDescStable(xs, key);
    var s := SortDesc(xs, key);
    SortedStableEqual(r, s, key);
  }

  /** Two non-increasing sequences with the same key groups are equal. */
  lemma {:induction false} SortedStableEqual<T>(a: seq<T>, b: seq<T>, key: T -> int)
    requires NonIncreasing(a, key) && NonIncreasing(b, key)
    requires forall k :: WithKey(a, key, k) == WithKey(b, key, k)
    ensures a == b
    decreases |a| + |b|
  {
    if |a| == 0 && |b| == 0 {
    } else if |a| == 0 {
      WithKeyHead(b, key);
      assert false;
    } else if |b| == 0 {
      WithKeyHead(a, key);
      assert false;
    } else {
      WithKeyHead(a, key);
      WithKeyHead(b, key);
      var ka, kb := key(a[0]), key(b[0]);
      if ka < kb {
        WithKeyBelow(a, key, kb);
        assert false;
      } else if kb < ka {
        WithKeyBelow(b, key, ka);
        assert false;
      }
      assert a[0] == WithKey(a, key, ka)[0] == WithKey(b, key, ka)[0] == b[0];
      forall k ensures WithKey(a[1..], key, k) == WithKey(b[1..], key, k) {
        assert WithKey(a, key, k) == WithKey(b, key, k);
        WithKeyUnfold(a, key, k);
        WithKeyUnfold(b, key, k);
        var p := if key(a[0]) == k then [a[0]] else [];
        assert WithKey(a[1..], key, k) == WithKey(a, key, k)[|p|..];
        assert WithKey(b[1..], key, k) == WithKey(b, key, k)[|p|..];
      }
      TailNonIncreasing(a, key);
      TailNonIncreasing(b, key);
      SortedStableEqual(a[1..], b[1..], key);
      assert a == [a[0]] + a[1..] && b == [b[0]] + b[1..];
    }
  }

  lemma WithKeyUnfold<T>(xs: seq<T>, key: T -> int, k: int)
    requires |xs| > 0
    ensures WithKey(xs, key, k) == (if key(xs[0]) == k then [xs[0]] else []) + WithKey(xs[1..], key, k)
  {
  }

  lemma WithKeyHead<T>(xs: seq<T>, key: T -> int)
    requires |xs| > 0
    ensures WithKey(xs, key, key(xs[0])) == [xs[0]] + WithKey(xs[1..], key, key(xs[0]))
  {
    WithKeyUnfold(xs, key, key(xs[0]));
  }

  /** In a non-increasing sequence headed by a key below `k`, no row has key `k`. */
  lemma WithKeyBelow<T>(xs: seq<T>, key: T -> int, k: int)
    requires NonIncreasing(xs, key)
    requires |xs| > 0 && key(xs[0]) < k
    ensures WithKey(xs, key, k) == []
  {
  }

  lemma TailNonIncreasing<T>(xs: seq<T>, key: T -> int)
    requires NonIncreasing(xs, key) && |xs| > 0
    ensures NonIncreasing(xs[1..], key)
  {
    forall i, j | 0 <= i < j < |xs[1..]| ensures key(xs[1..][i]) >= key(xs[1..][j]) {
      assert xs[1..][i] == xs[i + 1] && xs[1..][j] == xs[j + 1];
    }
  }
}
