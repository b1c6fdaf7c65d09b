/**
 * `records.sort((a, b) => new Date(b.date).getTime() - new Date(a.date).getTime())`: a stable
 * sort, newest first. The date of a record is reduced to an integer key by the caller; the
 * engine's sort is stable, so records with equal keys keep their listing order.
 */
module Chronology {

  /** Places `x` before the first element whose key is not larger than its own. */
  function Insert<T>(x: T, ys: seq<T>, key: T -> int): seq<T> {
    if ys == [] || key(x) >= key(ys[0]) then [x] + ys
    else [ys[0]] + Insert(x, ys[1..], key)
  }

  /** The stable newest-first order of `xs`. */
  function NewestFirst<T>(xs: seq<T>, key: T -> int): seq<T> {
    if xs == [] then [] else Insert(xs[0], NewestFirst(xs[1..], key), key)
  }

  predicate IsNewestFirst<T>(xs: seq<T>, key: T -> int) {
    forall i, j | 0 <= i < j < |xs| :: key(xs[i]) >= key(xs[j])
  }

  /** The elements of `xs` whose key is `v`, in order. */
  function WithKey<T>(xs: seq<T>, key: T -> int, v: int): seq<T> {
    if xs == [] then [] else (if key(xs[0]) == v then [xs[0]] else []) + WithKey(xs[1..], key, v)
  }

  lemma {:induction false} InsertPermutes<T>(x: T, ys: seq<T>, key: T -> int)
    ensures multiset(Insert(x, ys, key)) == multiset{x} + multiset(ys)
  {
    if ys != [] && key(x) < key(ys[0]) {
      InsertPermutes(x, ys[1..], key);
      assert ys == [ys[0]] + ys[1..];
    }
  }

  predicate AtMost<T>(ys: seq<T>, key: T -> int, b: int) {
    forall i | 0 <= i < |ys| :: key(ys[i]) <= b
  }

  lemma {:induction false} InsertAtMost<T>(x: T, ys: seq<T>, key: T -> int, b: int)
    requires key(x) <= b && AtMost(ys, key, b)
    ensures AtMost(Insert(x, ys, key), key, b)
  {
    if ys != [] && key(x) < key(ys[0]) {
      assert AtMost(ys[1..], key, b) by {
        forall i | 0 <= i < |ys| - 1 ensures key(ys[1..][i]) <= b {
          assert ys[1..][i] == ys[i + 1];
        }
      }
      InsertAtMost(x, ys[1..], key, b);
    }
  }

  lemma {:induction false} InsertKeepsOrder<T>(x: T, ys: seq<T>, key: T -> int)
    requires IsNewestFirst(ys, key)
    ensures IsNewestFirst(Insert(x, ys, key), key)
  {
    if ys != [] && key(x) < key(ys[0]) {
      var t := ys[1..];
      assert IsNewestFirst(t, key) && AtMost(t, key, key(ys[0])) by {
        forall i | 0 <= i < |t| ensures t[i] == ys[i + 1] {
        }
      }
      InsertKeepsOrder(x, t, key);
      InsertAtMost(x, t, key, key(ys[0]));
      var r := Insert(x, t, key);
      var s := [ys[0]] + r;
      forall i, j | 0 <= i < j < |s| ensures key(s[i]) >= key(s[j]) {
        assert s[j] == r[j - 1];
        if i > 0 {
          assert s[i] == r[i - 1];
        }
      }
    }
  }

  /** The result is ordered newest first and holds exactly the input records. */
  lemma {:induction false} NewestFirstSorts<T>(xs: seq<T>, key: T -> int)
    ensures IsNewestFirst(NewestFirst(xs, key), key)
    ensures multiset(NewestFirst(xs, key)) == multiset(xs)
  {
    if xs != [] {
      NewestFirstSorts(xs[1..], key);
      InsertKeepsOrder(xs[0], NewestFirst(xs[1..], key), key);
      InsertPermutes(xs[0], NewestFirst(xs[1..], key), key);
      assert xs == [xs[0]] + xs[1..];
    }
  }

  lemma {:induction false} InsertWithKey<T>(x: T, ys: seq<T>, key: T -> int, v: int)
    ensures WithKey(Insert(x, ys, key), key, v) == (if key(x) == v then [x] else []) + WithKey(ys, key, v)
  {
    if ys == [] || key(x) >= key(ys[0]) {
      assert ([x] + ys)[1..] == ys;
    } else {
      InsertWithKey(x, ys[1..], key, v);
      assert ([ys[0]] + Insert(x, ys[1..], key))[1..] == Insert(x, ys[1..], key);
    }
  }

  /** Stability: the records sharing a date keep their listing order. */
  lemma {:induction false} NewestFirstStable<T>(xs: seq<T>, key: T -> int, v: int)
    ensures WithKey(NewestFirst(xs, key), key, v) == WithKey(xs, key, v)
  {
    if xs != [] {
      NewestFirstStable(xs[1..], key, v);
      InsertWithKey(xs[0], NewestFirst(xs[1..], key), key, v);
    }
  }
}
