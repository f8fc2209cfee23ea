/** Sequence helpers shared by the scrapbook and the quiz selection. */
module Seqs {

  /** No value occurs twice. */
  predicate NoDup<T(==)>(xs: seq<T>) {
    forall i, j :: 0 <= i < j < |xs| ==> xs[i] != xs[j]
  }

  /** `xs.filter(y => y !== x)`: every occurrence of `x` dropped, the rest in order. */
  function Without<T(==)>(xs: seq<T>, x: T): (r: seq<T>)
    ensures multiset(r) == multiset(xs)[x := 0]
  {
    if xs == [] then []
    else
      assert xs == [xs[0]] + xs[1..]; (if xs[0] == x then [] else [xs[0]]) + Without(xs[1..], x)
  }

  /** The filter keeps every other value as often as it occurred and drops all of `x`. */
  lemma {:induction false} WithoutCounts<T>(xs: seq<T>, x: T)
    ensures multiset(Without(xs, x)) == multiset(xs)[x := 0]
    ensures x !in Without(xs, x)
  {
    if xs != [] {
      assert xs == [xs[0]] + xs[1..];
      WithoutCounts(xs[1..], x);
    }
  }

  lemma {:induction false} WithoutAppend<T>(xs: seq<T>, ys: seq<T>, x: T)
    ensures Without(xs + ys, x) == Without(xs, x) + Without(ys, x)
  {
    if xs == [] {
      assert xs + ys == ys;
    } else {
      assert (xs + ys)[1..] == xs[1..] + ys;
      WithoutAppend(xs[1..], ys, x);
    }
  }

  /** Filtering out a value that does not occur changes nothing. */
  lemma {:induction false} WithoutAbsent<T>(xs: seq<T>, x: T)
    requires x !in xs
    ensures Without(xs, x) == xs
  {
    if xs != [] {
      WithoutAbsent(xs[1..], x);
    }
  }

  /** Filtering keeps a duplicate-free sequence duplicate-free. */
  lemma {:induction false} WithoutNoDup<T>(xs: seq<T>, x: T)
    requires NoDup(xs)
    ensures NoDup(Without(xs, x))
  {
    if xs != [] {
      assert NoDup(xs[1..]) by {
        forall i, j | 0 <= i < j < |xs[1..]| ensures xs[1..][i] != xs[1..][j] {
          assert xs[1..][i] == xs[i + 1] && xs[1..][j] == xs[j + 1];
        }
      }
      WithoutNoDup(xs[1..], x);
      WithoutCounts(xs[1..], x);
      var rest := Without(xs[1..], x);
      assert xs[0] !in xs[1..] by {
        forall k | 0 <= k < |xs[1..]| ensures xs[1..][k] != xs[0] {
          assert xs[1..][k] == xs[k + 1];
        }
      }
      assert multiset(rest)[xs[0]] == 0;
    }
  }

  /** Dropping one occurrence of `x` does not change what the filter keeps. */
  lemma WithoutDropOne<T>(a: seq<T>, x: T, b: seq<T>)
    ensures Without(a + [x] + b, x) == Without(a + b, x)
  {
    assert a + [x] + b == a + ([x] + b);
    assert ([x] + b)[1..] == b;
    assert Without([x] + b, x) == Without(b, x);
    WithoutAppend(a, [x] + b, x);
    WithoutAppend(a, b, x);
  }

  /** Appending a new value keeps a sequence duplicate-free, and the filter drops it again. */
  lemma AppendFresh<T>(xs: seq<T>, x: T)
    requires NoDup(xs) && x !in xs
    ensures NoDup(xs + [x])
    ensures Without(xs + [x], x) == Without(xs, x)
  {
    WithoutDropOne(xs, x, []);
    assert xs + [x] + [] == xs + [x] && xs + [] == xs;
  }

  /** In a duplicate-free sequence the value at `i` occurs nowhere else. */
  lemma NoDupUnique<T>(xs: seq<T>, i: nat)
    requires NoDup(xs) && i < |xs|
    ensures xs[i] !in xs[..i] && xs[i] !in xs[i + 1..]
  {
    var a, b := xs[..i], xs[i + 1..];
    forall k | 0 <= k < |a| ensures a[k] != xs[i] {
      assert a[k] == xs[k];
    }
    forall k | 0 <= k < |b| ensures b[k] != xs[i] {
      assert b[k] == xs[i + 1 + k];
    }
  }

  /** Filtering out a value that occurs exactly once removes just that occurrence. */
  lemma WithoutAround<T>(a: seq<T>, x: T, b: seq<T>)
    requires x !in a && x !in b
    ensures Without(a + [x] + b, x) == a + b
  {
    WithoutDropOne(a, x, b);
    WithoutAbsent(a + b, x);
  }
}
