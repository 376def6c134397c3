/** What several modules share: options, powers of two, and regrouping of sequences. */
module Basics {

  datatype Option<T> = None | Some(value: T)

  function Pow2(k: nat): (p: nat)
    ensures p > 0
  {
    if k == 0 then 1 else 2 * Pow2(k - 1)
  }

  /** The set of what a sequence holds in its first i places. */
  ghost predicate Cached<T(!new)>(xs: seq<T>, i: nat, cache: set<T>) {
    i <= |xs| && forall x :: x in cache <==> x in xs[..i]
  }

  lemma CachedNext<T(!new)>(xs: seq<T>, i: nat, cache: set<T>)
    requires i < |xs| && Cached(xs, i, cache)
    ensures xs[i] in cache <==> xs[i] in xs[..i]
    ensures Cached(xs, i + 1, cache + {xs[i]})
    ensures xs[i] in cache ==> Cached(xs, i + 1, cache)
  {
    assert xs[..i + 1] == xs[..i] + [xs[i]];
  }

  lemma Regroup<T>(a: seq<T>, b: seq<T>, c: seq<T>)
    ensures a + (b + c) == a + b + c
  {
  }

  lemma Exchanged<T>(a: seq<T>, x: T, b: seq<T>, y: T)
    ensures multiset(a + ([y] + b)) == multiset(a + ([x] + b) + [y]) - multiset{x}
  {
  }

  lemma PartsOf<T>(xs: seq<T>, i: nat, n: nat)
    requires i < n == |xs| - 1
    ensures xs == xs[..i] + ([xs[i]] + xs[i + 1..n]) + [xs[n]]
    ensures xs[i := xs[n]][..n] == xs[..i] + ([xs[n]] + xs[i + 1..n])
  {
  }

  /** The last element takes the place of another, and only that one is gone. */
  lemma LastInPlace<T>(xs: seq<T>, i: nat, n: nat)
    requires i <= n == |xs| - 1
    ensures multiset(xs[i := xs[n]][..n]) == multiset(xs) - multiset{xs[i]}
  {
    if i < n {
      PartsOf(xs, i, n);
      Exchanged(xs[..i], xs[i], xs[i + 1..n], xs[n]);
    } else {
      assert xs == xs[..n] + [xs[n]] && xs[i := xs[n]] == xs;
    }
  }
}
