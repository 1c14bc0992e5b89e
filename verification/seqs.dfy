/** The JavaScript array operations the handlers use — `map`, `indexOf`,
    `splice(i, 1)` and `unshift` — and the "first entry whose key matches"
    notion the handlers' removals are stated with. */
module Seqs {

  /** `xs.map(f)` */
  function Map<T, U>(xs: seq<T>, f: T -> U): (ys: seq<U>)
    ensures |ys| == |xs|
    ensures forall i :: 0 <= i < |xs| ==> ys[i] == f(xs[i])
  {
    seq(|xs|, i requires 0 <= i < |xs| => f(xs[i]))
  }

  /** `xs.indexOf(x)`: the position of the first occurrence of `x`, or -1. */
  function IndexOf<T(==)>(xs: seq<T>, x: T): (i: int)
    ensures -1 <= i < |xs|
    ensures i == -1 <==> x !in xs
    ensures 0 <= i ==> xs[i] == x && x !in xs[..i]
  {
    if |xs| == 0 then -1
    else if xs[0] == x then 0
    else
      var j := IndexOf(xs[1..], x);
      if j < 0 then -1
      else
        assert xs[..j + 1] == [xs[0]] + xs[1..][..j];
        j + 1
  }

  /** `xs.splice(start, 1)` as JavaScript defines it: a negative start counts
      from the end (so -1 removes the LAST element), and a start at or past
      the end removes nothing. */
  function Splice1<T>(xs: seq<T>, start: int): (ys: seq<T>)
    ensures 0 <= start < |xs| ==> ys == xs[..start] + xs[start + 1..]
    ensures start == -1 && |xs| > 0 ==> ys == xs[..|xs| - 1]
    ensures |xs| <= start ==> ys == xs
  {
    var k :=
      if start < 0 then (if |xs| + start < 0 then 0 else |xs| + start)
      else if start > |xs| then |xs| else start;
    if k < |xs| then xs[..k] + xs[k + 1..] else xs
  }

  /** `i` is the first position whose entry has key `k`. */
  ghost predicate IsFirst<T, K>(xs: seq<T>, key: T -> K, k: K, i: int) {
    && 0 <= i < |xs|
    && key(xs[i]) == k
    && forall j :: 0 <= j < i ==> key(xs[j]) != k
  }

  /** Some entry has key `k`. */
  ghost predicate HasKey<T, K>(xs: seq<T>, key: T -> K, k: K) {
    exists i :: 0 <= i < |xs| && key(xs[i]) == k
  }

  /** No key occurs twice. */
  ghost predicate KeysUnique<T, K>(xs: seq<T>, key: T -> K) {
    forall i, j :: 0 <= i < j < |xs| ==> key(xs[i]) != key(xs[j])
  }

  /** `ys` is `xs` with its first entry keyed `k` spliced out. */
  ghost predicate RemovedFirst<T, K>(xs: seq<T>, key: T -> K, k: K, ys: seq<T>) {
    exists i :: IsFirst(xs, key, k, i) && ys == xs[..i] + xs[i + 1..]
  }

  /** The idiom `xs.map(key).indexOf(k)` finds exactly the first entry keyed
      `k`, and answers -1 exactly when there is none. */
  lemma IndexOfMap<T, K>(xs: seq<T>, key: T -> K, k: K)
    ensures IndexOf(Map(xs, key), k) == -1 <==> !HasKey(xs, key, k)
    ensures IndexOf(Map(xs, key), k) >= 0 ==> IsFirst(xs, key, k, IndexOf(Map(xs, key), k))
  {
    var ks := Map(xs, key);
    var i := IndexOf(ks, k);
    if i == -1 {
      forall j | 0 <= j < |xs| ensures key(xs[j]) != k {
        assert ks[j] == key(xs[j]);
      }
    } else {
      forall j | 0 <= j < i ensures key(xs[j]) != k {
        assert ks[..i][j] == key(xs[j]);
      }
    }
  }

  /** There is at most one first position. */
  lemma FirstIsUnique<T, K>(xs: seq<T>, key: T -> K, k: K, i: int, j: int)
    requires IsFirst(xs, key, k, i) && IsFirst(xs, key, k, j)
    ensures i == j
  {
  }

  /** Splicing out one entry keeps every other entry, in order, and drops the
      spliced entry from the multiset of entries. */
  lemma SpliceOut<T>(xs: seq<T>, i: int)
    requires 0 <= i < |xs|
    ensures multiset(xs[..i] + xs[i + 1..]) + multiset{xs[i]} == multiset(xs)
  {
    assert xs == xs[..i] + [xs[i]] + xs[i + 1..];
  }

  /** Removing an entry keeps keys unique. */
  lemma SpliceKeepsKeysUnique<T, K>(xs: seq<T>, key: T -> K, i: int)
    requires 0 <= i < |xs| && KeysUnique(xs, key)
    ensures KeysUnique(xs[..i] + xs[i + 1..], key)
  {
    var ys := xs[..i] + xs[i + 1..];
    forall a, b | 0 <= a < b < |ys| ensures key(ys[a]) != key(ys[b]) {
      var a' := if a < i then a else a + 1;
      var b' := if b < i then b else b + 1;
      assert ys[a] == xs[a'] && ys[b] == xs[b'];
    }
  }

  /** Under unique keys, splicing out the entry keyed `k` leaves no entry
      keyed `k`. */
  lemma SpliceRemovesKey<T, K>(xs: seq<T>, key: T -> K, i: int)
    requires 0 <= i < |xs| && KeysUnique(xs, key)
    ensures !HasKey(xs[..i] + xs[i + 1..], key, key(xs[i]))
  {
    var ys := xs[..i] + xs[i + 1..];
    forall a | 0 <= a < |ys| ensures key(ys[a]) != key(xs[i]) {
      if a < i { assert ys[a] == xs[a]; } else { assert ys[a] == xs[a + 1]; }
    }
  }
}
