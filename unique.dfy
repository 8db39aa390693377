/**
 * `list(dict.fromkeys(xs))`: the distinct elements of `xs`, each where it first occurs.
 * A dict keeps its keys in insertion order and inserting a key that is already present
 * leaves it where it is.
 */
module Unique {
  predicate NoDuplicates<T(==,!new)>(xs: seq<T>) {
    forall i, j :: 0 <= i < j < |xs| ==> xs[i] != xs[j]
  }

  /** Inserting the elements of `xs` one by one as the keys of a dict, then listing the keys. */
  function Dedupe<T(==,!new)>(xs: seq<T>): (r: seq<T>)
    ensures NoDuplicates(r)
    ensures forall x :: x in r <==> x in xs
    decreases |xs|
  {
    if xs == [] then []
    else
      var d := Dedupe(xs[..|xs| - 1]);
      var x := xs[|xs| - 1];
      if x in d then d else d + [x]
  }

  /** Index of the first occurrence of `x` in `xs`. */
  function FirstIndex<T(==,!new)>(xs: seq<T>, x: T): (i: nat)
    requires x in xs
    ensures i < |xs| && xs[i] == x && x !in xs[..i]
  {
    if xs[0] == x then 0
    else
      var i := 1 + FirstIndex(xs[1..], x);
      assert xs[..i] == [xs[0]] + xs[1..][..i - 1];
      i
  }

  /** A list without repetitions is left as it is: deduplicating twice changes nothing. */
  lemma {:induction false} DedupeDistinct<T(!new)>(xs: seq<T>)
    requires NoDuplicates(xs)
    ensures Dedupe(xs) == xs
    decreases |xs|
  {
    if xs != [] {
      var init := xs[..|xs| - 1];
      DedupeDistinct(init);
      assert xs[|xs| - 1] !in init;
      assert init + [xs[|xs| - 1]] == xs;
    }
  }

  lemma DedupeIdempotent<T(!new)>(xs: seq<T>)
    ensures Dedupe(Dedupe(xs)) == Dedupe(xs)
  {
    DedupeDistinct(Dedupe(xs));
  }

  /** What a list dedupes to begins the dedupe of any extension of that list. */
  lemma {:induction false} DedupePrefix<T(!new)>(a: seq<T>, b: seq<T>)
    ensures |Dedupe(a)| <= |Dedupe(a + b)| && Dedupe(a + b)[..|Dedupe(a)|] == Dedupe(a)
    decreases |b|
  {
    if b == [] {
      assert a + b == a;
    } else {
      var b' := b[..|b| - 1];
      assert (a + b)[..|a + b| - 1] == a + b';
      DedupePrefix(a, b');
    }
  }

  /** The kept elements are in the order of their first occurrences. */
  lemma {:induction false} DedupeOrder<T(!new)>(xs: seq<T>, i: nat, j: nat)
    requires i < j < |Dedupe(xs)|
    ensures FirstIndex(xs, Dedupe(xs)[i]) < FirstIndex(xs, Dedupe(xs)[j])
    decreases |xs|
  {
    var init := xs[..|xs| - 1];
    var d := Dedupe(init);
    var x := xs[|xs| - 1];
    var r := Dedupe(xs);
    FirstIndexInit(xs, r[i]);
    if j < |d| {
      assert r[i] == d[i] && r[j] == d[j];
      FirstIndexInit(xs, r[j]);
      DedupeOrder(init, i, j);
    } else {
      assert r[j] == x && x !in init;
      assert r[i] in init;
    }
  }

  /** An element that occurs before the last position has its first occurrence there too. */
  lemma FirstIndexInit<T(!new)>(xs: seq<T>, y: T)
    requires |xs| > 0 && y in xs[..|xs| - 1]
    ensures FirstIndex(xs, y) == FirstIndex(xs[..|xs| - 1], y)
  {
    var init := xs[..|xs| - 1];
    var k := FirstIndex(init, y);
    assert xs[..k] == init[..k];
    FirstIndexUnique(xs, y, k);
  }

  /** The first occurrence is the one position holding `y` with no `y` before it. */
  lemma FirstIndexUnique<T(!new)>(xs: seq<T>, y: T, k: nat)
    requires k < |xs| && xs[k] == y && y !in xs[..k]
    ensures FirstIndex(xs, y) == k
  {
  }
}
