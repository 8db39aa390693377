/**
 * Lists of lists, joined in order: what repeated `extend` calls build.
 */
module Seqs {
  /** The lists of `xss`, one after another. */
  function Flatten<T>(xss: seq<seq<T>>): (r: seq<T>)
    ensures xss == [] ==> r == []
    decreases |xss|
  {
    if xss == [] then [] else Flatten(xss[..|xss| - 1]) + xss[|xss| - 1]
  }

  /** Joining two runs of lists is joining their joins. */
  lemma {:induction false} FlattenAppend<T>(a: seq<seq<T>>, b: seq<seq<T>>)
    ensures Flatten(a + b) == Flatten(a) + Flatten(b)
    decreases |b|
  {
    if b == [] {
      assert a + b == a;
    } else {
      var b' := b[..|b| - 1];
      assert (a + b)[..|a + b| - 1] == a + b';
      FlattenAppend(a, b');
    }
  }

  /** Extending by one more list: the loop step of every `for ...: xs.extend(...)`. */
  lemma FlattenSnoc<T>(xss: seq<seq<T>>, i: nat)
    requires i < |xss|
    ensures Flatten(xss[..i + 1]) == Flatten(xss[..i]) + xss[i]
  {
    assert xss[..i + 1][..i] == xss[..i];
  }

  /** Every element of the join comes from one of the lists, and back. */
  lemma {:induction false} InFlatten<T>(xss: seq<seq<T>>, x: T)
    ensures x in Flatten(xss) <==> exists i :: 0 <= i < |xss| && x in xss[i]
    decreases |xss|
  {
    if xss != [] {
      var init := xss[..|xss| - 1];
      InFlatten(init, x);
      if x in Flatten(xss) && x !in xss[|xss| - 1] {
        var i :| 0 <= i < |init| && x in init[i];
        assert xss[i] == init[i];
      }
      if exists i :: 0 <= i < |xss| && x in xss[i] {
        var i :| 0 <= i < |xss| && x in xss[i];
        if i < |xss| - 1 {
          assert x in init[i];
        }
      }
    }
  }

  /** The join is as long as its lists together. */
  function TotalLength<T>(xss: seq<seq<T>>): nat
    decreases |xss|
  {
    if xss == [] then 0 else TotalLength(xss[..|xss| - 1]) + |xss[|xss| - 1]|
  }

  lemma {:induction false} FlattenLength<T>(xss: seq<seq<T>>)
    ensures |Flatten(xss)| == TotalLength(xss)
    decreases |xss|
  {
    if xss != [] {
      FlattenLength(xss[..|xss| - 1]);
    }
  }

  /** The elements of `xs` that satisfy `f`, in order. */
  function Filter<T>(f: T -> bool, xs: seq<T>): (r: seq<T>)
    ensures |r| <= |xs|
    decreases |xs|
  {
    if xs == [] then []
    else Filter(f, xs[..|xs| - 1]) + (if f(xs[|xs| - 1]) then [xs[|xs| - 1]] else [])
  }

  lemma {:induction false} FilterAppend<T>(f: T -> bool, a: seq<T>, b: seq<T>)
    ensures Filter(f, a + b) == Filter(f, a) + Filter(f, b)
    decreases |b|
  {
    if b == [] {
      assert a + b == a;
    } else {
      var b' := b[..|b| - 1];
      assert (a + b)[..|a + b| - 1] == a + b';
      FilterAppend(f, a, b');
    }
  }

  /** Filtering each list and joining the results is filtering the join. */
  lemma {:induction false} FilterFlatten<T>(f: T -> bool, xss: seq<seq<T>>, yss: seq<seq<T>>)
    requires |yss| == |xss|
    requires forall i :: 0 <= i < |xss| ==> yss[i] == Filter(f, xss[i])
    ensures Flatten(yss) == Filter(f, Flatten(xss))
    decreases |xss|
  {
    if xss != [] {
      var n := |xss| - 1;
      FilterFlatten(f, xss[..n], yss[..n]);
      FilterAppend(f, Flatten(xss[..n]), xss[n]);
    }
  }

  lemma {:induction false} InFilter<T>(f: T -> bool, xs: seq<T>, x: T)
    ensures x in Filter(f, xs) <==> x in xs && f(x)
    decreases |xs|
  {
    if xs != [] {
      var init := xs[..|xs| - 1];
      InFilter(f, init, x);
      assert xs == init + [xs[|xs| - 1]];
    }
  }

  /** `f` applied to each element of `xs`. */
  function Map<T, U>(f: T -> U, xs: seq<T>): (r: seq<U>)
    ensures |r| == |xs|
    decreases |xs|
  {
    if xs == [] then [] else Map(f, xs[..|xs| - 1]) + [f(xs[|xs| - 1])]
  }

  lemma MapSnoc<T, U>(f: T -> U, xs: seq<T>, x: T)
    ensures Map(f, xs + [x]) == Map(f, xs) + [f(x)]
  {
    assert (xs + [x])[..|xs|] == xs;
  }
}
