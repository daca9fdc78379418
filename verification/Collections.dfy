/** Optional values, and filtering and collecting over sequences. */
module Collections {

  datatype Option<T> = None | Some(value: T)

  predicate NoDuplicates<T(==)>(xs: seq<T>) {
    forall i, j | 0 <= i < j < |xs| :: xs[i] != xs[j]
  }

  /** What `f` makes of the elements of `xs`, one after the other. */
  function Collect<T, U>(xs: seq<T>, f: T -> seq<U>): seq<U> {
    if xs == [] then [] else Collect(xs[..|xs| - 1], f) + f(xs[|xs| - 1])
  }

  lemma CollectStep<T, U>(xs: seq<T>, x: T, f: T -> seq<U>)
    ensures Collect(xs + [x], f) == Collect(xs, f) + f(x)
  {
    assert (xs + [x])[..|xs|] == xs;
  }

  lemma {:induction false} CollectFront<T, U>(x: T, xs: seq<T>, f: T -> seq<U>)
    ensures Collect([x] + xs, f) == f(x) + Collect(xs, f)
  {
    if xs == [] {
      assert [x] + xs == [] + [x];
      CollectStep([], x, f);
    } else {
      var init, last := xs[..|xs| - 1], xs[|xs| - 1];
      CollectFront(x, init, f);
      CollectStep([x] + init, last, f);
      assert [x] + xs == [x] + init + [last];
    }
  }

  /** Elements of `xs` that pass, in order. */
  function Filter<T>(xs: seq<T>, p: T -> bool): seq<T> {
    if xs == [] then [] else Filter(xs[..|xs| - 1], p) + (if p(xs[|xs| - 1]) then [xs[|xs| - 1]] else [])
  }

  lemma FilterStep<T>(xs: seq<T>, i: nat, p: T -> bool)
    requires i < |xs|
    ensures Filter(xs[..i + 1], p) == Filter(xs[..i], p) + (if p(xs[i]) then [xs[i]] else [])
  {
    assert xs[..i + 1][..i] == xs[..i];
  }

  /** Filtering keeps the order: what passes of the first part comes first. */
  lemma {:induction false} FilterKeepsOrder<T>(xs: seq<T>, ys: seq<T>, p: T -> bool)
    ensures Filter(xs + ys, p) == Filter(xs, p) + Filter(ys, p)
  {
    if ys == [] {
      assert xs + ys == xs;
    } else {
      var init, last := ys[..|ys| - 1], ys[|ys| - 1];
      FilterKeepsOrder(xs, init, p);
      assert (xs + ys)[..|xs + ys| - 1] == xs + init;
    }
  }

  lemma {:induction false} FilterMembers<T>(xs: seq<T>, p: T -> bool)
    ensures forall x :: x in Filter(xs, p) <==> x in xs && p(x)
  {
    if xs != [] {
      FilterMembers(xs[..|xs| - 1], p);
      assert xs == xs[..|xs| - 1] + [xs[|xs| - 1]];
    }
  }

  /** When one test implies another, as many elements pass both as pass the weaker one exactly when all that pass
      the weaker pass the stronger. */
  lemma {:induction false} CountingIsComparing<T>(xs: seq<T>, strong: T -> bool, weak: T -> bool)
    requires forall x | x in xs && strong(x) :: weak(x)
    ensures |Filter(xs, strong)| <= |Filter(xs, weak)|
    ensures |Filter(xs, weak)| <= |Filter(xs, strong)| <==> forall x | x in xs && weak(x) :: strong(x)
  {
    if xs != [] {
      var init, last := xs[..|xs| - 1], xs[|xs| - 1];
      assert xs == init + [last];
      CountingIsComparing(init, strong, weak);
    }
  }
}
