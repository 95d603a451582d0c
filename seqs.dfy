/** Sequence combinators shared by the scans over peers and directory entries. */
module Seqs {
  import opened Wrappers

  /** The values `f` yields for the elements of `xs`, in order, skipping the
      elements for which it yields `None`: a loop that pushes every `Some`. */
  function FilterMap<A, B>(f: A -> Option<B>, xs: seq<A>): seq<B>
  {
    if xs == [] then []
    else FilterMap(f, xs[..|xs| - 1]) + (match f(xs[|xs| - 1]) case Some(y) => [y] case None => [])
  }

  /** Filtering distributes over concatenation: order is kept. */
  lemma {:induction false} FilterMapAppend<A, B>(f: A -> Option<B>, xs: seq<A>, ys: seq<A>)
    ensures FilterMap(f, xs + ys) == FilterMap(f, xs) + FilterMap(f, ys)
    decreases |ys|
  {
    if ys != [] {
      var ys' := ys[..|ys| - 1];
      assert (xs + ys)[..|xs + ys| - 1] == xs + ys';
      FilterMapAppend(f, xs, ys');
    } else {
      assert xs + ys == xs;
    }
  }

  /** An element is in the output exactly when `f` yields it for some input. */
  lemma {:induction false} FilterMapMember<A, B>(f: A -> Option<B>, xs: seq<A>, y: B)
    ensures y in FilterMap(f, xs) <==> exists i :: 0 <= i < |xs| && f(xs[i]) == Some(y)
    decreases |xs|
  {
    if xs != [] {
      var xs' := xs[..|xs| - 1];
      FilterMapMember(f, xs', y);
      if y in FilterMap(f, xs) && y !in FilterMap(f, xs') {
        assert f(xs[|xs| - 1]) == Some(y);
      }
      if i :| 0 <= i < |xs'| && f(xs'[i]) == Some(y) {
        assert xs[i] == xs'[i];
      }
      if i :| 0 <= i < |xs| && f(xs[i]) == Some(y) {
        if i < |xs'| {
          assert xs'[i] == xs[i];
        }
      }
    }
  }

  /** The sequences `f` yields for the elements of `xs`, one after another:
      a loop that appends each element's output to one accumulator. */
  function FlatMap<A, B>(f: A -> seq<B>, xs: seq<A>): seq<B>
  {
    if xs == [] then [] else FlatMap(f, xs[..|xs| - 1]) + f(xs[|xs| - 1])
  }

  /** Flattening distributes over concatenation: order is kept. */
  lemma {:induction false} FlatMapAppend<A, B>(f: A -> seq<B>, xs: seq<A>, ys: seq<A>)
    ensures FlatMap(f, xs + ys) == FlatMap(f, xs) + FlatMap(f, ys)
    decreases |ys|
  {
    if ys != [] {
      var ys' := ys[..|ys| - 1];
      assert (xs + ys)[..|xs + ys| - 1] == xs + ys';
      FlatMapAppend(f, xs, ys');
    } else {
      assert xs + ys == xs;
    }
  }

  /** An element is in the output exactly when it is in the output of some
      input element. */
  lemma {:induction false} FlatMapMember<A, B>(f: A -> seq<B>, xs: seq<A>, y: B)
    ensures y in FlatMap(f, xs) <==> exists i :: 0 <= i < |xs| && y in f(xs[i])
    decreases |xs|
  {
    if xs != [] {
      var xs' := xs[..|xs| - 1];
      FlatMapMember(f, xs', y);
      if i :| 0 <= i < |xs'| && y in f(xs'[i]) {
        assert xs[i] == xs'[i];
      }
      if i :| 0 <= i < |xs| && y in f(xs[i]) {
        if i < |xs'| {
          assert xs'[i] == xs[i];
        }
      }
    }
  }

  /** The position of the first element of `xs` that satisfies `p`, or `|xs|`
      when none does. */
  function FirstIndex<A>(xs: seq<A>, p: A -> bool): (i: nat)
    ensures i <= |xs|
    ensures i < |xs| ==> p(xs[i])
    ensures forall j :: 0 <= j < i ==> !p(xs[j])
  {
    if xs == [] || p(xs[0]) then 0 else 1 + FirstIndex(xs[1..], p)
  }

  /** The first element satisfying `p` is at `k` when `xs[k]` does and no
      earlier element does. */
  lemma FirstIndexAt<A>(xs: seq<A>, p: A -> bool, k: nat)
    requires k < |xs| && p(xs[k])
    requires forall j :: 0 <= j < k ==> !p(xs[j])
    ensures FirstIndex(xs, p) == k
  {
  }
}
