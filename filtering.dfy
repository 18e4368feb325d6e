/**
 * The lookups of both program variants walk a vector of records in index
 * order and push every record a test accepts: `Filter` is that result.
 */
module Filtering {
  /** The elements of xs that keep accepts, in their order in xs. */
  function Filter<T>(xs: seq<T>, keep: T -> bool): (r: seq<T>)
    ensures |r| <= |xs|
  {
    if xs == [] then []
    else Filter(xs[..|xs| - 1], keep) + (if keep(xs[|xs| - 1]) then [xs[|xs| - 1]] else [])
  }

  /** One more element examined by a lookup loop. */
  lemma FilterStep<T>(xs: seq<T>, keep: T -> bool, k: nat)
    requires k < |xs|
    ensures Filter(xs[..k + 1], keep) == Filter(xs[..k], keep) + (if keep(xs[k]) then [xs[k]] else [])
  {
    assert xs[..k + 1][..k] == xs[..k];
  }

  /** An element is kept exactly when it is in xs and keep accepts it. */
  lemma {:induction false} FilterMembers<T>(xs: seq<T>, keep: T -> bool)
    ensures forall x :: x in Filter(xs, keep) <==> x in xs && keep(x)
  {
    if xs != [] {
      var init := xs[..|xs| - 1];
      FilterMembers(init, keep);
      assert xs == init + [xs[|xs| - 1]];
    }
  }

  /** Filtering keeps the order: it distributes over concatenation. */
  lemma {:induction false} FilterAppend<T>(xs: seq<T>, ys: seq<T>, keep: T -> bool)
    ensures Filter(xs + ys, keep) == Filter(xs, keep) + Filter(ys, keep)
    decreases |ys|
  {
    if ys == [] {
      assert xs + ys == xs;
    } else {
      var init, last := ys[..|ys| - 1], ys[|ys| - 1];
      var tail := if keep(last) then [last] else [];
      FilterAppend(xs, init, keep);
      assert (xs + ys)[..|xs + ys| - 1] == xs + init;
      assert Filter(xs + ys, keep) == Filter(xs + init, keep) + tail;
      AppendAssoc(Filter(xs, keep), Filter(init, keep), tail);
    }
  }

  /** Two tests that agree on every element of xs keep the same elements. */
  lemma {:induction false} FilterAgree<T>(xs: seq<T>, keep: T -> bool, keep': T -> bool)
    requires forall k :: 0 <= k < |xs| ==> keep(xs[k]) == keep'(xs[k])
    ensures Filter(xs, keep) == Filter(xs, keep')
  {
    if xs != [] {
      FilterAgree(xs[..|xs| - 1], keep, keep');
    }
  }

  lemma AppendAssoc<T>(a: seq<T>, b: seq<T>, c: seq<T>)
    ensures (a + b) + c == a + (b + c)
  {
  }
}
