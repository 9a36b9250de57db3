/** The list-building shape shared by both signature loops: walk a sequence in
    order, compute an optional item for each element, and append the item when
    there is one. */
module Seqs {
  import opened Wrappers

  /** The present results of `f` over `xs`, in the order of `xs`: every
      emitted item is the item of some element, and every element's item is
      emitted. */
  function FilterMap<X, Y>(xs: seq<X>, f: X -> Option<Y>): (ys: seq<Y>)
    ensures |ys| <= |xs|
    ensures forall y :: y in ys ==> exists i :: 0 <= i < |xs| && f(xs[i]) == Some(y)
    ensures forall i :: 0 <= i < |xs| && f(xs[i]).Some? ==> f(xs[i]).value in ys
    decreases |xs|
  {
    if xs == [] then []
    else
      var rest := FilterMap(xs[1..], f);
      assert forall y :: y in rest ==> exists i :: 0 <= i < |xs| && f(xs[i]) == Some(y) by {
        forall y | y in rest
          ensures exists i :: 0 <= i < |xs| && f(xs[i]) == Some(y)
        {
          var j :| 0 <= j < |xs[1..]| && f(xs[1..][j]) == Some(y);
          assert f(xs[j + 1]) == Some(y);
        }
      }
      assert forall i :: 0 < i < |xs| ==> xs[i] == xs[1..][i - 1];
      match f(xs[0])
      case Some(y) => [y] + rest
      case None => rest
  }

  /** Filtering a concatenation filters each part independently: the items of
      the first part come first, and no element influences another's item. */
  lemma {:induction false} FilterMapAppend<X, Y>(xs: seq<X>, ys: seq<X>, f: X -> Option<Y>)
    ensures FilterMap(xs + ys, f) == FilterMap(xs, f) + FilterMap(ys, f)
    decreases |xs|
  {
    if xs == [] {
      assert xs + ys == ys;
    } else {
      assert (xs + ys)[1..] == xs[1..] + ys;
      FilterMapAppend(xs[1..], ys, f);
    }
  }

  /** An element without an item is skipped and its neighbours are unaffected. */
  lemma {:induction false} SkippedElement<X, Y>(before: seq<X>, x: X, after: seq<X>, f: X -> Option<Y>)
    requires f(x).None?
    ensures FilterMap(before + [x] + after, f) == FilterMap(before, f) + FilterMap(after, f)
  {
    FilterMapAppend(before + [x], after, f);
    FilterMapAppend(before, [x], f);
    assert [x][1..] == [];
  }

  /** An element with an item contributes exactly that one item, in its place. */
  lemma {:induction false} KeptElement<X, Y>(before: seq<X>, x: X, after: seq<X>, f: X -> Option<Y>)
    requires f(x).Some?
    ensures FilterMap(before + [x] + after, f) == FilterMap(before, f) + [f(x).value] + FilterMap(after, f)
  {
    FilterMapAppend(before + [x], after, f);
    FilterMapAppend(before, [x], f);
    assert [x][1..] == [];
  }

  /** The result is empty exactly when no element has an item. */
  lemma {:induction false} FilterMapEmptyIff<X, Y>(xs: seq<X>, f: X -> Option<Y>)
    ensures FilterMap(xs, f) == [] <==> forall i :: 0 <= i < |xs| ==> f(xs[i]).None?
    decreases |xs|
  {
    if xs != [] {
      FilterMapEmptyIff(xs[1..], f);
      assert forall i :: 0 < i < |xs| ==> xs[i] == xs[1..][i - 1];
    }
  }
}
