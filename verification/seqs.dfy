/** Order-preserving `filter` and filter-then-map over sequences, the two
    array combinators the deck parser is built from. */
module Seqs {
  import opened Wrappers

  /** `xs.filter(keep)`: the elements satisfying `keep`, in order. */
  function Filter<T>(xs: seq<T>, keep: T -> bool): (r: seq<T>)
    ensures |r| <= |xs|
    ensures forall x :: x in r ==> x in xs && keep(x)
  {
    if |xs| == 0 then []
    else
      var last := xs[|xs| - 1];
      assert forall x :: x in xs[..|xs| - 1] ==> x in xs;
      Filter(xs[..|xs| - 1], keep) + (if keep(last) then [last] else [])
  }

  /** Every element `keep` accepts survives the filter. */
  lemma {:induction false} FilterKeeps<T>(xs: seq<T>, keep: T -> bool, x: T)
    requires x in xs && keep(x)
    ensures x in Filter(xs, keep)
  {
    var front := xs[..|xs| - 1];
    if x != xs[|xs| - 1] {
      assert xs == front + [xs[|xs| - 1]];
      FilterKeeps(front, keep, x);
    }
  }

  /** A non-empty sequence is its head followed by its tail. */
  lemma HeadTail<T>(xs: seq<T>)
    requires |xs| > 0
    ensures [xs[0]] + xs[1..] == xs
  {
  }

  /** The present results of `f` over `xs`, in order: the loop that pushes
      `f(x).value` whenever `f(x)` is present. */
  function FilterMap<A, B>(xs: seq<A>, f: A -> Option<B>): (r: seq<B>)
    ensures |r| <= |xs|
  {
    if |xs| == 0 then []
    else FilterMap(xs[..|xs| - 1], f) + f(xs[|xs| - 1]).ToSeq()
  }

  /** Extending the input by one element extends the output by that
      element's result, if present. */
  lemma FilterMapSnoc<A, B>(xs: seq<A>, x: A, f: A -> Option<B>)
    ensures FilterMap(xs + [x], f) == FilterMap(xs, f) + f(x).ToSeq()
  {
    assert (xs + [x])[..|xs|] == xs;
  }

  /** One more element of the input's prefix adds that element's result. */
  lemma FilterMapPrefix<A, B>(xs: seq<A>, i: nat, f: A -> Option<B>)
    requires i < |xs|
    ensures FilterMap(xs[..i + 1], f) == FilterMap(xs[..i], f) + f(xs[i]).ToSeq()
  {
    assert xs[..i + 1] == xs[..i] + [xs[i]];
    FilterMapSnoc(xs[..i], xs[i], f);
  }

  /** `FilterMap` distributes over concatenation. */
  lemma {:induction false} FilterMapAppend<A, B>(xs: seq<A>, ys: seq<A>, f: A -> Option<B>)
    ensures FilterMap(xs + ys, f) == FilterMap(xs, f) + FilterMap(ys, f)
  {
    if |ys| == 0 {
      assert xs + ys == xs;
    } else {
      var front := ys[..|ys| - 1];
      var y := ys[|ys| - 1];
      assert ys == front + [y];
      assert xs + ys == (xs + front) + [y];
      calc {
        FilterMap(xs + ys, f);
      == { FilterMapSnoc(xs + front, y, f); }
        FilterMap(xs + front, f) + f(y).ToSeq();
      == { FilterMapAppend(xs, front, f); }
        FilterMap(xs, f) + (FilterMap(front, f) + f(y).ToSeq());
      == { FilterMapSnoc(front, y, f); }
        FilterMap(xs, f) + FilterMap(ys, f);
      }
    }
  }

  /** Every output is the present result of some input. */
  lemma {:induction false} FilterMapProvenance<A, B>(xs: seq<A>, f: A -> Option<B>, y: B)
    requires y in FilterMap(xs, f)
    ensures exists x :: x in xs && f(x) == Some(y)
  {
    var front := xs[..|xs| - 1];
    var last := xs[|xs| - 1];
    if y in FilterMap(front, f) {
      FilterMapProvenance(front, f, y);
      var x :| x in front && f(x) == Some(y);
      assert x in xs;
    } else {
      assert f(last) == Some(y);
    }
  }

  /** Inputs that all map to `None` produce nothing. */
  lemma {:induction false} FilterMapNone<A, B>(xs: seq<A>, f: A -> Option<B>)
    requires forall i :: 0 <= i < |xs| ==> f(xs[i]) == None
    ensures FilterMap(xs, f) == []
  {
    if |xs| > 0 {
      FilterMapNone(xs[..|xs| - 1], f);
    }
  }

  /** Filtering out elements that map to `None` anyway changes nothing. */
  lemma {:induction false} FilterMapAfterFilter<A, B>(xs: seq<A>, keep: A -> bool, f: A -> Option<B>)
    requires forall x :: !keep(x) ==> f(x) == None
    ensures FilterMap(Filter(xs, keep), f) == FilterMap(xs, f)
  {
    if |xs| > 0 {
      var front := xs[..|xs| - 1];
      var last := xs[|xs| - 1];
      var kept := Filter(front, keep);
      FilterMapAfterFilter(front, keep, f);
      assert FilterMap(xs, f) == FilterMap(front, f) + f(last).ToSeq();
      if keep(last) {
        assert Filter(xs, keep) == kept + [last];
        FilterMapSnoc(kept, last, f);
      } else {
        assert Filter(xs, keep) == kept + [];
        assert kept + [] == kept;
        assert f(last).ToSeq() == [];
      }
    }
  }
}
