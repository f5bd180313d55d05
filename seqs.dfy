/** Sequence operations shared by the parser: keeping the results of a partial map, in order. */
module Seqs {
  import opened Wrappers

  /** The values `f` gives for the elements of `xs`, in order, skipping the elements it gives `None` for. */
  function FilterMap<A, B>(f: A -> Option<B>, xs: seq<A>): (r: seq<B>)
    ensures |r| <= |xs|
  {
    if xs == [] then []
    else
      var head := match f(xs[0]) case Some(y) => [y] case None => [];
      head + FilterMap(f, xs[1..])
  }

  /** A prefix one element longer is the shorter prefix plus that element. */
  lemma TakeSnoc<T>(s: seq<T>, i: nat)
    requires i < |s|
    ensures s[..i + 1] == s[..i] + [s[i]]
  {
  }

  /** Filter-mapping works element by element: that of a concatenation is the concatenation. */
  lemma {:induction false} FilterMapAppend<A, B>(f: A -> Option<B>, xs: seq<A>, ys: seq<A>)
    ensures FilterMap(f, xs + ys) == FilterMap(f, xs) + FilterMap(f, ys)
  {
    if xs == [] {
      assert xs + ys == ys;
    } else {
      assert (xs + ys)[1..] == xs[1..] + ys;
      assert (xs + ys)[0] == xs[0];
      FilterMapAppend(f, xs[1..], ys);
    }
  }

  /** A single element contributes its value, or nothing. */
  lemma FilterMapSingle<A, B>(f: A -> Option<B>, x: A)
    ensures FilterMap(f, [x]) == if f(x).Some? then [f(x).value] else []
  {
    assert [x][1..] == [];
  }

  /** Where `f` gives a value for every element, filter-mapping keeps them all, in order. */
  lemma {:induction false} FilterMapAllSome<A, B>(f: A -> Option<B>, xs: seq<A>, ys: seq<B>)
    requires |xs| == |ys|
    requires forall k :: 0 <= k < |xs| ==> f(xs[k]) == Some(ys[k])
    ensures FilterMap(f, xs) == ys
  {
    if xs != [] {
      assert f(xs[0]) == Some(ys[0]);
      FilterMapAllSome(f, xs[1..], ys[1..]);
      assert [ys[0]] + ys[1..] == ys;
    }
  }

  /** The indices, in increasing order, of the elements of `xs` that `f` keeps. */
  ghost function Kept<A, B>(f: A -> Option<B>, xs: seq<A>): seq<nat>
  {
    if xs == [] then []
    else
      var last := |xs| - 1;
      Kept(f, xs[..last]) + (if f(xs[last]).Some? then [last] else [])
  }

  /** As many indices are kept as there are results, and each is an index of `xs`. */
  lemma {:induction false} KeptLength<A, B>(f: A -> Option<B>, xs: seq<A>)
    ensures |Kept(f, xs)| == |FilterMap(f, xs)|
    ensures forall k :: 0 <= k < |Kept(f, xs)| ==> Kept(f, xs)[k] < |xs|
  {
    if xs != [] {
      var last := |xs| - 1;
      var init := xs[..last];
      KeptLength(f, init);
      assert init + [xs[last]] == xs;
      FilterMapAppend(f, init, [xs[last]]);
      FilterMapSingle(f, xs[last]);
    }
  }

  /** The k-th result is the value `f` gives at the k-th kept index. */
  lemma {:induction false} KeptValues<A, B>(f: A -> Option<B>, xs: seq<A>)
    ensures |Kept(f, xs)| == |FilterMap(f, xs)|
    ensures forall k :: 0 <= k < |Kept(f, xs)| ==>
      Kept(f, xs)[k] < |xs| && f(xs[Kept(f, xs)[k]]) == Some(FilterMap(f, xs)[k])
  {
    KeptLength(f, xs);
    if xs != [] {
      var last := |xs| - 1;
      var init := xs[..last];
      KeptValues(f, init);
      assert init + [xs[last]] == xs;
      FilterMapAppend(f, init, [xs[last]]);
      FilterMapSingle(f, xs[last]);
      forall k | 0 <= k < |Kept(f, init)| ensures xs[Kept(f, init)[k]] == init[Kept(f, init)[k]] {
      }
    }
  }

  /** Kept indices strictly increase. */
  lemma {:induction false} KeptIncreasing<A, B>(f: A -> Option<B>, xs: seq<A>)
    ensures forall k, m :: 0 <= k < m < |Kept(f, xs)| ==> Kept(f, xs)[k] < Kept(f, xs)[m]
  {
    if xs != [] {
      var last := |xs| - 1;
      var init := xs[..last];
      KeptIncreasing(f, init);
      KeptLength(f, init);
    }
  }

  /** Every element that `f` gives a value for is kept. */
  lemma {:induction false} KeptComplete<A, B>(f: A -> Option<B>, xs: seq<A>)
    ensures forall i :: 0 <= i < |xs| && f(xs[i]).Some? ==> i in Kept(f, xs)
  {
    if xs != [] {
      var last := |xs| - 1;
      var init := xs[..last];
      KeptComplete(f, init);
      forall i | 0 <= i < |xs| && f(xs[i]).Some? ensures i in Kept(f, xs) {
        if i < last { assert xs[i] == init[i]; }
      }
    }
  }

  /**
   * The k-th result is f's value at the k-th kept index; kept indices strictly
   * increase (so order is kept and no element is used twice); and every
   * element that f gives a value for is kept.
   */
  lemma FilterMapKept<A, B>(f: A -> Option<B>, xs: seq<A>)
    ensures |Kept(f, xs)| == |FilterMap(f, xs)|
    ensures forall k :: 0 <= k < |Kept(f, xs)| ==>
      Kept(f, xs)[k] < |xs| && f(xs[Kept(f, xs)[k]]) == Some(FilterMap(f, xs)[k])
    ensures forall k, m :: 0 <= k < m < |Kept(f, xs)| ==> Kept(f, xs)[k] < Kept(f, xs)[m]
    ensures forall i :: 0 <= i < |xs| && f(xs[i]).Some? ==> i in Kept(f, xs)
  {
    KeptValues(f, xs);
    KeptIncreasing(f, xs);
    KeptComplete(f, xs);
  }
}
