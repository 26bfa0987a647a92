/** `Array.prototype.filter` and `Array.prototype.map` on sequences, with an
    independent description of what `filter` keeps: the subsequence picked
    out by a strictly increasing list of positions. */
module Arrays {

  /** `xs.filter(p)`: the elements satisfying `p`, in their original order. */
  function Filter<T>(xs: seq<T>, p: T -> bool): (r: seq<T>)
    ensures |r| <= |xs|
    ensures forall k :: 0 <= k < |r| ==> r[k] in xs && p(r[k])
    ensures forall i :: 0 <= i < |xs| && p(xs[i]) ==> xs[i] in r
  {
    if |xs| == 0 then []
    else
      var last := xs[|xs| - 1];
      Filter(xs[..|xs| - 1], p) + (if p(last) then [last] else [])
  }

  /** `xs.map(f)`: the same positions, each element transformed by `f`. */
  function Map<T, U>(xs: seq<T>, f: T -> U): (r: seq<U>)
    ensures |r| == |xs|
    ensures forall i :: 0 <= i < |xs| ==> r[i] == f(xs[i])
  {
    if |xs| == 0 then [] else [f(xs[0])] + Map(xs[1..], f)
  }

  /** `idx` lists, in strictly increasing order, positions of `xs` whose
      elements, read in that order, are exactly `r`. */
  ghost predicate Picks<T>(r: seq<T>, xs: seq<T>, idx: seq<nat>)
  {
    && |idx| == |r|
    && (forall k :: 0 <= k < |idx| ==> idx[k] < |xs| && r[k] == xs[idx[k]])
    && (forall j, k :: 0 <= j < k < |idx| ==> idx[j] < idx[k])
  }

  /** `r` is an order-preserving subsequence of `xs`. */
  ghost predicate IsSubsequence<T>(r: seq<T>, xs: seq<T>)
  {
    exists idx :: Picks(r, xs, idx)
  }

  /** The positions of `xs` whose elements satisfy `p`, in increasing order. */
  ghost function Positions<T>(xs: seq<T>, p: T -> bool): seq<nat>
  {
    if |xs| == 0 then []
    else Positions(xs[..|xs| - 1], p) + (if p(xs[|xs| - 1]) then [|xs| - 1] else [])
  }

  /** Every listed position is in range, and the list is strictly increasing. */
  lemma {:induction false} PositionsIncreasing<T>(xs: seq<T>, p: T -> bool)
    ensures forall k :: 0 <= k < |Positions(xs, p)| ==> Positions(xs, p)[k] < |xs|
    ensures forall j, k :: 0 <= j < k < |Positions(xs, p)| ==> Positions(xs, p)[j] < Positions(xs, p)[k]
  {
    if |xs| > 0 {
      PositionsIncreasing(xs[..|xs| - 1], p);
    }
  }

  /** A position is listed exactly when its element satisfies `p`. */
  lemma {:induction false} PositionsExact<T>(xs: seq<T>, p: T -> bool)
    ensures forall i :: 0 <= i < |xs| ==> (i in Positions(xs, p) <==> p(xs[i]))
  {
    if |xs| > 0 {
      var n := |xs| - 1;
      var init := xs[..n];
      PositionsExact(init, p);
      PositionsIncreasing(init, p);
      var idx0 := Positions(init, p);
      forall i | 0 <= i < |xs|
        ensures i in Positions(xs, p) <==> p(xs[i])
      {
        if i < n {
          assert xs[i] == init[i];
        } else {
          assert i !in idx0;
        }
      }
    }
  }

  /** `Filter` reads off the elements at exactly those positions. */
  lemma {:induction false} FilterReadsPositions<T>(xs: seq<T>, p: T -> bool)
    ensures |Positions(xs, p)| == |Filter(xs, p)|
    ensures forall k :: 0 <= k < |Positions(xs, p)| ==>
              Positions(xs, p)[k] < |xs| && Filter(xs, p)[k] == xs[Positions(xs, p)[k]]
  {
    if |xs| > 0 {
      var n := |xs| - 1;
      var init := xs[..n];
      FilterReadsPositions(init, p);
      var idx0 := Positions(init, p);
      var idx := Positions(xs, p);
      var r := Filter(xs, p);
      forall k | 0 <= k < |idx|
        ensures idx[k] < |xs| && r[k] == xs[idx[k]]
      {
        if k < |idx0| {
          assert idx[k] == idx0[k];
          assert r[k] == Filter(init, p)[k];
          assert init[idx0[k]] == xs[idx0[k]];
        }
      }
    }
  }

  /** `Filter` picks out exactly the positions whose elements satisfy `p`,
      in increasing order. */
  lemma FilterPicksPositions<T>(xs: seq<T>, p: T -> bool)
    ensures Picks(Filter(xs, p), xs, Positions(xs, p))
    ensures forall i :: 0 <= i < |xs| ==> (i in Positions(xs, p) <==> p(xs[i]))
  {
    PositionsIncreasing(xs, p);
    PositionsExact(xs, p);
    FilterReadsPositions(xs, p);
  }

  /** The filter result is an order-preserving subsequence of its input that
      keeps an element's position exactly when the element satisfies `p`. */
  lemma FilterIsExactSubsequence<T>(xs: seq<T>, p: T -> bool)
    ensures IsSubsequence(Filter(xs, p), xs)
    ensures exists idx :: Picks(Filter(xs, p), xs, idx)
                          && forall i :: 0 <= i < |xs| ==> (i in idx <==> p(xs[i]))
  {
    FilterPicksPositions(xs, p);
  }

  /** Filtering with a predicate every element satisfies changes nothing. */
  lemma {:induction false} FilterKeepsAll<T>(xs: seq<T>, p: T -> bool)
    requires forall i :: 0 <= i < |xs| ==> p(xs[i])
    ensures Filter(xs, p) == xs
  {
    if |xs| > 0 {
      FilterKeepsAll(xs[..|xs| - 1], p);
    }
  }

  /** Two predicates that agree on every element filter alike. */
  lemma {:induction false} FilterAgreeing<T>(xs: seq<T>, p: T -> bool, q: T -> bool)
    requires forall i :: 0 <= i < |xs| ==> p(xs[i]) == q(xs[i])
    ensures Filter(xs, p) == Filter(xs, q)
  {
    if |xs| > 0 {
      FilterAgreeing(xs[..|xs| - 1], p, q);
    }
  }

  /** Filtering distributes over concatenation. */
  lemma {:induction false} FilterConcat<T>(xs: seq<T>, ys: seq<T>, p: T -> bool)
    ensures Filter(xs + ys, p) == Filter(xs, p) + Filter(ys, p)
  {
    if |ys| == 0 {
      assert xs + ys == xs;
    } else {
      var n := |ys| - 1;
      assert (xs + ys)[..|xs + ys| - 1] == xs + ys[..n];
      FilterConcat(xs, ys[..n], p);
    }
  }

  /** Filtering twice with the same predicate is the same as filtering once. */
  lemma {:induction false} FilterIdempotent<T>(xs: seq<T>, p: T -> bool)
    ensures Filter(Filter(xs, p), p) == Filter(xs, p)
  {
    var r := Filter(xs, p);
    assert forall i :: 0 <= i < |r| ==> p(r[i]) by {
      forall i | 0 <= i < |r| ensures p(r[i]) {
        assert r[i] in r;
      }
    }
    FilterKeepsAll(r, p);
  }
}
