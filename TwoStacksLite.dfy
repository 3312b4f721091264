// cpp/src/TwoStacksLite.hpp: two stacks without per-entry aggregates on the
// back.  The back stack holds lifted partials and their running sum
// `_backSum`; the flip turns every moved partial into the aggregate of
// itself and everything newer in the front, so the front keeps aggregates
// only.  The partials the front no longer stores are kept as a ghost
// sequence, paired with the stored aggregates as `TwoStacks.AggT` entries.
module TwoStacksLite {
  import opened Monoid
  import TS = TwoStacks

  /** Pairs ghost partials with stored aggregates, entry by entry. */
  function Zip<P>(vals: seq<P>, aggs: seq<P>): (r: seq<TS.AggT<P>>)
    requires |vals| == |aggs|
    ensures |r| == |vals|
  {
    if vals == [] then []
    else Zip(vals[..|vals| - 1], aggs[..|aggs| - 1]) + [TS.AggT(vals[|vals| - 1], aggs[|aggs| - 1])]
  }

  lemma {:induction false} ZipVals<P>(vals: seq<P>, aggs: seq<P>)
    requires |vals| == |aggs|
    ensures TS.Vals(Zip(vals, aggs)) == vals
  {
    if vals != [] {
      ZipVals(vals[..|vals| - 1], aggs[..|aggs| - 1]);
    }
  }

  lemma ZipPush<P>(vals: seq<P>, aggs: seq<P>, x: P, y: P)
    requires |vals| == |aggs|
    ensures Zip(vals + [x], aggs + [y]) == Zip(vals, aggs) + [TS.AggT(x, y)]
  {
    assert (vals + [x])[..|vals|] == vals;
    assert (aggs + [y])[..|aggs|] == aggs;
  }

  lemma ZipPop<P>(vals: seq<P>, aggs: seq<P>)
    requires |vals| == |aggs| && |vals| > 0
    ensures Zip(vals[..|vals| - 1], aggs[..|aggs| - 1]) == Zip(vals, aggs)[..|vals| - 1]
  {
  }

  /** `_front.size()>0 ? _front.back()._val : _identE`. */
  function Top<P>(s: seq<P>, identE: P): P
  {
    if |s| > 0 then s[|s| - 1] else identE
  }

  lemma ZipTop<P>(vals: seq<P>, aggs: seq<P>, identE: P)
    requires |vals| == |aggs|
    ensures TS.TopAgg(Zip(vals, aggs), identE) == Top(aggs, identE)
  {
  }

  /** The invariant: `frontVals` are the partials the front aggregates stand
      for, `backSum` is the fold of the back, and the window is the front
      reversed followed by the back. */
  ghost predicate Inv<P>(m: Monoid<P>, frontVals: seq<P>, front: seq<P>, back: seq<P>, backSum: P, window: seq<P>)
  {
    |frontVals| == |front| && TS.FrontAggs(m, Zip(frontVals, front))
    && backSum == Fold(m, back) && window == Reverse(frontVals) + back
  }

  lemma InvEmpty<P>(m: Monoid<P>)
    ensures Inv(m, [], [], [], m.identity, [])
  {
  }

  lemma InvPush<P>(m: Monoid<P>, frontVals: seq<P>, front: seq<P>, back: seq<P>, backSum: P, window: seq<P>, x: P)
    requires Inv(m, frontVals, front, back, backSum, window)
    ensures Inv(m, frontVals, front, back + [x], m.combine(backSum, x), window + [x])
  {
    FoldSnoc(m, back, x);
    ConcatAssoc(Reverse(frontVals), back, [x]);
  }

  lemma InvPop<P>(m: Monoid<P>, frontVals: seq<P>, front: seq<P>, back: seq<P>, backSum: P, window: seq<P>)
    requires Inv(m, frontVals, front, back, backSum, window) && |front| > 0
    ensures window != [] && window[0] == frontVals[|frontVals| - 1]
    ensures Inv(m, frontVals[..|frontVals| - 1], front[..|front| - 1], back, backSum, window[1..])
  {
    var fv := frontVals[..|frontVals| - 1];
    var top := frontVals[|frontVals| - 1];
    ZipPop(frontVals, front);
    TS.StackPop(m, Zip(frontVals, front));
    assert frontVals == fv + [top];
    ReverseSnoc(fv, top);
    ConcatAssoc([top], Reverse(fv), back);
    assert window == [top] + (Reverse(fv) + back);
    assert window[1..] == Reverse(fv) + back;
  }

  /** Midway through the flip: the back not yet moved, then the front reversed. */
  ghost predicate Flipping<P>(m: Monoid<P>, frontVals: seq<P>, front: seq<P>, back: seq<P>, window: seq<P>)
  {
    |frontVals| == |front| && TS.FrontAggs(m, Zip(frontVals, front)) && window == back + Reverse(frontVals)
  }

  lemma FlipStart<P>(m: Monoid<P>, back: seq<P>, backSum: P, window: seq<P>)
    requires Inv(m, [], [], back, backSum, window)
    ensures Flipping(m, [], [], back, window)
  {
  }

  lemma FlipStep<P>(m: Monoid<P>, frontVals: seq<P>, front: seq<P>, back: seq<P>, window: seq<P>)
    requires Flipping(m, frontVals, front, back, window) && |back| > 0
    ensures Flipping(m, frontVals + [back[|back| - 1]],
                     front + [m.combine(back[|back| - 1], Top(front, m.identity))],
                     back[..|back| - 1], window)
  {
    var v := back[|back| - 1];
    var a := m.combine(v, Top(front, m.identity));
    ZipTop(frontVals, front, m.identity);
    TS.FrontPush(m, Zip(frontVals, front), v);
    ZipPush(frontVals, front, v, a);
    ReverseSnoc(frontVals, v);
    assert back == back[..|back| - 1] + [v];
    ConcatAssoc(back[..|back| - 1], [v], Reverse(frontVals));
  }

  /** After the flip the back is empty, and `_backSum` is reset to the identity. */
  lemma FlipEnd<P>(m: Monoid<P>, frontVals: seq<P>, front: seq<P>, window: seq<P>)
    requires Flipping(m, frontVals, front, [], window)
    ensures Inv(m, frontVals, front, [], m.identity, window) && |front| == |window|
  {
  }

  lemma InvQuery<P(!new)>(m: Monoid<P>, frontVals: seq<P>, front: seq<P>, back: seq<P>, backSum: P, window: seq<P>)
    requires IsMonoid(m) && Inv(m, frontVals, front, back, backSum, window)
    ensures m.combine(Top(front, m.identity), backSum) == Fold(m, window)
  {
    ZipTop(frontVals, front, m.identity);
    TS.FrontTop(m, Zip(frontVals, front));
    ZipVals(frontVals, front);
    FoldAppend(m, Reverse(frontVals), back);
  }

  /** Every stored front value is the aggregate of its partial and all newer
      partials of the front, oldest first. */
  lemma FrontHoldsSuffixAggregates<P(!new)>(m: Monoid<P>, frontVals: seq<P>, front: seq<P>, back: seq<P>,
                                            backSum: P, window: seq<P>, k: nat)
    requires IsMonoid(m) && Inv(m, frontVals, front, back, backSum, window) && k < |front|
    ensures front[k] == Fold(m, Reverse(frontVals[..k + 1]))
  {
    TS.FrontAggsAreSuffixFolds(m, Zip(frontVals, front), k);
    ZipVals(frontVals, front);
    ZipIndex(frontVals, front, k);
  }

  lemma {:induction false} ZipIndex<P>(vals: seq<P>, aggs: seq<P>, k: nat)
    requires |vals| == |aggs| && k < |vals|
    ensures Zip(vals, aggs)[k] == TS.AggT(vals[k], aggs[k])
  {
    if k < |vals| - 1 {
      ZipIndex(vals[..|vals| - 1], aggs[..|aggs| - 1], k);
    }
  }

  class Aggregate<In, P(!new), Out> {
    const op: BinOp<In, P, Out>
    const m: Monoid<P>
    /** `_front`: aggregates; its top is the oldest part of the window. */
    var front: seq<P>
    /** `_back`: lifted partials, newest on top. */
    var back: seq<P>
    var backSum: P
    /** The partials the front aggregates were built from, as `front` is stacked. */
    ghost var frontVals: seq<P>
    ghost var window: seq<P>

    ghost predicate Valid()
      reads this
    {
      IsMonoid(m) && m.combine == op.m.combine && Inv(m, frontVals, front, back, backSum, window)
    }

    constructor(binOp: BinOp<In, P, Out>, identE: P)
      requires IsMonoid(Monoid(binOp.m.combine, identE))
      ensures Valid() && op == binOp && m.identity == identE
      ensures window == []
    {
      op := binOp;
      m := Monoid(binOp.m.combine, identE);
      front, back, backSum := [], [], identE;
      frontVals, window := [], [];
      InvEmpty(Monoid(binOp.m.combine, identE));
    }

    function Size(): (n: nat)
      reads this
      requires Valid()
      ensures n == |window|
    {
      |front| + |back|
    }

    method Insert(v: In)
      requires Valid()
      modifies this
      ensures Valid() && window == old(window) + [op.lift(v)]
    {
      var lifted := op.lift(v);
      InvPush(m, frontVals, front, back, backSum, window, lifted);
      backSum := m.combine(backSum, lifted);
      back := back + [lifted];
      window := window + [lifted];
    }

    /** The loop of `evict` that moves the back stack, newest first, onto the
        empty front stack, turning each partial into its front aggregate, and
        the reset of `_backSum` after it. */
    method Flip()
      requires Valid() && front == []
      modifies this
      ensures Valid() && window == old(window) && back == [] && |front| == |window|
    {
      var f, b := front, back;
      ghost var fv := frontVals;
      FlipStart(m, b, backSum, window);
      while b != []
        invariant window == old(window)
        invariant Flipping(m, fv, f, b, window)
        decreases |b|
      {
        var v := b[|b| - 1];
        var a := Top(f, m.identity);
        FlipStep(m, fv, f, b, window);
        b := b[..|b| - 1];
        f := f + [m.combine(v, a)];
        fv := fv + [v];
      }
      FlipEnd(m, fv, f, window);
      front, back, frontVals := f, b, fv;
      backSum := m.identity;
    }

    method Evict()
      requires Valid() && |window| > 0
      modifies this
      ensures Valid() && window == old(window)[1..]
    {
      if front == [] {
        Flip();
      }
      var front' := front[..|front| - 1];
      ghost var frontVals', window' := frontVals[..|frontVals| - 1], window[1..];
      InvPop(m, frontVals, front, back, backSum, window);
      front, frontVals, window := front', frontVals', window';
    }

    method Query() returns (r: Out)
      requires Valid()
      ensures r == op.lower(Fold(m, window))
    {
      var bp := backSum;
      var fp := Top(front, m.identity);
      InvQuery(m, frontVals, front, back, backSum, window);
      r := op.lower(m.combine(fp, bp));
    }
  }
}
