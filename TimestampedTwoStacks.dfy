// cpp/src/TimestampedTwoStacks.hpp: the two-stacks aggregator whose
// entries also carry the timestamp of their element, so that the window can
// report its oldest and youngest time.  The aggregation part is exactly the
// one of `TwoStacks`; this module projects its entries onto those of
// `TwoStacks` and reuses that module's invariant, and keeps the times in a
// second ghost sequence.
module TimestampedTwoStacks {
  import opened Monoid
  import TS = TwoStacks

  /** A stack entry: partial `_val`, running aggregate `_agg` and `_timestamp`. */
  datatype AggT<P, T> = AggT(val: P, agg: P, timestamp: T)

  /** The entries without their times. */
  function Untimed<P, T>(s: seq<AggT<P, T>>): (r: seq<TS.AggT<P>>)
    ensures |r| == |s|
  {
    if s == [] then [] else Untimed(s[..|s| - 1]) + [TS.AggT(s[|s| - 1].val, s[|s| - 1].agg)]
  }

  /** The times of a stack, bottom first. */
  function Times<P, T>(s: seq<AggT<P, T>>): (r: seq<T>)
    ensures |r| == |s|
  {
    if s == [] then [] else Times(s[..|s| - 1]) + [s[|s| - 1].timestamp]
  }

  lemma {:induction false} UntimedIndex<P, T>(s: seq<AggT<P, T>>, i: nat)
    requires i < |s|
    ensures Untimed(s)[i] == TS.AggT(s[i].val, s[i].agg)
    ensures Times(s)[i] == s[i].timestamp
  {
    if i < |s| - 1 {
      UntimedIndex(s[..|s| - 1], i);
    }
  }

  lemma Snoc<P, T>(s: seq<AggT<P, T>>, e: AggT<P, T>)
    ensures Untimed(s + [e]) == Untimed(s) + [TS.AggT(e.val, e.agg)]
    ensures Times(s + [e]) == Times(s) + [e.timestamp]
  {
    assert (s + [e])[..|s|] == s;
  }

  /** `stack.size()>0 ? stack.back()._agg : _identE`. */
  function TopAgg<P, T>(s: seq<AggT<P, T>>, identE: P): (a: P)
    ensures a == TS.TopAgg(Untimed(s), identE)
  {
    if |s| > 0 then s[|s| - 1].agg else identE
  }

  /** The aggregation invariant of `TwoStacks` on the untimed entries, and the
      times of the window, oldest first, in the same order as its partials. */
  ghost predicate Inv<P, T>(m: Monoid<P>, front: seq<AggT<P, T>>, back: seq<AggT<P, T>>,
                            window: seq<P>, times: seq<T>)
  {
    TS.Inv(m, Untimed(front), Untimed(back), window)
    && times == Reverse(Times(front)) + Times(back)
  }

  /** The state of the flip loop, as in `TwoStacks.Flipping`. */
  ghost predicate Flipping<P, T>(m: Monoid<P>, front: seq<AggT<P, T>>, back: seq<AggT<P, T>>,
                                 window: seq<P>, times: seq<T>)
  {
    TS.Flipping(m, Untimed(front), Untimed(back), window)
    && times == Times(back) + Reverse(Times(front))
  }

  lemma InvPush<P, T>(m: Monoid<P>, front: seq<AggT<P, T>>, back: seq<AggT<P, T>>,
                      window: seq<P>, times: seq<T>, x: P, t: T)
    requires Inv(m, front, back, window, times)
    ensures Inv(m, front, back + [AggT(x, m.combine(TopAgg(back, m.identity), x), t)],
                window + [x], times + [t])
  {
    Snoc(back, AggT(x, m.combine(TopAgg(back, m.identity), x), t));
    TS.InvPush(m, Untimed(front), Untimed(back), window, x);
    ConcatAssoc(Reverse(Times(front)), Times(back), [t]);
  }

  lemma InvPop<P, T>(m: Monoid<P>, front: seq<AggT<P, T>>, back: seq<AggT<P, T>>,
                     window: seq<P>, times: seq<T>)
    requires Inv(m, front, back, window, times) && |front| > 0
    ensures window != [] && window[0] == front[|front| - 1].val
    ensures times != [] && times[0] == front[|front| - 1].timestamp
    ensures Inv(m, front[..|front| - 1], back, window[1..], times[1..])
  {
    var n := |front|;
    TS.InvPop(m, Untimed(front), Untimed(back), window);
    assert Untimed(front)[..n - 1] == Untimed(front[..n - 1]);
    StackOrderPop(Times(front[..n - 1]), front[n - 1].timestamp, Times(back));
  }

  lemma FlipStart<P, T>(m: Monoid<P>, back: seq<AggT<P, T>>, window: seq<P>, times: seq<T>)
    requires Inv(m, [], back, window, times)
    ensures Flipping(m, [], back, window, times)
  {
    TS.FlipStart(m, Untimed(back), window);
  }

  lemma FlipStep<P, T>(m: Monoid<P>, f: seq<AggT<P, T>>, b: seq<AggT<P, T>>,
                       window: seq<P>, times: seq<T>)
    requires Flipping(m, f, b, window, times) && |b| > 0
    ensures Flipping(m, f + [AggT(b[|b| - 1].val, m.combine(b[|b| - 1].val, TopAgg(f, m.identity)),
                                  b[|b| - 1].timestamp)],
                     b[..|b| - 1], window, times)
  {
    var e := b[|b| - 1];
    Snoc(f, AggT(e.val, m.combine(e.val, TopAgg(f, m.identity)), e.timestamp));
    TS.FlipStep(m, Untimed(f), Untimed(b), window);
    assert Untimed(b)[..|b| - 1] == Untimed(b[..|b| - 1]);
    StackOrderFlip(Times(b[..|b| - 1]), e.timestamp, Times(f));
  }

  lemma FlipEnd<P, T>(m: Monoid<P>, front: seq<AggT<P, T>>, window: seq<P>, times: seq<T>)
    requires Flipping(m, front, [], window, times)
    ensures Inv(m, front, [], window, times) && |front| == |window|
  {
    TS.FlipEnd(m, Untimed(front), window);
  }

  class Aggregate<In, P(!new), Out, T> {
    const op: BinOp<In, P, Out>
    const m: Monoid<P>
    var front: seq<AggT<P, T>>
    var back: seq<AggT<P, T>>
    ghost var window: seq<P>
    /** The timestamps of the window, oldest first. */
    ghost var times: seq<T>

    ghost predicate Valid()
      reads this
    {
      IsMonoid(m) && m.combine == op.m.combine && Inv(m, front, back, window, times)
    }

    constructor(binOp: BinOp<In, P, Out>, identE: P)
      requires IsMonoid(Monoid(binOp.m.combine, identE))
      ensures Valid() && op == binOp && m.identity == identE
      ensures window == [] && times == []
    {
      op := binOp;
      m := Monoid(binOp.m.combine, identE);
      front, back := [], [];
      window, times := [], [];
      TS.InvEmpty(Monoid(binOp.m.combine, identE));
    }

    function Size(): (n: nat)
      reads this
      requires Valid()
      ensures n == |window| && n == |times|
    {
      |front| + |back|
    }

    method Insert(time: T, v: In)
      requires Valid()
      modifies this
      ensures Valid()
      ensures window == old(window) + [op.lift(v)] && times == old(times) + [time]
    {
      var prev := TopAgg(back, m.identity);
      var lifted := op.lift(v);
      var back' := back + [AggT(lifted, m.combine(prev, lifted), time)];
      ghost var window', times' := window + [lifted], times + [time];
      InvPush(m, front, back, window, times, lifted, time);
      back := back';
      window, times := window', times';
    }

    /** The loop of `evict` that flips the back stack onto the empty front,
        carrying every entry's timestamp along. */
    method Flip()
      requires Valid() && front == []
      modifies this
      ensures Valid() && window == old(window) && times == old(times)
      ensures back == [] && |front| == |window|
    {
      var f, b := front, back;
      FlipStart(m, b, window, times);
      while b != []
        invariant window == old(window) && times == old(times)
        invariant Flipping(m, f, b, window, times)
        decreases |b|
      {
        var e := b[|b| - 1];
        var a := TopAgg(f, m.identity);
        FlipStep(m, f, b, window, times);
        b := b[..|b| - 1];
        f := f + [AggT(e.val, m.combine(e.val, a), e.timestamp)];
      }
      FlipEnd(m, f, window, times);
      front, back := f, b;
    }

    method Evict()
      requires Valid() && |window| > 0
      modifies this
      ensures Valid() && window == old(window)[1..] && times == old(times)[1..]
    {
      if front == [] {
        Flip();
      }
      InvPop(m, front, back, window, times);
      front := front[..|front| - 1];
      window, times := window[1..], times[1..];
    }

    method Query() returns (r: Out)
      requires Valid()
      ensures r == op.lower(Fold(m, window))
    {
      var bp := TopAgg(back, m.identity);
      var fp := TopAgg(front, m.identity);
      TS.InvQuery(m, Untimed(front), Untimed(back), window);
      r := op.lower(m.combine(fp, bp));
    }

    /** The timestamp of the oldest element: the front's top, or the back's
        bottom when the front is empty. */
    function Oldest(): (t: T)
      reads this
      requires Valid() && |window| > 0
      ensures t == times[0]
    {
      if front == [] then
        UntimedIndex(back, 0);
        back[0].timestamp
      else
        ReverseFirst(Times(front));
        front[|front| - 1].timestamp
    }

    /** The timestamp of the youngest element: the back's top, or the front's
        bottom when the back is empty. */
    function Youngest(): (t: T)
      reads this
      requires Valid() && |window| > 0
      ensures t == times[|times| - 1]
    {
      if back == [] then
        UntimedIndex(front, 0);
        ReverseLast(Times(front));
        front[0].timestamp
      else
        back[|back| - 1].timestamp
    }

    /** Recombines the partials, front from its top down, then back from its bottom up. */
    method NaiveQuery() returns (r: Out)
      requires Valid()
      ensures r == op.lower(Fold(m, window))
    {
      var accum := FoldDown(m, front);
      accum := FoldUp(m, back, Reverse(TS.Vals(Untimed(front))), accum);
      r := op.lower(accum);
    }
  }

  /** The first loop of `naive_query`: the front's values from its top down. */
  method FoldDown<P, T>(m: Monoid<P>, front: seq<AggT<P, T>>) returns (accum: P)
    ensures accum == Fold(m, Reverse(TS.Vals(Untimed(front))))
  {
    ghost var fv := TS.Vals(Untimed(front));
    accum := m.identity;
    var i := |front|;
    while i > 0
      invariant 0 <= i <= |front|
      invariant accum == Fold(m, Reverse(fv[i..]))
    {
      i := i - 1;
      UntimedIndex(front, i);
      TS.ValsIndex(Untimed(front), i);
      SliceCons(fv, i);
      ReverseCons(front[i].val, fv[i + 1..]);
      FoldSnoc(m, Reverse(fv[i + 1..]), front[i].val);
      accum := m.combine(accum, front[i].val);
    }
    assert fv[0..] == fv;
  }

  /** The second loop: the back's values from its bottom up, after `older`. */
  method FoldUp<P, T>(m: Monoid<P>, back: seq<AggT<P, T>>, ghost older: seq<P>, accum0: P) returns (accum: P)
    requires accum0 == Fold(m, older)
    ensures accum == Fold(m, older + TS.Vals(Untimed(back)))
  {
    ghost var bv := TS.Vals(Untimed(back));
    accum := accum0;
    assert older + bv[..0] == older;
    var j := 0;
    while j < |back|
      invariant 0 <= j <= |back|
      invariant accum == Fold(m, older + bv[..j])
    {
      UntimedIndex(back, j);
      TS.ValsIndex(Untimed(back), j);
      SliceSnoc(bv, j);
      ConcatAssoc(older, bv[..j], [back[j].val]);
      FoldSnoc(m, older + bv[..j], back[j].val);
      accum := m.combine(accum, back[j].val);
      j := j + 1;
    }
    assert bv[..|back|] == bv;
  }
}
