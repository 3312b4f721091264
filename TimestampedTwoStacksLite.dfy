// cpp/src/TimestampedTwoStacksLite.hpp: `TwoStacksLite` whose entries also
// carry their element's timestamp.  The stored values are projected onto the
// plain stacks of `TwoStacksLite`, whose invariant is reused; the times are a
// second ghost sequence in window order.
module TimestampedTwoStacksLite {
  import opened Monoid
  import TSL = TwoStacksLite

  /** A stack entry: the value `_val` (a partial on the back, an aggregate on
      the front) and `_timestamp`. */
  datatype AggT<P, T> = AggT(val: P, timestamp: T)

  /** The stored values of a stack, bottom first. */
  function Values<P, T>(s: seq<AggT<P, T>>): (r: seq<P>)
    ensures |r| == |s|
  {
    if s == [] then [] else Values(s[..|s| - 1]) + [s[|s| - 1].val]
  }

  /** The times of a stack, bottom first. */
  function Times<P, T>(s: seq<AggT<P, T>>): (r: seq<T>)
    ensures |r| == |s|
  {
    if s == [] then [] else Times(s[..|s| - 1]) + [s[|s| - 1].timestamp]
  }

  lemma {:induction false} TimesIndex<P, T>(s: seq<AggT<P, T>>, i: nat)
    requires i < |s|
    ensures Times(s)[i] == s[i].timestamp
  {
    if i < |s| - 1 {
      TimesIndex(s[..|s| - 1], i);
    }
  }

  lemma Snoc<P, T>(s: seq<AggT<P, T>>, e: AggT<P, T>)
    ensures Values(s + [e]) == Values(s) + [e.val]
    ensures Times(s + [e]) == Times(s) + [e.timestamp]
  {
    assert (s + [e])[..|s|] == s;
  }

  lemma Unsnoc<P, T>(s: seq<AggT<P, T>>)
    requires |s| > 0
    ensures Values(s)[..|s| - 1] == Values(s[..|s| - 1])
    ensures Values(s)[|s| - 1] == s[|s| - 1].val
  {
  }

  /** `_front.size()>0 ? _front.back()._val : _identE`. */
  function TopVal<P, T>(s: seq<AggT<P, T>>, identE: P): (a: P)
    ensures a == TSL.Top(Values(s), identE)
  {
    if |s| > 0 then s[|s| - 1].val else identE
  }

  ghost predicate Inv<P, T>(m: Monoid<P>, frontVals: seq<P>, front: seq<AggT<P, T>>, back: seq<AggT<P, T>>,
                            backSum: P, window: seq<P>, times: seq<T>)
  {
    TSL.Inv(m, frontVals, Values(front), Values(back), backSum, window)
    && times == Reverse(Times(front)) + Times(back)
  }

  ghost predicate Flipping<P, T>(m: Monoid<P>, frontVals: seq<P>, front: seq<AggT<P, T>>, back: seq<AggT<P, T>>,
                                 window: seq<P>, times: seq<T>)
  {
    TSL.Flipping(m, frontVals, Values(front), Values(back), window)
    && times == Times(back) + Reverse(Times(front))
  }

  lemma InvPush<P, T>(m: Monoid<P>, frontVals: seq<P>, front: seq<AggT<P, T>>, back: seq<AggT<P, T>>,
                      backSum: P, window: seq<P>, times: seq<T>, x: P, t: T)
    requires Inv(m, frontVals, front, back, backSum, window, times)
    ensures Inv(m, frontVals, front, back + [AggT(x, t)], m.combine(backSum, x), window + [x], times + [t])
  {
    Snoc(back, AggT(x, t));
    TSL.InvPush(m, frontVals, Values(front), Values(back), backSum, window, x);
    ConcatAssoc(Reverse(Times(front)), Times(back), [t]);
  }

  lemma InvPop<P, T>(m: Monoid<P>, frontVals: seq<P>, front: seq<AggT<P, T>>, back: seq<AggT<P, T>>,
                     backSum: P, window: seq<P>, times: seq<T>)
    requires Inv(m, frontVals, front, back, backSum, window, times) && |front| > 0
    ensures window != [] && window[0] == frontVals[|frontVals| - 1]
    ensures times != [] && times[0] == front[|front| - 1].timestamp
    ensures Inv(m, frontVals[..|frontVals| - 1], front[..|front| - 1], back, backSum, window[1..], times[1..])
  {
    var n := |front|;
    Unsnoc(front);
    TSL.InvPop(m, frontVals, Values(front), Values(back), backSum, window);
    StackOrderPop(Times(front[..n - 1]), front[n - 1].timestamp, Times(back));
  }

  lemma FlipStart<P, T>(m: Monoid<P>, back: seq<AggT<P, T>>, backSum: P, window: seq<P>, times: seq<T>)
    requires Inv(m, [], [], back, backSum, window, times)
    ensures Flipping(m, [], [], back, window, times)
  {
    TSL.FlipStart(m, Values(back), backSum, window);
  }

  lemma FlipStep<P, T>(m: Monoid<P>, frontVals: seq<P>, f: seq<AggT<P, T>>, b: seq<AggT<P, T>>,
                       window: seq<P>, times: seq<T>)
    requires Flipping(m, frontVals, f, b, window, times) && |b| > 0
    ensures Flipping(m, frontVals + [b[|b| - 1].val],
                     f + [AggT(m.combine(b[|b| - 1].val, TopVal(f, m.identity)), b[|b| - 1].timestamp)],
                     b[..|b| - 1], window, times)
  {
    var e := b[|b| - 1];
    Unsnoc(b);
    Snoc(f, AggT(m.combine(e.val, TopVal(f, m.identity)), e.timestamp));
    TSL.FlipStep(m, frontVals, Values(f), Values(b), window);
    StackOrderFlip(Times(b[..|b| - 1]), e.timestamp, Times(f));
  }

  lemma FlipEnd<P, T>(m: Monoid<P>, frontVals: seq<P>, front: seq<AggT<P, T>>, window: seq<P>, times: seq<T>)
    requires Flipping(m, frontVals, front, [], window, times)
    ensures Inv(m, frontVals, front, [], m.identity, window, times) && |front| == |window|
  {
    TSL.FlipEnd(m, frontVals, Values(front), window);
  }

  class Aggregate<In, P(!new), Out, T> {
    const op: BinOp<In, P, Out>
    const m: Monoid<P>
    var front: seq<AggT<P, T>>
    var back: seq<AggT<P, T>>
    var backSum: P
    /** The partials the front aggregates were built from, as `front` is stacked. */
    ghost var frontVals: seq<P>
    ghost var window: seq<P>
    /** The timestamps of the window, oldest first. */
    ghost var times: seq<T>

    ghost predicate Valid()
      reads this
    {
      IsMonoid(m) && m.combine == op.m.combine && Inv(m, frontVals, front, back, backSum, window, times)
    }

    constructor(binOp: BinOp<In, P, Out>, identE: P)
      requires IsMonoid(Monoid(binOp.m.combine, identE))
      ensures Valid() && op == binOp && m.identity == identE
      ensures window == [] && times == []
    {
      op := binOp;
      m := Monoid(binOp.m.combine, identE);
      front, back, backSum := [], [], identE;
      frontVals, window, times := [], [], [];
      TSL.InvEmpty(Monoid(binOp.m.combine, identE));
    }

    function Size(): (n: nat)
      reads this
      requires Valid()
      ensures n == |window| && n == |times|
    {
      |front| + |back|
    }

    method Insert(time: T, v: In)
      requires Valid()
      modifies this
      ensures Valid()
      ensures window == old(window) + [op.lift(v)] && times == old(times) + [time]
    {
      var lifted := op.lift(v);
      InvPush(m, frontVals, front, back, backSum, window, times, lifted, time);
      backSum := m.combine(backSum, lifted);
      back := back + [AggT(lifted, time)];
      window, times := window + [lifted], times + [time];
    }

    /** The loop of `evict` that flips the back stack onto the empty front,
        carrying every entry's timestamp along, and the reset of `_backSum`. */
    method Flip()
      requires Valid() && front == []
      modifies this
      ensures Valid() && window == old(window) && times == old(times)
      ensures back == [] && |front| == |window|
    {
      var f, b := front, back;
      ghost var fv := frontVals;
      FlipStart(m, b, backSum, window, times);
      while b != []
        invariant window == old(window) && times == old(times)
        invariant Flipping(m, fv, f, b, window, times)
        decreases |b|
      {
        var e := b[|b| - 1];
        var a := TopVal(f, m.identity);
        FlipStep(m, fv, f, b, window, times);
        b := b[..|b| - 1];
        f := f + [AggT(m.combine(e.val, a), e.timestamp)];
        fv := fv + [e.val];
      }
      FlipEnd(m, fv, f, window, times);
      front, back, frontVals := f, b, fv;
      backSum := m.identity;
    }

    method Evict()
      requires Valid() && |window| > 0
      modifies this
      ensures Valid() && window == old(window)[1..] && times == old(times)[1..]
    {
      if front == [] {
        Flip();
      }
      PopFront();
    }

    /** `_front.pop_back()`: removes the oldest element. */
    method PopFront()
      requires Valid() && front != []
      modifies this
      ensures Valid() && window == old(window)[1..] && times == old(times)[1..]
    {
      InvPop(m, frontVals, front, back, backSum, window, times);
      front := front[..|front| - 1];
      frontVals := frontVals[..|frontVals| - 1];
      window, times := window[1..], times[1..];
    }

    method Query() returns (r: Out)
      requires Valid()
      ensures r == op.lower(Fold(m, window))
    {
      var bp := backSum;
      var fp := TopVal(front, m.identity);
      TSL.InvQuery(m, frontVals, Values(front), Values(back), backSum, window);
      r := op.lower(m.combine(fp, bp));
    }

    function Oldest(): (t: T)
      reads this
      requires Valid() && |window| > 0
      ensures t == times[0]
    {
      if front == [] then
        TimesIndex(back, 0);
        back[0].timestamp
      else
        ReverseFirst(Times(front));
        front[|front| - 1].timestamp
    }

    function Youngest(): (t: T)
      reads this
      requires Valid() && |window| > 0
      ensures t == times[|times| - 1]
    {
      if back == [] then
        TimesIndex(front, 0);
        ReverseLast(Times(front));
        front[0].timestamp
      else
        back[|back| - 1].timestamp
    }
  }
}
