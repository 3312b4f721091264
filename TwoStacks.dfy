// cpp/src/TwoStacks.hpp: Hammer Slide's two-stacks aggregator.  The back
// stack receives new partials and keeps their prefix aggregates; when the
// front stack is empty on evict, the back is flipped onto it, where every
// entry then keeps the aggregate of itself and everything newer in the front.
module TwoStacks {
  import opened Monoid

  /** A stack entry: the lifted partial `_val` and the running aggregate `_agg`. */
  datatype AggT<P> = AggT(val: P, agg: P)

  /** The partials of a stack, bottom first. */
  function Vals<P>(s: seq<AggT<P>>): (r: seq<P>)
    ensures |r| == |s|
  {
    if s == [] then [] else Vals(s[..|s| - 1]) + [s[|s| - 1].val]
  }

  lemma {:induction false} ValsIndex<P>(s: seq<AggT<P>>, i: nat)
    requires i < |s|
    ensures Vals(s)[i] == s[i].val
  {
    if i < |s| - 1 {
      ValsIndex(s[..|s| - 1], i);
    }
  }

  /** `stack.size()>0 ? stack.back()._agg : _identE`. */
  function TopAgg<P>(s: seq<AggT<P>>, identE: P): P
  {
    if |s| > 0 then s[|s| - 1].agg else identE
  }

  /** The back stack: every entry combines the aggregate below it with its
      own partial on the right. */
  ghost predicate BackAggs<P>(m: Monoid<P>, s: seq<AggT<P>>)
  {
    s == []
    || (BackAggs(m, s[..|s| - 1])
        && s[|s| - 1].agg == m.combine(TopAgg(s[..|s| - 1], m.identity), s[|s| - 1].val))
  }

  /** The front stack, whose top is the oldest partial of the window: every
      entry combines its own partial with the aggregate below it on the left. */
  ghost predicate FrontAggs<P>(m: Monoid<P>, s: seq<AggT<P>>)
  {
    s == []
    || (FrontAggs(m, s[..|s| - 1])
        && s[|s| - 1].agg == m.combine(s[|s| - 1].val, TopAgg(s[..|s| - 1], m.identity)))
  }

  /** The top of the back stack aggregates all of it, bottom to top. */
  lemma {:induction false} BackTop<P>(m: Monoid<P>, s: seq<AggT<P>>)
    requires BackAggs(m, s)
    ensures TopAgg(s, m.identity) == Fold(m, Vals(s))
  {
    if s != [] {
      var t := s[..|s| - 1];
      BackTop(m, t);
      FoldSnoc(m, Vals(t), s[|s| - 1].val);
    }
  }

  /** The top of the front stack aggregates all of it, top to bottom. */
  lemma {:induction false} FrontTop<P(!new)>(m: Monoid<P>, s: seq<AggT<P>>)
    requires IsMonoid(m) && FrontAggs(m, s)
    ensures TopAgg(s, m.identity) == Fold(m, Reverse(Vals(s)))
  {
    if s != [] {
      var t := s[..|s| - 1];
      FrontTop(m, t);
      FoldCons(m, s[|s| - 1].val, Reverse(Vals(t)));
      ReverseSnoc(Vals(t), s[|s| - 1].val);
    }
  }

  lemma BackPush<P>(m: Monoid<P>, s: seq<AggT<P>>, x: P)
    requires BackAggs(m, s)
    ensures BackAggs(m, s + [AggT(x, m.combine(TopAgg(s, m.identity), x))])
    ensures Vals(s + [AggT(x, m.combine(TopAgg(s, m.identity), x))]) == Vals(s) + [x]
  {
    assert (s + [AggT(x, m.combine(TopAgg(s, m.identity), x))])[..|s|] == s;
  }

  lemma FrontPush<P>(m: Monoid<P>, s: seq<AggT<P>>, x: P)
    requires FrontAggs(m, s)
    ensures FrontAggs(m, s + [AggT(x, m.combine(x, TopAgg(s, m.identity)))])
    ensures Vals(s + [AggT(x, m.combine(x, TopAgg(s, m.identity)))]) == Vals(s) + [x]
  {
    assert (s + [AggT(x, m.combine(x, TopAgg(s, m.identity)))])[..|s|] == s;
  }

  /** Popping the top of either stack keeps its invariant. */
  lemma StackPop<P>(m: Monoid<P>, s: seq<AggT<P>>)
    requires |s| > 0
    ensures Vals(s) == Vals(s[..|s| - 1]) + [s[|s| - 1].val]
    ensures BackAggs(m, s) ==> BackAggs(m, s[..|s| - 1])
    ensures FrontAggs(m, s) ==> FrontAggs(m, s[..|s| - 1])
  {
  }

  lemma {:induction false} Prefix<P>(m: Monoid<P>, s: seq<AggT<P>>, n: nat)
    requires n <= |s|
    ensures Vals(s[..n]) == Vals(s)[..n]
    ensures BackAggs(m, s) ==> BackAggs(m, s[..n])
    ensures FrontAggs(m, s) ==> FrontAggs(m, s[..n])
  {
    if n < |s| {
      Prefix(m, s[..|s| - 1], n);
      assert s[..|s| - 1][..n] == s[..n];
      assert Vals(s) == Vals(s[..|s| - 1]) + [s[|s| - 1].val];
    } else {
      assert s[..n] == s;
    }
  }

  /** The invariant of the two stacks and the window, oldest first, that
      they hold: the front stack reversed, then the back stack. */
  ghost predicate Inv<P>(m: Monoid<P>, front: seq<AggT<P>>, back: seq<AggT<P>>, window: seq<P>)
  {
    FrontAggs(m, front) && BackAggs(m, back) && window == Reverse(Vals(front)) + Vals(back)
  }

  lemma InvEmpty<P>(m: Monoid<P>)
    ensures Inv(m, [], [], [])
  {
  }

  /** Pushing onto the back stack appends to the window. */
  lemma InvPush<P>(m: Monoid<P>, front: seq<AggT<P>>, back: seq<AggT<P>>, window: seq<P>, x: P)
    requires Inv(m, front, back, window)
    ensures Inv(m, front, back + [AggT(x, m.combine(TopAgg(back, m.identity), x))], window + [x])
  {
    BackPush(m, back, x);
    ConcatAssoc(Reverse(Vals(front)), Vals(back), [x]);
  }

  /** Popping the front stack's top removes the oldest partial of the window. */
  lemma InvPop<P>(m: Monoid<P>, front: seq<AggT<P>>, back: seq<AggT<P>>, window: seq<P>)
    requires Inv(m, front, back, window) && |front| > 0
    ensures window != [] && window[0] == front[|front| - 1].val
    ensures Inv(m, front[..|front| - 1], back, window[1..])
  {
    var top := front[|front| - 1];
    var rest := Reverse(Vals(front[..|front| - 1])) + Vals(back);
    StackPop(m, front);
    ReverseSnoc(Vals(front[..|front| - 1]), top.val);
    ConcatAssoc([top.val], Reverse(Vals(front[..|front| - 1])), Vals(back));
    assert window == [top.val] + rest;
    assert window[1..] == rest;
  }

  /** The state of the flip loop: part of the back stack has been moved, so
      the window is what is left of the back followed by the front reversed. */
  ghost predicate Flipping<P>(m: Monoid<P>, front: seq<AggT<P>>, back: seq<AggT<P>>, window: seq<P>)
  {
    FrontAggs(m, front) && BackAggs(m, back) && window == Vals(back) + Reverse(Vals(front))
  }

  lemma FlipStart<P>(m: Monoid<P>, back: seq<AggT<P>>, window: seq<P>)
    requires Inv(m, [], back, window)
    ensures Flipping(m, [], back, window)
  {
  }

  /** One step of the flip: moving the newest back entry onto the front
      keeps both stack invariants and the order of the window. */
  lemma FlipStep<P>(m: Monoid<P>, f: seq<AggT<P>>, b: seq<AggT<P>>, window: seq<P>)
    requires Flipping(m, f, b, window) && |b| > 0
    ensures Flipping(m, f + [AggT(b[|b| - 1].val, m.combine(b[|b| - 1].val, TopAgg(f, m.identity)))],
                     b[..|b| - 1], window)
  {
    var v := b[|b| - 1].val;
    var f' := f + [AggT(v, m.combine(v, TopAgg(f, m.identity)))];
    StackPop(m, b);
    FrontPush(m, f, v);
    ReverseSnoc(Vals(f), v);
    var older, newer := Vals(b[..|b| - 1]), Reverse(Vals(f));
    assert Vals(b) == older + [v];
    assert Reverse(Vals(f')) == [v] + newer;
    ConcatAssoc(older, [v], newer);
  }

  lemma FlipEnd<P>(m: Monoid<P>, front: seq<AggT<P>>, window: seq<P>)
    requires Flipping(m, front, [], window)
    ensures Inv(m, front, [], window) && |front| == |window|
  {
  }

  /** The tops of the two stacks combine to the fold of the window. */
  lemma InvQuery<P(!new)>(m: Monoid<P>, front: seq<AggT<P>>, back: seq<AggT<P>>, window: seq<P>)
    requires IsMonoid(m) && Inv(m, front, back, window)
    ensures m.combine(TopAgg(front, m.identity), TopAgg(back, m.identity)) == Fold(m, window)
  {
    FrontTop(m, front);
    BackTop(m, back);
    FoldAppend(m, Reverse(Vals(front)), Vals(back));
  }

  /** Every back entry aggregates the partials from the bottom up to itself. */
  lemma BackAggsArePrefixFolds<P>(m: Monoid<P>, s: seq<AggT<P>>, k: nat)
    requires BackAggs(m, s) && k < |s|
    ensures s[k].agg == Fold(m, Vals(s)[..k + 1])
  {
    Prefix(m, s, k + 1);
    BackTop(m, s[..k + 1]);
  }

  /** Every front entry aggregates itself and the partials below it, that
      is, the newer part of the front, oldest first. */
  lemma FrontAggsAreSuffixFolds<P(!new)>(m: Monoid<P>, s: seq<AggT<P>>, k: nat)
    requires IsMonoid(m) && FrontAggs(m, s) && k < |s|
    ensures s[k].agg == Fold(m, Reverse(Vals(s)[..k + 1]))
  {
    Prefix(m, s, k + 1);
    FrontTop(m, s[..k + 1]);
  }

  class Aggregate<In, P(!new), Out> {
    const op: BinOp<In, P, Out>
    const m: Monoid<P>
    /** `_front`: its top (the last element) is the oldest partial of the window. */
    var front: seq<AggT<P>>
    /** `_back`: its top (the last element) is the newest partial of the window. */
    var back: seq<AggT<P>>
    ghost var window: seq<P>

    ghost predicate Valid()
      reads this
    {
      IsMonoid(m) && m.combine == op.m.combine && Inv(m, front, back, window)
    }

    constructor(binOp: BinOp<In, P, Out>, identE: P)
      requires IsMonoid(Monoid(binOp.m.combine, identE))
      ensures Valid() && op == binOp && m.identity == identE
      ensures window == []
    {
      op := binOp;
      m := Monoid(binOp.m.combine, identE);
      front := [];
      back := [];
      window := [];
      InvEmpty(Monoid(binOp.m.combine, identE));
    }

    function Size(): (n: nat)
      reads this
      requires Valid()
      ensures n == |window|
    {
      |front| + |back|
    }

    method Insert(v: In)
      requires Valid()
      modifies this
      ensures Valid() && window == old(window) + [op.lift(v)]
    {
      var prev := TopAgg(back, m.identity);
      var lifted := op.lift(v);
      InvPush(m, front, back, window, lifted);
      back := back + [AggT(lifted, m.combine(prev, lifted))];
      window := window + [lifted];
    }

    /** Flips if the front stack is empty, then pops the front's top: the oldest partial. */
    method Evict()
      requires Valid() && |window| > 0
      modifies this
      ensures Valid() && window == old(window)[1..]
    {
      var f := front;
      if f == [] {
        f := FlipStacks(m, back, window);
        back := [];
      }
      InvPop(m, f, back, window);
      front, window := f[..|f| - 1], window[1..];
    }

    method Query() returns (r: Out)
      requires Valid()
      ensures r == op.lower(Fold(m, window))
    {
      var bp := TopAgg(back, m.identity);
      var fp := TopAgg(front, m.identity);
      InvQuery(m, front, back, window);
      r := op.lower(m.combine(fp, bp));
    }

    /** Recombines the partials, front from its top down, then back from its bottom up. */
    method NaiveQuery() returns (r: Out)
      requires Valid()
      ensures r == op.lower(Fold(m, window))
    {
      var accum := FoldDown(m, front);
      accum := FoldUp(m, back, Reverse(Vals(front)), accum);
      r := op.lower(accum);
    }
  }

  /** The loop of `evict` that moves the back stack, newest first, onto the
      empty front stack, giving each moved entry its front aggregate. */
  method FlipStacks<P>(m: Monoid<P>, back: seq<AggT<P>>, ghost window: seq<P>) returns (f: seq<AggT<P>>)
    requires Inv(m, [], back, window)
    ensures Inv(m, f, [], window) && |f| == |window|
  {
    var b := back;
    f := [];
    FlipStart(m, b, window);
    while b != []
      invariant Flipping(m, f, b, window)
      decreases |b|
    {
      var v := b[|b| - 1].val;
      var a := TopAgg(f, m.identity);
      FlipStep(m, f, b, window);
      b := b[..|b| - 1];
      f := f + [AggT(v, m.combine(v, a))];
    }
    FlipEnd(m, f, window);
  }

  /** The first loop of `naive_query`: the front's values from its top down. */
  method FoldDown<P>(m: Monoid<P>, front: seq<AggT<P>>) returns (accum: P)
    ensures accum == Fold(m, Reverse(Vals(front)))
  {
    accum := m.identity;
    var i := |front|;
    while i > 0
      invariant 0 <= i <= |front|
      invariant accum == Fold(m, Reverse(Vals(front)[i..]))
    {
      i := i - 1;
      ValsIndex(front, i);
      SliceCons(Vals(front), i);
      ReverseCons(front[i].val, Vals(front)[i + 1..]);
      FoldSnoc(m, Reverse(Vals(front)[i + 1..]), front[i].val);
      accum := m.combine(accum, front[i].val);
    }
    assert Vals(front)[0..] == Vals(front);
  }

  /** The second loop: the back's values from its bottom up, after `older`. */
  method FoldUp<P>(m: Monoid<P>, back: seq<AggT<P>>, ghost older: seq<P>, accum0: P) returns (accum: P)
    requires accum0 == Fold(m, older)
    ensures accum == Fold(m, older + Vals(back))
  {
    accum := accum0;
    assert older + Vals(back)[..0] == older;
    var j := 0;
    while j < |back|
      invariant 0 <= j <= |back|
      invariant accum == Fold(m, older + Vals(back)[..j])
    {
      ValsIndex(back, j);
      SliceSnoc(Vals(back), j);
      ConcatAssoc(older, Vals(back)[..j], [back[j].val]);
      FoldSnoc(m, older + Vals(back)[..j], back[j].val);
      accum := m.combine(accum, back[j].val);
      j := j + 1;
    }
    assert Vals(back)[..|back|] == Vals(back);
  }
}
