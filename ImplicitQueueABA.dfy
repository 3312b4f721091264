// cpp/src/ImplicitQueueABA.hpp: the two stacks of `TwoStacks` in a single
// queue split at the iterator `b`.  Every entry keeps its partial `_val`,
// which is never changed; `_agg` holds, before `b`, the aggregate from the
// entry to the end of the front and, from `b` on, the aggregate from `b` to
// the entry.  An evict that finds the front empty sweeps the whole queue from
// the newest entry down, turning it all into front.
module ImplicitQueueABA {
  import opened Monoid
  import TS = TwoStacks

  ghost predicate Inv<P>(m: Monoid<P>, q: seq<TS.AggT<P>>, b: nat, window: seq<P>)
  {
    |q| == |window| && b <= |q|
    && (forall k {:trigger q[k]} :: 0 <= k < |q| ==> q[k].val == window[k])
    && (forall k {:trigger q[k]} :: 0 <= k < b ==> q[k].agg == Fold(m, window[k..b]))
    && (forall k {:trigger q[k]} :: b <= k < |q| ==> q[k].agg == Fold(m, window[b..k + 1]))
  }

  /** `(b != end) ? back()._agg : identE`: the aggregate of the back region. */
  function BackAgg<P>(q: seq<TS.AggT<P>>, b: nat, identE: P): P
  {
    if b < |q| then q[|q| - 1].agg else identE
  }

  /** `(b != begin) ? front()._agg : identE`: the aggregate of the front region. */
  function FrontAgg<P>(q: seq<TS.AggT<P>>, b: nat, identE: P): P
  {
    if b != 0 && |q| > 0 then q[0].agg else identE
  }

  lemma InvEmpty<P>(m: Monoid<P>)
    ensures Inv(m, [], 0, [])
  {
  }

  lemma BackAggIsFold<P>(m: Monoid<P>, q: seq<TS.AggT<P>>, b: nat, window: seq<P>)
    requires Inv(m, q, b, window)
    ensures BackAgg(q, b, m.identity) == Fold(m, window[b..])
  {
    if b == |q| {
      assert window[b..] == [];
    } else {
      assert window[b..|q|] == window[b..];
    }
  }

  lemma InvPush<P>(m: Monoid<P>, q: seq<TS.AggT<P>>, b: nat, window: seq<P>, x: P)
    requires Inv(m, q, b, window)
    ensures Inv(m, q + [TS.AggT(x, m.combine(BackAgg(q, b, m.identity), x))], b, window + [x])
  {
    var q' := q + [TS.AggT(x, m.combine(BackAgg(q, b, m.identity), x))];
    var w := window + [x];
    PushLast(m, q, b, window, x);
    forall k | 0 <= k < |q|
      ensures q'[k] == q[k] && w[k] == window[k]
    {
    }
    forall k | 0 <= k < b
      ensures q'[k].agg == Fold(m, w[k..b])
    {
      assert w[k..b] == window[k..b];
    }
    forall k | b <= k < |q|
      ensures q'[k].agg == Fold(m, w[b..k + 1])
    {
      assert w[b..k + 1] == window[b..k + 1];
    }
  }

  /** The pushed entry aggregates the back region and the new value. */
  lemma PushLast<P>(m: Monoid<P>, q: seq<TS.AggT<P>>, b: nat, window: seq<P>, x: P)
    requires Inv(m, q, b, window)
    ensures m.combine(BackAgg(q, b, m.identity), x) == Fold(m, (window + [x])[b..|q| + 1])
  {
    BackAggIsFold(m, q, b, window);
    assert (window + [x])[b..|q| + 1] == window[b..] + [x];
    FoldSnoc(m, window[b..], x);
  }

  /** The state of the sweep, whose iterator `p` has come down to slot `p`:
      from there on every `_agg` is the aggregate of the window to its end. */
  ghost predicate Sweeping<P>(m: Monoid<P>, q: seq<TS.AggT<P>>, p: nat, sum: P, window: seq<P>)
  {
    |q| == |window| && p <= |q|
    && (forall k :: 0 <= k < |q| ==> q[k].val == window[k])
    && (forall k :: p <= k < |q| ==> q[k].agg == Fold(m, window[k..]))
    && sum == Fold(m, window[p..])
  }

  lemma SweepStart<P>(m: Monoid<P>, q: seq<TS.AggT<P>>, window: seq<P>)
    requires Inv(m, q, 0, window)
    ensures Sweeping(m, q, |q|, m.identity, window)
  {
    assert window[|q|..] == [];
  }

  /** `--p; sum = combine(p->_val, sum); p->_agg = sum`. */
  lemma SweepStep<P(!new)>(m: Monoid<P>, q: seq<TS.AggT<P>>, p: nat, sum: P, window: seq<P>)
    requires IsMonoid(m) && 0 < p && Sweeping(m, q, p, sum, window)
    ensures Sweeping(m, q[p - 1 := q[p - 1].(agg := m.combine(q[p - 1].val, sum))], p - 1,
                     m.combine(q[p - 1].val, sum), window)
  {
    var q' := q[p - 1 := q[p - 1].(agg := m.combine(q[p - 1].val, sum))];
    SliceCons(window, p - 1);
    FoldCons(m, window[p - 1], window[p..]);
    forall k | 0 <= k < |q'|
      ensures q'[k].val == window[k]
    {
      assert q'[k].val == q[k].val;
    }
    forall k | p <= k < |q'|
      ensures q'[k].agg == Fold(m, window[k..])
    {
      assert q'[k] == q[k];
    }
  }

  /** After the sweep, `b = end`: the whole queue is front. */
  lemma SweepEnd<P>(m: Monoid<P>, q: seq<TS.AggT<P>>, sum: P, window: seq<P>)
    requires Sweeping(m, q, 0, sum, window)
    ensures Inv(m, q, |q|, window)
  {
    forall k | 0 <= k < |q|
      ensures window[k..|q|] == window[k..]
    {
    }
  }

  /** `pop_front` of a non-empty front drops the oldest partial. */
  lemma InvPop<P>(m: Monoid<P>, q: seq<TS.AggT<P>>, b: nat, window: seq<P>)
    requires Inv(m, q, b, window) && b > 0
    ensures Inv(m, q[1..], b - 1, window[1..])
  {
    forall k | 0 <= k < b - 1
      ensures q[1..][k].agg == Fold(m, window[1..][k..b - 1])
    {
      assert window[1..][k..b - 1] == window[k + 1..b];
    }
    forall k | b - 1 <= k < |q| - 1
      ensures q[1..][k].agg == Fold(m, window[1..][b - 1..k + 1])
    {
      assert window[1..][b - 1..k + 1] == window[b..k + 2];
    }
  }

  lemma InvQuery<P(!new)>(m: Monoid<P>, q: seq<TS.AggT<P>>, b: nat, window: seq<P>)
    requires IsMonoid(m) && Inv(m, q, b, window)
    ensures m.combine(FrontAgg(q, b, m.identity), BackAgg(q, b, m.identity)) == Fold(m, window)
  {
    BackAggIsFold(m, q, b, window);
    FoldSplit(m, window, b);
    if b == 0 {
      assert window[..b] == [];
    } else {
      assert window[0..b] == window[..b];
    }
  }

  class Aggregate<In, P(!new), Out> {
    const op: BinOp<In, P, Out>
    const m: Monoid<P>
    /** `_q`, oldest first. */
    var q: seq<TS.AggT<P>>
    /** The iterator `b`, as the number of entries before it. */
    var b: nat
    ghost var window: seq<P>

    ghost predicate Valid()
      reads this
    {
      IsMonoid(m) && m.combine == op.m.combine && Inv(m, q, b, window)
    }

    constructor(binOp: BinOp<In, P, Out>, identE: P)
      requires IsMonoid(Monoid(binOp.m.combine, identE))
      ensures Valid() && op == binOp && m.identity == identE
      ensures window == []
    {
      op := binOp;
      m := Monoid(binOp.m.combine, identE);
      q, b := [], 0;
      window := [];
      InvEmpty(Monoid(binOp.m.combine, identE));
    }

    function Size(): (n: nat)
      reads this
      requires Valid()
      ensures n == |window|
    {
      |q|
    }

    method Insert(v: In)
      requires Valid()
      modifies this
      ensures Valid() && window == old(window) + [op.lift(v)]
    {
      var prev := if b != |q| then q[|q| - 1].agg else m.identity;
      var lifted := op.lift(v);
      InvPush(m, q, b, window, lifted);
      q := q + [TS.AggT(lifted, m.combine(prev, lifted))];
      window := window + [lifted];
    }

    /** The sweep of `evict` over an empty front: from the newest entry
        down, every `_agg` becomes the aggregate from there to the end, and
        `b` moves to the end. */
    method Flip()
      requires Valid() && b == 0
      modifies this
      ensures Valid() && window == old(window) && b == |q|
    {
      var qq := q;
      var p: nat := |qq|;
      var sum := m.identity;
      SweepStart(m, qq, window);
      while p != 0
        invariant window == old(window)
        invariant Sweeping(m, qq, p, sum, window)
        decreases p
      {
        SweepStep(m, qq, p, sum, window);
        p := p - 1;
        sum := m.combine(qq[p].val, sum);
        qq := qq[p := qq[p].(agg := sum)];
      }
      SweepEnd(m, qq, sum, window);
      q, b := qq, |qq|;
    }

    method Evict()
      requires Valid() && |window| > 0
      modifies this
      ensures Valid() && window == old(window)[1..]
    {
      if b == 0 {
        Flip();
      }
      PopFront();
    }

    /** `_q.pop_front()` of a non-empty front. */
    method PopFront()
      requires Valid() && b > 0
      modifies this
      ensures Valid() && window == old(window)[1..]
    {
      InvPop(m, q, b, window);
      q, b := q[1..], b - 1;
      window := window[1..];
    }

    method Query() returns (r: Out)
      requires Valid()
      ensures r == op.lower(Fold(m, window))
    {
      var bp := if b != |q| then q[|q| - 1].agg else m.identity;
      var fp := if b != 0 then q[0].agg else m.identity;
      InvQuery(m, q, b, window);
      r := op.lower(m.combine(fp, bp));
    }

    /** Recombines the partials `_val`, which the sweep leaves alone. */
    method NaiveQuery() returns (r: Out)
      requires Valid()
      ensures r == op.lower(Fold(m, window))
    {
      var accum := m.identity;
      var i := 0;
      while i < |q|
        invariant 0 <= i <= |q|
        invariant accum == Fold(m, window[..i])
      {
        SliceSnoc(window, i);
        FoldSnoc(m, window[..i], q[i].val);
        accum := m.combine(accum, q[i].val);
        i := i + 1;
      }
      assert window[..|q|] == window;
      r := op.lower(accum);
    }
  }
}
