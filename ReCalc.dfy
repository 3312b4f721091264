// cpp/src/ReCalc.hpp: the recalculate-from-scratch reference aggregator.
// It keeps the raw inputs in a deque and folds them on every query; every
// other FIFO aggregator of the repository is specified by agreeing with it.
module ReCalc {
  import opened Monoid

  class Aggregate<In, P(!new), Out> {
    const op: BinOp<In, P, Out>
    /** `combine` of the operator with the identity `identE_` given at construction. */
    const m: Monoid<P>
    /** The deque `_q` of raw inputs, oldest first. */
    var q: seq<In>
    /** The lifted partials of the window, oldest first. */
    ghost var window: seq<P>

    ghost predicate Valid()
      reads this
    {
      IsMonoid(m) && m.combine == op.m.combine && window == Map(op.lift, q)
    }

    constructor(binOp: BinOp<In, P, Out>, identE: P)
      requires IsMonoid(Monoid(binOp.m.combine, identE))
      ensures Valid() && op == binOp && m.identity == identE
      ensures window == []
    {
      op := binOp;
      m := Monoid(binOp.m.combine, identE);
      q := [];
      window := [];
    }

    function Size(): (n: nat)
      reads this
      requires Valid()
      ensures n == |window|
    {
      |q|
    }

    /** Appends the input at the back of the window. */
    method Insert(v: In)
      requires Valid()
      modifies this
      ensures Valid() && window == old(window) + [op.lift(v)]
    {
      q := q + [v];
      window := window + [op.lift(v)];
    }

    /** Removes the oldest input; `pop_front` on an empty deque is undefined. */
    method Evict()
      requires Valid() && |window| > 0
      modifies this
      ensures Valid() && window == old(window)[1..]
    {
      q := q[1..];
      window := window[1..];
    }

    /** Folds the window from the identity, oldest first, and lowers the result. */
    method Query() returns (r: Out)
      requires Valid()
      ensures r == op.lower(Fold(m, window))
    {
      var accum := m.identity;
      var i := 0;
      while i < |q|
        invariant 0 <= i <= |q|
        invariant accum == Fold(m, window[..i])
      {
        // recalc_combine(accum, v) combines the lifted input into accum
        assert window[..i + 1][..i] == window[..i];
        accum := m.combine(accum, op.lift(q[i]));
        i := i + 1;
      }
      assert window[..|q|] == window;
      r := op.lower(accum);
    }
  }
}
