// cpp/src/SubtractOnEvict.hpp: a running sum that is combined on insert and
// "subtracted" with the operator's `inverse_combine` on evict.
module SubtractOnEvict {
  import opened Monoid

  class Aggregate<In, P(!new), Out> {
    const op: BinOp<In, P, Out>
    const m: Monoid<P>
    /** The operator's `inverse_combine`. */
    const inverseCombine: (P, P) -> P
    /** The deque `_q` of lifted partials, oldest first. */
    var q: seq<P>
    /** The running aggregate `_sum`. */
    var sum: P
    ghost var window: seq<P>

    ghost predicate Valid()
      reads this
    {
      IsMonoid(m) && m.combine == op.m.combine
      && InverseCombineRemovesOldest(m, inverseCombine)
      && q == window && sum == Fold(m, window)
    }

    /** Subtract-on-evict is only meaningful for an operator whose
        `inverse_combine` undoes a combination with the oldest partial. */
    constructor(binOp: BinOp<In, P, Out>, inverse: (P, P) -> P, identE: P)
      requires IsMonoid(Monoid(binOp.m.combine, identE))
      requires InverseCombineRemovesOldest(Monoid(binOp.m.combine, identE), inverse)
      ensures Valid() && op == binOp && m.identity == identE && inverseCombine == inverse
      ensures window == []
    {
      op := binOp;
      m := Monoid(binOp.m.combine, identE);
      inverseCombine := inverse;
      q := [];
      sum := identE;
      window := [];
    }

    function Size(): (n: nat)
      reads this
      requires Valid()
      ensures n == |window|
    {
      |q|
    }

    method Insert(v: In)
      requires Valid()
      modifies this
      ensures Valid() && window == old(window) + [op.lift(v)]
    {
      var lifted := op.lift(v);
      FoldSnoc(m, window, lifted);
      sum := m.combine(sum, lifted);
      q := q + [lifted];
      window := window + [lifted];
    }

    method Evict()
      requires Valid() && |window| > 0
      modifies this
      ensures Valid() && window == old(window)[1..]
    {
      var front := q[0];
      assert window == [front] + window[1..];
      FoldCons(m, front, window[1..]);
      sum := inverseCombine(sum, front);
      q := q[1..];
      window := window[1..];
    }

    /** Constant time: the running sum is the fold of the window. */
    method Query() returns (r: Out)
      requires Valid()
      ensures r == op.lower(Fold(m, window))
    {
      r := op.lower(sum);
    }

    /** The fold recomputed from the deque, against which `query` is checked. */
    method NaiveQuery() returns (r: Out)
      requires Valid()
      ensures r == op.lower(Fold(m, window))
    {
      var accum := m.identity;
      var i := 0;
      while i < |q|
        invariant 0 <= i <= |q|
        invariant accum == Fold(m, q[..i])
      {
        assert q[..i + 1][..i] == q[..i];
        accum := m.combine(accum, q[i]);
        i := i + 1;
      }
      assert q[..|q|] == q;
      r := op.lower(accum);
    }
  }
}
