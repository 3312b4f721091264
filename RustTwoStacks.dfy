// rust/src/two_stacks/mod.rs: `TwoStacks`, the Rust two-stacks window over
// an `AggregateMonoid` with `lift` and `lower`.  Its `Item { agg, val }` is
// the C++ entry `TwoStacks.AggT`, and its stacks obey the same invariants.
module RustTwoStacks {
  import opened Monoid
  import opened Wrappers
  import opened CppTwoStacks = TwoStacks

  class TwoStacks<In, P(!new), Out> {
    /** `lift`, `operate` with `Partial::identity()`, and `lower`. */
    const op: BinOp<In, P, Out>
    var front: seq<AggT<P>>
    var back: seq<AggT<P>>
    /** The lifted partials of the window, oldest first. */
    ghost var window: seq<P>

    ghost predicate Valid()
      reads this
    {
      IsMonoid(op.m) && Inv(op.m, front, back, window)
    }

    constructor(binOp: BinOp<In, P, Out>)
      requires IsMonoid(binOp.m)
      ensures Valid() && op == binOp && window == []
    {
      op := binOp;
      front := [];
      back := [];
      window := [];
      InvEmpty(binOp.m);
    }

    method Push(v: In)
      requires Valid()
      modifies this
      ensures Valid() && window == old(window) + [op.lift(v)]
    {
      var lifted := op.lift(v);
      InvPush(op.m, front, back, window, lifted);
      back := back + [AggT(lifted, op.m.combine(TopAgg(back, op.m.identity), lifted))];
      window := window + [lifted];
    }

    /** `None` on an empty window; otherwise flips when the front is empty,
        removes the oldest partial and returns it lowered. */
    method Pop() returns (r: Option<Out>)
      requires Valid()
      modifies this
      ensures Valid()
      ensures old(window) == [] ==> r == None && window == []
      ensures old(window) != [] ==> r == Some(op.lower(old(window)[0])) && window == old(window)[1..]
    {
      if front == [] {
        front := FlipStacks(op.m, back, window);
        back := [];
      }
      if front == [] {
        r := None;
      } else {
        var item := front[|front| - 1];
        InvPop(op.m, front, back, window);
        front := front[..|front| - 1];
        window := window[1..];
        r := Some(op.lower(item.val));
      }
    }

    method Query() returns (r: Out)
      requires Valid()
      ensures r == op.lower(Fold(op.m, window))
    {
      var f := TopAgg(front, op.m.identity);
      var b := TopAgg(back, op.m.identity);
      InvQuery(op.m, front, back, window);
      r := op.lower(op.m.combine(f, b));
    }

    function Len(): (n: nat)
      reads this
      requires Valid()
      ensures n == |window|
    {
      |front| + |back|
    }

    function IsEmpty(): (b: bool)
      reads this
      requires Valid()
      ensures b <==> window == []
    {
      front == [] && back == []
    }
  }
}
