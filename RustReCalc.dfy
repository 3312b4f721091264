// rust/src/recalc/mod.rs: `ReCalc`, a `FifoWindow` that recomputes the fold
// of its `VecDeque` on every query.
module RustReCalc {
  import opened Monoid

  class ReCalc<V(!new)> {
    /** `Value::identity()` and `operate` of the `AbstractMonoid`. */
    const m: Monoid<V>
    var stack: seq<V>
    ghost var window: seq<V>

    ghost predicate Valid()
      reads this
    {
      IsMonoid(m) && stack == window
    }

    constructor(monoid: Monoid<V>)
      requires IsMonoid(monoid)
      ensures Valid() && m == monoid && window == []
    {
      m := monoid;
      stack := [];
      window := [];
    }

    method Push(v: V)
      requires Valid()
      modifies this
      ensures Valid() && window == old(window) + [v]
    {
      stack := stack + [v];
      window := window + [v];
    }

    /** `pop_front` does nothing on an empty deque. */
    method Pop()
      requires Valid()
      modifies this
      ensures Valid()
      ensures window == if old(window) == [] then [] else old(window)[1..]
    {
      if stack != [] {
        stack := stack[1..];
        window := window[1..];
      }
    }

    /** `iter().fold(identity, operate)`: the window combined in FIFO order. */
    method Query() returns (r: V)
      requires Valid()
      ensures r == Fold(m, window)
    {
      r := m.identity;
      var i := 0;
      while i < |stack|
        invariant 0 <= i <= |stack|
        invariant r == Fold(m, stack[..i])
      {
        assert stack[..i + 1][..i] == stack[..i];
        r := m.combine(r, stack[i]);
        i := i + 1;
      }
      assert stack[..|stack|] == stack;
    }

    function Len(): (n: nat)
      reads this
      requires Valid()
      ensures n == |window|
    {
      |stack|
    }
  }
}
