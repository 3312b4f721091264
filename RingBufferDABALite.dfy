// cpp/src/RingBufferDABALite.hpp: the lite DABA of `TimestampedDABALite`
// without timestamps, over a `RingBufferQueue` of fixed capacity
// `MAX_CAPACITY`.  The queue is modelled by its contents, oldest first (its
// ring layout is the subject of `RingBufferQueue`); the iterators are offsets
// from `begin`.  In the fixed-capacity mode the queue refuses to grow: a push
// that would leave no free slot throws, so the queue always holds fewer than
// `MAX_CAPACITY` values.
module RingBufferDABALite {
  import opened Monoid
  import D = Daba
  import L = DabaLite

  class Aggregate<In, P(!new), Out> {
    const op: BinOp<In, P, Out>
    const m: Monoid<P>
    /** The template parameter `MAX_CAPACITY`. */
    const capacity: nat
    /** The `_val` of every slot of `_q`, oldest first. */
    var q: seq<P>
    var l: nat
    var r: nat
    var a: nat
    var b: nat
    var midSum: P
    var backSum: P
    ghost var window: seq<P>

    /** The invariant without its size part. */
    ghost predicate Stored()
      reads this
    {
      IsMonoid(m) && m.combine == op.m.combine && |q| < capacity
      && L.Inv(m, q, l, r, a, b, midSum, backSum, window)
    }

    ghost predicate Valid()
      reads this
    {
      Stored() && D.Balanced(l, r, a, b, |q|)
    }

    constructor(binOp: BinOp<In, P, Out>, identE: P, maxCapacity: nat)
      requires IsMonoid(Monoid(binOp.m.combine, identE)) && maxCapacity > 0
      ensures Valid() && op == binOp && m.identity == identE && capacity == maxCapacity
      ensures window == []
    {
      op := binOp;
      m := Monoid(binOp.m.combine, identE);
      capacity := maxCapacity;
      q, l, r, a, b := [], 0, 0, 0, 0;
      midSum, backSum := identE, identE;
      window := [];
      L.InvEmpty(Monoid(binOp.m.combine, identE));
    }

    function Size(): (n: nat)
      reads this
      requires Valid()
      ensures n == |window| && n < capacity
    {
      |q|
    }

    /** `_backSum` absorbs the value before the push; a push into a queue
        with no slot to spare throws, leaving `_backSum` changed and nothing
        else. */
    method Insert(v: In) returns (thrown: bool)
      requires Valid()
      modifies this
      ensures thrown <==> |old(window)| + 1 >= capacity
      ensures !thrown ==> Valid() && window == old(window) + [op.lift(v)]
      ensures thrown ==> q == old(q) && window == old(window) && midSum == old(midSum)
                         && backSum == m.combine(old(backSum), op.lift(v))
                         && l == old(l) && r == old(r) && a == old(a) && b == old(b)
    {
      var lifted := op.lift(v);
      if |q| + 1 >= capacity {
        backSum := m.combine(backSum, lifted);
        return true;
      }
      L.InvPush(m, q, l, r, a, b, midSum, backSum, window, lifted);
      D.BalancedPush(l, r, a, b, |q|);
      backSum := m.combine(backSum, lifted);
      q := q + [lifted];
      window := window + [lifted];
      Step();
      thrown := false;
    }

    method Evict()
      requires Valid() && |window| > 0
      modifies this
      ensures Valid() && window == old(window)[1..]
    {
      D.BalancedPop(l, r, a, b, |q|);
      ghost var q0, l0, r0, a0, b0, w0 := q, l, r, a, b, window;
      q := q[1..];
      l, r, a, b := l - 1, r - 1, a - 1, b - 1;
      window := window[1..];
      L.InvPopTo(m, q0, l0, r0, a0, b0, midSum, backSum, w0, q, l, r, a, b, window);
      Step();
    }

    /** `_flip`. */
    method Flip()
      requires Stored() && l == b
      modifies this
      ensures Stored() && window == old(window) && q == old(q)
      ensures l == 0 && r == old(b) && a == |q| && b == |q| && backSum == m.identity
    {
      L.InvFlip(m, q, l, r, a, b, midSum, backSum, window);
      l, r, a, b := 0, b, |q|, |q|;
      midSum, backSum := backSum, m.identity;
    }

    /** `_step`, as in `TimestampedDABALite`. */
    method Step()
      requires Stored() && D.Unstepped(l, r, a, b, |q|)
      modifies this
      ensures Valid() && window == old(window)
    {
      if l == b {
        Flip();
      }
      if b != 0 {
        if a != r {
          MoveA();
        }
        if l != r {
          AdvanceL();
        } else {
          FreeRide();
        }
      } else {
        L.InvReset(m, q, l, r, a, b, midSum, backSum, window);
        backSum, midSum := m.identity, m.identity;
      }
    }

    /** `--a; a->_val = combine(a->_val, prev_delta)`. */
    method MoveA()
      requires Stored() && r < a
      modifies this
      ensures Stored() && window == old(window) && |q| == |old(q)|
      ensures l == old(l) && r == old(r) && a == old(a) - 1 && b == old(b)
    {
      var prevDelta := if a == b then m.identity else q[a];
      L.InvMoveA(m, q, l, r, a, b, midSum, backSum, window);
      q := q[a - 1 := m.combine(q[a - 1], prevDelta)];
      a := a - 1;
    }

    /** `l->_val = combine(l->_val, _midSum); ++l`. */
    method AdvanceL()
      requires Stored() && l < r
      modifies this
      ensures Stored() && window == old(window) && |q| == |old(q)|
      ensures l == old(l) + 1 && r == old(r) && a == old(a) && b == old(b)
    {
      L.InvAdvanceL(m, q, l, r, a, b, midSum, backSum, window);
      q := q[l := m.combine(q[l], midSum)];
      l := l + 1;
    }

    /** `++l; ++r; ++a; _midSum = _get_delta()`. */
    method FreeRide()
      requires Stored() && l == r == a < b
      modifies this
      ensures Stored() && window == old(window) && q == old(q)
      ensures l == old(l) + 1 && r == l && a == l && b == old(b)
    {
      L.InvFreeRide(m, q, l, r, a, b, midSum, backSum, window);
      l, r, a := l + 1, r + 1, a + 1;
      midSum := if a == b then m.identity else q[a];
    }

    method Query() returns (res: Out)
      requires Valid()
      ensures res == op.lower(Fold(m, window))
    {
      if |q| > 0 {
        D.BalancedFront(l, r, a, b, |q|);
        var alpha := if b == 0 then m.identity else q[0];
        L.InvQuery(m, q, l, r, a, b, midSum, backSum, window);
        res := op.lower(m.combine(alpha, backSum));
      } else {
        res := op.lower(m.identity);
      }
    }
  }
}
