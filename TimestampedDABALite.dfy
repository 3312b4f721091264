// cpp/src/TimestampedDABALite.hpp: the DABA whose slots keep one value
// each.  Slots in R and the back hold their plain partials, so the
// aggregate `R ⊕ A` is kept aside as `_midSum` and the aggregate of the back
// as `_backSum`; the invariant is `DabaLite.Inv` over the values of the
// queue, whose timestamps are the times of the window.
module TimestampedDABALite {
  import opened Monoid
  import D = Daba
  import L = DabaLite

  datatype AggT<P, T> = AggT(val: P, timestamp: T)

  function Values<P, T>(s: seq<AggT<P, T>>): (r: seq<P>)
    ensures |r| == |s|
  {
    seq(|s|, k requires 0 <= k < |s| => s[k].val)
  }

  function Times<P, T>(s: seq<AggT<P, T>>): (r: seq<T>)
    ensures |r| == |s|
  {
    seq(|s|, k requires 0 <= k < |s| => s[k].timestamp)
  }

  ghost predicate Inv<P, T>(m: Monoid<P>, q: seq<AggT<P, T>>, l: nat, r: nat, a: nat, b: nat,
                            midSum: P, backSum: P, window: seq<P>, times: seq<T>)
  {
    Times(q) == times && L.Inv(m, Values(q), l, r, a, b, midSum, backSum, window)
  }

  lemma InvEmpty<P, T>(m: Monoid<P>, q: seq<AggT<P, T>>)
    requires q == []
    ensures Inv(m, q, 0, 0, 0, 0, m.identity, m.identity, [], [])
  {
    L.InvEmpty(m);
  }

  lemma InvPush<P, T>(m: Monoid<P>, q: seq<AggT<P, T>>, l: nat, r: nat, a: nat, b: nat,
                      midSum: P, backSum: P, window: seq<P>, times: seq<T>, x: P, time: T)
    requires Inv(m, q, l, r, a, b, midSum, backSum, window, times)
    ensures Inv(m, q + [AggT(x, time)], l, r, a, b, midSum, m.combine(backSum, x),
                window + [x], times + [time])
  {
    assert Values(q + [AggT(x, time)]) == Values(q) + [x];
    assert Times(q + [AggT(x, time)]) == times + [time];
    L.InvPush(m, Values(q), l, r, a, b, midSum, backSum, window, x);
  }

  /** `_q.pop_front()`, stated on the fields after it. */
  lemma InvPopTo<P, T>(m: Monoid<P>, q: seq<AggT<P, T>>, l: nat, r: nat, a: nat, b: nat,
                       midSum: P, backSum: P, window: seq<P>, times: seq<T>,
                       q': seq<AggT<P, T>>, l': nat, r': nat, a': nat, b': nat,
                       window': seq<P>, times': seq<T>)
    requires Inv(m, q, l, r, a, b, midSum, backSum, window, times) && 0 < l
    requires q' == q[1..] && l' == l - 1 && r' == r - 1 && a' == a - 1 && b' == b - 1
    requires window' == window[1..] && times' == times[1..]
    ensures Inv(m, q', l', r', a', b', midSum, backSum, window', times')
  {
    assert Values(q') == Values(q)[1..];
    assert Times(q') == times';
    L.InvPopTo(m, Values(q), l, r, a, b, midSum, backSum, window,
               Values(q'), l', r', a', b', window');
  }

  /** Overwriting the value of slot `i` leaves the times alone. */
  lemma Overwrite<P, T>(q: seq<AggT<P, T>>, i: nat, v: P)
    requires i < |q|
    ensures Values(q[i := AggT(v, q[i].timestamp)]) == Values(q)[i := v]
    ensures Times(q[i := AggT(v, q[i].timestamp)]) == Times(q)
  {
  }

  lemma InvMoveA<P(!new), T>(m: Monoid<P>, q: seq<AggT<P, T>>, l: nat, r: nat, a: nat, b: nat,
                             midSum: P, backSum: P, window: seq<P>, times: seq<T>, delta: P)
    requires IsMonoid(m) && Inv(m, q, l, r, a, b, midSum, backSum, window, times) && r < a
    requires delta == if a == b then m.identity else q[a].val
    ensures Inv(m, q[a - 1 := AggT(m.combine(q[a - 1].val, delta), q[a - 1].timestamp)],
                l, r, a - 1, b, midSum, backSum, window, times)
  {
    L.InvMoveA(m, Values(q), l, r, a, b, midSum, backSum, window);
    Overwrite(q, a - 1, m.combine(q[a - 1].val, delta));
  }

  lemma InvAdvanceL<P(!new), T>(m: Monoid<P>, q: seq<AggT<P, T>>, l: nat, r: nat, a: nat, b: nat,
                                midSum: P, backSum: P, window: seq<P>, times: seq<T>)
    requires IsMonoid(m) && Inv(m, q, l, r, a, b, midSum, backSum, window, times) && l < r
    ensures Inv(m, q[l := AggT(m.combine(q[l].val, midSum), q[l].timestamp)],
                l + 1, r, a, b, midSum, backSum, window, times)
  {
    L.InvAdvanceL(m, Values(q), l, r, a, b, midSum, backSum, window);
    Overwrite(q, l, m.combine(q[l].val, midSum));
  }

  lemma InvFreeRide<P, T>(m: Monoid<P>, q: seq<AggT<P, T>>, l: nat, r: nat, a: nat, b: nat,
                          midSum: P, backSum: P, window: seq<P>, times: seq<T>)
    requires Inv(m, q, l, r, a, b, midSum, backSum, window, times) && l == r == a < b
    ensures Inv(m, q, l + 1, l + 1, l + 1, b, if l + 1 == b then m.identity else q[l + 1].val,
                backSum, window, times)
  {
    L.InvFreeRide(m, Values(q), l, r, a, b, midSum, backSum, window);
  }

  lemma InvQuery<P(!new), T>(m: Monoid<P>, q: seq<AggT<P, T>>, l: nat, r: nat, a: nat, b: nat,
                             midSum: P, backSum: P, window: seq<P>, times: seq<T>)
    requires IsMonoid(m) && Inv(m, q, l, r, a, b, midSum, backSum, window, times)
    requires b == 0 || 0 < l
    ensures m.combine(if b == 0 then m.identity else q[0].val, backSum) == Fold(m, window)
  {
    L.InvQuery(m, Values(q), l, r, a, b, midSum, backSum, window);
  }

  class Aggregate<In, P(!new), Out, T> {
    const op: BinOp<In, P, Out>
    const m: Monoid<P>
    var q: seq<AggT<P, T>>
    /** The iterators `l`, `r`, `a`, `b` as offsets from `begin`. */
    var l: nat
    var r: nat
    var a: nat
    var b: nat
    var midSum: P
    var backSum: P
    ghost var window: seq<P>
    /** The timestamps of the window, oldest first. */
    ghost var times: seq<T>

    /** The invariant without its size part. */
    ghost predicate Stored()
      reads this
    {
      IsMonoid(m) && m.combine == op.m.combine
      && Inv(m, q, l, r, a, b, midSum, backSum, window, times)
    }

    ghost predicate Valid()
      reads this
    {
      Stored() && D.Balanced(l, r, a, b, |q|)
    }

    constructor(binOp: BinOp<In, P, Out>, identE: P)
      requires IsMonoid(Monoid(binOp.m.combine, identE))
      ensures Valid() && op == binOp && m.identity == identE
      ensures window == [] && times == []
    {
      op := binOp;
      m := Monoid(binOp.m.combine, identE);
      q, l, r, a, b := [], 0, 0, 0, 0;
      midSum, backSum := identE, identE;
      window, times := [], [];
      new;
      InvEmpty(m, q);
    }

    function Size(): (n: nat)
      reads this
      requires Valid()
      ensures n == |window| && n == |times|
    {
      |q|
    }

    method Insert(time: T, v: In)
      requires Valid()
      modifies this
      ensures Valid()
      ensures window == old(window) + [op.lift(v)] && times == old(times) + [time]
    {
      var lifted := op.lift(v);
      InvPush(m, q, l, r, a, b, midSum, backSum, window, times, lifted, time);
      D.BalancedPush(l, r, a, b, |q|);
      backSum := m.combine(backSum, lifted);
      q := q + [AggT(lifted, time)];
      window, times := window + [lifted], times + [time];
      Step();
    }

    method Evict()
      requires Valid() && |window| > 0
      modifies this
      ensures Valid() && window == old(window)[1..] && times == old(times)[1..]
    {
      D.BalancedPop(l, r, a, b, |q|);
      ghost var q0, l0, r0, a0, b0, w0, t0 := q, l, r, a, b, window, times;
      q := q[1..];
      l, r, a, b := l - 1, r - 1, a - 1, b - 1;
      window, times := window[1..], times[1..];
      InvPopTo(m, q0, l0, r0, a0, b0, midSum, backSum, w0, t0, q, l, r, a, b, window, times);
      Step();
    }

    /** `_flip`: the finished front becomes L, the whole back R, `_midSum`
        takes over `_backSum`, and the new back is empty. */
    method Flip()
      requires Stored() && l == b
      modifies this
      ensures Stored() && window == old(window) && times == old(times) && q == old(q)
      ensures l == 0 && r == old(b) && a == |q| && b == |q| && backSum == m.identity
    {
      L.InvFlip(m, Values(q), l, r, a, b, midSum, backSum, window);
      l, r, a, b := 0, b, |q|, |q|;
      midSum, backSum := backSum, m.identity;
    }

    /** `_step`: flip when L has caught up with `b`; then, unless the queue
        is empty, move `a` one slot left and `l` one slot right; an empty
        queue resets both sums. */
    method Step()
      requires Stored() && D.Unstepped(l, r, a, b, |q|)
      modifies this
      ensures Valid() && window == old(window) && times == old(times)
    {
      if l == b {
        Flip();
      }
      if b != 0 {
        if a != r {
          MoveA();
        }
        if l != r {
          AdvanceL();
        } else {
          FreeRide();
        }
      } else {
        L.InvReset(m, Values(q), l, r, a, b, midSum, backSum, window);
        backSum, midSum := m.identity, m.identity;
      }
    }

    /** `--a; a->_val = combine(a->_val, prev_delta)`. */
    method MoveA()
      requires Stored() && r < a
      modifies this
      ensures Stored() && window == old(window) && times == old(times) && |q| == |old(q)|
      ensures l == old(l) && r == old(r) && a == old(a) - 1 && b == old(b)
    {
      var prevDelta := if a == b then m.identity else q[a].val;
      InvMoveA(m, q, l, r, a, b, midSum, backSum, window, times, prevDelta);
      q := q[a - 1 := AggT(m.combine(q[a - 1].val, prevDelta), q[a - 1].timestamp)];
      a := a - 1;
    }

    /** `l->_val = combine(l->_val, _midSum); ++l`. */
    method AdvanceL()
      requires Stored() && l < r
      modifies this
      ensures Stored() && window == old(window) && times == old(times) && |q| == |old(q)|
      ensures l == old(l) + 1 && r == old(r) && a == old(a) && b == old(b)
    {
      InvAdvanceL(m, q, l, r, a, b, midSum, backSum, window, times);
      q := q[l := AggT(m.combine(q[l].val, midSum), q[l].timestamp)];
      l := l + 1;
    }

    /** `++l; ++r; ++a; _midSum = _get_delta()`. */
    method FreeRide()
      requires Stored() && l == r == a < b
      modifies this
      ensures Stored() && window == old(window) && times == old(times) && q == old(q)
      ensures l == old(l) + 1 && r == l && a == l && b == old(b)
    {
      InvFreeRide(m, q, l, r, a, b, midSum, backSum, window, times);
      l, r, a := l + 1, r + 1, a + 1;
      midSum := if a == b then m.identity else q[a].val;
    }

    method Query() returns (res: Out)
      requires Valid()
      ensures res == op.lower(Fold(m, window))
    {
      if |q| > 0 {
        D.BalancedFront(l, r, a, b, |q|);
        var alpha := if b == 0 then m.identity else q[0].val;
        InvQuery(m, q, l, r, a, b, midSum, backSum, window, times);
        res := op.lower(m.combine(alpha, backSum));
      } else {
        res := op.lower(m.identity);
      }
    }

    function Oldest(): (t: T)
      reads this
      requires Valid() && |window| > 0
      ensures t == times[0]
    {
      q[0].timestamp
    }

    function Youngest(): (t: T)
      reads this
      requires Valid() && |window| > 0
      ensures t == times[|times| - 1]
    {
      q[|q| - 1].timestamp
    }
  }
}
