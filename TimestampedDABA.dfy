// cpp/src/TimestampedDABA.hpp: De-Amortized Banker's Aggregator over one
// queue of entries (partial, aggregate, timestamp).  Every insert and evict is
// followed by one `_step`, which does a constant amount of work; the
// aggregates are kept in the five regions of `Daba.Regions`.  Under the
// template flag `toCache` the aggregate `R ⊕ A` that finishes the left part
// is cached at each flip instead of recombined.
module TimestampedDABA {
  import opened Monoid
  import D = Daba

  /** A queue entry: `_val`, `_agg` and `_timestamp`. */
  datatype AggT<P, T> = AggT(val: P, agg: P, timestamp: T)

  function Vals<P, T>(q: seq<AggT<P, T>>): (r: seq<P>)
    ensures |r| == |q|
  {
    seq(|q|, k requires 0 <= k < |q| => q[k].val)
  }

  function Aggs<P, T>(q: seq<AggT<P, T>>): (r: seq<P>)
    ensures |r| == |q|
  {
    seq(|q|, k requires 0 <= k < |q| => q[k].agg)
  }

  function Times<P, T>(q: seq<AggT<P, T>>): (r: seq<T>)
    ensures |r| == |q|
  {
    seq(|q|, k requires 0 <= k < |q| => q[k].timestamp)
  }

  lemma Push<P, T>(q: seq<AggT<P, T>>, e: AggT<P, T>)
    ensures Vals(q + [e]) == Vals(q) + [e.val] && Aggs(q + [e]) == Aggs(q) + [e.agg]
    ensures Times(q + [e]) == Times(q) + [e.timestamp]
  {
  }

  lemma Pop<P, T>(q: seq<AggT<P, T>>)
    requires |q| > 0
    ensures Vals(q[1..]) == Vals(q)[1..] && Aggs(q[1..]) == Aggs(q)[1..] && Times(q[1..]) == Times(q)[1..]
  {
  }

  /** Rewriting one entry's `_agg` leaves the partials and times alone. */
  lemma SetAgg<P, T>(q: seq<AggT<P, T>>, i: nat, v: P)
    requires i < |q|
    ensures Aggs(q[i := q[i].(agg := v)]) == Aggs(q)[i := v]
    ensures Vals(q[i := q[i].(agg := v)]) == Vals(q) && Times(q[i := q[i].(agg := v)]) == Times(q)
  {
  }

  /** `_q.back()._agg` unless the back is empty. */
  function BackAgg<P, T>(q: seq<AggT<P, T>>, b: nat, identE: P): P
    requires b <= |q|
  {
    if b == |q| then identE else q[|q| - 1].agg
  }

  /** `_get_delta()`, the aggregate of A. */
  function DeltaAgg<P, T>(q: seq<AggT<P, T>>, a: nat, b: nat, identE: P): P
    requires a <= b <= |q|
  {
    if a == b then identE else q[a].agg
  }

  /** `_get_gamma()`, the aggregate of R. */
  function GammaAgg<P, T>(q: seq<AggT<P, T>>, r: nat, a: nat, identE: P): P
    requires r <= a <= |q|
  {
    if a == r then identE else q[a - 1].agg
  }

  /** The entries hold the window's partials and times, and their aggregates
      are laid out in the DABA regions. */
  ghost predicate Layout<P, T>(m: Monoid<P>, q: seq<AggT<P, T>>, l: nat, r: nat, a: nat, b: nat,
                               window: seq<P>, times: seq<T>)
  {
    Vals(q) == window && Times(q) == times && D.Regions(m, Aggs(q), l, r, a, b, window, false)
  }

  lemma LayoutPush<P, T>(m: Monoid<P>, q: seq<AggT<P, T>>, l: nat, r: nat, a: nat, b: nat,
                         window: seq<P>, times: seq<T>, x: P, t: T)
    requires Layout(m, q, l, r, a, b, window, times)
    ensures Layout(m, q + [AggT(x, m.combine(BackAgg(q, b, m.identity), x), t)], l, r, a, b,
                   window + [x], times + [t])
  {
    Push(q, AggT(x, m.combine(BackAgg(q, b, m.identity), x), t));
    D.Push(m, Aggs(q), l, r, a, b, window, false, x);
  }

  lemma LayoutPop<P, T>(m: Monoid<P>, q: seq<AggT<P, T>>, l: nat, r: nat, a: nat, b: nat,
                        window: seq<P>, times: seq<T>)
    requires Layout(m, q, l, r, a, b, window, times) && 0 < l
    ensures Layout(m, q[1..], l - 1, r - 1, a - 1, b - 1, window[1..], times[1..])
  {
    Pop(q);
    D.Pop(m, Aggs(q), l, r, a, b, window, false);
  }

  /** `_flip`, with the cached `R ⊕ A` it sets: the aggregate of R, which is
      then the whole queue from `b` on. */
  lemma LayoutFlip<P, T>(m: Monoid<P>, q: seq<AggT<P, T>>, l: nat, r: nat, a: nat, b: nat,
                         window: seq<P>, times: seq<T>)
    requires Layout(m, q, l, r, a, b, window, times) && l == b
    ensures Layout(m, q, 0, b, |q|, |q|, window, times)
    ensures GammaAgg(q, b, |q|, m.identity) == Fold(m, window[b..|q|])
  {
    D.Flip(m, Aggs(q), l, r, a, b, window, false);
    D.GammaIsFold(m, Aggs(q), 0, b, |q|, |q|, window);
  }

  lemma LayoutMoveA<P(!new), T>(m: Monoid<P>, q: seq<AggT<P, T>>, l: nat, r: nat, a: nat, b: nat,
                                window: seq<P>, times: seq<T>)
    requires IsMonoid(m) && Layout(m, q, l, r, a, b, window, times) && r < a
    ensures Layout(m, q[a - 1 := q[a - 1].(agg := m.combine(q[a - 1].val, DeltaAgg(q, a, b, m.identity)))],
                   l, r, a - 1, b, window, times)
  {
    var v := m.combine(q[a - 1].val, DeltaAgg(q, a, b, m.identity));
    D.MoveA(m, Aggs(q), l, r, a, b, window, false);
    SetAgg(q, a - 1, v);
  }

  /** The aggregate the left part is finished with: cached or recombined,
      it is the fold of the window from `r` to `b`. */
  lemma LayoutRA<P(!new), T>(m: Monoid<P>, q: seq<AggT<P, T>>, l: nat, r: nat, a: nat, b: nat,
                             window: seq<P>, times: seq<T>)
    requires IsMonoid(m) && Layout(m, q, l, r, a, b, window, times)
    ensures m.combine(GammaAgg(q, r, a, m.identity), DeltaAgg(q, a, b, m.identity)) == Fold(m, window[r..b])
  {
    D.GammaDelta(m, Aggs(q), l, r, a, b, window);
  }

  lemma LayoutAdvanceL<P(!new), T>(m: Monoid<P>, q: seq<AggT<P, T>>, l: nat, r: nat, a: nat, b: nat,
                                   window: seq<P>, times: seq<T>, ra: P)
    requires IsMonoid(m) && Layout(m, q, l, r, a, b, window, times) && l < r
    requires ra == Fold(m, window[r..b])
    ensures Layout(m, q[l := q[l].(agg := m.combine(q[l].agg, ra))], l + 1, r, a, b, window, times)
  {
    D.AdvanceL(m, Aggs(q), l, r, a, b, window, false, ra);
    SetAgg(q, l, m.combine(q[l].agg, ra));
  }

  lemma LayoutFreeRide<P, T>(m: Monoid<P>, q: seq<AggT<P, T>>, l: nat, r: nat, a: nat, b: nat,
                             window: seq<P>, times: seq<T>)
    requires Layout(m, q, l, r, a, b, window, times) && l == r == a < b
    ensures Layout(m, q, l + 1, l + 1, l + 1, b, window, times)
  {
    D.FreeRide(m, Aggs(q), l, r, a, b, window, false);
  }

  lemma LayoutQuery<P(!new), T>(m: Monoid<P>, q: seq<AggT<P, T>>, l: nat, r: nat, a: nat, b: nat,
                                window: seq<P>, times: seq<T>)
    requires IsMonoid(m) && Layout(m, q, l, r, a, b, window, times) && 0 < l
    ensures m.combine(if b == 0 then m.identity else q[0].agg, BackAgg(q, b, m.identity)) == Fold(m, window)
  {
    D.Query(m, Aggs(q), l, r, a, b, window);
  }

  /** `AggCache`: when caching is on and the left part is not empty, the
      cache holds `R ⊕ A`, the fold of the window from `r` to `b`. */
  ghost predicate CacheOk<P>(m: Monoid<P>, toCache: bool, cache: P, r: nat, l: nat, b: nat, window: seq<P>)
  {
    toCache && l < r ==> r <= b <= |window| && cache == Fold(m, window[r..b])
  }

  lemma CachePush<P>(m: Monoid<P>, toCache: bool, cache: P, r: nat, l: nat, b: nat, window: seq<P>, x: P)
    requires CacheOk(m, toCache, cache, r, l, b, window)
    ensures CacheOk(m, toCache, cache, r, l, b, window + [x])
  {
    if toCache && l < r {
      assert (window + [x])[r..b] == window[r..b];
    }
  }

  lemma CachePop<P>(m: Monoid<P>, toCache: bool, cache: P, r: nat, l: nat, b: nat, window: seq<P>)
    requires CacheOk(m, toCache, cache, r, l, b, window) && 0 < l <= r <= b <= |window|
    ensures CacheOk(m, toCache, cache, r - 1, l - 1, b - 1, window[1..])
  {
    if toCache && l < r {
      assert window[1..][r - 1..b - 1] == window[r..b];
    }
  }

  /** The whole representation invariant except the sizes. */
  ghost predicate Inv<P, T>(m: Monoid<P>, toCache: bool, cache: P, q: seq<AggT<P, T>>,
                            l: nat, r: nat, a: nat, b: nat, window: seq<P>, times: seq<T>)
  {
    Layout(m, q, l, r, a, b, window, times) && CacheOk(m, toCache, cache, r, l, b, window)
  }

  /** The invariant carried over to fields just assigned the values it holds of. */
  lemma InvTo<P, T>(m: Monoid<P>, toCache: bool, cache: P, q: seq<AggT<P, T>>,
                    l: nat, r: nat, a: nat, b: nat, window: seq<P>, times: seq<T>,
                    cache': P, q': seq<AggT<P, T>>, l': nat, r': nat, a': nat, b': nat)
    requires Inv(m, toCache, cache, q, l, r, a, b, window, times)
    requires cache' == cache && q' == q && l' == l && r' == r && a' == a && b' == b
    ensures Inv(m, toCache, cache', q', l', r', a', b', window, times)
  {
  }

  lemma InvPush<P, T>(m: Monoid<P>, toCache: bool, cache: P, q: seq<AggT<P, T>>,
                      l: nat, r: nat, a: nat, b: nat, window: seq<P>, times: seq<T>, x: P, t: T)
    requires Inv(m, toCache, cache, q, l, r, a, b, window, times)
    ensures Inv(m, toCache, cache, q + [AggT(x, m.combine(BackAgg(q, b, m.identity), x), t)], l, r, a, b,
                window + [x], times + [t])
  {
    LayoutPush(m, q, l, r, a, b, window, times, x, t);
    CachePush(m, toCache, cache, r, l, b, window, x);
  }

  /** `_q.pop_front()`, stated on the values the fields take after it. */
  lemma InvPopTo<P, T>(m: Monoid<P>, toCache: bool, cache: P, q: seq<AggT<P, T>>,
                       l: nat, r: nat, a: nat, b: nat, window: seq<P>, times: seq<T>,
                       q': seq<AggT<P, T>>, l': nat, r': nat, a': nat, b': nat,
                       window': seq<P>, times': seq<T>)
    requires Inv(m, toCache, cache, q, l, r, a, b, window, times) && 0 < l
    requires q' == q[1..] && l' == l - 1 && r' == r - 1 && a' == a - 1 && b' == b - 1
    requires window' == window[1..] && times' == times[1..]
    ensures Inv(m, toCache, cache, q', l', r', a', b', window', times')
  {
    LayoutPop(m, q, l, r, a, b, window, times);
    assert Layout(m, q', l', r', a', b', window', times');
    CachePop(m, toCache, cache, r, l, b, window);
    assert CacheOk(m, toCache, cache, r', l', b', window');
  }

  /** `_flip`, and the cache it sets. */
  lemma InvFlip<P, T>(m: Monoid<P>, toCache: bool, cache: P, q: seq<AggT<P, T>>,
                      l: nat, r: nat, a: nat, b: nat, window: seq<P>, times: seq<T>)
    requires Inv(m, toCache, cache, q, l, r, a, b, window, times) && l == b
    ensures Inv(m, toCache, if toCache then GammaAgg(q, b, |q|, m.identity) else cache,
                q, 0, b, |q|, |q|, window, times)
  {
    LayoutFlip(m, q, l, r, a, b, window, times);
  }

  lemma InvMoveA<P(!new), T>(m: Monoid<P>, toCache: bool, cache: P, q: seq<AggT<P, T>>,
                             l: nat, r: nat, a: nat, b: nat, window: seq<P>, times: seq<T>)
    requires IsMonoid(m) && Inv(m, toCache, cache, q, l, r, a, b, window, times) && r < a
    ensures Inv(m, toCache, cache,
                q[a - 1 := q[a - 1].(agg := m.combine(q[a - 1].val, DeltaAgg(q, a, b, m.identity)))],
                l, r, a - 1, b, window, times)
  {
    LayoutMoveA(m, q, l, r, a, b, window, times);
  }

  /** The fetched `R ⊕ A`, cached or recombined, finishes the oldest slot of L. */
  lemma InvAdvanceL<P(!new), T>(m: Monoid<P>, toCache: bool, cache: P, q: seq<AggT<P, T>>,
                                l: nat, r: nat, a: nat, b: nat, window: seq<P>, times: seq<T>, ra: P)
    requires IsMonoid(m) && Inv(m, toCache, cache, q, l, r, a, b, window, times) && l < r
    requires ra == if toCache then cache
                   else m.combine(GammaAgg(q, r, a, m.identity), DeltaAgg(q, a, b, m.identity))
    ensures Inv(m, toCache, cache, q[l := q[l].(agg := m.combine(q[l].agg, ra))], l + 1, r, a, b,
                window, times)
  {
    LayoutRA(m, q, l, r, a, b, window, times);
    LayoutAdvanceL(m, q, l, r, a, b, window, times, ra);
  }

  lemma InvFreeRide<P, T>(m: Monoid<P>, toCache: bool, cache: P, q: seq<AggT<P, T>>,
                          l: nat, r: nat, a: nat, b: nat, window: seq<P>, times: seq<T>)
    requires Inv(m, toCache, cache, q, l, r, a, b, window, times) && l == r == a < b
    ensures Inv(m, toCache, cache, q, l + 1, l + 1, l + 1, b, window, times)
  {
    LayoutFreeRide(m, q, l, r, a, b, window, times);
  }

  class Aggregate<In, P(!new), Out, T> {
    const op: BinOp<In, P, Out>
    const m: Monoid<P>
    /** The template flag of `AggCache`. */
    const toCache: bool
    var q: seq<AggT<P, T>>
    /** The iterators `l`, `r`, `a`, `b` as offsets from `begin`. */
    var l: nat
    var r: nat
    var a: nat
    var b: nat
    /** `AggCache::cache`; only used when `toCache` holds. */
    var cachedRA: P
    ghost var window: seq<P>
    /** The timestamps of the window, oldest first. */
    ghost var times: seq<T>

    /** The invariant without its size part. */
    ghost predicate Stored()
      reads this
    {
      IsMonoid(m) && m.combine == op.m.combine
      && Inv(m, toCache, cachedRA, q, l, r, a, b, window, times)
    }

    ghost predicate Valid()
      reads this
    {
      Stored() && D.Balanced(l, r, a, b, |q|)
    }

    constructor(binOp: BinOp<In, P, Out>, identE: P, caching: bool)
      requires IsMonoid(Monoid(binOp.m.combine, identE))
      ensures Valid() && op == binOp && m.identity == identE && toCache == caching
      ensures window == [] && times == []
    {
      op := binOp;
      m := Monoid(binOp.m.combine, identE);
      toCache := caching;
      q, l, r, a, b := [], 0, 0, 0, 0;
      cachedRA := identE;
      window, times := [], [];
      D.RegionsEmpty(Monoid(binOp.m.combine, identE), false);
    }

    function Size(): (n: nat)
      reads this
      requires Valid()
      ensures n == |window| && n == |times|
    {
      |q|
    }

    method Insert(time: T, v: In)
      requires Valid()
      modifies this
      ensures Valid()
      ensures window == old(window) + [op.lift(v)] && times == old(times) + [time]
    {
      var prevBack := BackAgg(q, b, m.identity);
      var lifted := op.lift(v);
      InvPush(m, toCache, cachedRA, q, l, r, a, b, window, times, lifted, time);
      D.BalancedPush(l, r, a, b, |q|);
      q := q + [AggT(lifted, m.combine(prevBack, lifted), time)];
      window, times := window + [lifted], times + [time];
      Step();
    }

    method Evict()
      requires Valid() && |window| > 0
      modifies this
      ensures Valid() && window == old(window)[1..] && times == old(times)[1..]
    {
      D.BalancedPop(l, r, a, b, |q|);
      ghost var q0, l0, r0, a0, b0, w0, t0 := q, l, r, a, b, window, times;
      q := q[1..];
      l, r, a, b := l - 1, r - 1, a - 1, b - 1;
      window, times := window[1..], times[1..];
      InvPopTo(m, toCache, cachedRA, q0, l0, r0, a0, b0, w0, t0, q, l, r, a, b, window, times);
      Step();
    }

    /** `_flip`: the finished front becomes the left part and the whole back
        the right part; with caching on, the cache is set to `gamma`. */
    method Flip()
      requires Stored() && l == b
      modifies this
      ensures Stored() && window == old(window) && times == old(times) && q == old(q)
      ensures l == 0 && r == old(b) && a == |q| && b == |q|
    {
      InvFlip(m, toCache, cachedRA, q, l, r, a, b, window, times);
      var cache := if toCache then GammaAgg(q, b, |q|, m.identity) else cachedRA;
      ghost var b0 := b;
      l, r, a, b, cachedRA := 0, b, |q|, |q|, cache;
      InvTo(m, toCache, cache, q, 0, b0, |q|, |q|, window, times, cachedRA, q, l, r, a, b);
    }

    /** `_step`: flip when the left part has caught up with `b`, then move `a`
        one slot left and `l` one slot right. */
    method Step()
      requires Stored() && D.Unstepped(l, r, a, b, |q|)
      modifies this
      ensures Valid() && window == old(window) && times == old(times)
    {
      if l == b {
        Flip();
      }
      if b != 0 {
        if a != r {
          MoveA();
        }
        if l != r {
          AdvanceL();
        } else {
          FreeRide();
        }
      }
    }

    /** `--a; a->_agg = combine(a->_val, prev_delta)`. */
    method MoveA()
      requires Stored() && r < a
      modifies this
      ensures Stored() && window == old(window) && times == old(times) && |q| == |old(q)|
      ensures l == old(l) && r == old(r) && a == old(a) - 1 && b == old(b)
    {
      var prevDelta := DeltaAgg(q, a, b, m.identity);
      InvMoveA(m, toCache, cachedRA, q, l, r, a, b, window, times);
      q := q[a - 1 := q[a - 1].(agg := m.combine(q[a - 1].val, prevDelta))];
      a := a - 1;
    }

    /** `l->_agg = combine(l->_agg, ra); ++l`, with `ra` fetched from the cache
        or recombined from `gamma` and `delta`. */
    method AdvanceL()
      requires Stored() && l < r
      modifies this
      ensures Stored() && window == old(window) && times == old(times) && |q| == |old(q)|
      ensures l == old(l) + 1 && r == old(r) && a == old(a) && b == old(b)
    {
      var ra := if toCache then cachedRA
                else m.combine(GammaAgg(q, r, a, m.identity), DeltaAgg(q, a, b, m.identity));
      InvAdvanceL(m, toCache, cachedRA, q, l, r, a, b, window, times, ra);
      q := q[l := q[l].(agg := m.combine(q[l].agg, ra))];
      l := l + 1;
    }

    /** `++l; ++r; ++a`. */
    method FreeRide()
      requires Stored() && l == r == a < b
      modifies this
      ensures Stored() && window == old(window) && times == old(times) && q == old(q)
      ensures l == old(l) + 1 && r == l && a == l && b == old(b)
    {
      InvFreeRide(m, toCache, cachedRA, q, l, r, a, b, window, times);
      l, r, a := l + 1, r + 1, a + 1;
    }

    method Query() returns (res: Out)
      requires Valid()
      ensures res == op.lower(Fold(m, window))
    {
      if |q| > 0 {
        D.BalancedFront(l, r, a, b, |q|);
        var alpha := if b == 0 then m.identity else q[0].agg;
        var back := BackAgg(q, b, m.identity);
        LayoutQuery(m, q, l, r, a, b, window, times);
        res := op.lower(m.combine(alpha, back));
      } else {
        res := op.lower(m.identity);
      }
    }

    function Oldest(): (t: T)
      reads this
      requires Valid() && |window| > 0
      ensures t == times[0]
    {
      q[0].timestamp
    }

    function Youngest(): (t: T)
      reads this
      requires Valid() && |window| > 0
      ensures t == times[|times| - 1]
    {
      q[|q| - 1].timestamp
    }

    /** Recombines the partials `_val`, which the algorithm never changes. */
    method NaiveQuery() returns (res: Out)
      requires Valid()
      ensures res == op.lower(Fold(m, window))
    {
      var accum := m.identity;
      var i := 0;
      while i < |q|
        invariant 0 <= i <= |q|
        invariant accum == Fold(m, window[..i])
      {
        SliceSnoc(window, i);
        FoldSnoc(m, window[..i], q[i].val);
        accum := m.combine(accum, q[i].val);
        i := i + 1;
      }
      assert window[..|q|] == window;
      res := op.lower(accum);
    }
  }
}
