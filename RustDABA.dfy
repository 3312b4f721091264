// rust/src/daba/mod.rs: `DABA`, the Rust de-amortized banker's aggregator
// over an `AbstractMonoid`.  It keeps the window itself in `vals` and the
// partial aggregates in `aggs`, and its four indices split `aggs` into the
// regions of `Daba.Regions` in their full form; `fixup` is the C++ `_step`
// with the movements of `a` and `l` in the other order.
module RustDABA {
  import opened Monoid
  import D = Daba

  /** `shrink`'s first half: `aggs[l] = agg_l ⊕ agg_r ⊕ agg_a; l += 1`. */
  lemma ShrinkLeft<V(!new)>(m: Monoid<V>, s: seq<V>, l: nat, r: nat, a: nat, b: nat, vals: seq<V>)
    requires IsMonoid(m) && D.Regions(m, s, l, r, a, b, vals, false) && l < r
    ensures D.Regions(m, s[l := m.combine(m.combine(s[l], D.Gamma(s, r, a, m.identity)),
                                          D.Delta(s, a, b, m.identity))],
                      l + 1, r, a, b, vals, false)
  {
    D.GammaDelta(m, s, l, r, a, b, vals);
    D.AdvanceL(m, s, l, r, a, b, vals, false, Fold(m, vals[r..b]));
  }

  /** The whole of `shrink`, stated on the fields after it; `s1` is `aggs`
      between its two updates, which the second `agg_a()` reads. */
  lemma ShrinkTo<V(!new)>(m: Monoid<V>, s: seq<V>, l: nat, r: nat, a: nat, b: nat, vals: seq<V>,
                          s1: seq<V>, s': seq<V>, l': nat, a': nat)
    requires IsMonoid(m) && D.Regions(m, s, l, r, a, b, vals, false) && l < r
    requires D.Unstepped(l, r, a, b, |vals|)
    requires l' == l + 1 && a' == a - 1
    requires s1 == s[l := m.combine(m.combine(s[l], D.Gamma(s, r, a, m.identity)), D.Delta(s, a, b, m.identity))]
    requires s' == s1[a - 1 := m.combine(vals[a - 1], D.Delta(s1, a, b, m.identity))]
    ensures D.Regions(m, s', l', r, a', b, vals, false) && D.Balanced(l', r, a', b, |vals|)
  {
    ShrinkLeft(m, s, l, r, a, b, vals);
    D.MoveA(m, s1, l + 1, r, a, b, vals, false);
  }

  /** `pop` of a non-empty window, stated on the fields after it. */
  lemma PopTo<V>(m: Monoid<V>, s: seq<V>, l: nat, r: nat, a: nat, b: nat, vals: seq<V>,
                 s': seq<V>, l': nat, r': nat, a': nat, b': nat, vals': seq<V>)
    requires D.Regions(m, s, l, r, a, b, vals, false) && 0 < l
    requires s' == s[1..] && vals' == vals[1..]
    requires l' == l - 1 && r' == r - 1 && a' == a - 1 && b' == b - 1
    ensures D.Regions(m, s', l', r', a', b', vals', false)
  {
    D.Pop(m, s, l, r, a, b, vals, false);
  }

  class DABA<V(!new)> {
    /** `Value::identity()` and `operate` of the `AbstractMonoid`. */
    const m: Monoid<V>
    /** The window, oldest first. */
    var vals: seq<V>
    var aggs: seq<V>
    var l: nat
    var r: nat
    var a: nat
    var b: nat

    /** The invariant without its size part. */
    ghost predicate Stored()
      reads this
    {
      IsMonoid(m) && D.Regions(m, aggs, l, r, a, b, vals, false)
    }

    ghost predicate Valid()
      reads this
    {
      Stored() && D.Balanced(l, r, a, b, |vals|)
    }

    constructor(monoid: Monoid<V>)
      requires IsMonoid(monoid)
      ensures Valid() && m == monoid && vals == []
    {
      m := monoid;
      vals, aggs := [], [];
      l, r, a, b := 0, 0, 0, 0;
      new;
      D.RegionsEmpty(m, false);
    }

    /** `aggs.push_back(agg_b() ⊕ v); vals.push_back(v); fixup()`. */
    method Push(v: V)
      requires Valid()
      modifies this
      ensures Valid() && vals == old(vals) + [v]
    {
      var back := if b == |aggs| then m.identity else aggs[|aggs| - 1];
      D.Push(m, aggs, l, r, a, b, vals, false, v);
      D.BalancedPush(l, r, a, b, |vals|);
      aggs := aggs + [m.combine(back, v)];
      vals := vals + [v];
      Fixup();
    }

    /** Nothing happens on an empty window. */
    method Pop()
      requires Valid()
      modifies this
      ensures Valid() && vals == if old(vals) == [] then [] else old(vals)[1..]
    {
      if vals != [] {
        ghost var s0, v0, l0, r0, a0, b0 := aggs, vals, l, r, a, b;
        D.BalancedPop(l, r, a, b, |vals|);
        vals, aggs := vals[1..], aggs[1..];
        l, r, a, b := l - 1, r - 1, a - 1, b - 1;
        PopTo(m, s0, l0, r0, a0, b0, v0, aggs, l, r, a, b, vals);
        Fixup();
      }
    }

    /** `agg_f() ⊕ agg_b()`. */
    function Query(): (res: V)
      reads this
      requires Valid()
      ensures res == Fold(m, vals)
    {
      var front := if aggs == [] then m.identity else aggs[0];
      var back := if b == |aggs| then m.identity else aggs[|aggs| - 1];
      if aggs == [] then
        assert vals == [];
        m.combine(front, back)
      else
        D.BalancedFront(l, r, a, b, |vals|);
        D.Query(m, aggs, l, r, a, b, vals);
        m.combine(front, back)
    }

    function Len(): (n: nat)
      reads this
      requires Valid()
      ensures n == |vals|
    {
      |vals|
    }

    function IsEmpty(): (e: bool)
      reads this
      requires Valid()
      ensures e <==> vals == []
    {
      vals == []
    }

    method Fixup()
      requires Stored() && D.Unstepped(l, r, a, b, |vals|)
      modifies this
      ensures Valid() && vals == old(vals)
    {
      if b == 0 {
        Singleton();
      } else {
        if l == b {
          Flip();
        }
        if l == r {
          Shift();
        } else {
          Shrink();
        }
      }
    }

    /** All four indices to the end: a window of at most one value, which
        is all finished front. */
    method Singleton()
      requires Stored() && D.Unstepped(l, r, a, b, |vals|) && b == 0
      modifies this
      ensures Valid() && vals == old(vals) && aggs == old(aggs)
    {
      D.Singleton(m, aggs, vals);
      l := |aggs|;
      r, a, b := l, l, l;
    }

    /** `l = 0; a = len; b = a`; `r` already equals the old `b`. */
    method Flip()
      requires Stored() && D.Unstepped(l, r, a, b, |vals|) && l == b && 0 < b
      modifies this
      ensures Stored() && D.Unstepped(l, r, a, b, |vals|) && vals == old(vals) && aggs == old(aggs)
      ensures l == 0 && r == old(b) && a == |aggs| && b == |aggs| && 0 < b
    {
      D.Flip(m, aggs, l, r, a, b, vals, false);
      l := 0;
      a := |aggs|;
      b := a;
    }

    /** `a += 1; r += 1; l += 1`. */
    method Shift()
      requires Stored() && D.Unstepped(l, r, a, b, |vals|) && l == r && l < b
      modifies this
      ensures Valid() && vals == old(vals) && aggs == old(aggs)
      ensures l == old(l) + 1 && r == l && a == l && b == old(b)
    {
      D.FreeRide(m, aggs, l, r, a, b, vals, false);
      a, r, l := a + 1, r + 1, l + 1;
    }

    /** `aggs[l] = agg_l() ⊕ agg_r() ⊕ agg_a(); l += 1;
        aggs[a - 1] = vals[a - 1] ⊕ agg_a(); a -= 1`. */
    method Shrink()
      requires Stored() && D.Unstepped(l, r, a, b, |vals|) && l < r
      modifies this
      ensures Valid() && vals == old(vals) && |aggs| == |old(aggs)|
      ensures l == old(l) + 1 && r == old(r) && a == old(a) - 1 && b == old(b)
    {
      var aggL := if l == r then m.identity else aggs[l];
      var aggR := D.Gamma(aggs, r, a, m.identity);
      var aggA := D.Delta(aggs, a, b, m.identity);
      var aggs1 := aggs[l := m.combine(m.combine(aggL, aggR), aggA)];
      var aggA' := D.Delta(aggs1, a, b, m.identity);
      var aggs2 := aggs1[a - 1 := m.combine(vals[a - 1], aggA')];
      ShrinkTo(m, aggs, l, r, a, b, vals, aggs1, aggs2, l + 1, a - 1);
      aggs, l, a := aggs2, l + 1, a - 1;
    }
  }
}
