// rust/src/soe/mod.rs: `SoE`, subtract-on-evict over an alga `AbstractGroup`.
//
// The source's `pop` combines the running aggregate with the inverse of the
// popped value on the RIGHT (`agg.operate(&top.two_sided_inverse())`).  The
// popped value is the oldest, the leftmost operand of the aggregate, so this
// removes it only when the group is commutative, which `AbstractGroup` does
// not demand.  `PopAggAsWritten` models the code as written and
// `AsWrittenPopIsWrong` exhibits a non-commutative group where it fails;
// the class uses the corrected left inverse `PopAgg`.
module RustSoE {
  import opened Monoid

  /** `agg.operate(&top.two_sided_inverse())`, as written.  In a group it
      is the value that `top` completes on the RIGHT to `agg`, so it takes
      `top` off the young end of the aggregate. */
  function PopAggAsWritten<V(!new)>(m: Monoid<V>, inverse: V -> V, agg: V, top: V): (r: V)
    ensures IsGroup(m, inverse) ==> m.combine(r, top) == agg
  {
    m.combine(agg, inverse(top))
  }

  /** The corrected update: the inverse of the oldest value goes on the
      left, so in a group `top` completes the result on the LEFT to `agg`. */
  function PopAgg<V(!new)>(m: Monoid<V>, inverse: V -> V, agg: V, top: V): (r: V)
    ensures IsGroup(m, inverse) ==> m.combine(top, r) == agg
  {
    m.combine(inverse(top), agg)
  }

  /** Removing the oldest value from the aggregate of a window by `PopAgg`
      leaves the aggregate of the rest, in every group. */
  lemma PopAggRemovesOldest<V(!new)>(m: Monoid<V>, inverse: V -> V, top: V, rest: seq<V>)
    requires IsGroup(m, inverse)
    ensures PopAgg(m, inverse, Fold(m, [top] + rest), top) == Fold(m, rest)
  {
    FoldCons(m, top, rest);
    Assoc(m, inverse(top), top, Fold(m, rest));
  }

  /** `pop`'s update of the aggregate of a nonempty window, by `PopAgg`. */
  method TakeOldest<V(!new)>(m: Monoid<V>, inverse: V -> V, agg: V, window: seq<V>) returns (r: V)
    requires IsGroup(m, inverse) && window != [] && agg == Fold(m, window)
    ensures r == Fold(m, window[1..])
  {
    assert window == [window[0]] + window[1..];
    PopAggRemovesOldest(m, inverse, window[0], window[1..]);
    r := PopAgg(m, inverse, agg, window[0]);
  }

  /** In a commutative group the code as written is also right. */
  lemma AsWrittenPopCommutative<V(!new)>(m: Monoid<V>, inverse: V -> V, top: V, rest: seq<V>)
    requires IsGroup(m, inverse) && IsCommutative(m)
    ensures PopAggAsWritten(m, inverse, Fold(m, [top] + rest), top) == Fold(m, rest)
  {
    PopAggRemovesOldest(m, inverse, top, rest);
  }

  /** The infinite dihedral group: an element is an optional reflection
      followed by a translation, acting on the integers as x -> ±x + shift.
      It is a group and it is not commutative. */
  datatype Dihedral = Dihedral(flip: bool, shift: int)

  function DihedralCombine(a: Dihedral, b: Dihedral): Dihedral
  {
    Dihedral(a.flip != b.flip, a.shift + (if a.flip then -b.shift else b.shift))
  }

  function DihedralInverse(a: Dihedral): Dihedral
  {
    Dihedral(a.flip, if a.flip then a.shift else -a.shift)
  }

  function DihedralGroup(): Monoid<Dihedral>
  {
    Monoid(DihedralCombine, Dihedral(false, 0))
  }

  lemma DihedralIsGroup()
    ensures IsGroup(DihedralGroup(), DihedralInverse)
    ensures !IsCommutative(DihedralGroup())
  {
    var g := DihedralGroup();
    assert g.combine(Dihedral(true, 0), Dihedral(false, 1)) != g.combine(Dihedral(false, 1), Dihedral(true, 0));
  }

  /** Push a reflection, then a translation by one, then pop: the source's
      aggregate is the translation by -1, while the window holds only the
      translation by +1. */
  lemma AsWrittenPopIsWrong()
    ensures IsGroup(DihedralGroup(), DihedralInverse)
    ensures PopAggAsWritten(DihedralGroup(), DihedralInverse,
              Fold(DihedralGroup(), [Dihedral(true, 0), Dihedral(false, 1)]), Dihedral(true, 0))
            == Dihedral(false, -1)
    ensures Fold(DihedralGroup(), [Dihedral(false, 1)]) == Dihedral(false, 1)
  {
    DihedralIsGroup();
    var g := DihedralGroup();
    FoldSingleton(g, Dihedral(false, 1));
    calc {
      Fold(g, [Dihedral(true, 0), Dihedral(false, 1)]);
      { FoldCons(g, Dihedral(true, 0), [Dihedral(false, 1)]); }
      g.combine(Dihedral(true, 0), Dihedral(false, 1));
    }
  }

  class SoE<V(!new)> {
    /** `identity()`, `operate` and `two_sided_inverse` of the `AbstractGroup`. */
    const m: Monoid<V>
    const inverse: V -> V
    var stack: seq<V>
    var agg: V
    ghost var window: seq<V>

    ghost predicate Valid()
      reads this
    {
      IsGroup(m, inverse) && stack == window && agg == Fold(m, window)
    }

    constructor(group: Monoid<V>, inv: V -> V)
      requires IsGroup(group, inv)
      ensures Valid() && m == group && inverse == inv && window == []
    {
      m := group;
      inverse := inv;
      stack := [];
      agg := group.identity;
      window := [];
    }

    method Push(v: V)
      requires Valid()
      modifies this
      ensures Valid() && window == old(window) + [v]
    {
      FoldSnoc(m, window, v);
      agg := m.combine(agg, v);
      stack := stack + [v];
      window := window + [v];
    }

    /** Does nothing on an empty window; otherwise removes the oldest value
        and takes it out of the aggregate with `PopAgg`. */
    method Pop()
      requires Valid()
      modifies this
      ensures Valid()
      ensures window == if old(window) == [] then [] else old(window)[1..]
    {
      if stack != [] {
        var next := TakeOldest(m, inverse, agg, stack);
        agg, stack, window := next, stack[1..], window[1..];
      }
    }

    method Query() returns (r: V)
      requires Valid()
      ensures r == Fold(m, window)
    {
      r := agg;
    }

    function Len(): (n: nat)
      reads this
      requires Valid()
      ensures n == |window|
    {
      |stack|
    }
  }
}
