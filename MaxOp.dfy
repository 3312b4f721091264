// `Max<In, Out>` of rust/src/ops/max/mod.rs.  Its identity is `Min::min()`,
// and `Min` is implemented for `i32` only, so both `In` and `Out` are `i32`.
module MaxOp {
  import opened Monoid
  import opened OpsI32

  /** `Min::min()` for `i32`. */
  function Min(): (r: i32)
    ensures forall p: MaxPartial :: r <= p.val
  {
    I32_MIN as i32
  }

  datatype MaxPartial = MaxPartial(val: i32)

  /** `MaxPartial{val: Min::min()}`: neutral on both sides of `operate`. */
  function Identity(): (r: MaxPartial)
    ensures forall p :: Operate(r, p) == p && Operate(p, r) == p
  {
    MaxPartial(Min())
  }

  /** Keeps `self` when it is strictly larger, otherwise `other`. */
  function Operate(a: MaxPartial, b: MaxPartial): (r: MaxPartial)
    ensures r.val >= a.val && r.val >= b.val
    ensures r == a || r == b
    ensures a.val == b.val ==> r == b
  {
    if a.val > b.val then a else b
  }

  function MaxMonoid(): Monoid<MaxPartial> { Monoid(Operate, Identity()) }

  /** `NumCast::from(v).unwrap()` from `i32` to `i32` always succeeds. */
  function Lift(v: i32): (r: MaxPartial)
    ensures r.val == v
  {
    MaxPartial(v)
  }

  /** `part.val`: lifting the result again rebuilds the partial. */
  function Lower(p: MaxPartial): (r: i32)
    ensures Lift(r) == p
  {
    p.val
  }

  lemma LowerLift(v: i32)
    ensures Lower(Lift(v)) == v
  {
  }

  /** Operate is associative and `Min::min()` is neutral on both sides. */
  lemma MaxIsMonoid()
    ensures IsMonoid(MaxMonoid())
  {
  }

  /** The aggregate of a window is one of its elements and bounds all of
      them; an empty window gives `Min::min()`. */
  lemma {:induction false} FoldIsMaximum(s: seq<MaxPartial>)
    ensures forall i :: 0 <= i < |s| ==> s[i].val <= Fold(MaxMonoid(), s).val
    ensures s == [] ==> Fold(MaxMonoid(), s) == Identity()
    ensures s != [] ==> Fold(MaxMonoid(), s) in s
  {
    if s != [] {
      var init := s[..|s| - 1];
      FoldIsMaximum(init);
      var r := Operate(Fold(MaxMonoid(), init), s[|s| - 1]);
      assert Fold(MaxMonoid(), s) == r;
      assert forall i :: 0 <= i < |init| ==> s[i] == init[i];
      assert r == s[|s| - 1] || r in init;
    }
  }
}
