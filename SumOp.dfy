// `Sum<In, Out>` of rust/src/ops/sum/mod.rs: partials wrap a value of the
// output type, lifting casts the input with `NumCast::from(v).unwrap()`.
module SumOp {
  import opened Monoid
  import opened Wrappers

  /** The range of values of a primitive numeric type (`Out`), which decides
      whether `NumCast::from` succeeds. */
  datatype NumType = NumType(lo: int, hi: int)

  /** `NumCast::from(v)`: the value when `t` can represent it. */
  function Cast(t: NumType, v: int): (r: Option<int>)
    ensures r.Some? <==> t.lo <= v <= t.hi
    ensures r.Some? ==> r.value == v
  {
    if t.lo <= v <= t.hi then Some(v) else None
  }

  datatype SumPartial = SumPartial(val: int)

  /** `Zero::zero()`: neutral on both sides of `operate`. */
  function Identity(): (r: SumPartial)
    ensures forall p :: Operate(r, p) == p && Operate(p, r) == p
  {
    SumPartial(0)
  }

  /** `self.val + other.val`: the lowered combination is the sum of the
      lowered operands. */
  function Operate(a: SumPartial, b: SumPartial): (r: SumPartial)
    ensures Lower(r) == Lower(a) + Lower(b)
  {
    SumPartial(a.val + b.val)
  }

  /** `-self.val`: cancels its operand on either side. */
  function Inverse(a: SumPartial): (r: SumPartial)
    ensures Operate(a, r) == Identity() && Operate(r, a) == Identity()
  {
    SumPartial(- a.val)
  }

  function SumMonoid(): Monoid<SumPartial> { Monoid(Operate, Identity()) }

  /** `lift` of both the `AggregateMonoid` and the `AggregateGroup` impl;
      `None` stands for the panic of `unwrap` on an unrepresentable value. */
  function Lift(out: NumType, v: int): (r: Option<SumPartial>)
    ensures r.Some? <==> out.lo <= v <= out.hi
    ensures r.Some? ==> r.value.val == v
  {
    match Cast(out, v)
    case Some(x) => Some(SumPartial(x))
    case None => None
  }

  /** `part.val`: lifting the result again, at any output type that can
      represent it, rebuilds the partial. */
  function Lower(p: SumPartial): (r: int)
    ensures forall out: NumType :: out.lo <= r <= out.hi ==> Lift(out, r) == Some(p)
  {
    p.val
  }

  /** Lifting succeeds exactly for representable values, and lowering
      undoes it. */
  lemma LowerLift(out: NumType, v: int)
    ensures Lift(out, v).Some? <==> out.lo <= v <= out.hi
    ensures Lift(out, v).Some? ==> Lower(Lift(out, v).value) == v
  {
  }

  /** Identity, operate and two_sided_inverse form an (abelian) group, so
      `x ⊕ inverse(x)` is the identity. */
  lemma SumIsGroup()
    ensures IsGroup(SumMonoid(), Inverse)
    ensures IsCommutative(SumMonoid())
  {
  }

  function Total(s: seq<int>): int
  {
    if s == [] then 0 else Total(s[..|s| - 1]) + s[|s| - 1]
  }

  /** The aggregate of a window of partials holds the arithmetic sum. */
  lemma {:induction false} FoldIsTotal(s: seq<SumPartial>)
    ensures Lower(Fold(SumMonoid(), s)) == Total(Map(Lower, s))
  {
    if s != [] {
      FoldIsTotal(s[..|s| - 1]);
      assert Map(Lower, s)[..|s| - 1] == Map(Lower, s[..|s| - 1]);
    }
  }
}
