// `Mean<In, Out>` of rust/src/ops/mean/mod.rs: the partial keeps a sum and a
// count, both of the output type.
module MeanOp {
  import opened Monoid
  import opened Wrappers
  import SumOp

  datatype MeanPartial = MeanPartial(sum: int, n: int)

  /** `{sum: 0, n: 0}`: neutral on both sides of `operate`. */
  function Identity(): (r: MeanPartial)
    ensures forall p :: Operate(r, p) == p && Operate(p, r) == p
  {
    MeanPartial(0, 0)
  }

  /** Sums add up and counts add up. */
  function Operate(a: MeanPartial, b: MeanPartial): (r: MeanPartial)
    ensures r.sum == a.sum + b.sum && r.n == a.n + b.n
  {
    MeanPartial(a.sum + b.sum, a.n + b.n)
  }

  /** `{sum: -sum, n: -n}`: cancels its operand on either side. */
  function Inverse(a: MeanPartial): (r: MeanPartial)
    ensures Operate(a, r) == Identity() && Operate(r, a) == Identity()
  {
    MeanPartial(- a.sum, - a.n)
  }

  function MeanMonoid(): Monoid<MeanPartial> { Monoid(Operate, Identity()) }

  /** `{sum: NumCast::from(val).unwrap(), n: One::one()}`, shared by the
      Monoid and the Group impls; `None` is the `unwrap` panic. */
  function Lift(out: SumOp.NumType, v: int): (r: Option<MeanPartial>)
    ensures r.Some? <==> out.lo <= v <= out.hi
    ensures r.Some? ==> r.value.sum == v && r.value.n == 1
  {
    match SumOp.Cast(out, v)
    case Some(x) => Some(MeanPartial(x, 1))
    case None => None
  }

  function Abs(x: int): nat { if x < 0 then -x else x }

  /** Integer `/` in Rust truncates toward zero. */
  function TruncDiv(a: int, b: int): (q: int)
    requires b != 0
    ensures Abs(q) == Abs(a) / Abs(b)
    ensures (a < 0) == (b < 0) ==> q >= 0
    ensures (a < 0) != (b < 0) ==> q <= 0
  {
    DivNonnegative(Abs(a), Abs(b));
    var q := Abs(a) / Abs(b);
    if (a < 0) == (b < 0) then q else -q
  }

  lemma DivNonnegative(x: nat, d: nat)
    requires d > 0
    ensures x / d >= 0
  {
  }

  /** `part.sum / part.n` for an integer output type; `None` where the
      source divides by zero, which is the case on the identity. */
  function Lower(p: MeanPartial): (r: Option<int>)
    ensures r.None? <==> p.n == 0
  {
    if p.n == 0 then None else Some(TruncDiv(p.sum, p.n))
  }

  /** Operate is associative with `{0, 0}` neutral, and two_sided_inverse
      cancels on both sides. */
  lemma MeanIsGroup()
    ensures IsGroup(MeanMonoid(), Inverse)
    ensures IsCommutative(MeanMonoid())
  {
  }

  /** The aggregate of `k` lifted values holds their sum and the count `k`;
      its `lower` is the mean, and the empty window has no mean. */
  lemma {:induction false} FoldLifted(s: seq<int>)
    ensures Fold(MeanMonoid(), Map(x => MeanPartial(x, 1), s)) == MeanPartial(SumOp.Total(s), |s|)
    ensures Lower(Fold(MeanMonoid(), Map(x => MeanPartial(x, 1), s))).None? <==> s == []
  {
    if s != [] {
      FoldLifted(s[..|s| - 1]);
      assert Map(x => MeanPartial(x, 1), s)[..|s| - 1] == Map(x => MeanPartial(x, 1), s[..|s| - 1]);
    }
  }
}
