// The operators on `i32` and the `Mean` adapter of rust/src/ops/mod.rs.
module OpsI32 {
  import opened Monoid
  import opened Wrappers

  const I32_MIN: int := -0x8000_0000
  const I32_MAX: int := 0x7FFF_FFFF

  newtype i32 = x: int | -0x8000_0000 <= x < 0x8000_0000

  /** Two's-complement wrap-around of an integer into the `i32` range, the
      behaviour of `+` and unary `-` on `i32` in a release build. */
  function Wrap(x: int): (r: i32)
    ensures (r as int - x) % 0x1_0000_0000 == 0
    ensures I32_MIN <= x <= I32_MAX ==> r as int == x
  {
    ((x + 0x8000_0000) % 0x1_0000_0000 - 0x8000_0000) as i32
  }

  // ---- Sum: identity 0, operate `self + other`, inverse `-self`.

  function SumIdentity(): i32 { 0 }

  function SumOperate(a: i32, b: i32): (r: i32)
    ensures I32_MIN <= a as int + b as int <= I32_MAX ==> r as int == a as int + b as int
  {
    Wrap(a as int + b as int)
  }

  function SumInverse(a: i32): (r: i32)
    ensures a != I32_MIN as i32 ==> r as int == - (a as int)
  {
    Wrap(- (a as int))
  }

  function SumMonoid(): Monoid<i32> { Monoid(SumOperate, SumIdentity()) }

  /** Wrapping on the inner sum does not change the wrapped result. */
  lemma WrapAbsorbs(x: int, y: int)
    ensures Wrap(Wrap(x) as int + y) == Wrap(x + y)
    ensures Wrap(y + Wrap(x) as int) == Wrap(x + y)
  {
    var k := (x + 0x8000_0000) / 0x1_0000_0000;
    assert Wrap(x) as int == x - k * 0x1_0000_0000;
    var z := x + y + 0x8000_0000;
    assert (z - k * 0x1_0000_0000) % 0x1_0000_0000 == z % 0x1_0000_0000 by {
      ModShift(z, k);
    }
  }

  lemma ModShift(z: int, k: int)
    ensures (z - k * 0x1_0000_0000) % 0x1_0000_0000 == z % 0x1_0000_0000
  {
    var n := 0x1_0000_0000;
    var q := z / n;
    assert z == q * n + z % n;
    assert z - k * n == (q - k) * n + z % n;
  }

  /** `i32` with wrapping `+` is a group: the `AbstractGroup<Sum>` impl
      (rust/src/ops/mod.rs:79-101) is lawful. */
  lemma SumIsGroup()
    ensures IsGroup(SumMonoid(), SumInverse)
  {
    var m := SumMonoid();
    forall a: i32, b: i32, c: i32
      ensures m.combine(m.combine(a, b), c) == m.combine(a, m.combine(b, c))
    {
      SumAssociates(a, b, c);
    }
    forall a: i32 ensures m.combine(a, SumInverse(a)) == m.identity && m.combine(SumInverse(a), a) == m.identity {
      SumCancels(a);
    }
    forall a: i32 ensures m.combine(m.identity, a) == a && m.combine(a, m.identity) == a {
      assert SumOperate(0, a) == a && SumOperate(a, 0) == a;
    }
  }

  lemma SumAssociates(a: i32, b: i32, c: i32)
    ensures SumOperate(SumOperate(a, b), c) == SumOperate(a, SumOperate(b, c))
  {
    SumLeft(a, b, c);
    SumRight(a, b, c);
  }

  lemma SumLeft(a: i32, b: i32, c: i32)
    ensures SumOperate(SumOperate(a, b), c) == Wrap(a as int + b as int + c as int)
  {
    WrapAbsorbs(a as int + b as int, c as int);
  }

  lemma SumRight(a: i32, b: i32, c: i32)
    ensures SumOperate(a, SumOperate(b, c)) == Wrap(a as int + b as int + c as int)
  {
    var y := b as int + c as int;
    WrapAbsorbs(y, a as int);
    assert a as int + b as int + c as int == y + a as int;
  }

  lemma SumCancels(a: i32)
    ensures SumOperate(a, SumInverse(a)) == 0 && SumOperate(SumInverse(a), a) == 0
  {
    WrapAbsorbs(- (a as int), a as int);
    assert Wrap(0) == 0;
  }

  // ---- Max: identity `i32::MIN`, operate keeps the larger operand.

  function MaxIdentity(): i32 { I32_MIN as i32 }

  /** `if self > other { self } else { other }`: the larger operand. */
  function MaxOperate(a: i32, b: i32): (r: i32)
    ensures r >= a && r >= b && (r == a || r == b)
  {
    if a > b then a else b
  }

  function MaxMonoid(): Monoid<i32> { Monoid(MaxOperate, MaxIdentity()) }

  lemma MaxIsMonoid()
    ensures IsMonoid(MaxMonoid())
    ensures IsCommutative(MaxMonoid())
  {
  }

  /** The fold of a window under Max is its largest element, or `i32::MIN`
      when the window is empty. */
  lemma {:induction false} MaxFoldIsMaximum(s: seq<i32>)
    ensures forall i :: 0 <= i < |s| ==> s[i] <= Fold(MaxMonoid(), s)
    ensures s == [] ==> Fold(MaxMonoid(), s) == MaxIdentity()
    ensures s != [] ==> exists i :: 0 <= i < |s| && s[i] == Fold(MaxMonoid(), s)
  {
    if s != [] {
      MaxFoldIsMaximum(s[..|s| - 1]);
      var f := Fold(MaxMonoid(), s[..|s| - 1]);
      if |s| > 1 && f != s[|s| - 1] && MaxOperate(f, s[|s| - 1]) == f {
        var i :| 0 <= i < |s| - 1 && s[..|s| - 1][i] == f;
        assert s[i] == f;
      }
    }
  }

  // ---- Mean: a `MonoidAdapter` with partial `{sum, n}` (n is a `usize`).

  datatype MeanPartial = MeanPartial(sum: int, n: nat)

  function MeanIdentity(): MeanPartial { MeanPartial(0, 0) }

  function MeanOperate(a: MeanPartial, b: MeanPartial): (r: MeanPartial)
    ensures r.n == a.n + b.n
  {
    MeanPartial(a.sum + b.sum, a.n + b.n)
  }

  function MeanMonoid(): Monoid<MeanPartial> { Monoid(MeanOperate, MeanIdentity()) }

  function MeanLift(v: int): (r: MeanPartial)
    ensures r.n == 1 && r.sum == v
  {
    MeanPartial(v, 1)
  }

  /** `part.sum.to_usize().unwrap() / part.n`: `None` where the source
      panics, on a negative sum (`to_usize` fails) or on `n == 0`
      (division by zero, as on the identity). */
  function MeanLower(p: MeanPartial): (r: Option<nat>)
    ensures r.None? <==> p.sum < 0 || p.n == 0
    ensures r.Some? ==> r.value * p.n <= p.sum < (r.value + 1) * p.n
  {
    if p.sum < 0 || p.n == 0 then None else Some(p.sum / p.n)
  }

  lemma MeanIsMonoid()
    ensures IsMonoid(MeanMonoid())
    ensures IsCommutative(MeanMonoid())
  {
  }

  function SumOf(s: seq<int>): int
  {
    if s == [] then 0 else SumOf(s[..|s| - 1]) + s[|s| - 1]
  }

  /** Folding lifted values counts them and adds them up, so `lower` of the
      window's aggregate is the (floored) mean. */
  lemma {:induction false} MeanFoldLifted(s: seq<int>)
    ensures Fold(MeanMonoid(), Map(MeanLift, s)) == MeanPartial(SumOf(s), |s|)
  {
    if s != [] {
      MeanFoldLifted(s[..|s| - 1]);
      assert Map(MeanLift, s)[..|s| - 1] == Map(MeanLift, s[..|s| - 1]);
    }
  }

  /** Lowering one lifted non-negative value gives it back. */
  lemma MeanLowerLift(v: int)
    ensures MeanLower(MeanLift(v)) == if v < 0 then None else Some(v)
  {
  }
}
