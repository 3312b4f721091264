// The algebra shared by every window aggregator of the repository.
//
// The C++ aggregators are templates over a `binOpFunc` that supplies `lift`,
// `combine`, `lower` and `identity` (and `inverse_combine` for
// subtract-on-evict); the Rust windows are generic over an alga
// `AbstractMonoid` / `AbstractGroup`.  Neither is assumed commutative.
// Here an operator is a value holding its functions, and the algebraic laws
// it must obey are ghost predicates over that value.
module Monoid {

  /** A binary operator together with its neutral element. */
  datatype Monoid<!T> = Monoid(combine: (T, T) -> T, identity: T)

  /** Associativity and a two-sided identity: the laws every aggregator relies on. */
  ghost predicate IsMonoid<T(!new)>(m: Monoid<T>) {
    (forall a, b, c :: m.combine(m.combine(a, b), c) == m.combine(a, m.combine(b, c)))
    && (forall a :: m.combine(m.identity, a) == a)
    && (forall a :: m.combine(a, m.identity) == a)
  }

  /** The alga `TwoSidedInverse` law: `inverse` cancels on both sides. */
  ghost predicate IsGroup<T(!new)>(m: Monoid<T>, inverse: T -> T) {
    IsMonoid(m)
    && (forall a :: m.combine(a, inverse(a)) == m.identity)
    && (forall a :: m.combine(inverse(a), a) == m.identity)
  }

  /** The C++ `inverse_combine` law used by subtract-on-evict: removing the
      oldest partial `a` from the left of an aggregate `a ⊕ b` gives `b`. */
  ghost predicate InverseCombineRemovesOldest<T(!new)>(m: Monoid<T>, inverseCombine: (T, T) -> T) {
    forall a, b :: inverseCombine(m.combine(a, b), a) == b
  }

  ghost predicate IsCommutative<T(!new)>(m: Monoid<T>) {
    forall a, b :: m.combine(a, b) == m.combine(b, a)
  }

  /** The C++ `binOpFunc`: a monoid on partial aggregates with the adapters
      from input values and to output values. */
  datatype BinOp<!In, !P, Out> = BinOp(lift: In -> P, m: Monoid<P>, lower: P -> Out)

  /** Integer sums with identity lift and lower, the operator the concrete
      runs of the aggregators use. */
  function IntSum(): (op: BinOp<int, int, int>)
    ensures IsMonoid(op.m) && op.m.identity == 0
    ensures forall x: int :: op.lift(x) == x && op.lower(x) == x
  {
    BinOp((x: int) => x, Monoid((x: int, y: int) => x + y, 0), (x: int) => x)
  }

  // Explicit instances of the laws, so that proofs do not depend on the
  // solver choosing to instantiate the quantifiers.

  lemma Assoc<T(!new)>(m: Monoid<T>, a: T, b: T, c: T)
    requires IsMonoid(m)
    ensures m.combine(m.combine(a, b), c) == m.combine(a, m.combine(b, c))
  {
  }

  lemma IdentityLeft<T(!new)>(m: Monoid<T>, a: T)
    requires IsMonoid(m)
    ensures m.combine(m.identity, a) == a
  {
  }

  lemma IdentityRight<T(!new)>(m: Monoid<T>, a: T)
    requires IsMonoid(m)
    ensures m.combine(a, m.identity) == a
  {
  }

  /** identity ⊕ v1 ⊕ … ⊕ vn, combined from the oldest to the newest: the
      value every FIFO window's `query` is specified by. */
  function Fold<T>(m: Monoid<T>, s: seq<T>): T
  {
    if s == [] then m.identity else m.combine(Fold(m, s[..|s| - 1]), s[|s| - 1])
  }

  /** The fold of a concatenation is the combination of the folds. */
  lemma {:induction false} FoldAppend<T(!new)>(m: Monoid<T>, s: seq<T>, t: seq<T>)
    requires IsMonoid(m)
    ensures Fold(m, s + t) == m.combine(Fold(m, s), Fold(m, t))
  {
    if t == [] {
      assert s + t == s;
      IdentityRight(m, Fold(m, s));
    } else {
      assert (s + t)[..|s + t| - 1] == s + t[..|t| - 1];
      FoldAppend(m, s, t[..|t| - 1]);
      Assoc(m, Fold(m, s), Fold(m, t[..|t| - 1]), t[|t| - 1]);
    }
  }

  lemma FoldSingleton<T(!new)>(m: Monoid<T>, x: T)
    requires IsMonoid(m)
    ensures Fold(m, [x]) == x
  {
    assert [x][..0] == [];
    IdentityLeft(m, x);
  }

  /** Taking one element off the front of the window. */
  lemma FoldCons<T(!new)>(m: Monoid<T>, x: T, s: seq<T>)
    requires IsMonoid(m)
    ensures Fold(m, [x] + s) == m.combine(x, Fold(m, s))
  {
    FoldAppend(m, [x], s);
    FoldSingleton(m, x);
  }

  /** Adding one element at the back of the window. */
  lemma FoldSnoc<T>(m: Monoid<T>, s: seq<T>, x: T)
    ensures Fold(m, s + [x]) == m.combine(Fold(m, s), x)
  {
    assert (s + [x])[..|s + [x]| - 1] == s;
  }

  /** The fold of a sequence split at any point. */
  lemma FoldSplit<T(!new)>(m: Monoid<T>, s: seq<T>, i: nat)
    requires IsMonoid(m) && i <= |s|
    ensures Fold(m, s) == m.combine(Fold(m, s[..i]), Fold(m, s[i..]))
  {
    assert s == s[..i] + s[i..];
    FoldAppend(m, s[..i], s[i..]);
  }

  lemma ConcatAssoc<T>(a: seq<T>, b: seq<T>, c: seq<T>)
    ensures a + (b + c) == (a + b) + c
  {
  }

  lemma SliceCons<T>(s: seq<T>, i: nat)
    requires i < |s|
    ensures s[i..] == [s[i]] + s[i + 1..]
  {
  }

  lemma SliceSnoc<T>(s: seq<T>, j: nat)
    requires j < |s|
    ensures s[..j + 1] == s[..j] + [s[j]]
  {
  }

  /** Applies `f` to every element, keeping the order. */
  function Map<A, B>(f: A -> B, s: seq<A>): (r: seq<B>)
    ensures |r| == |s|
    ensures forall i :: 0 <= i < |s| ==> r[i] == f(s[i])
  {
    if s == [] then [] else Map(f, s[..|s| - 1]) + [f(s[|s| - 1])]
  }

  lemma MapAppend<A, B>(f: A -> B, s: seq<A>, t: seq<A>)
    ensures Map(f, s + t) == Map(f, s) + Map(f, t)
  {
  }

  /** The reverse of a sequence; two-stack aggregators keep their front stack
      with the oldest element on top, that is, reversed. */
  function Reverse<T>(s: seq<T>): (r: seq<T>)
    ensures |r| == |s|
  {
    if s == [] then [] else [s[|s| - 1]] + Reverse(s[..|s| - 1])
  }

  /** Pushing onto a stack puts the element at the front of its reversal. */
  lemma ReverseSnoc<T>(s: seq<T>, x: T)
    ensures Reverse(s + [x]) == [x] + Reverse(s)
  {
    assert (s + [x])[..|s|] == s;
  }

  /** Popping the top `x` of a front stack `a + [x]` takes the first element
      of the sequence it heads. */
  lemma StackOrderPop<T>(a: seq<T>, x: T, b: seq<T>)
    ensures Reverse(a + [x]) + b == [x] + (Reverse(a) + b)
  {
    ReverseSnoc(a, x);
  }

  /** Moving the top `x` of a back stack onto a front stack keeps the order
      of back-then-reversed-front. */
  lemma StackOrderFlip<T>(a: seq<T>, x: T, f: seq<T>)
    ensures (a + [x]) + Reverse(f) == a + Reverse(f + [x])
  {
    ReverseSnoc(f, x);
  }

  /** The first element of a reversal is the top of the stack. */
  lemma ReverseFirst<T>(s: seq<T>)
    requires |s| > 0
    ensures Reverse(s)[0] == s[|s| - 1]
  {
  }

  /** The last element of a reversal is the bottom of the stack. */
  lemma {:induction false} ReverseLast<T>(s: seq<T>)
    requires |s| > 0
    ensures Reverse(s)[|s| - 1] == s[0]
  {
    if |s| > 1 {
      ReverseLast(s[..|s| - 1]);
    }
  }

  /** The bottom of a stack is the last element of its reversal. */
  lemma {:induction false} ReverseCons<T>(x: T, s: seq<T>)
    ensures Reverse([x] + s) == Reverse(s) + [x]
  {
    if s != [] {
      assert ([x] + s)[..|s|] == [x] + s[..|s| - 1];
      ReverseCons(x, s[..|s| - 1]);
    }
  }
}
