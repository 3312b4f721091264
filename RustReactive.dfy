// rust/src/reactive/mod.rs: `Reactive`, a FIFO window over a `FlatFAT`
// used as a ring buffer.  The window occupies the leaves `front, front + 1,
// ...` modulo the capacity, `back` is the first free leaf, and every free
// leaf holds the identity.  A push that makes the window more than three
// quarters full doubles the tree; a pop that leaves it at most a quarter
// full (and not empty) halves it.  The query folds the tree once, or the
// suffix from `front` and the prefix up to `back` when the window wraps.
module RustReactive {
  import opened Monoid
  import opened ImplicitTree
  import opened RustFlatFAT

  /** The distance from `front` forward to leaf `j`, modulo `cap`. */
  function Offset(front: nat, j: nat, cap: nat): nat
    requires front < cap && j < cap
  {
    if j >= front then j - front else j + cap - front
  }

  /** The leaf `k` places after `front`, modulo `cap`. */
  function Slot(front: nat, k: nat, cap: nat): nat
    requires front < cap && k <= cap
  {
    if front + k < cap then front + k else front + k - cap
  }

  /** The leaves of a ring holding `w` from `front` on, the free leaves
      holding `e`. */
  function Ring<P>(w: seq<P>, front: nat, cap: nat, e: P): (l: seq<P>)
    requires front < cap
    ensures |l| == cap
  {
    seq(cap, j requires 0 <= j < cap => if Offset(front, j, cap) < |w| then w[Offset(front, j, cap)] else e)
  }

  lemma {:induction false} FoldIdentities<P(!new)>(m: Monoid<P>, n: nat)
    requires IsMonoid(m)
    ensures Fold(m, seq(n, _ => m.identity)) == m.identity
  {
    if n > 0 {
      var s := seq(n, _ => m.identity);
      assert s[..n - 1] == seq(n - 1, _ => m.identity);
      FoldIdentities(m, n - 1);
      IdentityLeft(m, m.identity);
    }
  }

  /** Writing the pushed value at the first free leaf extends the ring. */
  lemma RingPush<P>(w: seq<P>, front: nat, cap: nat, e: P, x: P)
    requires front < cap && |w| < cap
    ensures Ring(w, front, cap, e)[Slot(front, |w|, cap) := x] == Ring(w + [x], front, cap, e)
  {
    var back := Slot(front, |w|, cap);
    assert Offset(front, back, cap) == |w|;
  }

  /** Clearing the leaf at `front` and stepping `front` shrinks the ring. */
  lemma RingPop<P>(w: seq<P>, front: nat, cap: nat, e: P)
    requires front < cap && 0 < |w| <= cap
    ensures Ring(w, front, cap, e)[front := e] == Ring(w[1..], Slot(front, 1, cap), cap, e)
  {
    var l, l' := Ring(w, front, cap, e)[front := e], Ring(w[1..], Slot(front, 1, cap), cap, e);
    forall j | 0 <= j < cap
      ensures l[j] == l'[j]
    {
      if j != front {
        assert Offset(Slot(front, 1, cap), j, cap) == Offset(front, j, cap) - 1;
      }
    }
  }

  /** `(k + 1) % cap` as the source steps `back` and `front`. */
  lemma StepMod(front: nat, k: nat, cap: nat)
    requires front < cap && k < cap
    ensures (Slot(front, k, cap) + 1) % cap == Slot(front, k + 1, cap)
  {
    var s := Slot(front, k, cap);
    if s + 1 == cap {
      DivUnique(s + 1, cap, 1, 0);
    } else {
      DivUnique(s + 1, cap, 0, s + 1);
    }
  }

  /** After a push that crosses three quarters, doubling leaves room. */
  lemma GrowBound(cap: nat, size: nat)
    requires cap >= 2 && size <= 3 * cap / 4 + 1
    ensures size <= 3 * (cap * 2) / 4 && size < cap * 2
  {
  }

  /** After a pop to at most a quarter, halving keeps the bound. */
  lemma ShrinkBound(cap: nat, size: nat)
    requires IsPow2(cap) && 0 < size <= cap / 4
    ensures cap >= 4 && cap / 2 > 1 && size < cap / 2 && size <= 3 * (cap / 2) / 4
  {
    HalvePow2(cap);
    if cap >= 4 {
      HalvePow2(cap / 2);
    }
  }

  /** The leaves `resize` copies out are the window, oldest first. */
  lemma Unrotate<P>(w: seq<P>, front: nat, cap: nat, e: P)
    requires front < cap && 0 < |w| <= cap
    ensures var l, back := Ring(w, front, cap, e), Slot(front, |w|, cap);
            (if front >= back then l[front..] + l[..back] else l[front..back]) == w
  {
    var l, back := Ring(w, front, cap, e), Slot(front, |w|, cap);
    if front >= back {
      assert front + |w| >= cap;
      var v := l[front..] + l[..back];
      forall i | 0 <= i < |w|
        ensures v[i] == w[i]
      {
        if i < cap - front {
          assert v[i] == l[front + i] && Offset(front, front + i, cap) == i;
        } else {
          assert v[i] == l[i - (cap - front)] && Offset(front, i - (cap - front), cap) == i;
        }
      }
    } else {
      var v := l[front..back];
      forall i | 0 <= i < |w|
        ensures v[i] == w[i]
      {
        assert v[i] == l[front + i] && Offset(front, front + i, cap) == i;
      }
    }
  }

  /** The packed ring of a fresh tree. */
  lemma RingPacked<P>(w: seq<P>, cap: nat, e: P)
    requires 0 < cap && |w| <= cap
    ensures w + seq(cap, _ => e)[|w|..] == Ring(w, 0, cap, e)
  {
  }

  /** A window that does not wrap sits between free leaves. */
  lemma RingFlat<P(!new)>(m: Monoid<P>, w: seq<P>, front: nat, cap: nat)
    requires IsMonoid(m) && front < cap && |w| < cap && front + |w| < cap
    ensures Fold(m, Ring(w, front, cap, m.identity)) == Fold(m, w)
  {
    var l := Ring(w, front, cap, m.identity);
    var pre, post := seq(front, _ => m.identity), seq(cap - front - |w|, _ => m.identity);
    assert l == pre + w + post;
    FoldAppend(m, pre + w, post);
    FoldAppend(m, pre, w);
    FoldIdentities(m, front);
    FoldIdentities(m, cap - front - |w|);
    IdentityLeft(m, Fold(m, w));
    IdentityRight(m, Fold(m, w));
  }

  /** A wrapped window is the leaves from `front` on followed by those up to
      `back`, and `back` is free. */
  lemma RingWrapped<P(!new)>(m: Monoid<P>, w: seq<P>, front: nat, cap: nat)
    requires IsMonoid(m) && front < cap && |w| < cap && front + |w| >= cap
    ensures var l, back := Ring(w, front, cap, m.identity), Slot(front, |w|, cap);
            m.combine(Fold(m, l[front..]), Fold(m, l[..back + 1])) == Fold(m, w)
  {
    var l, back := Ring(w, front, cap, m.identity), Slot(front, |w|, cap);
    var k := cap - front;
    WrappedParts(w, front, cap, m.identity);
    FoldSnoc(m, w[k..], m.identity);
    IdentityRight(m, Fold(m, w[k..]));
    FoldSplit(m, w, k);
  }

  lemma WrappedParts<P>(w: seq<P>, front: nat, cap: nat, e: P)
    requires front < cap && |w| < cap && front + |w| >= cap
    ensures var l, back := Ring(w, front, cap, e), Slot(front, |w|, cap);
            l[front..] == w[..cap - front] && l[..back + 1] == w[cap - front..] + [e]
  {
    var l, back := Ring(w, front, cap, e), Slot(front, |w|, cap);
    var k := cap - front;
    assert |l[front..]| == k;
    forall i | 0 <= i < k
      ensures l[front..][i] == w[i]
    {
      assert Offset(front, front + i, cap) == i;
    }
    forall i | 0 <= i <= back
      ensures l[..back + 1][i] == (w[k..] + [e])[i]
    {
      assert Offset(front, i, cap) == i + k;
    }
  }

  class Reactive<In, P(!new), Out> {
    /** `lift`, `lower` and `BinOp::Partial`'s monoid. */
    const op: BinOp<In, P, Out>
    var fat: FlatFAT<P>
    var size: nat
    var front: nat
    var back: nat
    /** The lifted partials of the window, oldest first. */
    ghost var window: seq<P>

    /** The window laid out as a ring over the leaves of `fat`. */
    ghost predicate Layout()
      reads this, fat
    {
      fat.Valid() && fat.m == op.m && size == |window| && size <= fat.capacity
      && front < fat.capacity && back == Slot(front, size, fat.capacity)
      && fat.Leaves() == Ring(window, front, fat.capacity, op.m.identity)
    }

    /** Between operations the capacity is a power of two and at most three
        quarters of it are in use, so the leaf at `back` is free. */
    ghost predicate Valid()
      reads this, fat
    {
      Layout() && IsPow2(fat.capacity) && size <= 3 * fat.capacity / 4
    }

    /** `FifoWindow::new`: a tree of two leaves. */
    constructor New(binOp: BinOp<In, P, Out>)
      requires IsMonoid(binOp.m)
      ensures Valid() && op == binOp && window == [] && fat.capacity == 2
    {
      op := binOp;
      fat := new FlatFAT.WithCapacity(binOp.m, 2);
      size, front, back := 0, 0, 0;
      window := [];
      Log2Exp2(1);
    }

    /** `with_capacity`, with the capacity rounded up to a power of two:
        `with_capacity` as written keeps a capacity that is not one, and then
        the tree's root does not fold the leaves in order (see
        `NonPowerOfTwoQuery`). */
    constructor WithCapacity(binOp: BinOp<In, P, Out>, capacity: nat)
      requires IsMonoid(binOp.m) && capacity > 1
      ensures Valid() && op == binOp && window == [] && fat.capacity == NextPow2(capacity)
    {
      op := binOp;
      fat := new FlatFAT.WithCapacity(binOp.m, NextPow2(capacity));
      size, front, back := 0, 0, 0;
      window := [];
    }

    function Len(): (n: nat)
      reads this, fat
      requires Valid()
      ensures n == |window|
    {
      size
    }

    function IsEmpty(): (b: bool)
      reads this, fat
      requires Valid()
      ensures b <==> window == []
    {
      size == 0
    }

    /** `push`: the lifted value written at `back`; a tree more than three
        quarters full is doubled. */
    method Push(v: In)
      requires Valid()
      modifies this, fat
      ensures Valid() && window == old(window) + [op.lift(v)]
      ensures fat.capacity == if |window| > 3 * old(fat.capacity) / 4 then 2 * old(fat.capacity) else old(fat.capacity)
    {
      var cap := fat.capacity;
      Append(op.lift(v));
      if size > 3 * cap / 4 {
        GrowBound(cap, size);
        DoublePow2(cap);
        Resize(cap * 2);
      }
    }

    /** The first half of `push`: `x` written at `back`, `back` stepped. */
    method Append(x: P)
      requires Valid()
      modifies this, fat
      ensures Layout() && window == old(window) + [x] && fat == old(fat)
      ensures IsPow2(fat.capacity) && fat.capacity == old(fat.capacity) && size <= 3 * fat.capacity / 4 + 1
    {
      var cap := fat.capacity;
      ghost var w' := window + [x];
      RingPush(window, front, cap, op.m.identity, x);
      StepMod(front, size, cap);
      fat.Update([(back, x)]);
      size, back, window := size + 1, (back + 1) % cap, w';
    }

    /** `pop`: nothing on an empty window; otherwise the leaf at `front`
        cleared, and a tree at most a quarter full (but not empty) halved. */
    method Pop()
      requires Valid()
      modifies this, fat
      ensures Valid()
      ensures old(window) == [] ==> window == [] && fat.capacity == old(fat.capacity)
      ensures old(window) != [] ==> window == old(window)[1..]
      ensures old(window) != [] ==>
                fat.capacity == if 0 < |window| <= old(fat.capacity) / 4 then old(fat.capacity) / 2 else old(fat.capacity)
    {
      if size > 0 {
        var cap := fat.capacity;
        Remove();
        if size <= cap / 4 && size > 0 {
          ShrinkBound(cap, size);
          HalvePow2(cap);
          Resize(cap / 2);
        }
      }
    }

    /** The first half of `pop`: the leaf at `front` cleared, `front`
        stepped. */
    method Remove()
      requires Valid() && size > 0
      modifies this, fat
      ensures Layout() && window == old(window)[1..] && fat == old(fat)
      ensures IsPow2(fat.capacity) && fat.capacity == old(fat.capacity) && size <= 3 * fat.capacity / 4
    {
      var cap := fat.capacity;
      ghost var w' := window[1..];
      RingPop(window, front, cap, op.m.identity);
      StepMod(front, 0, cap);
      fat.Update([(front, op.m.identity)]);
      size, front, window := size - 1, (front + 1) % cap, w';
    }

    /** `resize`: a fresh tree of `capacity` leaves holding the window packed
        from leaf 0. */
    method Resize(capacity: nat)
      requires Layout() && 0 < size < capacity && capacity > 1
      modifies this
      ensures Layout() && fresh(fat) && fat.capacity == capacity
      ensures window == old(window) && size == old(size) && front == 0 && back == size
    {
      var leaves := fat.Leaves();
      Unrotate(window, front, fat.capacity, op.m.identity);
      var values := if front >= back then leaves[front..] + leaves[..back] else leaves[front..back];
      var f := new FlatFAT.WithCapacity(op.m, capacity);
      f.UpdateOrdered(values);
      RingPacked(window, capacity, op.m.identity);
      fat, front, back := f, 0, size;
    }

    /** `query`: the lowered fold of the window, identity when empty. */
    method Query() returns (r: Out)
      requires Valid()
      ensures r == op.lower(Fold(op.m, window))
    {
      if front > back {
        RingWrapped(op.m, window, front, fat.capacity);
        var s := fat.Suffix(front);
        var p := fat.Prefix(back);
        r := op.lower(op.m.combine(s, p));
      } else {
        RingFlat(op.m, window, front, fat.capacity);
        r := op.lower(fat.Aggregate());
      }
    }
  }

  // ---------------------------------------------------------------------
  // `Reactive::with_capacity(3)` as written: a `FlatFAT` of three leaves has
  // leaf 0 at depth 1 and leaves 1 and 2 at depth 2, so its root combines
  // leaf 1, leaf 2 and then leaf 0.  Over a non-commutative operator the
  // window `[1], [2]` (pushed at leaves 0 and 1, `front` 0 and `back` 2, so
  // `query` reads the root) then aggregates to `[2, 1]`.

  /** Sequence concatenation: a monoid that is not commutative. */
  function Concat(): Monoid<seq<int>>
  {
    Monoid((a: seq<int>, b: seq<int>) => a + b, [])
  }

  lemma ConcatIsMonoid()
    ensures IsMonoid(Concat())
  {
    forall a: seq<int>, b: seq<int>, c: seq<int>
      ensures Concat().combine(Concat().combine(a, b), c) == Concat().combine(a, Concat().combine(b, c))
    {
      ConcatAssoc(a, b, c);
    }
    forall a: seq<int>
      ensures Concat().combine(Concat().identity, a) == a && Concat().combine(a, Concat().identity) == a
    {
      assert [] + a == a && a + [] == a;
    }
  }

  /** The two pushes and the query of `with_capacity(3)`: the root is
      `[2, 1]` while the window folds to `[1, 2]`. */
  method NonPowerOfTwoQuery() returns (r: seq<int>, window: seq<seq<int>>)
    ensures window == [[1], [2]] && Fold(Concat(), window) == [1, 2]
    ensures r == [2, 1]
  {
    ConcatIsMonoid();
    var fat := new FlatFAT.WithCapacity(Concat(), 3);
    fat.Update([(0, [1])]);
    fat.Update([(1, [2])]);
    var t := fat.tree;
    assert fat.Leaves() == [[1], [2], []];
    assert t[2] == [1] && t[3] == [2] && t[4] == [];
    assert NodeOk(Concat(), t, 1) && NodeOk(Concat(), t, 0);
    assert t[1] == [2] + [];
    assert t[0] == t[1] + t[2];
    r := fat.Aggregate();
    window := [[1], [2]];
    assert window[..1] == [[1]];
    assert Fold(Concat(), window) == Fold(Concat(), [[1]]) + [2];
    FoldSingleton(Concat(), [1]);
  }
}
