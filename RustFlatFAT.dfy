// rust/src/reactive/flat_fat.rs: `FlatFAT`, a complete binary tree stored
// flat in a `Vec`: the root is node 0, node `i` has children `2i + 1` and
// `2i + 2`, and the `capacity` leaves are nodes `capacity - 1 ..
// 2 * capacity - 2`.  Every internal node holds the combination of its two
// children.  This is the layout of `ImplicitTree` shifted down by one: node
// `i` here is node `i + 1` there, so a tree whose capacity is `Exp2(h)` has
// all its leaves at depth `h`, and only then does the root fold the leaves in
// index order.
module RustFlatFAT {
  import opened Monoid
  import opened Wrappers
  import opened ImplicitTree

  function Root(): nat { 0 }

  function Leaf(capacity: nat, i: nat): nat
    requires capacity >= 1
  {
    i + capacity - 1
  }

  function Left(i: nat): nat { 2 * i + 1 }

  function Right(i: nat): nat { 2 * i + 2 }

  function Parent(i: nat): nat
    requires i > 0
  {
    (i - 1) / 2
  }

  /** The index functions agree: both children of `i` have `i` as parent,
      the leaves fill the last `capacity` slots of a `2 * capacity - 1`
      vector, and the parent of a leaf is an internal node. */
  lemma Layout(capacity: nat, i: nat, x: nat)
    requires capacity > 1 && x < capacity
    ensures Parent(Left(i)) == i && Parent(Right(i)) == i
    ensures capacity - 1 <= Leaf(capacity, x) < 2 * capacity - 1
    ensures Parent(Leaf(capacity, x)) < capacity - 1
  {
  }

  /** `i` is `y` or one of its ancestors. */
  predicate AncestorOrSelf(i: nat, y: nat)
    decreases y
  {
    y == i || (y > 0 && AncestorOrSelf(i, Parent(y)))
  }

  ghost predicate NodeOk<P>(m: Monoid<P>, t: seq<P>, i: nat)
    requires Right(i) < |t|
  {
    t[i] == m.combine(t[Left(i)], t[Right(i)])
  }

  /** Every internal node is the combination of its children. */
  ghost predicate Consistent<P>(m: Monoid<P>, t: seq<P>, capacity: nat)
  {
    capacity >= 1 && |t| == 2 * capacity - 1
    && forall i :: 0 <= i < capacity - 1 ==> NodeOk(m, t, i)
  }

  function LeavesOf<P>(t: seq<P>, capacity: nat): (l: seq<P>)
    requires 1 <= capacity && |t| == 2 * capacity - 1
    ensures |l| == capacity
  {
    t[capacity - 1..]
  }

  // ---------------------------------------------------------------------
  // Powers of two.

  function Log2(n: nat): nat
    requires n >= 1
  {
    if n == 1 then 0 else 1 + Log2(n / 2)
  }

  predicate IsPow2(n: nat)
  {
    n >= 1 && Exp2(Log2(n)) == n
  }

  lemma {:induction false} Log2Exp2(h: nat)
    ensures Log2(Exp2(h)) == h && IsPow2(Exp2(h))
  {
    if h > 0 {
      Log2Exp2(h - 1);
      assert Exp2(h) / 2 == Exp2(h - 1);
    }
  }

  lemma DoublePow2(n: nat)
    requires IsPow2(n)
    ensures IsPow2(2 * n) && Log2(2 * n) == Log2(n) + 1
  {
    assert (2 * n) / 2 == n;
  }

  lemma HalvePow2(n: nat)
    requires IsPow2(n) && n >= 2
    ensures IsPow2(n / 2) && n / 2 * 2 == n
  {
    var h := Log2(n);
    assert h > 0;
    assert Exp2(h) == 2 * Exp2(h - 1);
    assert n / 2 == Exp2(h - 1);
    Log2Exp2(h - 1);
  }

  /** A power of two other than 1 is even. */
  lemma Pow2Even(n: nat)
    requires IsPow2(n)
    ensures n >= 2 ==> n % 2 == 0
  {
    if n >= 2 {
      Exp2Even(Log2(n));
    }
  }

  /** `usize::next_power_of_two`: the least power of two not below `n`
      (every smaller power is below `n`, its double is not). */
  function NextPow2(n: nat): (r: nat)
    ensures IsPow2(r) && n <= r && (n >= 1 ==> r < 2 * n)
  {
    if n <= 1 then 1
    else
      var half := NextPow2((n + 1) / 2);
      DoublePow2(half);
      Pow2Even(half);
      2 * half
  }

  // ---------------------------------------------------------------------
  // With `Exp2(h)` leaves, node `n - 1` (node `n` of `ImplicitTree`) at
  // height `j` folds the leaves `First(j, n) - Exp2(h) .. First(j, n + 1) -
  // Exp2(h)`, where `First(j, n) == n * Exp2(j)` is the leftmost leaf below
  // it.

  /** The leftmost leaf below node `n` of height `j`, in `ImplicitTree`
      numbering. */
  function First(j: nat, n: nat): nat
    decreases j
  {
    if j == 0 then n else First(j - 1, 2 * n)
  }

  lemma {:induction false} FirstIsProduct(j: nat, n: nat)
    ensures First(j, n) == n * Exp2(j)
    decreases j
  {
    if j > 0 {
      FirstIsProduct(j - 1, 2 * n);
      assert (2 * n) * Exp2(j - 1) == n * (2 * Exp2(j - 1));
    }
  }

  lemma {:induction false} FirstMono(j: nat, n: nat)
    ensures First(j, n) < First(j, n + 1)
    decreases j
  {
    if j > 0 {
      FirstMono(j - 1, 2 * n);
      FirstMono(j - 1, 2 * n + 1);
    }
  }

  /** `v` is the fold of the leaves `lo .. hi`. */
  ghost predicate Covers<P>(m: Monoid<P>, l: seq<P>, lo: int, hi: int, v: P)
  {
    0 <= lo <= hi <= |l| && v == Fold(m, l[lo..hi])
  }

  /** Adjacent ranges combine. */
  lemma CoversJoin<P(!new)>(m: Monoid<P>, l: seq<P>, a: int, b: int, c: int, x: P, y: P)
    requires IsMonoid(m) && Covers(m, l, a, b, x) && Covers(m, l, b, c, y)
    ensures Covers(m, l, a, c, m.combine(x, y))
  {
    assert l[a..c] == l[a..b] + l[b..c];
    FoldAppend(m, l[a..b], l[b..c]);
  }

  /** Node `n` of `ImplicitTree` is node `n - 1` of the flat tree; above the
      leaves it is an internal node. */
  lemma NodeIndex(h: nat, j: nat, n: nat)
    requires Node(h, j, n)
    ensures 1 <= n < 2 * Exp2(h)
    ensures j > 0 ==> n < Exp2(h)
  {
    Exp2Mono(h - j, h);
    if j > 0 {
      assert Exp2(h - j + 1) == 2 * Exp2(h - j);
      Exp2Mono(h - j + 1, h);
    }
  }

  lemma {:induction false} NodeFold<P(!new)>(m: Monoid<P>, t: seq<P>, h: nat, j: nat, n: nat)
    requires IsMonoid(m) && Consistent(m, t, Exp2(h)) && Node(h, j, n)
    ensures 1 <= n <= |t|
    ensures Covers(m, LeavesOf(t, Exp2(h)), First(j, n) - Exp2(h), First(j, n + 1) - Exp2(h), t[n - 1])
    decreases j
  {
    var cap := Exp2(h);
    NodeIndex(h, j, n);
    if j == 0 {
      LeafCovers(m, t, cap, n);
    } else {
      Children(h, j - 1, n);
      NodeFold(m, t, h, j - 1, 2 * n);
      NodeFold(m, t, h, j - 1, 2 * n + 1);
      InternalCovers(m, t, cap, n, First(j - 1, 2 * n) - cap, First(j - 1, 2 * n + 1) - cap,
                     First(j - 1, 2 * n + 1 + 1) - cap);
    }
  }

  lemma LeafCovers<P(!new)>(m: Monoid<P>, t: seq<P>, cap: nat, n: nat)
    requires IsMonoid(m) && cap >= 1 && |t| == 2 * cap - 1 && cap <= n < 2 * cap
    ensures Covers(m, LeavesOf(t, cap), n - cap, n + 1 - cap, t[n - 1])
  {
    assert LeavesOf(t, cap)[n - cap..n + 1 - cap] == [t[n - 1]];
    FoldSingleton(m, t[n - 1]);
  }

  /** Internal node `n - 1` combines the ranges of its children. */
  lemma InternalCovers<P(!new)>(m: Monoid<P>, t: seq<P>, cap: nat, n: nat, lo: int, mid: int, hi: int)
    requires IsMonoid(m) && Consistent(m, t, cap) && 1 <= n < cap
    requires Covers(m, LeavesOf(t, cap), lo, mid, t[2 * n - 1])
    requires Covers(m, LeavesOf(t, cap), mid, hi, t[2 * n])
    ensures Covers(m, LeavesOf(t, cap), lo, hi, t[n - 1])
  {
    assert NodeOk(m, t, n - 1);
    CoversJoin(m, LeavesOf(t, cap), lo, mid, hi, t[2 * n - 1], t[2 * n]);
  }

  /** With a power-of-two capacity the root folds all leaves in order. */
  lemma RootIsFold<P(!new)>(m: Monoid<P>, t: seq<P>, capacity: nat)
    requires IsMonoid(m) && Consistent(m, t, capacity) && IsPow2(capacity)
    ensures t[Root()] == Fold(m, LeavesOf(t, capacity))
  {
    var h, l := Log2(capacity), LeavesOf(t, capacity);
    assert Exp2(h) == capacity;
    NodeFold(m, t, h, h, 1);
    RootRange(h);
    assert Covers(m, l, 0, capacity, t[0]);
    assert l[0..capacity] == l;
  }

  // ---------------------------------------------------------------------
  // `update`: leaves written in batch order, then the ancestors repaired one
  // level of parents at a time.  A node that is not the combination of its
  // children is always an ancestor of a node still to be visited.

  /** The leaves after the batch's writes, the later of two writes to a leaf
      winning. */
  ghost function Written<P>(l: seq<P>, batch: seq<(nat, P)>): (l': seq<P>)
    requires forall k :: 0 <= k < |batch| ==> batch[k].0 < |l|
    ensures |l'| == |l|
  {
    if batch == [] then l
    else Written(l, batch[..|batch| - 1])[batch[|batch| - 1].0 := batch[|batch| - 1].1]
  }

  ghost predicate Pending<P>(m: Monoid<P>, t: seq<P>, capacity: nat, S: set<nat>)
  {
    capacity >= 1 && |t| == 2 * capacity - 1
    && (forall y :: y in S ==> y < capacity - 1)
    && forall i :: 0 <= i < capacity - 1 && !NodeOk(m, t, i) ==> exists y :: y in S && AncestorOrSelf(i, y)
  }

  lemma PendingNone<P>(m: Monoid<P>, t: seq<P>, capacity: nat)
    requires Pending(m, t, capacity, {})
    ensures Consistent(m, t, capacity)
  {
  }

  /** Writing a leaf leaves at most its parent to repair. */
  lemma WriteStep<P>(m: Monoid<P>, t: seq<P>, capacity: nat, S: set<nat>, x: nat, v: P)
    requires Pending(m, t, capacity, S) && capacity > 1 && x < capacity
    ensures Pending(m, t[Leaf(capacity, x) := v], capacity, S + {Parent(Leaf(capacity, x))})
  {
    var leaf := Leaf(capacity, x);
    var t', p, S' := t[leaf := v], Parent(leaf), S + {Parent(leaf)};
    forall i | 0 <= i < capacity - 1 && !NodeOk(m, t', i)
      ensures exists y :: y in S' && AncestorOrSelf(i, y)
    {
      if i == p {
        assert p in S' && AncestorOrSelf(i, p);
      } else {
        assert Left(i) != leaf && Right(i) != leaf;
        assert !NodeOk(m, t, i);
        var y :| y in S && AncestorOrSelf(i, y);
        assert y in S';
      }
    }
  }

  /** Recomputing node `p` leaves its parent, if any, to repair. */
  lemma RepairStep<P>(m: Monoid<P>, t: seq<P>, capacity: nat, rem: set<nat>, next: set<nat>, p: nat)
    requires Pending(m, t, capacity, rem + next) && p in rem
    ensures Pending(m, t[p := m.combine(t[Left(p)], t[Right(p)])], capacity,
                    (rem - {p}) + (if p != Root() then next + {Parent(p)} else next))
  {
    var t' := t[p := m.combine(t[Left(p)], t[Right(p)])];
    var S' := (rem - {p}) + (if p != Root() then next + {Parent(p)} else next);
    assert NodeOk(m, t', p);
    forall i | 0 <= i < capacity - 1 && !NodeOk(m, t', i)
      ensures exists y :: y in S' && AncestorOrSelf(i, y)
    {
      if p != 0 && i == Parent(p) {
        assert Parent(p) in S' && AncestorOrSelf(i, Parent(p));
      } else {
        assert Left(i) != p && Right(i) != p;
        assert !NodeOk(m, t, i);
        var y :| y in rem + next && AncestorOrSelf(i, y);
        if y == p {
          assert p != 0 && AncestorOrSelf(i, Parent(p));
          assert Parent(p) in S';
        } else {
          assert y in S';
        }
      }
    }
  }

  /** The `map` over the batch: each value written to its leaf, each leaf's
      parent collected. */
  method WriteLeaves<P>(m: Monoid<P>, t0: seq<P>, capacity: nat, batch: seq<(nat, P)>)
    returns (t: seq<P>, parents: set<nat>)
    requires Consistent(m, t0, capacity) && capacity > 1
    requires forall k :: 0 <= k < |batch| ==> batch[k].0 < capacity
    ensures Pending(m, t, capacity, parents)
    ensures LeavesOf(t, capacity) == Written(LeavesOf(t0, capacity), batch)
    ensures forall y :: y in parents ==> y < capacity - 1
  {
    t, parents := t0, {};
    var k := 0;
    while k < |batch|
      invariant k <= |batch| && Pending(m, t, capacity, parents)
      invariant LeavesOf(t, capacity) == Written(LeavesOf(t0, capacity), batch[..k])
    {
      var (idx, val) := batch[k];
      var leaf := Leaf(capacity, idx);
      WriteStep(m, t, capacity, parents, idx, val);
      WrittenStep(t, capacity, batch, k);
      t := t[leaf := val];
      parents := parents + {Parent(leaf)};
      k := k + 1;
    }
    assert batch[..k] == batch;
  }

  lemma WrittenStep<P>(t: seq<P>, capacity: nat, batch: seq<(nat, P)>, k: nat)
    requires 1 <= capacity && |t| == 2 * capacity - 1 && k < |batch|
    requires forall k :: 0 <= k < |batch| ==> batch[k].0 < capacity
    ensures LeavesOf(t[Leaf(capacity, batch[k].0) := batch[k].1], capacity)
            == LeavesOf(t, capacity)[batch[k].0 := batch[k].1]
    ensures batch[..k + 1][..k] == batch[..k] && batch[..k + 1][k] == batch[k]
  {
  }

  /** One `parents.drain()`: every node of `parents` recomputed, in any
      order, each non-root one's parent collected into `next`. */
  method RepairLevel<P>(m: Monoid<P>, t0: seq<P>, capacity: nat, parents: set<nat>, ghost bound: nat)
    returns (t: seq<P>, next: set<nat>)
    requires Pending(m, t0, capacity, parents) && forall y :: y in parents ==> y < bound
    ensures Pending(m, t, capacity, next) && forall y :: y in next ==> y < bound / 2
    ensures LeavesOf(t, capacity) == LeavesOf(t0, capacity)
  {
    var rem := parents;
    t, next := t0, {};
    while rem != {}
      invariant Pending(m, t, capacity, rem + next)
      invariant rem <= parents && forall y :: y in next ==> y < bound / 2
      invariant LeavesOf(t, capacity) == LeavesOf(t0, capacity)
      decreases |rem|
    {
      var p :| p in rem;
      RepairStep(m, t, capacity, rem, next, p);
      t := t[p := m.combine(t[Left(p)], t[Right(p)])];
      if p != Root() {
        next := next + {Parent(p)};
      }
      rem := rem - {p};
      assert (rem + next) == (rem + next);
    }
    assert rem + next == next;
  }

  /** The `loop` of `update`: levels of parents repaired until none is left. */
  method Repair<P>(m: Monoid<P>, t0: seq<P>, capacity: nat, parents0: set<nat>) returns (t: seq<P>)
    requires Pending(m, t0, capacity, parents0)
    ensures Consistent(m, t, capacity) && LeavesOf(t, capacity) == LeavesOf(t0, capacity)
  {
    var parents := parents0;
    ghost var bound := capacity;
    t := t0;
    while parents != {}
      invariant Pending(m, t, capacity, parents) && forall y :: y in parents ==> y < bound
      invariant LeavesOf(t, capacity) == LeavesOf(t0, capacity)
      decreases bound
    {
      var next;
      t, next := RepairLevel(m, t, capacity, parents, bound);
      parents, bound := next, bound / 2;
    }
    PendingNone(m, t, capacity);
  }

  /** Recomputing node `p` from its children keeps every node above `p`
      consistent and makes `p` consistent. */
  lemma RebuildStep<P>(m: Monoid<P>, t: seq<P>, capacity: nat, p: nat, t': seq<P>)
    requires capacity >= 1 && |t| == 2 * capacity - 1 && p < capacity - 1
    requires forall i :: p < i < capacity - 1 ==> NodeOk(m, t, i)
    requires t' == t[p := m.combine(t[Left(p)], t[Right(p)])]
    ensures forall i :: p <= i < capacity - 1 ==> NodeOk(m, t', i)
  {
    forall i | p <= i < capacity - 1
      ensures NodeOk(m, t', i)
    {
      if i > p {
        assert NodeOk(m, t, i);
      }
    }
  }

  /** `update_ordered`'s second loop, from the last internal node down to
      the root: each node recomputed from its children. */
  method Rebuild<P>(m: Monoid<P>, t0: seq<P>, capacity: nat) returns (t: seq<P>)
    requires capacity >= 1 && |t0| == 2 * capacity - 1
    ensures Consistent(m, t, capacity) && LeavesOf(t, capacity) == LeavesOf(t0, capacity)
  {
    t := t0;
    var p := capacity - 1;
    while p > 0
      invariant p <= capacity - 1 && |t| == |t0|
      invariant forall i :: p <= i < capacity - 1 ==> NodeOk(m, t, i)
      invariant LeavesOf(t, capacity) == LeavesOf(t0, capacity)
    {
      p := p - 1;
      var t' := t[p := m.combine(t[Left(p)], t[Right(p)])];
      RebuildStep(m, t, capacity, p, t');
      t := t';
    }
  }

  /** `update_ordered`'s first loop: `values[i]` written to leaf `i`. */
  method WriteOrdered<P>(t0: seq<P>, capacity: nat, values: seq<P>) returns (t: seq<P>)
    requires capacity >= 1 && |t0| == 2 * capacity - 1 && |values| <= capacity
    ensures |t| == |t0| && t[..capacity - 1] == t0[..capacity - 1]
    ensures LeavesOf(t, capacity) == values + LeavesOf(t0, capacity)[|values|..]
  {
    t := t0;
    var i := 0;
    while i < |values|
      invariant i <= |values| && |t| == |t0| && t[..capacity - 1] == t0[..capacity - 1]
      invariant LeavesOf(t, capacity) == values[..i] + LeavesOf(t0, capacity)[i..]
    {
      OrderedStep(t, capacity, values, i, LeavesOf(t0, capacity));
      t := t[Leaf(capacity, i) := values[i]];
      i := i + 1;
    }
    assert values[..i] == values;
  }

  lemma OrderedStep<P>(t: seq<P>, capacity: nat, values: seq<P>, i: nat, l0: seq<P>)
    requires 1 <= capacity && |t| == 2 * capacity - 1 && i < |values| <= capacity && |l0| == capacity
    requires LeavesOf(t, capacity) == values[..i] + l0[i..]
    ensures LeavesOf(t[Leaf(capacity, i) := values[i]], capacity) == values[..i + 1] + l0[i + 1..]
    ensures t[Leaf(capacity, i) := values[i]][..capacity - 1] == t[..capacity - 1]
  {
    var l' := LeavesOf(t[Leaf(capacity, i) := values[i]], capacity);
    assert l' == LeavesOf(t, capacity)[i := values[i]];
    forall j | 0 <= j < capacity
      ensures l'[j] == (values[..i + 1] + l0[i + 1..])[j]
    {
    }
  }

  // ---------------------------------------------------------------------
  // `prefix` and `suffix`: a walk from a leaf to the root that picks up the
  // left (right) siblings along the way.  In `ImplicitTree` numbering an odd
  // node is a right child, an even one a left child, and the parent of `n`
  // is `n / 2`.

  /** One step of `prefix`: a right child adds its left sibling `sib`. */
  lemma PrefixStep<P(!new)>(m: Monoid<P>, t: seq<P>, h: nat, k: nat, n: nat, x: int, agg: P, sib: P)
    requires IsMonoid(m) && Consistent(m, t, Exp2(h)) && Node(h, k, n) && n > 1
    requires x < First(k, n + 1) - Exp2(h)
    requires Covers(m, LeavesOf(t, Exp2(h)), First(k, n) - Exp2(h), x + 1, agg)
    requires n % 2 == 1 ==> 2 <= n <= |t| && sib == t[n - 2]
    ensures Node(h, k + 1, n / 2) && x < First(k + 1, n / 2 + 1) - Exp2(h)
    ensures Covers(m, LeavesOf(t, Exp2(h)), First(k + 1, n / 2) - Exp2(h), x + 1,
                   if n % 2 == 1 then m.combine(sib, agg) else agg)
  {
    NodeRoot(h, k, n);
    ParentNode(h, k, n);
    if n % 2 == 1 {
      PrefixFromRight(m, t, h, k, n / 2, x, agg, sib);
    } else {
      FirstMono(k, n + 1);
      assert First(k + 1, n / 2) == First(k, n) && First(k + 1, n / 2 + 1) == First(k, n + 2);
    }
  }

  /** The right child `2 * pn + 1` of `pn`: its left sibling's leaves come
      just before its own. */
  lemma PrefixFromRight<P(!new)>(m: Monoid<P>, t: seq<P>, h: nat, k: nat, pn: nat, x: int, agg: P, sib: P)
    requires IsMonoid(m) && Consistent(m, t, Exp2(h)) && Node(h, k + 1, pn)
    requires Covers(m, LeavesOf(t, Exp2(h)), First(k, 2 * pn + 1) - Exp2(h), x + 1, agg)
    requires 2 * pn + 1 <= |t| && sib == t[2 * pn - 1]
    ensures Covers(m, LeavesOf(t, Exp2(h)), First(k + 1, pn) - Exp2(h), x + 1, m.combine(sib, agg))
  {
    var cap := Exp2(h);
    Children(h, k, pn);
    NodeFold(m, t, h, k, 2 * pn);
    CoversJoin(m, LeavesOf(t, cap), First(k, 2 * pn) - cap, First(k, 2 * pn + 1) - cap, x + 1, sib, agg);
  }

  /** One step of `suffix`: a left child adds its right sibling `sib`. */
  lemma SuffixStep<P(!new)>(m: Monoid<P>, t: seq<P>, h: nat, k: nat, n: nat, x: int, agg: P, sib: P)
    requires IsMonoid(m) && Consistent(m, t, Exp2(h)) && Node(h, k, n) && n > 1
    requires First(k, n) - Exp2(h) <= x
    requires Covers(m, LeavesOf(t, Exp2(h)), x, First(k, n + 1) - Exp2(h), agg)
    requires n % 2 == 0 ==> n < |t| && sib == t[n]
    ensures Node(h, k + 1, n / 2) && First(k + 1, n / 2) - Exp2(h) <= x
    ensures Covers(m, LeavesOf(t, Exp2(h)), x, First(k + 1, n / 2 + 1) - Exp2(h),
                   if n % 2 == 0 then m.combine(agg, sib) else agg)
  {
    NodeRoot(h, k, n);
    ParentNode(h, k, n);
    if n % 2 == 0 {
      SuffixFromLeft(m, t, h, k, n / 2, x, agg, sib);
      assert First(k + 1, n / 2) == First(k, n);
    } else {
      FirstMono(k, n - 1);
      assert First(k + 1, n / 2) == First(k, n - 1) && First(k + 1, n / 2 + 1) == First(k, n + 1);
    }
  }

  /** The left child `2 * pn` of `pn`: its right sibling's leaves come just
      after its own. */
  lemma SuffixFromLeft<P(!new)>(m: Monoid<P>, t: seq<P>, h: nat, k: nat, pn: nat, x: int, agg: P, sib: P)
    requires IsMonoid(m) && Consistent(m, t, Exp2(h)) && Node(h, k + 1, pn)
    requires Covers(m, LeavesOf(t, Exp2(h)), x, First(k, 2 * pn + 1) - Exp2(h), agg)
    requires 2 * pn < |t| && sib == t[2 * pn]
    ensures Covers(m, LeavesOf(t, Exp2(h)), x, First(k + 1, pn + 1) - Exp2(h), m.combine(agg, sib))
  {
    var cap := Exp2(h);
    Children(h, k, pn);
    NodeFold(m, t, h, k, 2 * pn + 1);
    assert First(k + 1, pn + 1) == First(k, 2 * pn + 1 + 1);
    CoversJoin(m, LeavesOf(t, cap), x, First(k, 2 * pn + 1) - cap, First(k, 2 * pn + 1 + 1) - cap, agg, sib);
  }

  /** A leaf is a node of height 0 covering just itself. */
  lemma LeafStart<P(!new)>(m: Monoid<P>, t: seq<P>, capacity: nat, x: nat)
    requires IsMonoid(m) && Consistent(m, t, capacity) && x < capacity
    ensures Leaf(capacity, x) < |t|
    ensures IsPow2(capacity) ==> Node(Log2(capacity), 0, Leaf(capacity, x) + 1)
    ensures Covers(m, LeavesOf(t, capacity), x, x + 1, t[Leaf(capacity, x)])
  {
    assert LeavesOf(t, capacity)[x..x + 1] == [t[Leaf(capacity, x)]];
    FoldSingleton(m, t[Leaf(capacity, x)]);
  }

  /** At the root the walk has covered from the first leaf (`prefix`) or to
      the last one (`suffix`). */
  lemma RootRange(h: nat)
    ensures First(h, 1) - Exp2(h) == 0 && First(h, 2) - Exp2(h) == Exp2(h)
  {
    FirstIsProduct(h, 1);
    FirstIsProduct(h, 2);
  }

  /** What the walk of `prefix` knows at node `node`, `k` levels above the
      leaf `x`: with a power-of-two capacity, `agg` folds the leaves from the
      first one below `node` up to `x`. */
  ghost predicate PrefixInv<P>(m: Monoid<P>, t: seq<P>, capacity: nat, k: nat, node: nat, x: nat, agg: P)
  {
    capacity >= 1 && |t| == 2 * capacity - 1 && IsPow2(capacity) ==>
      (Node(Log2(capacity), k, node + 1) && x < First(k, node + 2) - capacity
       && Covers(m, LeavesOf(t, capacity), First(k, node + 1) - capacity, x + 1, agg))
  }

  /** What the walk of `suffix` knows: `agg` folds the leaves from `x` to
      the last one below `node`. */
  ghost predicate SuffixInv<P>(m: Monoid<P>, t: seq<P>, capacity: nat, k: nat, node: nat, x: nat, agg: P)
  {
    capacity >= 1 && |t| == 2 * capacity - 1 && IsPow2(capacity) ==>
      (Node(Log2(capacity), k, node + 1) && First(k, node + 1) - capacity <= x
       && Covers(m, LeavesOf(t, capacity), x, First(k, node + 2) - capacity, agg))
  }

  lemma PrefixAdvance<P(!new)>(m: Monoid<P>, t: seq<P>, capacity: nat, k: nat, node: nat, x: nat, agg: P)
    requires IsMonoid(m) && Consistent(m, t, capacity) && 0 < node < |t|
    requires PrefixInv(m, t, capacity, k, node, x, agg)
    ensures Left(Parent(node)) < |t|
    ensures PrefixInv(m, t, capacity, k + 1, Parent(node), x,
                      if node == Right(Parent(node)) then m.combine(t[Left(Parent(node))], agg) else agg)
  {
    if IsPow2(capacity) {
      PrefixStep(m, t, Log2(capacity), k, node + 1, x, agg, t[Left(Parent(node))]);
      assert (node + 1) / 2 == Parent(node) + 1;
    }
  }

  lemma SuffixAdvance<P(!new)>(m: Monoid<P>, t: seq<P>, capacity: nat, k: nat, node: nat, x: nat, agg: P)
    requires IsMonoid(m) && Consistent(m, t, capacity) && 0 < node < |t|
    requires SuffixInv(m, t, capacity, k, node, x, agg)
    ensures Right(Parent(node)) < |t|
    ensures SuffixInv(m, t, capacity, k + 1, Parent(node), x,
                      if node == Left(Parent(node)) then m.combine(agg, t[Right(Parent(node))]) else agg)
  {
    if IsPow2(capacity) {
      SuffixStep(m, t, Log2(capacity), k, node + 1, x, agg, t[Right(Parent(node))]);
      assert (node + 1) / 2 == Parent(node) + 1;
    }
  }

  /** The walks start at the leaf. */
  lemma PrefixStart<P(!new)>(m: Monoid<P>, t: seq<P>, capacity: nat, x: nat)
    requires IsMonoid(m) && Consistent(m, t, capacity) && x < capacity
    ensures Leaf(capacity, x) < |t|
    ensures PrefixInv(m, t, capacity, 0, Leaf(capacity, x), x, t[Leaf(capacity, x)])
  {
    var leaf := Leaf(capacity, x);
    LeafStart(m, t, capacity, x);
    assert First(0, leaf + 1) == leaf + 1 && First(0, leaf + 2) == leaf + 2;
    assert leaf + 1 - capacity == x && leaf + 2 - capacity == x + 1;
  }

  lemma SuffixStart<P(!new)>(m: Monoid<P>, t: seq<P>, capacity: nat, x: nat)
    requires IsMonoid(m) && Consistent(m, t, capacity) && x < capacity
    ensures Leaf(capacity, x) < |t|
    ensures SuffixInv(m, t, capacity, 0, Leaf(capacity, x), x, t[Leaf(capacity, x)])
  {
    var leaf := Leaf(capacity, x);
    LeafStart(m, t, capacity, x);
    if IsPow2(capacity) {
      assert Node(Log2(capacity), 0, leaf + 1);
      assert First(0, leaf + 1) - capacity <= x;
      assert First(0, leaf + 2) - capacity == x + 1;
      assert Covers(m, LeavesOf(t, capacity), x, x + 1, t[leaf]);
      assert Covers(m, LeavesOf(t, capacity), x, First(0, leaf + 2) - capacity, t[leaf]);
      assert SuffixInv(m, t, capacity, 0, leaf, x, t[leaf]);
    }
  }

  /** At the root the walks have covered from the first leaf (`prefix`) or
      to the last one (`suffix`). */
  lemma WalkEnd<P(!new)>(m: Monoid<P>, t: seq<P>, capacity: nat, k: nat, x: nat, pre: P, suf: P)
    requires IsMonoid(m) && Consistent(m, t, capacity) && x < capacity
    ensures PrefixInv(m, t, capacity, k, Root(), x, pre) && IsPow2(capacity)
            ==> pre == Fold(m, LeavesOf(t, capacity)[..x + 1])
    ensures SuffixInv(m, t, capacity, k, Root(), x, suf) && IsPow2(capacity)
            ==> suf == Fold(m, LeavesOf(t, capacity)[x..])
  {
    if IsPow2(capacity) {
      var h := Log2(capacity);
      if PrefixInv(m, t, capacity, k, Root(), x, pre) || SuffixInv(m, t, capacity, k, Root(), x, suf) {
        NodeRoot(h, k, 1);
        RootRange(h);
        assert LeavesOf(t, capacity)[x..capacity] == LeavesOf(t, capacity)[x..];
      }
    }
  }

  /** The loop of `prefix`. */
  method PrefixWalk<P(!new)>(m: Monoid<P>, t: seq<P>, capacity: nat, x: nat) returns (agg: P)
    requires IsMonoid(m) && Consistent(m, t, capacity) && x < capacity
    ensures IsPow2(capacity) ==> agg == Fold(m, LeavesOf(t, capacity)[..x + 1])
  {
    ghost var k := 0;
    var node: nat := Leaf(capacity, x);
    PrefixStart(m, t, capacity, x);
    agg := t[node];
    while node != Root()
      invariant node < |t| && PrefixInv(m, t, capacity, k, node, x, agg)
      decreases node
    {
      var parent := Parent(node);
      PrefixAdvance(m, t, capacity, k, node, x, agg);
      if node == Right(parent) {
        agg := m.combine(t[Left(parent)], agg);
      }
      node, k := parent, k + 1;
    }
    WalkEnd(m, t, capacity, k, x, agg, agg);
  }

  /** The loop of `suffix`. */
  method SuffixWalk<P(!new)>(m: Monoid<P>, t: seq<P>, capacity: nat, x: nat) returns (agg: P)
    requires IsMonoid(m) && Consistent(m, t, capacity) && x < capacity
    ensures IsPow2(capacity) ==> agg == Fold(m, LeavesOf(t, capacity)[x..])
  {
    ghost var k := 0;
    var node: nat := Leaf(capacity, x);
    SuffixStart(m, t, capacity, x);
    agg := t[node];
    while node != Root()
      invariant node < |t| && SuffixInv(m, t, capacity, k, node, x, agg)
      decreases node
    {
      var parent := Parent(node);
      SuffixAdvance(m, t, capacity, k, node, x, agg);
      if node == Left(parent) {
        agg := m.combine(agg, t[Right(parent)]);
      }
      node, k := parent, k + 1;
    }
    WalkEnd(m, t, capacity, k, x, agg, agg);
  }

  // ---------------------------------------------------------------------

  class FlatFAT<P(!new)> {
    /** `BinOp::Partial`'s `identity` and `operate`. */
    const m: Monoid<P>
    var tree: seq<P>
    /** The number of leaves. */
    var capacity: nat

    ghost predicate Valid()
      reads this
    {
      IsMonoid(m) && capacity > 1 && Consistent(m, tree, capacity)
    }

    function Leaves(): (l: seq<P>)
      reads this
      requires Valid()
      ensures |l| == capacity
    {
      LeavesOf(tree, capacity)
    }

    /** `with_capacity`: it panics unless `capacity > 1`; every node starts
        as the identity. */
    constructor WithCapacity(monoid: Monoid<P>, capacity: nat)
      requires IsMonoid(monoid) && capacity > 1
      ensures Valid() && m == monoid && this.capacity == capacity
      ensures Leaves() == seq(capacity, _ => monoid.identity)
    {
      m := monoid;
      tree := seq(2 * capacity - 1, _ => monoid.identity);
      this.capacity := capacity;
      new;
      forall i | 0 <= i < capacity - 1
        ensures NodeOk(monoid, tree, i)
      {
        IdentityLeft(monoid, monoid.identity);
      }
    }

    /** `new`: a tree with one leaf per value, built by `update_ordered`. */
    constructor New(monoid: Monoid<P>, values: seq<P>)
      requires IsMonoid(monoid) && |values| > 1
      ensures Valid() && m == monoid && capacity == |values| && Leaves() == values
    {
      var t := WriteOrdered(seq(2 * |values| - 1, _ => monoid.identity), |values|, values);
      t := Rebuild(monoid, t, |values|);
      m := monoid;
      capacity := |values|;
      tree := t;
    }

    /** `get`: the leaf, `None` past the last one. */
    function Get(idx: nat): (r: Option<P>)
      reads this
      requires Valid()
      ensures idx < capacity ==> r == Some(Leaves()[idx])
      ensures idx >= capacity ==> r == None
    {
      var i := Leaf(capacity, idx);
      if i < |tree| then Some(tree[i]) else None
    }

    /** `update`: every pair's value written to its leaf (an index past the
        last leaf panics), then every ancestor of a written leaf recomputed. */
    method Update(batch: seq<(nat, P)>)
      requires Valid() && forall k :: 0 <= k < |batch| ==> batch[k].0 < capacity
      modifies this
      ensures Valid() && capacity == old(capacity)
      ensures Leaves() == Written(old(Leaves()), batch)
    {
      var t, parents := WriteLeaves(m, tree, capacity, batch);
      t := Repair(m, t, capacity, parents);
      tree := t;
    }

    /** `update_ordered`: the values written to the first leaves (more values
        than leaves panic), then every internal node recomputed. */
    method UpdateOrdered(values: seq<P>)
      requires Valid() && |values| <= capacity
      modifies this
      ensures Valid() && capacity == old(capacity)
      ensures Leaves() == values + old(Leaves())[|values|..]
    {
      var t := WriteOrdered(tree, capacity, values);
      t := Rebuild(m, t, capacity);
      tree := t;
    }

    /** `aggregate`: the root.  It is the fold of the leaves when the
        capacity is a power of two. */
    function Aggregate(): (r: P)
      reads this
      requires Valid()
      ensures IsPow2(capacity) ==> r == Fold(m, Leaves())
    {
      if IsPow2(capacity) then RootIsFold(m, tree, capacity); tree[Root()] else tree[Root()]
    }

    /** `prefix`: the fold of the leaves up to and including `idx`. */
    method Prefix(idx: nat) returns (r: P)
      requires Valid() && idx < capacity
      ensures IsPow2(capacity) ==> r == Fold(m, Leaves()[..idx + 1])
    {
      r := PrefixWalk(m, tree, capacity, idx);
    }

    /** `suffix`: the fold of the leaves from `idx` on. */
    method Suffix(idx: nat) returns (r: P)
      requires Valid() && idx < capacity
      ensures IsPow2(capacity) ==> r == Fold(m, Leaves()[idx..])
    {
      r := SuffixWalk(m, tree, capacity, idx);
    }
  }
}
