// cpp/src/Reactive.hpp: the reactive aggregator.  The window lives in the
// leaves of an implicit binary tree `q` (root 1, children 2x and 2x + 1,
// leaves `cap .. 2 * cap - 1`) as a circular buffer from leaf
// `cap + frontPtr` to leaf `cap + backPtr`.  Inserts and evicts only write
// leaves and record the touched leaves in `workQ`, a short sorted list of
// ranges; `query` then recomputes the ancestors of the recorded leaves level
// by level (`propagate`).  Each internal node holds the fold, in index order,
// of the leaves below it that belong to the window.
module Reactive {
  import opened Monoid
  import opened ImplicitTree

  /** `initial_size`: the smallest capacity, and the initial one. */
  const InitialSize: nat := 2

  // ---------------------------------------------------------------------
  // The window in the leaves.

  /** A window of `size` values in the `cap` leaves, oldest at leaf
      `cap + front`, wrapping from leaf `2 * cap - 1` to leaf `cap`. */
  datatype Span = Span(cap: nat, front: nat, size: nat)

  ghost predicate SpanOk(s: Span, h: nat)
  {
    h >= 1 && s.cap == Exp2(h) && s.front < s.cap && s.size <= s.cap
  }

  /** The window position held by leaf `l`: `(l - cap - front) mod cap`. */
  function Offset(s: Span, l: int): int
  {
    if l >= s.cap + s.front then l - s.cap - s.front else l - s.front
  }

  /** Leaf `l` holds a value of the window. */
  ghost predicate InWin(s: Span, l: int)
  {
    s.front < s.cap && s.cap <= l < 2 * s.cap && 0 <= Offset(s, l) < s.size
  }

  /** `cap + frontPtr`: the leaf of the oldest value. */
  function Fi(s: Span): nat
  {
    s.cap + s.front
  }

  /** `cap + backPtr`: the leaf of the youngest value. */
  function Bi(s: Span): nat
    requires s.size > 0
  {
    if s.front + s.size <= s.cap then s.cap + s.front + s.size - 1 else s.front + s.size - 1
  }

  /** The window wraps: the youngest leaf comes before the oldest. */
  function Split(s: Span): bool
    requires s.size > 0
  {
    Bi(s) < Fi(s)
  }

  /** Window membership of a leaf in terms of the two end leaves. */
  lemma InWinIff(s: Span, h: nat, l: int)
    requires SpanOk(s, h) && s.size > 0 && s.cap <= l < 2 * s.cap
    ensures InWin(s, l) == if Split(s) then l <= Bi(s) || l >= Fi(s) else Fi(s) <= l <= Bi(s)
  {
  }

  /** The window values held by leaves `lo .. hi - 1` of `t`, in index
      order. */
  ghost function WinSeq<P>(t: seq<P>, s: Span, lo: int, hi: int): seq<P>
    decreases hi - lo
  {
    if hi <= lo then []
    else WinSeq(t, s, lo, hi - 1) + (if InWin(s, hi - 1) && 0 <= hi - 1 < |t| then [t[hi - 1]] else [])
  }

  lemma {:induction false} WinSeqSplit<P>(t: seq<P>, s: Span, lo: int, mid: int, hi: int)
    requires lo <= mid <= hi
    ensures WinSeq(t, s, lo, hi) == WinSeq(t, s, lo, mid) + WinSeq(t, s, mid, hi)
    decreases hi - mid
  {
    if mid < hi {
      WinSeqSplit(t, s, lo, mid, hi - 1);
    }
  }

  lemma {:induction false} WinSeqNone<P>(t: seq<P>, s: Span, lo: int, hi: int)
    requires forall l :: lo <= l < hi ==> !InWin(s, l)
    ensures WinSeq(t, s, lo, hi) == []
    decreases hi - lo
  {
    if lo < hi {
      WinSeqNone(t, s, lo, hi - 1);
    }
  }

  lemma {:induction false} WinSeqSome<P>(t: seq<P>, s: Span, lo: int, hi: int, l: int)
    requires lo <= l < hi && 0 <= l < |t| && InWin(s, l)
    ensures WinSeq(t, s, lo, hi) != []
    decreases hi - lo
  {
    if l < hi - 1 {
      WinSeqSome(t, s, lo, hi - 1, l);
    }
  }

  /** Two snapshots that agree on membership and on the values of the window
      leaves of a range have the same window values there. */
  lemma {:induction false} WinSeqFrame<P>(t: seq<P>, s: Span, t': seq<P>, s': Span, lo: int, hi: int)
    requires 0 <= lo && hi <= |t| == |t'|
    requires forall l :: lo <= l < hi ==> InWin(s, l) == InWin(s', l)
    requires forall l :: lo <= l < hi && InWin(s, l) ==> t[l] == t'[l]
    ensures WinSeq(t, s, lo, hi) == WinSeq(t', s', lo, hi)
    decreases hi - lo
  {
    if lo < hi {
      WinSeqFrame(t, s, t', s', lo, hi - 1);
    }
  }

  function Min(a: int, b: int): (r: int)
    ensures r <= a && r <= b && (r == a || r == b)
  {
    if a <= b then a else b
  }

  function Max(a: int, b: int): (r: int)
    ensures r >= a && r >= b && (r == a || r == b)
  {
    if a >= b then a else b
  }

  /** The leaves hold the window `w`. */
  ghost predicate Leaves<P>(t: seq<P>, s: Span, w: seq<P>)
  {
    |w| == s.size && |t| == 2 * s.cap
    && forall l :: InWin(s, l) ==> t[l] == w[Offset(s, l)]
  }

  /** A range of leaves on one side of the wrap point holds a slice of the
      window. */
  lemma {:induction false} WinSeqSegment<P>(t: seq<P>, s: Span, w: seq<P>, lo: int, hi: int, base: int)
    requires Leaves(t, s, w) && s.front < s.cap && s.cap <= lo <= hi <= 2 * s.cap && base <= lo
    requires forall l :: lo <= l < hi ==> Offset(s, l) == l - base
    ensures 0 <= Min(lo - base, s.size) <= Min(hi - base, s.size) <= |w|
    ensures WinSeq(t, s, lo, hi) == w[Min(lo - base, s.size)..Min(hi - base, s.size)]
    decreases hi - lo
  {
    if lo < hi {
      WinSeqSegment(t, s, w, lo, hi - 1, base);
      var a, b := Min(lo - base, s.size), Min(hi - 1 - base, s.size);
      if hi - 1 - base < s.size {
        assert InWin(s, hi - 1);
        assert w[a..b + 1] == w[a..b] + [w[b]];
      } else {
        assert !InWin(s, hi - 1);
      }
    }
  }

  /** The window in FIFO order: the leaves from the oldest one to the end,
      then the leaves before it. */
  ghost function Rotated<P>(t: seq<P>, s: Span): seq<P>
  {
    WinSeq(t, s, Fi(s), 2 * s.cap) + WinSeq(t, s, s.cap, Fi(s))
  }

  /** `Rotated` reads the window back out of the leaves. */
  lemma WindowRotated<P>(t: seq<P>, s: Span, w: seq<P>)
    requires Leaves(t, s, w) && s.front < s.cap && s.size <= s.cap
    ensures Rotated(t, s) == w
  {
    var k := Min(s.cap - s.front, s.size);
    assert Min(Fi(s) - Fi(s), s.size) == 0 && Min(2 * s.cap - Fi(s), s.size) == k;
    assert Min(s.cap - s.front, s.size) == k && Min(Fi(s) - s.front, s.size) == s.size;
    WinSeqSegment(t, s, w, Fi(s), 2 * s.cap, Fi(s));
    WinSeqSegment(t, s, w, s.cap, Fi(s), s.front);
    SlicesJoin(w, k);
  }

  lemma SlicesJoin<T>(w: seq<T>, k: nat)
    requires k <= |w|
    ensures w[0..k] + w[k..|w|] == w
  {
  }

  /** In FIFO order the window is the leaves from the oldest one to the end
      followed by the leaves up to the youngest one when it wraps, and the
      leaves of the whole tree otherwise. */
  lemma RotatedParts<P>(t: seq<P>, s: Span, h: nat)
    requires SpanOk(s, h) && s.size > 0
    ensures Split(s) ==> Rotated(t, s) == WinSeq(t, s, Fi(s), 2 * s.cap) + WinSeq(t, s, 0, Bi(s) + 1)
    ensures !Split(s) ==> Rotated(t, s) == WinSeq(t, s, s.cap, 2 * s.cap)
  {
    if Split(s) {
      RotatedSplit(t, s, h);
    } else {
      RotatedWhole(t, s, h);
    }
  }

  lemma RotatedSplit<P>(t: seq<P>, s: Span, h: nat)
    requires SpanOk(s, h) && s.size > 0 && Split(s)
    ensures Rotated(t, s) == WinSeq(t, s, Fi(s), 2 * s.cap) + WinSeq(t, s, 0, Bi(s) + 1)
  {
    var b := Bi(s) + 1;
    forall l | 0 <= l < s.cap
      ensures !InWin(s, l)
    {
    }
    WinSeqNone(t, s, 0, s.cap);
    forall l | b <= l < Fi(s)
      ensures !InWin(s, l)
    {
      InWinIff(s, h, l);
    }
    WinSeqNone(t, s, b, Fi(s));
    WinSeqSplit(t, s, s.cap, b, Fi(s));
    WinSeqSplit(t, s, 0, s.cap, b);
    assert WinSeq(t, s, s.cap, Fi(s)) == WinSeq(t, s, 0, b);
  }

  lemma RotatedWhole<P>(t: seq<P>, s: Span, h: nat)
    requires SpanOk(s, h) && s.size > 0 && !Split(s)
    ensures Rotated(t, s) == WinSeq(t, s, s.cap, 2 * s.cap)
  {
    forall l | s.cap <= l < Fi(s)
      ensures !InWin(s, l)
    {
      InWinIff(s, h, l);
    }
    WinSeqNone(t, s, s.cap, Fi(s));
    WinSeqSplit(t, s, s.cap, Fi(s), 2 * s.cap);
  }

  // ---------------------------------------------------------------------
  // The tree.

  /** `ok`: whether node `i` has a window leaf below it, given the ancestors
      `fi` and `bi` at the height of `i` of the oldest and youngest leaves. */
  function Ok(i: int, bi: int, fi: int, split: bool): bool
  {
    if split then i <= bi || i >= fi else i >= fi && i <= bi
  }

  /** Node `x` of height `j` holds the fold of the window values below it,
      unless none is. */
  ghost predicate NodeOk<P>(m: Monoid<P>, t: seq<P>, s: Span, v: P, j: nat, x: nat)
  {
    var w := WinSeq(t, s, x * Exp2(j), (x + 1) * Exp2(j));
    w != [] ==> v == Fold(m, w)
  }

  /** Every node of `q` above height `k` with no node of `R` (nodes of
      height `k`) below it is correct for the leaves of `t`. */
  ghost predicate Above<P>(m: Monoid<P>, t: seq<P>, s: Span, h: nat, q: seq<P>, R: seq<Range>, k: nat)
  {
    forall j: nat, x: nat :: k < j && Node(h, j, x) && x < |q| && !Touches(R, x * Exp2(j - k), (x + 1) * Exp2(j - k))
      ==> NodeOk(m, t, s, q[x], j, x)
  }

  /** Every internal node of `t` with no leaf recorded in `R` below it is
      correct. */
  ghost predicate Tree<P>(m: Monoid<P>, t: seq<P>, s: Span, h: nat, R: seq<Range>)
  {
    Above(m, t, s, h, t, R, 0)
  }

  /** Every internal node of `q` up to height `k` is correct for the leaves
      of `t`. */
  ghost predicate Below<P>(m: Monoid<P>, t: seq<P>, s: Span, h: nat, q: seq<P>, k: nat)
  {
    forall j: nat, x: nat :: 1 <= j <= k && Node(h, j, x) && x < |q| ==> NodeOk(m, t, s, q[x], j, x)
  }

  /** Whether a range of leaves holds a window value, in terms of the two
      end leaves. */
  lemma HitIff<P>(t: seq<P>, s: Span, h: nat, lo: int, hi: int)
    requires SpanOk(s, h) && s.size > 0 && |t| == 2 * s.cap && s.cap <= lo < hi <= 2 * s.cap
    ensures (WinSeq(t, s, lo, hi) != [])
            == if Split(s) then lo <= Bi(s) || Fi(s) < hi else lo <= Bi(s) && Fi(s) < hi
  {
    var hit := if Split(s) then lo <= Bi(s) || Fi(s) < hi else lo <= Bi(s) && Fi(s) < hi;
    if hit {
      var l := if Split(s) then (if lo <= Bi(s) then lo else hi - 1)
               else (if lo <= Fi(s) then Fi(s) else lo);
      InWinIff(s, h, l);
      WinSeqSome(t, s, lo, hi, l);
    } else {
      forall l | lo <= l < hi
        ensures !InWin(s, l)
      {
        InWinIff(s, h, l);
      }
      WinSeqNone(t, s, lo, hi);
    }
  }

  /** The bounds of `ok` on the ancestors at height `k` are the bounds on the
      leaves of a node of that height. */
  lemma OkArith(c: int, e: int, bi: int, fi: int, split: bool)
    requires e > 0
    ensures Ok(c, bi / e, fi / e, split)
            == if split then c * e <= bi || fi < (c + 1) * e else c * e <= bi && fi < (c + 1) * e
  {
    DivMul(c, e, bi);
    DivMul(c + 1, e, fi);
  }

  /** `ok` decides window membership of a whole subtree. */
  lemma OkIff<P>(t: seq<P>, s: Span, h: nat, k: nat, c: nat)
    requires SpanOk(s, h) && s.size > 0 && |t| == 2 * s.cap && Node(h, k, c)
    ensures Ok(c, Bi(s) / Exp2(k), Fi(s) / Exp2(k), Split(s))
            == (WinSeq(t, s, c * Exp2(k), (c + 1) * Exp2(k)) != [])
  {
    NodeLeaves(h, k, c);
    OkArith(c, Exp2(k), Bi(s), Fi(s), Split(s));
    HitIff(t, s, h, c * Exp2(k), (c + 1) * Exp2(k));
  }

  /** A leaf is correct as a node of height 0. */
  lemma LeafOk<P(!new)>(m: Monoid<P>, t: seq<P>, s: Span, l: nat)
    requires IsMonoid(m) && l < |t|
    ensures NodeOk(m, t, s, t[l], 0, l)
  {
    assert WinSeq(t, s, l, l) == [];
    if InWin(s, l) {
      FoldSingleton(m, t[l]);
    }
  }

  /** The step of `propagate` for node `p`: both children correct and their
      `ok` flags give a correct `p`. */
  lemma NodeStep<P(!new)>(m: Monoid<P>, t: seq<P>, s: Span, k: nat, p: nat, lp: nat, rp: nat,
                          a: P, b: P, okl: bool, okr: bool, v: P)
    requires IsMonoid(m) && lp == 2 * p && rp == lp + 1
    requires NodeOk(m, t, s, a, k, lp) && NodeOk(m, t, s, b, k, rp)
    requires okl == (WinSeq(t, s, lp * Exp2(k), (lp + 1) * Exp2(k)) != [])
    requires okr == (WinSeq(t, s, rp * Exp2(k), (rp + 1) * Exp2(k)) != [])
    requires v == if okl && okr then m.combine(a, b) else if okl then a else b
    ensures NodeOk(m, t, s, v, k + 1, p)
  {
    ChildRanges(k, p);
    var lo, mid, hi := lp * Exp2(k), rp * Exp2(k), (rp + 1) * Exp2(k);
    assert lo == p * Exp2(k + 1) && hi == (p + 1) * Exp2(k + 1);
    var l, r := WinSeq(t, s, lo, mid), WinSeq(t, s, mid, hi);
    WinSeqSplit(t, s, lo, mid, hi);
    FoldAppend(m, l, r);
    if !okl {
      assert l + r == r;
      IdentityLeft(m, Fold(m, r));
    } else if !okr {
      assert l + r == l;
      IdentityRight(m, Fold(m, l));
    }
  }

  // ---------------------------------------------------------------------
  // Schedules of touched leaves.

  /** `rangeT`: the closed range `first .. second`. */
  type Range = (nat, nat)

  ghost predicate Covered(R: seq<Range>, y: int)
  {
    exists i :: 0 <= i < |R| && R[i].0 <= y <= R[i].1
  }

  /** Some position in `lo .. hi - 1` is covered by `R`. */
  ghost predicate Touches(R: seq<Range>, lo: int, hi: int)
  {
    exists i :: 0 <= i < |R| && R[i].0 <= R[i].1 && R[i].0 < hi && lo <= R[i].1
  }

  lemma TouchesCovered(R: seq<Range>, lo: int, hi: int)
    requires lo < hi
    ensures Touches(R, lo, hi) <==> exists y :: lo <= y < hi && Covered(R, y)
  {
    if Touches(R, lo, hi) {
      var i :| 0 <= i < |R| && R[i].0 <= R[i].1 && R[i].0 < hi && lo <= R[i].1;
      var y := if lo <= R[i].0 then R[i].0 else lo;
      assert Covered(R, y);
    }
    if exists y :: lo <= y < hi && Covered(R, y) {
      var y :| lo <= y < hi && Covered(R, y);
      var i :| 0 <= i < |R| && R[i].0 <= y <= R[i].1;
      assert R[i].0 <= R[i].1 && R[i].0 < hi && lo <= R[i].1;
      assert Touches(R, lo, hi);
    }
  }

  /** Sorted, disjoint and never adjacent; a range may be empty
      (`second == first - 1`). */
  ghost predicate Normalized(R: seq<Range>)
  {
    (forall i :: 0 <= i < |R| ==> R[i].0 <= R[i].1 + 1)
    && (forall i, j :: 0 <= i < j < |R| ==> R[i].1 + 1 < R[j].0)
  }

  /** Every range is nonempty and made of nodes of height `k`. */
  ghost predicate InLevel(R: seq<Range>, h: nat, k: nat)
  {
    forall i :: 0 <= i < |R| ==> R[i].0 <= R[i].1 && Node(h, k, R[i].0) && Node(h, k, R[i].1)
  }

  /** `sched_append_range`: adds `s .. t` at the end, extending the last
      range when `s` is at most one past its end.  The source computes
      `s - last.second` on `size_t`; with `s` past the last range, as every
      caller has it, that difference is at most one exactly when
      `s == last.second + 1`. */
  function SchedAppendRange(s: nat, t: nat, R: seq<Range>): (R': seq<Range>)
    requires Normalized(R) && s <= t + 1 && (R == [] || R[|R| - 1].1 < s)
    ensures Normalized(R') && |R'| > 0
    ensures forall y :: Covered(R', y) <==> Covered(R, y) || s <= y <= t
    ensures |R'| - 1 <= |R| && forall i :: 0 <= i < |R'| - 1 ==> R'[i] == R[i]
    ensures R'[|R'| - 1].1 == t && (R'[|R'| - 1].0 == s || (R != [] && R'[|R'| - 1].0 == R[|R| - 1].0))
  {
    if R != [] && s <= R[|R| - 1].1 + 1 then
      var last := R[|R| - 1];
      var R' := R[..|R| - 1] + [(last.0, if t >= last.1 then t else last.1)];
      ExtendCovers(R, s, t, R');
      R'
    else
      var R' := R + [(s, t)];
      PushCovers(R, s, t, R');
      R'
  }

  lemma ExtendCovers(R: seq<Range>, s: nat, t: nat, R': seq<Range>)
    requires Normalized(R) && R != [] && s <= t + 1 && s == R[|R| - 1].1 + 1
    requires R' == R[..|R| - 1] + [(R[|R| - 1].0, if t >= R[|R| - 1].1 then t else R[|R| - 1].1)]
    ensures Normalized(R')
    ensures forall y :: Covered(R', y) <==> Covered(R, y) || s <= y <= t
  {
    var n := |R| - 1;
    forall y
      ensures Covered(R', y) <==> Covered(R, y) || s <= y <= t
    {
      if Covered(R, y) {
        var i :| 0 <= i < |R| && R[i].0 <= y <= R[i].1;
        assert R'[i].0 <= y <= R'[i].1;
      }
      if Covered(R', y) {
        var i :| 0 <= i < |R'| && R'[i].0 <= y <= R'[i].1;
        if i < n {
          assert R[i] == R'[i];
        } else if y <= R[n].1 {
          assert R[n].0 <= y <= R[n].1;
        }
      }
      if s <= y <= t {
        assert R'[n].0 <= y <= R'[n].1;
      }
    }
  }

  lemma PushCovers(R: seq<Range>, s: nat, t: nat, R': seq<Range>)
    requires Normalized(R) && s <= t + 1 && (R == [] || R[|R| - 1].1 + 1 < s)
    requires R' == R + [(s, t)]
    ensures Normalized(R')
    ensures forall y :: Covered(R', y) <==> Covered(R, y) || s <= y <= t
  {
    forall y
      ensures Covered(R', y) <==> Covered(R, y) || s <= y <= t
    {
      if Covered(R, y) {
        var i :| 0 <= i < |R| && R[i].0 <= y <= R[i].1;
        assert R'[i] == R[i];
      }
      if Covered(R', y) {
        var i :| 0 <= i < |R'| && R'[i].0 <= y <= R'[i].1;
        if i < |R| {
          assert R[i] == R'[i];
        }
      }
      if s <= y <= t {
        assert R'[|R|].0 <= y <= R'[|R|].1;
      }
    }
  }

  /** `sched_insert`: records leaf `p`, merging it into its neighbours. */
  method SchedInsert(p: nat, R: seq<Range>) returns (R': seq<Range>)
    requires Normalized(R)
    ensures Normalized(R')
    ensures forall y :: Covered(R', y) <==> Covered(R, y) || y == p
    ensures forall i :: 0 <= i < |R'| ==> R'[i] in R || R'[i].0 <= p <= R'[i].1
  {
    var i := 0;
    while i < |R|
      invariant 0 <= i <= |R|
      invariant forall j :: 0 <= j < i ==> R[j].1 + 1 < p
    {
      if p + 1 < R[i].0 {
        R' := R[..i] + [(p, p)] + R[i..];
        InsertBefore(R, i, p, R');
        return;
      } else if p + 1 == R[i].0 {
        R' := R[i := (p, R[i].1)];
        GrowFront(R, i, p, R');
        return;
      } else if p <= R[i].1 {
        R' := R;
        assert R[i].0 <= p <= R[i].1;
        return;
      } else if p == R[i].1 + 1 {
        if i + 1 < |R| && p + 1 == R[i + 1].0 {
          R' := R[..i] + [(R[i].0, R[i + 1].1)] + R[i + 2..];
          Bridge(R, i, p, R');
        } else {
          R' := R[i := (R[i].0, p)];
          GrowBack(R, i, p, R');
        }
        return;
      }
      i := i + 1;
    }
    R' := R + [(p, p)];
    PushCovers(R, p, p, R');
  }

  lemma CoveredConcat(A: seq<Range>, B: seq<Range>, y: int)
    ensures Covered(A + B, y) <==> Covered(A, y) || Covered(B, y)
  {
    if Covered(A + B, y) {
      var j :| 0 <= j < |A + B| && (A + B)[j].0 <= y <= (A + B)[j].1;
      if j < |A| {
        assert A[j] == (A + B)[j];
      } else {
        assert B[j - |A|] == (A + B)[j];
      }
    }
    if Covered(A, y) {
      var j :| 0 <= j < |A| && A[j].0 <= y <= A[j].1;
      assert (A + B)[j] == A[j];
    }
    if Covered(B, y) {
      var j :| 0 <= j < |B| && B[j].0 <= y <= B[j].1;
      assert (A + B)[|A| + j] == B[j];
    }
  }

  lemma CoveredOne(r: Range, y: int)
    ensures Covered([r], y) <==> r.0 <= y <= r.1
  {
    if r.0 <= y <= r.1 {
      assert [r][0] == r;
    }
  }

  /** Coverage of `A + [r] + B`, for every point. */
  lemma SpliceCovers(A: seq<Range>, r: Range, B: seq<Range>, S: seq<Range>)
    requires S == A + [r] + B
    ensures forall y :: Covered(S, y) <==> Covered(A, y) || r.0 <= y <= r.1 || Covered(B, y)
  {
    forall y
      ensures Covered(S, y) <==> Covered(A, y) || r.0 <= y <= r.1 || Covered(B, y)
    {
      CoveredConcat(A + [r], B, y);
      CoveredConcat(A, [r], y);
      CoveredOne(r, y);
    }
  }

  lemma ConcatCovers(A: seq<Range>, B: seq<Range>, S: seq<Range>)
    requires S == A + B
    ensures forall y :: Covered(S, y) <==> Covered(A, y) || Covered(B, y)
  {
    forall y
      ensures Covered(S, y) <==> Covered(A, y) || Covered(B, y)
    {
      CoveredConcat(A, B, y);
    }
  }

  lemma NormalizedSlice(R: seq<Range>, a: nat, b: nat)
    requires Normalized(R) && a <= b <= |R|
    ensures Normalized(R[a..b])
  {
    assert forall j :: 0 <= j < b - a ==> R[a..b][j] == R[a + j];
  }

  lemma NormalizedSplice(A: seq<Range>, r: Range, B: seq<Range>)
    requires Normalized(A) && Normalized(B) && r.0 <= r.1 + 1
    requires A != [] ==> A[|A| - 1].1 + 1 < r.0
    requires B != [] ==> r.1 + 1 < B[0].0
    ensures Normalized(A + [r] + B)
  {
    var R := A + [r] + B;
    forall a, b | 0 <= a < b < |R|
      ensures R[a].1 + 1 < R[b].0
    {
      if b < |A| {
        assert R[a] == A[a] && R[b] == A[b];
      } else if a < |A| {
        assert R[a] == A[a];
        assert A[a].1 + 1 < r.0 by {
          if a < |A| - 1 {
            assert A[a].1 + 1 < A[|A| - 1].0;
          }
        }
        if b > |A| {
          assert R[b] == B[b - |A| - 1];
          if b - |A| - 1 > 0 {
            assert B[0].1 + 1 < B[b - |A| - 1].0;
          }
        }
      } else if a == |A| {
        assert R[b] == B[b - |A| - 1];
        if b - |A| - 1 > 0 {
          assert B[0].1 + 1 < B[b - |A| - 1].0;
        }
      } else {
        assert R[a] == B[a - |A| - 1] && R[b] == B[b - |A| - 1];
      }
    }
    assert forall j :: 0 <= j < |R| ==> R[j].0 <= R[j].1 + 1 by {
      forall j | 0 <= j < |R|
        ensures R[j].0 <= R[j].1 + 1
      {
        if j < |A| {
          assert R[j] == A[j];
        } else if j > |A| {
          assert R[j] == B[j - |A| - 1];
        }
      }
    }
  }

  lemma InsertBefore(R: seq<Range>, i: nat, p: nat, R': seq<Range>)
    requires Normalized(R) && i < |R| && p + 1 < R[i].0
    requires forall j :: 0 <= j < i ==> R[j].1 + 1 < p
    requires R' == R[..i] + [(p, p)] + R[i..]
    ensures Normalized(R')
    ensures forall y :: Covered(R', y) <==> Covered(R, y) || y == p
  {
    NormalizedSlice(R, 0, i);
    NormalizedSlice(R, i, |R|);
    NormalizedSplice(R[..i], (p, p), R[i..]);
    InsertCovers(R, i, p, R');
  }

  lemma InsertCovers(R: seq<Range>, i: nat, p: nat, R': seq<Range>)
    requires i <= |R| && R' == R[..i] + [(p, p)] + R[i..]
    ensures forall y :: Covered(R', y) <==> Covered(R, y) || y == p
  {
    SpliceCovers(R[..i], (p, p), R[i..], R');
    ConcatCovers(R[..i], R[i..], R);
  }

  lemma GrowFront(R: seq<Range>, i: nat, p: nat, R': seq<Range>)
    requires Normalized(R) && i < |R| && p + 1 == R[i].0
    requires forall j :: 0 <= j < i ==> R[j].1 + 1 < p
    requires R' == R[i := (p, R[i].1)]
    ensures Normalized(R')
    ensures forall y :: Covered(R', y) <==> Covered(R, y) || y == p
  {
    NormalizedSlice(R, 0, i);
    NormalizedSlice(R, i + 1, |R|);
    NormalizedSplice(R[..i], (p, R[i].1), R[i + 1..]);
    SpliceAt(R, i, (p, R[i].1));
    SpliceCovers(R[..i], (p, R[i].1), R[i + 1..], R');
    SpliceCovers(R[..i], R[i], R[i + 1..], R);
  }

  /** Replacing one range splices it in between the two slices around it. */
  lemma SpliceAt(R: seq<Range>, i: nat, r: Range)
    requires i < |R|
    ensures R[i := r] == R[..i] + [r] + R[i + 1..]
    ensures R == R[..i] + [R[i]] + R[i + 1..]
  {
  }

  lemma GrowBack(R: seq<Range>, i: nat, p: nat, R': seq<Range>)
    requires Normalized(R) && i < |R| && p == R[i].1 + 1
    requires i + 1 < |R| ==> p + 1 != R[i + 1].0
    requires R' == R[i := (R[i].0, p)]
    ensures Normalized(R')
    ensures forall y :: Covered(R', y) <==> Covered(R, y) || y == p
  {
    NormalizedSlice(R, 0, i);
    NormalizedSlice(R, i + 1, |R|);
    if i > 0 {
      assert R[i - 1].1 + 1 < R[i].0;
    }
    NormalizedSplice(R[..i], (R[i].0, p), R[i + 1..]);
    SpliceAt(R, i, (R[i].0, p));
    SpliceCovers(R[..i], (R[i].0, p), R[i + 1..], R');
    SpliceCovers(R[..i], R[i], R[i + 1..], R);
  }

  lemma Bridge(R: seq<Range>, i: nat, p: nat, R': seq<Range>)
    requires Normalized(R) && i + 1 < |R| && p == R[i].1 + 1 && p + 1 == R[i + 1].0
    requires R' == R[..i] + [(R[i].0, R[i + 1].1)] + R[i + 2..]
    ensures Normalized(R')
    ensures forall y :: Covered(R', y) <==> Covered(R, y) || y == p
  {
    BridgeNormalized(R, i, R');
    BridgeCovers(R, i, p, R');
  }

  lemma BridgeNormalized(R: seq<Range>, i: nat, R': seq<Range>)
    requires Normalized(R) && i + 1 < |R|
    requires R' == R[..i] + [(R[i].0, R[i + 1].1)] + R[i + 2..]
    ensures Normalized(R')
  {
    NormalizedSlice(R, 0, i);
    NormalizedSlice(R, i + 2, |R|);
    if i > 0 {
      assert R[i - 1].1 + 1 < R[i].0;
    }
    if i + 2 < |R| {
      assert R[i + 2..][0] == R[i + 2];
    }
    NormalizedSplice(R[..i], (R[i].0, R[i + 1].1), R[i + 2..]);
  }

  lemma BridgeCovers(R: seq<Range>, i: nat, p: nat, R': seq<Range>)
    requires Normalized(R) && i + 1 < |R| && p == R[i].1 + 1 && p + 1 == R[i + 1].0
    requires R' == R[..i] + [(R[i].0, R[i + 1].1)] + R[i + 2..]
    ensures forall y :: Covered(R', y) <==> Covered(R, y) || y == p
  {
    assert R[i].0 <= R[i].1 + 1 && R[i + 1].0 <= R[i + 1].1 + 1;
    SpliceCovers(R[..i], (R[i].0, R[i + 1].1), R[i + 2..], R');
    SpliceAt(R, i, R[i]);
    SpliceCovers(R[..i], R[i], R[i + 1..], R);
    assert R[i + 1..] == [] + [R[i + 1]] + R[i + 2..];
    SpliceCovers([], R[i + 1], R[i + 2..], R[i + 1..]);
  }

  /** Appending a range of nodes of height `k` keeps every range made of
      such nodes. */
  lemma InLevelAppend(R: seq<Range>, s: nat, t: nat, h: nat, k: nat)
    requires Normalized(R) && (R == [] || R[|R| - 1].1 < s)
    requires InLevel(R, h, k) && s <= t && Node(h, k, s) && Node(h, k, t)
    ensures InLevel(SchedAppendRange(s, t, R), h, k)
  {
    var R' := SchedAppendRange(s, t, R);
    var n := |R'| - 1;
    forall i | 0 <= i < |R'|
      ensures R'[i].0 <= R'[i].1 && Node(h, k, R'[i].0) && Node(h, k, R'[i].1)
    {
      if i < n {
        assert R'[i] == R[i];
      } else if R'[n].0 != s {
        assert R'[n].0 == R[|R| - 1].0;
      }
    }
  }

  // ---------------------------------------------------------------------
  // `propagate`.

  /** The leaves of `q` are those of `t`. */
  ghost predicate LeavesKept<P>(t: seq<P>, s: Span, q: seq<P>)
  {
    |q| == |t| == 2 * s.cap && forall l :: s.cap <= l < 2 * s.cap ==> q[l] == t[l]
  }

  /** A node of height `k` is correct when the leaves are kept and the
      internal nodes up to height `k` are. */
  lemma ChildOk<P(!new)>(m: Monoid<P>, t: seq<P>, s: Span, h: nat, q: seq<P>, k: nat, j: nat, c: nat)
    requires IsMonoid(m) && SpanOk(s, h) && LeavesKept(t, s, q) && k <= j && Below(m, t, s, h, q, j) && Node(h, k, c)
    ensures c < |q| && NodeOk(m, t, s, q[c], k, c)
  {
    Exp2Mono(h - k, h);
    if k == 0 {
      LeafOk(m, t, s, c);
    }
  }

  /** The first node of height `k + 1` not yet recomputed after the ranges
      before `R[i]`. */
  ghost function Cursor(R: seq<Range>, i: nat): nat
    requires i <= |R|
  {
    if i == 0 then 0 else R[i - 1].1 / 2 + 1
  }

  /** Neither child of `x` lies in a range of `R`, when `x` is at or past the
      cursor and below the parent of the start of `R[i]`. */
  lemma Untouched(R: seq<Range>, i: nat, x: int)
    requires Normalized(R) && i <= |R| && Cursor(R, i) <= x && (i < |R| ==> 2 * x + 2 <= R[i].0)
    ensures !Touches(R, 2 * x, 2 * x + 2)
  {
    forall i' | 0 <= i' < |R|
      ensures R[i'].1 < 2 * x || 2 * x + 2 <= R[i'].0
    {
      if i' < i - 1 {
        assert R[i'].1 + 1 < R[i - 1].0;
      } else if i < i' {
        assert R[i].1 + 1 < R[i'].0;
      }
    }
  }

  /** A node whose descendants of height `k` meet `now` has descendants of
      height `k + 1` meeting `next`, when `next` covers the parents of
      `now`. */
  lemma TouchesHalf(now: seq<Range>, next: seq<Range>, x: int, e: int)
    requires e >= 1
    requires forall i, y :: 0 <= i < |now| && now[i].0 / 2 <= y <= now[i].1 / 2 ==> Covered(next, y)
    ensures Touches(now, x * (2 * e), (x + 1) * (2 * e)) ==> Touches(next, x * e, (x + 1) * e)
  {
    var lo, hi := x * (2 * e), (x + 1) * (2 * e);
    if Touches(now, lo, hi) {
      var i :| 0 <= i < |now| && now[i].0 <= now[i].1 && now[i].0 < hi && lo <= now[i].1;
      var y := if lo <= now[i].0 then now[i].0 else lo;
      HalfBounds(x, e, y);
      assert Covered(next, y / 2);
      MulTwice(x, e);
      TouchesCovered(next, x * e, (x + 1) * e);
    }
  }

  /** One level of `propagate` moves the frontier of `Above` up by one. */
  lemma AboveStep<P>(m: Monoid<P>, t: seq<P>, s: Span, h: nat, q0: seq<P>, q: seq<P>,
                     now: seq<Range>, next: seq<Range>, k: nat)
    requires Above(m, t, s, h, q0, now, k) && |q| == |q0|
    requires forall x :: 0 <= x < |q| && !Node(h, k + 1, x) ==> q[x] == q0[x]
    requires forall i, y :: 0 <= i < |now| && now[i].0 / 2 <= y <= now[i].1 / 2 ==> Covered(next, y)
    ensures Above(m, t, s, h, q, next, k + 1)
  {
    forall j: nat, x: nat | k + 1 < j && Node(h, j, x) && x < |q|
                            && !Touches(next, x * Exp2(j - (k + 1)), (x + 1) * Exp2(j - (k + 1)))
      ensures NodeOk(m, t, s, q[x], j, x)
    {
      HeightUnique(h, j, k + 1, x);
      var e := Exp2(j - (k + 1));
      assert Exp2(j - k) == 2 * e;
      TouchesHalf(now, next, x, e);
    }
  }

  /** The value `propagate` stores at a parent: the combination of the
      children that hold window values, the right child when none does. */
  function Recompute<P>(m: Monoid<P>, lv: P, rv: P, okL: bool, okR: bool): P
  {
    if okL && okR then m.combine(lv, rv) else if okL then lv else rv
  }

  /** Recomputing node `p` of height `k + 1` from correct children makes it
      correct. */
  lemma ParentOk<P(!new)>(m: Monoid<P>, t: seq<P>, s: Span, h: nat, k: nat, q: seq<P>,
                          p: nat, pe: nat, fi: nat, bi: nat, split: bool)
    requires IsMonoid(m) && SpanOk(s, h) && s.size > 0 && k < h
    requires fi == Fi(s) / Exp2(k) && bi == Bi(s) / Exp2(k) && split == Split(s)
    requires LeavesKept(t, s, q) && Below(m, t, s, h, q, k)
    requires Node(h, k + 1, p) && Node(h, k + 1, pe)
    ensures pe < 2 * p && 2 * p + 1 < |q| && !Node(h, k + 1, 2 * p) && !Node(h, k + 1, 2 * p + 1)
    ensures NodeOk(m, t, s, Recompute(m, q[2 * p], q[2 * p + 1], Ok(2 * p, bi, fi, split), Ok(2 * p + 1, bi, fi, split)), k + 1, p)
  {
    assert Exp2(h - k) == 2 * Exp2(h - (k + 1));
    var lp, rp := 2 * p, 2 * p + 1;
    Children(h, k, p);
    HeightUnique(h, k, k + 1, lp);
    HeightUnique(h, k, k + 1, rp);
    ChildOk(m, t, s, h, q, k, k, lp);
    ChildOk(m, t, s, h, q, k, k, rp);
    OkIff(t, s, h, k, lp);
    OkIff(t, s, h, k, rp);
    var okL, okR := Ok(lp, bi, fi, split), Ok(rp, bi, fi, split);
    NodeStep(m, t, s, k, p, lp, rp, q[lp], q[rp], okL, okR, Recompute(m, q[lp], q[rp], okL, okR));
  }

  /** The loop over `p` in `propagate` for one range: recomputes the nodes
      `pb .. pe` of height `k + 1` from their children. */
  method UpdateRange<P(!new)>(m: Monoid<P>, q: array<P>, ghost t: seq<P>, ghost q0: seq<P>, s: Span,
                              ghost h: nat, ghost k: nat, pb: nat, pe: nat, fi: nat, bi: nat, split: bool)
    requires IsMonoid(m) && SpanOk(s, h) && s.size > 0 && k < h
    requires fi == Fi(s) / Exp2(k) && bi == Bi(s) / Exp2(k) && split == Split(s)
    requires LeavesKept(t, s, q0) && Below(m, t, s, h, q0, k) && q.Length == |q0|
    requires forall x :: 0 <= x < q.Length && !Node(h, k + 1, x) ==> q[x] == q0[x]
    requires pb <= pe && Node(h, k + 1, pb) && Node(h, k + 1, pe)
    modifies q
    ensures pe < q.Length && forall x: nat :: pb <= x <= pe ==> NodeOk(m, t, s, q[..][x], k + 1, x)
    ensures forall x :: 0 <= x < q.Length && !(pb <= x <= pe) ==> q[..][x] == old(q[..])[x]
  {
    ghost var q1 := q[..];
    Exp2Mono(h - (k + 1), h);
    var p := pb;
    while p <= pe
      invariant pb <= p <= pe + 1 && pe < q.Length
      invariant forall x: nat :: pb <= x < p ==> NodeOk(m, t, s, q[x], k + 1, x)
      invariant forall x :: 0 <= x < q.Length && !(pb <= x < p) ==> q[x] == q1[x]
    {
      ParentOk(m, t, s, h, k, q0, p, pe, fi, bi, split);
      var lp, rp := 2 * p, 2 * p + 1;
      assert q[lp] == q0[lp] && q[rp] == q0[rp];
      q[p] := Recompute(m, q[lp], q[rp], Ok(lp, bi, fi, split), Ok(rp, bi, fi, split));
      p := p + 1;
    }
  }

  /** The schedule of the next level covers the parents of the ranges of
      `now` processed so far. */
  lemma CoverStep(now: seq<Range>, i: nat, next: seq<Range>, next': seq<Range>)
    requires i < |now|
    requires forall i', y :: 0 <= i' < i && now[i'].0 / 2 <= y <= now[i'].1 / 2 ==> Covered(next, y)
    requires forall y :: Covered(next', y) <==> Covered(next, y) || now[i].0 / 2 <= y <= now[i].1 / 2
    ensures forall i', y :: 0 <= i' < i + 1 && now[i'].0 / 2 <= y <= now[i'].1 / 2 ==> Covered(next', y)
  {
  }

  /** After a level, every node up to height `k + 1` is correct. */
  lemma BelowStep<P>(m: Monoid<P>, t: seq<P>, s: Span, h: nat, q0: seq<P>, q: seq<P>, k: nat)
    requires Below(m, t, s, h, q0, k) && |q| == |q0|
    requires forall x :: 0 <= x < |q| && !Node(h, k + 1, x) ==> q[x] == q0[x]
    requires forall x: nat :: Node(h, k + 1, x) && x < |q| ==> NodeOk(m, t, s, q[x], k + 1, x)
    ensures Below(m, t, s, h, q, k + 1)
  {
    forall j: nat, x: nat | 1 <= j <= k + 1 && Node(h, j, x) && x < |q|
      ensures NodeOk(m, t, s, q[x], j, x)
    {
      HeightUnique(h, j, k + 1, x);
    }
  }

  /** Writing nodes of height `k + 1` keeps the leaves. */
  lemma LeavesStep<P>(t: seq<P>, s: Span, h: nat, q0: seq<P>, q: seq<P>, k: nat)
    requires SpanOk(s, h) && LeavesKept(t, s, q0) && |q| == |q0|
    requires forall x :: 0 <= x < |q| && !Node(h, k + 1, x) ==> q[x] == q0[x]
    ensures LeavesKept(t, s, q)
  {
    forall l | s.cap <= l < 2 * s.cap
      ensures q[l] == t[l]
    {
      HeightUnique(h, 0, k + 1, l);
    }
  }

  /** The state of the loop over the ranges of `now` in one pass of
      `propagate`, after the first `i` ranges: `next` holds their parents, all
      parents before the cursor are recomputed, and nothing else has
      changed since `q0`. */
  ghost predicate LevelInv<P>(m: Monoid<P>, t: seq<P>, s: Span, h: nat, k: nat, q0: seq<P>, q: seq<P>,
                              now: seq<Range>, i: nat, next: seq<Range>)
  {
    i <= |now| && |q| == |q0| && (i > 0 ==> k < h)
    && Normalized(next) && InLevel(next, h, k + 1) && (next == [] <==> i == 0)
    && (next != [] ==> next[|next| - 1].1 < Cursor(now, i))
    && (forall i', y :: 0 <= i' < i && now[i'].0 / 2 <= y <= now[i'].1 / 2 ==> Covered(next, y))
    && (forall x: nat :: Node(h, k + 1, x) && x < Cursor(now, i) && x < |q| ==> NodeOk(m, t, s, q[x], k + 1, x))
    && (forall x :: 0 <= x < |q| && !(Node(h, k + 1, x) && x < Cursor(now, i)) ==> q[x] == q0[x])
  }

  /** Scheduling the parents of range `i` of `now` extends the schedule of
      the next level. */
  lemma AppendStep(now: seq<Range>, i: nat, next: seq<Range>, h: nat, k: nat)
    requires Normalized(now) && InLevel(now, h, k) && k < h && i < |now|
    requires Normalized(next) && InLevel(next, h, k + 1)
    requires next != [] ==> next[|next| - 1].1 < Cursor(now, i)
    requires forall i', y :: 0 <= i' < i && now[i'].0 / 2 <= y <= now[i'].1 / 2 ==> Covered(next, y)
    ensures now[i].0 / 2 <= now[i].1 / 2
    ensures var next' := SchedAppendRange(now[i].0 / 2, now[i].1 / 2, next);
            Normalized(next') && InLevel(next', h, k + 1) && next' != [] && next'[|next'| - 1].1 == now[i].1 / 2
            && forall i', y :: 0 <= i' < i + 1 && now[i'].0 / 2 <= y <= now[i'].1 / 2 ==> Covered(next', y)
  {
    var pb, pe := now[i].0 / 2, now[i].1 / 2;
    assert i > 0 ==> now[i - 1].1 + 1 < now[i].0;
    assert Cursor(now, i) <= pb;
    ParentNode(h, k, now[i].0);
    ParentNode(h, k, now[i].1);
    InLevelAppend(next, pb, pe, h, k + 1);
    CoverStep(now, i, next, SchedAppendRange(pb, pe, next));
  }

  /** Processing range `i` of `now` moves the loop state to `i + 1`. */
  lemma LevelStep<P>(m: Monoid<P>, t: seq<P>, s: Span, h: nat, k: nat, q0: seq<P>, q1: seq<P>, q: seq<P>,
                     now: seq<Range>, i: nat, next: seq<Range>, next': seq<Range>, pb: nat, pe: nat)
    requires Normalized(now) && i < |now| && k < h && pb == now[i].0 / 2 && pe == now[i].1 / 2
    requires LevelInv(m, t, s, h, k, q0, q1, now, i, next)
    requires forall x: nat :: Node(h, k + 1, x) && Cursor(now, i) <= x < pb && x < |q1|
               ==> NodeOk(m, t, s, q1[x], k + 1, x)
    requires |q| == |q1| && pe < |q|
    requires forall x: nat :: pb <= x <= pe ==> NodeOk(m, t, s, q[x], k + 1, x)
    requires forall x :: 0 <= x < |q| && !(pb <= x <= pe) ==> q[x] == q1[x]
    requires Node(h, k + 1, pb) && Node(h, k + 1, pe)
    requires Normalized(next') && InLevel(next', h, k + 1) && next' != [] && next'[|next'| - 1].1 == pe
    requires forall i', y :: 0 <= i' < i + 1 && now[i'].0 / 2 <= y <= now[i'].1 / 2 ==> Covered(next', y)
    ensures LevelInv(m, t, s, h, k, q0, q, now, i + 1, next')
  {
    assert Cursor(now, i + 1) == pe + 1;
    assert i > 0 ==> now[i - 1].1 + 1 < now[i].0;
    assert Cursor(now, i) <= pb;
    forall x: nat | Node(h, k + 1, x) && x < pe + 1 && x < |q|
      ensures NodeOk(m, t, s, q[x], k + 1, x)
    {
      if x < pb {
        assert q[x] == q1[x];
      }
    }
    forall x | 0 <= x < |q| && !(Node(h, k + 1, x) && x < pe + 1)
      ensures q[x] == q0[x]
    {
      assert q[x] == q1[x];
    }
  }

  /** Before range `i` is processed, its parents are nodes one level up, and
      the nodes of that level between the cursor and them have no recorded
      child, so they are correct already. */
  lemma GapOk<P(!new)>(m: Monoid<P>, t: seq<P>, q0: seq<P>, s: Span, h: nat, k: nat, q: seq<P>,
                       now: seq<Range>, i: nat, next: seq<Range>)
    requires IsMonoid(m) && SpanOk(s, h) && s.size > 0 && k <= h
    requires LeavesKept(t, s, q0) && Below(m, t, s, h, q0, k) && Above(m, t, s, h, q0, now, k)
    requires Normalized(now) && InLevel(now, h, k) && i < |now| && now[i].0 / 2 >= 1
    requires LevelInv(m, t, s, h, k, q0, q, now, i, next)
    ensures k < h && now[i].0 / 2 <= now[i].1 / 2 && Node(h, k + 1, now[i].0 / 2) && Node(h, k + 1, now[i].1 / 2)
    ensures forall x: nat :: Node(h, k + 1, x) && Cursor(now, i) <= x < now[i].0 / 2 && x < |q|
              ==> NodeOk(m, t, s, q[x], k + 1, x)
  {
    NodeRoot(h, k, now[i].0);
    ParentNode(h, k, now[i].0);
    ParentNode(h, k, now[i].1);
    assert Exp2(1) == 2;
    forall x: nat | Node(h, k + 1, x) && Cursor(now, i) <= x < now[i].0 / 2 && x < |q|
      ensures NodeOk(m, t, s, q[x], k + 1, x)
    {
      Untouched(now, i, x);
    }
  }

  /** The body of the loop over the ranges of `now`, for a range below the
      root: recomputes its parents and schedules them. */
  method ProcessRange<P(!new)>(m: Monoid<P>, q: array<P>, ghost t: seq<P>, ghost q0: seq<P>, s: Span,
                               ghost h: nat, ghost k: nat, now: seq<Range>, i: nat, next: seq<Range>,
                               fi: nat, bi: nat, split: bool) returns (next': seq<Range>)
    requires IsMonoid(m) && SpanOk(s, h) && s.size > 0 && k <= h
    requires fi == Fi(s) / Exp2(k) && bi == Bi(s) / Exp2(k) && split == Split(s)
    requires LeavesKept(t, s, q0) && Below(m, t, s, h, q0, k) && Above(m, t, s, h, q0, now, k)
    requires Normalized(now) && InLevel(now, h, k) && i < |now| && now[i].0 / 2 >= 1
    requires LevelInv(m, t, s, h, k, q0, q[..], now, i, next)
    modifies q
    ensures LevelInv(m, t, s, h, k, q0, q[..], now, i + 1, next')
  {
    var pb, pe := now[i].0 / 2, now[i].1 / 2;
    GapOk(m, t, q0, s, h, k, q[..], now, i, next);
    ghost var q1 := q[..];
    UpdateRange(m, q, t, q0, s, h, k, pb, pe, fi, bi, split);
    AppendStep(now, i, next, h, k);
    next' := next;
    if pe >= pb {
      next' := SchedAppendRange(pb, pe, next);
    }
    LevelStep(m, t, s, h, k, q0, q1, q[..], now, i, next, next', pb, pe);
  }

  /** One pass of the outer loop of `propagate`: recomputes the parents of
      the nodes of height `k` in `now` and returns them as the schedule of
      the next level.  At the root (`pb < 1`) it stops. */
  method PropagateLevel<P(!new)>(m: Monoid<P>, q: array<P>, ghost t: seq<P>, s: Span, ghost h: nat, ghost k: nat,
                                 now: seq<Range>, fi: nat, bi: nat, split: bool) returns (next: seq<Range>)
    requires IsMonoid(m) && SpanOk(s, h) && s.size > 0 && k <= h
    requires fi == Fi(s) / Exp2(k) && bi == Bi(s) / Exp2(k) && split == Split(s)
    requires LeavesKept(t, s, q[..]) && Below(m, t, s, h, q[..], k) && Above(m, t, s, h, q[..], now, k)
    requires Normalized(now) && InLevel(now, h, k) && now != []
    modifies q
    ensures LeavesKept(t, s, q[..]) && Below(m, t, s, h, q[..], k + 1) && Above(m, t, s, h, q[..], next, k + 1)
    ensures Normalized(next) && InLevel(next, h, k + 1)
    ensures if k < h then next != [] else next == []
  {
    ghost var q0 := q[..];
    var i;
    i, next := LevelLoop(m, q, t, q0, s, h, k, now, fi, bi, split);
    LevelDone(m, t, s, h, k, q0, q[..], now, i, next);
  }

  /** The loop over the ranges of `now`, which stops at the root. */
  method LevelLoop<P(!new)>(m: Monoid<P>, q: array<P>, ghost t: seq<P>, ghost q0: seq<P>, s: Span,
                            ghost h: nat, ghost k: nat, now: seq<Range>, fi: nat, bi: nat, split: bool)
    returns (i: nat, next: seq<Range>)
    requires IsMonoid(m) && SpanOk(s, h) && s.size > 0 && k <= h
    requires fi == Fi(s) / Exp2(k) && bi == Bi(s) / Exp2(k) && split == Split(s)
    requires LeavesKept(t, s, q0) && Below(m, t, s, h, q0, k) && Above(m, t, s, h, q0, now, k)
    requires Normalized(now) && InLevel(now, h, k) && q0 == q[..]
    modifies q
    ensures LevelInv(m, t, s, h, k, q0, q[..], now, i, next) && (i == |now| || (k == h && i == 0))
  {
    next := [];
    i := 0;
    LevelStart(m, t, s, h, k, q0, now);
    while i < |now| && now[i].0 / 2 >= 1
      invariant LevelInv(m, t, s, h, k, q0, q[..], now, i, next)
    {
      next := ProcessRange(m, q, t, q0, s, h, k, now, i, next, fi, bi, split);
      i := i + 1;
    }
    if i < |now| {
      NodeRoot(h, k, now[i].0);
    }
  }

  /** Before the first range nothing is recomputed or scheduled. */
  lemma LevelStart<P>(m: Monoid<P>, t: seq<P>, s: Span, h: nat, k: nat, q0: seq<P>, now: seq<Range>)
    requires k <= h && Normalized(now)
    ensures LevelInv(m, t, s, h, k, q0, q0, now, 0, [])
  {
    assert Exp2(1) == 2;
  }

  /** The loop over the ranges of `now` ends with the whole level done: at
      the end of `now`, or at the root, where nothing is left to do. */
  lemma LevelDone<P>(m: Monoid<P>, t: seq<P>, s: Span, h: nat, k: nat, q0: seq<P>, q: seq<P>,
                     now: seq<Range>, i: nat, next: seq<Range>)
    requires SpanOk(s, h) && k <= h && Normalized(now)
    requires LeavesKept(t, s, q0) && Below(m, t, s, h, q0, k) && Above(m, t, s, h, q0, now, k)
    requires LevelInv(m, t, s, h, k, q0, q, now, i, next)
    requires i == |now| || (k == h && i == 0)
    ensures LeavesKept(t, s, q) && Below(m, t, s, h, q, k + 1) && Above(m, t, s, h, q, next, k + 1)
  {
    assert Exp2(1) == 2;
    if i == |now| {
      forall x: nat | Node(h, k + 1, x) && Cursor(now, i) <= x && x < |q|
        ensures NodeOk(m, t, s, q[x], k + 1, x)
      {
        Untouched(now, i, x);
      }
      AboveStep(m, t, s, h, q0, q, now, next, k);
    } else {
      assert q == q0;
    }
    LeavesStep(t, s, h, q0, q, k);
    BelowStep(m, t, s, h, q0, q, k);
  }

  /** The leaves below the parent of nodes `2a` and `2a + 1` end where
      those below `2a + 1` do. */
  lemma Up(a: nat, k: nat)
    ensures (a + 1) * Exp2(k + 1) == (2 * a + 2) * Exp2(k)
  {
    ChildRanges(k, a);
    MulTwice(2 * a + 1, Exp2(k));
  }

  /** An even ancestor of the oldest leaf has a right sibling, whose leaves
      follow the oldest one. */
  lemma SufNode(s: Span, h: nat, k: nat, fi: nat)
    requires SpanOk(s, h) && k <= h && fi == Fi(s) / Exp2(k) && fi % 2 == 0
    ensures Node(h, k, fi + 1) && Fi(s) < (fi + 1) * Exp2(k)
  {
    LeafAncestor(h, k, Fi(s));
    NodeRoot(h, k, fi);
    var E, a := Exp2(h - k), fi / 2;
    assert fi == 2 * a && k < h;
    var F := Exp2(h - k - 1);
    assert E == 2 * F;
    assert a < 2 * F;
    DivMul(fi + 1, Exp2(k), Fi(s));
  }

  /** At an even ancestor `fi` of the oldest leaf, its right sibling holds
      the window values that follow the subtree of `fi`. */
  lemma SufStep<P(!new)>(m: Monoid<P>, t: seq<P>, s: Span, h: nat, k: nat, fi: nat, v: P)
    requires IsMonoid(m) && SpanOk(s, h) && s.size > 0 && Split(s) && |t| == 2 * s.cap && k <= h
    requires fi == Fi(s) / Exp2(k) && fi % 2 == 0
    ensures Node(h, k, fi + 1)
    ensures NodeOk(m, t, s, v, k, fi + 1) ==>
              m.combine(Fold(m, WinSeq(t, s, Fi(s), (fi + 1) * Exp2(k))), v)
              == Fold(m, WinSeq(t, s, Fi(s), (fi / 2 + 1) * Exp2(k + 1)))
  {
    SufNode(s, h, k, fi);
    var e := Exp2(k);
    var lo, hi := (fi + 1) * e, (fi + 1 + 1) * e;
    Up(fi / 2, k);
    assert 2 * (fi / 2) + 2 == fi + 1 + 1;
    assert hi == (fi / 2 + 1) * Exp2(k + 1);
    NodeLeaves(h, k, fi + 1);
    if NodeOk(m, t, s, v, k, fi + 1) {
      SufJoin(m, t, s, h, lo, hi, v);
    }
  }

  /** The suffix up to `lo` and a nonempty block `lo .. hi - 1` after it. */
  lemma SufJoin<P(!new)>(m: Monoid<P>, t: seq<P>, s: Span, h: nat, lo: int, hi: int, v: P)
    requires IsMonoid(m) && SpanOk(s, h) && s.size > 0 && Split(s) && |t| == 2 * s.cap
    requires Fi(s) < lo < hi <= 2 * s.cap
    requires WinSeq(t, s, lo, hi) != [] ==> v == Fold(m, WinSeq(t, s, lo, hi))
    ensures m.combine(Fold(m, WinSeq(t, s, Fi(s), lo)), v) == Fold(m, WinSeq(t, s, Fi(s), hi))
  {
    var A, B := WinSeq(t, s, Fi(s), lo), WinSeq(t, s, lo, hi);
    HitIff(t, s, h, lo, hi);
    assert B != [] && v == Fold(m, B);
    WinSeqSplit(t, s, Fi(s), lo, hi);
    FoldAppend(m, A, B);
  }

  lemma SufKeep(k: nat, fi: nat)
    requires fi % 2 == 1
    ensures (fi / 2 + 1) * Exp2(k + 1) == (fi + 1) * Exp2(k)
  {
    Up(fi / 2, k);
    assert 2 * (fi / 2) + 2 == fi + 1;
  }

  /** The left sibling of an odd ancestor `bi > 1` of the youngest leaf. */
  lemma PreNode(s: Span, h: nat, k: nat, bi: nat)
    requires SpanOk(s, h) && s.size > 0 && k <= h && bi == Bi(s) / Exp2(k) && bi % 2 == 1 && bi > 1
    ensures Node(h, k, bi - 1)
  {
    LeafAncestor(h, k, Bi(s));
    NodeRoot(h, k, bi);
  }

  /** At an odd ancestor `bi > 1` of the youngest leaf, its left sibling
      holds the window values that precede the subtree of `bi`. */
  lemma PreStep<P(!new)>(m: Monoid<P>, t: seq<P>, s: Span, h: nat, k: nat, bi: nat, v: P)
    requires IsMonoid(m) && SpanOk(s, h) && s.size > 0 && Split(s) && |t| == 2 * s.cap && k <= h
    requires bi == Bi(s) / Exp2(k) && bi % 2 == 1 && bi > 1
    ensures Node(h, k, bi - 1)
    ensures NodeOk(m, t, s, v, k, bi - 1) ==>
              m.combine(v, Fold(m, WinSeq(t, s, bi * Exp2(k), Bi(s) + 1)))
              == Fold(m, WinSeq(t, s, (bi / 2) * Exp2(k + 1), Bi(s) + 1))
  {
    PreNode(s, h, k, bi);
    var e, a := Exp2(k), bi / 2;
    var lo, mid := (bi - 1) * e, (bi - 1 + 1) * e;
    ChildRanges(k, a);
    assert 2 * a == bi - 1 && bi - 1 + 1 == bi;
    assert lo == (bi / 2) * Exp2(k + 1) && mid == bi * e;
    DivMul(bi, e, Bi(s));
    NodeLeaves(h, k, bi - 1);
    if NodeOk(m, t, s, v, k, bi - 1) {
      PreJoin(m, t, s, h, lo, mid, v);
    }
  }

  /** A nonempty block `lo .. mid - 1` before the prefix from `mid`. */
  lemma PreJoin<P(!new)>(m: Monoid<P>, t: seq<P>, s: Span, h: nat, lo: int, mid: int, v: P)
    requires IsMonoid(m) && SpanOk(s, h) && s.size > 0 && Split(s) && |t| == 2 * s.cap
    requires s.cap <= lo < mid <= Bi(s)
    requires WinSeq(t, s, lo, mid) != [] ==> v == Fold(m, WinSeq(t, s, lo, mid))
    ensures m.combine(v, Fold(m, WinSeq(t, s, mid, Bi(s) + 1))) == Fold(m, WinSeq(t, s, lo, Bi(s) + 1))
  {
    InWinIff(s, h, lo);
    WinSeqSome(t, s, lo, mid, lo);
    JoinLeft(m, t, s, lo, mid, Bi(s) + 1, v);
  }

  /** Folding a nonempty block in front of the leaves after it. */
  lemma JoinLeft<P(!new)>(m: Monoid<P>, t: seq<P>, s: Span, lo: int, mid: int, hi: int, v: P)
    requires IsMonoid(m) && lo <= mid <= hi && v == Fold(m, WinSeq(t, s, lo, mid))
    ensures m.combine(v, Fold(m, WinSeq(t, s, mid, hi))) == Fold(m, WinSeq(t, s, lo, hi))
  {
    WinSeqSplit(t, s, lo, mid, hi);
    FoldAppend(m, WinSeq(t, s, lo, mid), WinSeq(t, s, mid, hi));
  }

  /** At an even ancestor `bi`, or at the root, the prefix already starts at
      the beginning of the parent's subtree. */
  lemma PreKeep<P>(t: seq<P>, s: Span, h: nat, k: nat, bi: nat)
    requires SpanOk(s, h) && s.size > 0 && k <= h && bi == Bi(s) / Exp2(k) && (bi % 2 == 0 || bi == 1)
    ensures WinSeq(t, s, (bi / 2) * Exp2(k + 1), Bi(s) + 1) == WinSeq(t, s, bi * Exp2(k), Bi(s) + 1)
  {
    LeafAncestor(h, k, Bi(s));
    var lo, lo' := (bi / 2) * Exp2(k + 1), bi * Exp2(k);
    if bi % 2 == 0 {
      ChildRanges(k, bi / 2);
      assert 2 * (bi / 2) == bi;
      assert lo == lo';
    } else {
      NodeRoot(h, k, bi);
      assert lo == 0 && lo' == s.cap;
      PreRoot(t, s);
    }
  }

  /** No leaf lies before leaf `cap`. */
  lemma PreRoot<P>(t: seq<P>, s: Span)
    requires s.front < s.cap && 0 < s.size <= s.cap
    ensures WinSeq(t, s, 0, Bi(s) + 1) == WinSeq(t, s, s.cap, Bi(s) + 1)
  {
    WinSeqNone(t, s, 0, s.cap);
    WinSeqSplit(t, s, 0, s.cap, Bi(s) + 1);
  }

  /** The first and last leaves start the suffix and the prefix. */
  lemma EndsInit<P(!new)>(m: Monoid<P>, t: seq<P>, s: Span, h: nat)
    requires IsMonoid(m) && SpanOk(s, h) && s.size > 0 && |t| == 2 * s.cap
    ensures Fold(m, WinSeq(t, s, Fi(s), (Fi(s) + 1) * Exp2(0))) == t[Fi(s)]
    ensures Fold(m, WinSeq(t, s, Bi(s) * Exp2(0), Bi(s) + 1)) == t[Bi(s)]
  {
    InWinIff(s, h, Fi(s));
    InWinIff(s, h, Bi(s));
    assert WinSeq(t, s, Fi(s), Fi(s)) == [];
    assert WinSeq(t, s, Bi(s), Bi(s)) == [];
    FoldSingleton(m, t[Fi(s)]);
    FoldSingleton(m, t[Bi(s)]);
  }

  /** Past the root the ancestors of both end leaves are 0. */
  lemma PastRoot(s: Span, h: nat)
    requires SpanOk(s, h) && s.size > 0
    ensures Exp2(h + 1) == 2 * s.cap && Fi(s) / Exp2(h + 1) == 0 && Bi(s) / Exp2(h + 1) == 0
  {
    assert Exp2(h + 1) == 2 * s.cap;
    DivUnique(Fi(s), Exp2(h + 1), 0, Fi(s));
    DivUnique(Bi(s), Exp2(h + 1), 0, Bi(s));
  }

  /** Past the root, the suffix and prefix cover the whole window. */
  lemma EndsDone<P(!new)>(m: Monoid<P>, t: seq<P>, s: Span, h: nat, suf: P, pre: P)
    requires IsMonoid(m) && SpanOk(s, h) && s.size > 0 && Split(s)
    requires suf == Fold(m, WinSeq(t, s, Fi(s), 2 * s.cap))
    requires pre == Fold(m, WinSeq(t, s, 0, Bi(s) + 1))
    ensures m.combine(suf, pre) == Fold(m, Rotated(t, s))
  {
    RotatedParts(t, s, h);
    FoldAppend(m, WinSeq(t, s, Fi(s), 2 * s.cap), WinSeq(t, s, 0, Bi(s) + 1));
  }

  /** Nodes correct against `t` are correct against any `q` with the same
      leaves. */
  lemma AllCorrect<P>(m: Monoid<P>, t: seq<P>, s: Span, h: nat, q: seq<P>, k: nat)
    requires SpanOk(s, h) && LeavesKept(t, s, q) && Below(m, t, s, h, q, k) && Above(m, t, s, h, q, [], k)
    ensures Tree(m, q, s, h, [])
  {
    forall j: nat, x: nat | 0 < j && Node(h, j, x) && x < |q| && !Touches([], x * Exp2(j - 0), (x + 1) * Exp2(j - 0))
      ensures NodeOk(m, q, s, q[x], j, x)
    {
      if j > k {
        assert !Touches([], x * Exp2(j - k), (x + 1) * Exp2(j - k));
      }
      NodeLeaves(h, j, x);
      WinSeqFrame(t, s, q, s, x * Exp2(j), (x + 1) * Exp2(j));
    }
  }

  /** The end of a pass of `propagate` on a wrapped window: extends the
      suffix by the right sibling of an even `fi` and the prefix by the left
      sibling of an odd `bi`, so that they reach the subtrees of the
      parents. */
  method ClimbEnds<P(!new)>(m: Monoid<P>, q: array<P>, ghost t: seq<P>, s: Span, ghost h: nat, ghost k: nat,
                            fi: nat, bi: nat, split: bool, suf: P, pre: P) returns (suf': P, pre': P)
    requires IsMonoid(m) && SpanOk(s, h) && s.size > 0 && k <= h
    requires fi == Fi(s) / Exp2(k) && bi == Bi(s) / Exp2(k) && split == Split(s)
    requires LeavesKept(t, s, q[..]) && Below(m, t, s, h, q[..], k + 1)
    requires split ==> suf == Fold(m, WinSeq(t, s, Fi(s), (fi + 1) * Exp2(k)))
                       && pre == Fold(m, WinSeq(t, s, bi * Exp2(k), Bi(s) + 1))
    ensures split ==> suf' == Fold(m, WinSeq(t, s, Fi(s), (fi / 2 + 1) * Exp2(k + 1)))
                      && pre' == Fold(m, WinSeq(t, s, (bi / 2) * Exp2(k + 1), Bi(s) + 1))
    ensures !split ==> suf' == suf && pre' == pre
  {
    suf', pre' := suf, pre;
    if split {
      suf' := ExtendSuffix(m, q, t, s, h, k, fi, suf);
      pre' := ExtendPrefix(m, q, t, s, h, k, bi, pre);
    }
  }

  /** `if (!(fi & 1)) suf = suf + aggT[fi ^ 1]`. */
  method ExtendSuffix<P(!new)>(m: Monoid<P>, q: array<P>, ghost t: seq<P>, s: Span, ghost h: nat, ghost k: nat,
                               fi: nat, suf: P) returns (suf': P)
    requires IsMonoid(m) && SpanOk(s, h) && s.size > 0 && k <= h && Split(s) && fi == Fi(s) / Exp2(k)
    requires LeavesKept(t, s, q[..]) && Below(m, t, s, h, q[..], k + 1)
    requires suf == Fold(m, WinSeq(t, s, Fi(s), (fi + 1) * Exp2(k)))
    ensures suf' == Fold(m, WinSeq(t, s, Fi(s), (fi / 2 + 1) * Exp2(k + 1)))
  {
    if fi % 2 == 0 {
      SufNode(s, h, k, fi);
      ChildOk(m, t, s, h, q[..], k, k + 1, fi + 1);
      var v := q[fi + 1];
      SufStep(m, t, s, h, k, fi, v);
      suf' := m.combine(suf, v);
    } else {
      SufKeep(k, fi);
      suf' := suf;
    }
  }

  /** `if ((bi & 1) && bi > 1) pre = aggT[bi ^ 1] + pre`. */
  method ExtendPrefix<P(!new)>(m: Monoid<P>, q: array<P>, ghost t: seq<P>, s: Span, ghost h: nat, ghost k: nat,
                               bi: nat, pre: P) returns (pre': P)
    requires IsMonoid(m) && SpanOk(s, h) && s.size > 0 && k <= h && Split(s) && bi == Bi(s) / Exp2(k)
    requires LeavesKept(t, s, q[..]) && Below(m, t, s, h, q[..], k + 1)
    requires pre == Fold(m, WinSeq(t, s, bi * Exp2(k), Bi(s) + 1))
    ensures pre' == Fold(m, WinSeq(t, s, (bi / 2) * Exp2(k + 1), Bi(s) + 1))
  {
    if bi % 2 == 1 && bi > 1 {
      PreNode(s, h, k, bi);
      ChildOk(m, t, s, h, q[..], k, k + 1, bi - 1);
      var v := q[bi - 1];
      PreStep(m, t, s, h, k, bi, v);
      pre' := m.combine(v, pre);
    } else {
      LeafAncestor(h, k, Bi(s));
      PreKeep(t, s, h, k, bi);
      pre' := pre;
    }
  }

  /** The state `propagate` keeps between levels: `fi` and `bi` are the
      ancestors at height `k` of the end leaves; the nodes up to height `k`
      are correct, those above are correct unless `now` touches their
      leaves; on a wrapped window `suf` and `pre` fold the window from the
      oldest leaf to the end of the subtree of `fi` and from the start of
      the subtree of `bi` to the youngest leaf. */
  ghost predicate ClimbInv<P(!new)>(m: Monoid<P>, t: seq<P>, s: Span, h: nat, R: seq<Range>, q: seq<P>, k: nat,
                                   now: seq<Range>, fi: nat, bi: nat, split: bool, suf: P, pre: P)
  {
    IsMonoid(m) && SpanOk(s, h) && s.size > 0 && |t| == 2 * s.cap
    && k <= h + 1 && fi == Fi(s) / Exp2(k) && bi == Bi(s) / Exp2(k) && split == Split(s)
    && LeavesKept(t, s, q) && Below(m, t, s, h, q, k) && Above(m, t, s, h, q, now, k)
    && Normalized(now) && (now != [] ==> k <= h && InLevel(now, h, k))
    && (R == [] ==> k == 0 && now == []) && (now == [] ==> R == [] || k == h + 1)
    && (k == 0 ==> suf == t[Fi(s)] && pre == t[Bi(s)])
    && (split ==> suf == Fold(m, WinSeq(t, s, Fi(s), (fi + 1) * Exp2(k)))
                  && pre == Fold(m, WinSeq(t, s, bi * Exp2(k), Bi(s) + 1)))
  }

  /** Before the first level: the end leaves start the suffix and the
      prefix. */
  lemma ClimbStart<P(!new)>(m: Monoid<P>, t: seq<P>, s: Span, h: nat, R: seq<Range>)
    requires IsMonoid(m) && SpanOk(s, h) && s.size > 0 && |t| == 2 * s.cap
    requires Normalized(R) && InLevel(R, h, 0) && Tree(m, t, s, h, R)
    ensures ClimbInv(m, t, s, h, R, t, 0, R, Fi(s), Bi(s), Split(s), t[Fi(s)], t[Bi(s)])
  {
    EndsInit(m, t, s, h);
  }

  /** One pass of the outer loop of `propagate`. */
  method ClimbLevel<P(!new)>(m: Monoid<P>, q: array<P>, ghost t: seq<P>, s: Span, ghost h: nat, ghost R: seq<Range>,
                             ghost k: nat, now: seq<Range>, fi: nat, bi: nat, split: bool, suf: P, pre: P)
    returns (now': seq<Range>, fi': nat, bi': nat, suf': P, pre': P)
    requires ClimbInv(m, t, s, h, R, q[..], k, now, fi, bi, split, suf, pre) && now != []
    modifies q
    ensures ClimbInv(m, t, s, h, R, q[..], k + 1, now', fi', bi', split, suf', pre')
  {
    now' := PropagateLevel(m, q, t, s, h, k, now, fi, bi, split);
    suf', pre' := ClimbEnds(m, q, t, s, h, k, fi, bi, split, suf, pre);
    ClimbNext(m, t, s, h, R, q[..], k, now', fi, bi, split, suf, pre, suf', pre');
    fi', bi' := fi / 2, bi / 2;
  }

  /** A level done: the invariant of the level loop one level up. */
  lemma ClimbNext<P(!new)>(m: Monoid<P>, t: seq<P>, s: Span, h: nat, R: seq<Range>, q: seq<P>, k: nat,
                           next: seq<Range>, fi: nat, bi: nat, split: bool, suf: P, pre: P, suf': P, pre': P)
    requires IsMonoid(m) && SpanOk(s, h) && s.size > 0 && |t| == 2 * s.cap && k <= h && R != []
    requires fi == Fi(s) / Exp2(k) && bi == Bi(s) / Exp2(k) && split == Split(s)
    requires LeavesKept(t, s, q) && Below(m, t, s, h, q, k + 1) && Above(m, t, s, h, q, next, k + 1)
    requires Normalized(next) && InLevel(next, h, k + 1)
    requires if k < h then next != [] else next == []
    requires split ==> suf' == Fold(m, WinSeq(t, s, Fi(s), (fi / 2 + 1) * Exp2(k + 1)))
                       && pre' == Fold(m, WinSeq(t, s, (bi / 2) * Exp2(k + 1), Bi(s) + 1))
    ensures ClimbInv(m, t, s, h, R, q, k + 1, next, fi / 2, bi / 2, split, suf', pre')
  {
    DivExp2Step(Fi(s), k);
    DivExp2Step(Bi(s), k);
  }

  /** The result of `propagate` once no level is left to visit. */
  /** What the level loop of `propagate` returns: the aggregate of the
      window, except that a wrapped window with nothing to recompute gives
      only its oldest and its youngest element. */
  ghost function Climbed<P>(m: Monoid<P>, t: seq<P>, s: Span, R: seq<Range>): P
    requires s.front < s.cap && 0 < s.size <= s.cap && |t| == 2 * s.cap
  {
    if Split(s) && R == [] then m.combine(t[Fi(s)], t[Bi(s)]) else Fold(m, Rotated(t, s))
  }

  method ClimbDone<P(!new)>(m: Monoid<P>, q: array<P>, ghost t: seq<P>, s: Span, ghost h: nat, ghost R: seq<Range>,
                            ghost k: nat, fi: nat, bi: nat, split: bool, suf: P, pre: P) returns (r: P)
    requires ClimbInv(m, t, s, h, R, q[..], k, [], fi, bi, split, suf, pre)
    ensures LeavesKept(t, s, q[..]) && Tree(m, q[..], s, h, [])
    ensures r == Climbed(m, t, s, R)
  {
    AllCorrect(m, t, s, h, q[..], k);
    if split {
      if R != [] {
        EndsPastRoot(m, t, s, h, k, fi, bi, suf, pre);
      }
      r := m.combine(suf, pre);
    } else {
      RotatedParts(t, s, h);
      HitIff(t, s, h, s.cap, 2 * s.cap);
      assert Node(h, h, 1);
      r := q[1];
    }
  }

  /** Past the root the suffix and the prefix cover the wrapped window. */
  lemma EndsPastRoot<P(!new)>(m: Monoid<P>, t: seq<P>, s: Span, h: nat, k: nat, fi: nat, bi: nat, suf: P, pre: P)
    requires IsMonoid(m) && SpanOk(s, h) && s.size > 0 && Split(s) && k == h + 1
    requires fi == Fi(s) / Exp2(k) && bi == Bi(s) / Exp2(k)
    requires suf == Fold(m, WinSeq(t, s, Fi(s), (fi + 1) * Exp2(k)))
    requires pre == Fold(m, WinSeq(t, s, bi * Exp2(k), Bi(s) + 1))
    ensures m.combine(suf, pre) == Fold(m, Rotated(t, s))
  {
    PastRoot(s, h);
    assert fi == 0 && bi == 0;
    var e := Exp2(k);
    assert (0 + 1) * e == e && 0 * e == 0;
    EndsDone(m, t, s, h, suf, pre);
  }

  /** `propagate` on a nonempty window: recomputes, level by level, the
      ancestors of the leaves recorded in `R`, and returns the aggregate of
      the window from the root, or, when the window wraps, from the suffix
      and prefix built along the paths of the two end leaves.  When `R` is
      empty no level is visited, and a wrapped window then yields only its
      oldest and youngest values. */
  method PropagateTree<P(!new)>(m: Monoid<P>, q: array<P>, s: Span, ghost h: nat, R: seq<Range>) returns (r: P)
    requires IsMonoid(m) && SpanOk(s, h) && s.size > 0 && q.Length == 2 * s.cap
    requires Normalized(R) && InLevel(R, h, 0) && Tree(m, q[..], s, h, R)
    modifies q
    ensures LeavesKept(old(q[..]), s, q[..]) && Tree(m, q[..], s, h, [])
    ensures r == Climbed(m, old(q[..]), s, R)
  {
    ghost var t := q[..];
    var now := R;
    var fi: nat, bi: nat := Fi(s), Bi(s);
    var split := bi < fi;
    var pre, suf := q[bi], q[fi];
    ClimbStart(m, t, s, h, R);
    ghost var k;
    k, fi, bi, suf, pre := ClimbAll(m, q, t, s, h, R, now, fi, bi, split, suf, pre);
    r := ClimbDone(m, q, t, s, h, R, k, fi, bi, split, suf, pre);
  }

  /** The level loop of `propagate`: one level per round until no range is
      left, the suffix and prefix ends climbing along. */
  method ClimbAll<P(!new)>(m: Monoid<P>, q: array<P>, ghost t: seq<P>, s: Span, ghost h: nat, ghost R: seq<Range>,
                           now0: seq<Range>, fi0: nat, bi0: nat, split: bool, suf0: P, pre0: P)
    returns (ghost k: nat, fi: nat, bi: nat, suf: P, pre: P)
    requires ClimbInv(m, t, s, h, R, q[..], 0, now0, fi0, bi0, split, suf0, pre0)
    modifies q
    ensures ClimbInv(m, t, s, h, R, q[..], k, [], fi, bi, split, suf, pre)
  {
    var now := now0;
    k, fi, bi, suf, pre := 0, fi0, bi0, suf0, pre0;
    while now != []
      invariant ClimbInv(m, t, s, h, R, q[..], k, now, fi, bi, split, suf, pre)
      decreases h + 1 - k
    {
      now, fi, bi, suf, pre := ClimbLevel(m, q, t, s, h, R, k, now, fi, bi, split, suf, pre);
      k := k + 1;
    }
  }

  // ---------------------------------------------------------------------
  // Updates of the leaves.

  /** Recording more leaves keeps the tree valid. */
  lemma TreeWiden<P>(m: Monoid<P>, t: seq<P>, s: Span, h: nat, R: seq<Range>, R': seq<Range>)
    requires Tree(m, t, s, h, R)
    requires forall y :: Covered(R, y) ==> Covered(R', y)
    ensures Tree(m, t, s, h, R')
  {
    forall j: nat, x: nat | 0 < j && Node(h, j, x) && x < |t| && !Touches(R', x * Exp2(j - 0), (x + 1) * Exp2(j - 0))
      ensures NodeOk(m, t, s, t[x], j, x)
    {
      MulTwice(x, Exp2(j));
      TouchesCovered(R, x * Exp2(j), (x + 1) * Exp2(j));
      TouchesCovered(R', x * Exp2(j), (x + 1) * Exp2(j));
    }
  }

  /** Writing leaf `p`, or moving it into or out of the window, keeps the
      tree valid once `p` is recorded: no internal node changes, and a node
      with no recorded leaf below it sees the same window values. */
  lemma TreeTouch<P>(m: Monoid<P>, t: seq<P>, s: Span, t': seq<P>, s': Span, h: nat,
                     R: seq<Range>, R': seq<Range>, p: nat)
    requires SpanOk(s, h) && s'.cap == s.cap && Tree(m, t, s, h, R) && |t| == |t'| == 2 * s.cap
    requires forall x :: 0 <= x < s.cap ==> t'[x] == t[x]
    requires forall l :: s.cap <= l < 2 * s.cap && l != p ==> InWin(s, l) == InWin(s', l)
    requires forall l :: s.cap <= l < 2 * s.cap && l != p && InWin(s, l) ==> t'[l] == t[l]
    requires forall y :: Covered(R', y) <==> Covered(R, y) || y == p
    ensures Tree(m, t', s', h, R')
  {
    forall j: nat, x: nat | 0 < j && Node(h, j, x) && x < |t'| && !Touches(R', x * Exp2(j - 0), (x + 1) * Exp2(j - 0))
      ensures NodeOk(m, t', s', t'[x], j, x)
    {
      var lo, hi := x * Exp2(j), (x + 1) * Exp2(j);
      NodeLeaves(h, j, x);
      Exp2Mono(h - j + 1, h);
      assert Exp2(h - j + 1) == 2 * Exp2(h - j);
      TouchesCovered(R, lo, hi);
      TouchesCovered(R', lo, hi);
      assert Covered(R', p);
      assert !(lo <= p < hi);
      WinSeqFrame(t, s, t', s', lo, hi);
    }
  }

  /** A tree whose recorded leaves include every window leaf is valid
      whatever its nodes hold. */
  lemma TreeFresh<P>(m: Monoid<P>, t: seq<P>, s: Span, h: nat, R: seq<Range>)
    requires forall l :: InWin(s, l) ==> Covered(R, l)
    ensures Tree(m, t, s, h, R)
  {
    forall j: nat, x: nat | 0 < j && Node(h, j, x) && x < |t| && !Touches(R, x * Exp2(j - 0), (x + 1) * Exp2(j - 0))
      ensures NodeOk(m, t, s, t[x], j, x)
    {
      var lo, hi := x * Exp2(j), (x + 1) * Exp2(j);
      MulTwice(x, Exp2(j));
      TouchesCovered(R, lo, hi);
      WinSeqNone(t, s, lo, hi);
    }
  }

  /** The ranges `sched_insert` leaves are leaf ranges, given leaf ranges or
      the empty range `reallocTo` records for an empty window. */
  lemma SchedLeaves(R: seq<Range>, R': seq<Range>, p: nat, h: nat)
    requires Node(h, 0, p) && Normalized(R') && (InLevel(R, h, 0) || R == [(p, p - 1)])
    requires forall y :: Covered(R', y) <==> Covered(R, y) || y == p
    requires forall i :: 0 <= i < |R'| ==> R'[i] in R || R'[i].0 <= p <= R'[i].1
    ensures InLevel(R', h, 0)
  {
    assert Covered(R', p);
    var j :| 0 <= j < |R'| && R'[j].0 <= p <= R'[j].1;
    forall i | 0 <= i < |R'|
      ensures R'[i].0 <= R'[i].1 && Node(h, 0, R'[i].0) && Node(h, 0, R'[i].1)
    {
      if R'[i] !in R {
        LeafCovered(R, R', p, h, i, R'[i].0);
        LeafCovered(R, R', p, h, i, R'[i].1);
      }
    }
  }

  lemma LeafCovered(R: seq<Range>, R': seq<Range>, p: nat, h: nat, i: nat, y: nat)
    requires Node(h, 0, p) && (InLevel(R, h, 0) || R == [(p, p - 1)])
    requires forall y :: Covered(R', y) <==> Covered(R, y) || y == p
    requires i < |R'| && R'[i].0 <= y <= R'[i].1
    ensures Node(h, 0, y)
  {
    assert Covered(R', y);
    if y != p {
      var j :| 0 <= j < |R| && R[j].0 <= y <= R[j].1;
    }
  }

  /** The leaf of window position `i`: `cap + (frontPtr + i) % cap`. */
  function Leaf(s: Span, i: int): int
    requires s.cap > 0
  {
    s.cap + (s.front + i) % s.cap
  }

  /** Position `i` of the window is held by leaf `Leaf(s, i)`. */
  lemma LeafPos(s: Span, i: nat)
    requires s.front < s.cap && i < s.size <= s.cap
    ensures InWin(s, Leaf(s, i)) && Offset(s, Leaf(s, i)) == i
  {
    if s.front + i >= s.cap {
      DivUnique(s.front + i, s.cap, 1, s.front + i - s.cap);
    } else {
      DivUnique(s.front + i, s.cap, 0, s.front + i);
    }
  }

  /** Different leaves hold different window positions. */
  lemma OffsetInjective(s: Span, l: int, l': int)
    requires s.front < s.cap && s.cap <= l < 2 * s.cap && s.cap <= l' < 2 * s.cap && l != l'
    ensures Offset(s, l) != Offset(s, l')
  {
  }

  /** Adding to a residue. */
  lemma ModAdd(a: int, b: int, c: int)
    requires c > 0
    ensures (a % c + b) % c == (a + b) % c
  {
    var q := a / c;
    assert a == q * c + a % c;
    ModShift(a % c + b, q, c);
    assert a + b == q * c + (a % c + b);
  }

  lemma ModShift(x: int, q: int, c: int)
    requires c > 0
    ensures (q * c + x) % c == x % c
  {
    var r, d := x % c, x / c;
    assert x == d * c + r;
    assert q * c + x == (q + d) * c + r;
    ModUnique(q * c + x, c, q + d, r);
  }

  lemma ModUnique(a: int, c: int, q: int, r: int)
    requires c > 0 && 0 <= r < c && a == q * c + r
    ensures a % c == r
  {
    var q', r' := a / c, a % c;
    assert a == q' * c + r';
    if q' < q {
      MulLe(q' + 1, q, c);
      MulTwice(q', c);
    } else if q < q' {
      MulLe(q + 1, q', c);
      MulTwice(q, c);
    }
  }

  // ---------------------------------------------------------------------
  // The aggregator.

  /** The state of an `Aggregate` on values: the leaves of `t` hold the
      window `w`, `back` is `backPtr` (-1 standing for the `SIZE_MAX` that
      `reallocTo` leaves behind on an empty window), `R` is `workQ`, made of
      leaves (or, after `reallocTo` on an empty window, the empty range
      `cap .. cap - 1`), and every internal node with no leaf of `R` below it
      is correct. */
  ghost predicate State<P>(m: Monoid<P>, t: seq<P>, s: Span, back: int, R: seq<Range>, h: nat, w: seq<P>)
  {
    SpanOk(s, h) && BackOk(s, back) && Leaves(t, s, w) && Sched(s, back, R, h) && Tree(m, t, s, h, R)
  }

  ghost predicate BackOk(s: Span, back: int)
    requires s.cap > 0
  {
    if back == -1 then s.front == 0 && s.size == 0
    else 0 <= back < s.cap && back == (s.front + s.size - 1) % s.cap
  }

  ghost predicate Sched(s: Span, back: int, R: seq<Range>, h: nat)
    requires s.cap > 0
  {
    Normalized(R) && (InLevel(R, h, 0) || (R == [(s.cap, s.cap - 1)] && back == -1))
  }

  /** `insert` on a window with room: the new value goes to the leaf after
      the youngest one, which is recorded. */
  lemma InsertStep<P>(m: Monoid<P>, t: seq<P>, s: Span, back: int, R: seq<Range>, h: nat, w: seq<P>, x: P,
                      t': seq<P>, s': Span, back': int, R': seq<Range>, p: nat)
    requires State(m, t, s, back, R, h, w) && s.size < s.cap
    requires back' == (1 + back) % s.cap && p == s.cap + back' && t' == t[p := x]
    requires s' == Span(s.cap, s.front, s.size + 1)
    requires Normalized(R') && (forall y :: Covered(R', y) <==> Covered(R, y) || y == p)
    requires forall i :: 0 <= i < |R'| ==> R'[i] in R || R'[i].0 <= p <= R'[i].1
    ensures State(m, t', s', back', R', h, w + [x])
  {
    InsertSpan(s, back, s', back', p);
    InsertLeaves(t, s, w, x, t', s', p);
    TreeTouch(m, t, s, t', s', h, R, R', p);
    SchedLeaves(R, R', p, h);
  }

  /** The slot after the youngest is the leaf of window position `size`. */
  lemma InsertSpan(s: Span, back: int, s': Span, back': int, p: nat)
    requires s.front < s.cap && s.size < s.cap && BackOk(s, back)
    requires back' == (1 + back) % s.cap && p == s.cap + back'
    requires s' == Span(s.cap, s.front, s.size + 1)
    ensures BackOk(s', back') && p == Leaf(s', s.size) && InWin(s', p) && Offset(s', p) == s.size
  {
    var n := s.size;
    if back != -1 {
      ModAdd(s.front + n - 1, 1, s.cap);
    }
    assert back' == (s.front + n) % s.cap;
    LeafPos(s', n);
  }

  /** Writing the new value to that leaf appends it to the window and
      leaves every other leaf as it was. */
  lemma InsertLeaves<P>(t: seq<P>, s: Span, w: seq<P>, x: P, t': seq<P>, s': Span, p: nat)
    requires Leaves(t, s, w) && s.front < s.cap && s.size < s.cap && s' == Span(s.cap, s.front, s.size + 1)
    requires s.cap <= p < 2 * s.cap && InWin(s', p) && Offset(s', p) == s.size && t' == t[p := x]
    ensures Leaves(t', s', w + [x])
    ensures forall l :: s.cap <= l < 2 * s.cap && l != p ==> InWin(s, l) == InWin(s', l)
  {
    forall l | s.cap <= l < 2 * s.cap && l != p
      ensures InWin(s, l) == InWin(s', l)
    {
      OffsetInjective(s, l, p);
    }
    forall l | InWin(s', l)
      ensures t'[l] == (w + [x])[Offset(s', l)]
    {
      if l != p {
        OffsetInjective(s, l, p);
      }
    }
  }

  /** `evict`: the oldest leaf leaves the window and is recorded. */
  lemma EvictStep<P>(m: Monoid<P>, t: seq<P>, s: Span, back: int, R: seq<Range>, h: nat, w: seq<P>,
                     s': Span, R': seq<Range>, p: nat)
    requires State(m, t, s, back, R, h, w) && s.size > 0
    requires p == s.cap + s.front && s' == Span(s.cap, (s.front + 1) % s.cap, s.size - 1)
    requires Normalized(R') && (forall y :: Covered(R', y) <==> Covered(R, y) || y == p)
    requires forall i :: 0 <= i < |R'| ==> R'[i] in R || R'[i].0 <= p <= R'[i].1
    ensures State(m, t, s', back, R', h, w[1..])
  {
    EvictSpan(s, h, s', back);
    forall l | InWin(s', l)
      ensures t[l] == w[1..][Offset(s', l)]
    {
      assert Offset(s', l) == Offset(s, l) - 1;
    }
    TreeTouch(m, t, s, t, s', h, R, R', p);
    SchedLeaves(R, R', p, h);
  }

  /** Moving the front on by one: the oldest leaf leaves the window, the
      others keep their values one position earlier. */
  lemma EvictSpan(s: Span, h: nat, s': Span, back: int)
    requires SpanOk(s, h) && s.size > 0 && BackOk(s, back)
    requires s' == Span(s.cap, (s.front + 1) % s.cap, s.size - 1)
    ensures SpanOk(s', h) && BackOk(s', back)
    ensures forall l :: s.cap <= l < 2 * s.cap && l != s.cap + s.front ==> InWin(s, l) == InWin(s', l)
    ensures forall l :: InWin(s', l) ==> InWin(s, l) && Offset(s', l) == Offset(s, l) - 1
  {
    var f, n := s.front, s.size;
    if f + 1 < s.cap {
      ModUnique(f + 1, s.cap, 0, f + 1);
      EvictWin(s, s', f + 1);
    } else {
      ModUnique(f + 1, s.cap, 1, 0);
      EvictWin(s, s', 0);
    }
    ModAdd(f + 1, n as int - 2, s.cap);
    assert back == (s'.front + s'.size - 1) % s.cap;
  }

  lemma EvictWin(s: Span, s': Span, f': nat)
    requires s.front < s.cap && 0 < s.size <= s.cap
    requires f' == if s.front + 1 < s.cap then s.front + 1 else 0
    requires s' == Span(s.cap, f', s.size - 1)
    ensures forall l :: s.cap <= l < 2 * s.cap && l != s.cap + s.front ==> InWin(s, l) == InWin(s', l)
    ensures forall l :: InWin(s', l) ==> InWin(s, l) && Offset(s', l) == Offset(s, l) - 1
  {
  }

  /** `reallocTo`: the window packed from the first leaf, every leaf of it
      recorded, and nothing known of the other nodes. */
  lemma ReallocStep<P>(m: Monoid<P>, t: seq<P>, s: Span, back: int, R: seq<Range>, h: nat, w: seq<P>)
    requires SpanOk(s, h) && s.front == 0 && s.size == |w| && |t| == 2 * s.cap
    requires forall i :: 0 <= i < s.size ==> t[s.cap + i] == w[i]
    requires back == s.size - 1 && R == SchedAppendRange(s.cap, s.cap + s.size - 1, [])
    ensures State(m, t, s, back, R, h, w)
  {
    assert R == [(s.cap, s.cap + s.size - 1)];
    ReallocLeaves(t, s, w);
    ReallocCovered(s, R);
    ReallocBack(s, back);
    ReallocSched(s, back, R, h);
    TreeFresh(m, t, s, h, R);
  }

  lemma ReallocLeaves<P>(t: seq<P>, s: Span, w: seq<P>)
    requires s.front == 0 && s.size == |w| <= s.cap && |t| == 2 * s.cap
    requires forall i :: 0 <= i < s.size ==> t[s.cap + i] == w[i]
    ensures Leaves(t, s, w)
  {
    forall l | InWin(s, l)
      ensures t[l] == w[Offset(s, l)]
    {
      assert t[s.cap + (l - s.cap)] == w[l - s.cap];
    }
  }

  lemma ReallocCovered(s: Span, R: seq<Range>)
    requires s.front == 0 && R == [(s.cap, s.cap + s.size - 1)]
    ensures forall l :: InWin(s, l) ==> Covered(R, l)
  {
    forall l | InWin(s, l)
      ensures Covered(R, l)
    {
      assert R[0].0 <= l <= R[0].1;
    }
  }

  lemma ReallocBack(s: Span, back: int)
    requires s.cap > 0 && s.front == 0 && s.size <= s.cap && back == s.size - 1
    ensures BackOk(s, back)
  {
    if s.size > 0 {
      ModUnique(s.size - 1, s.cap, 0, s.size - 1);
    }
  }

  lemma ReallocSched(s: Span, back: int, R: seq<Range>, h: nat)
    requires SpanOk(s, h) && back == s.size - 1 && R == [(s.cap, s.cap + s.size - 1)]
    ensures Sched(s, back, R, h)
  {
    if s.size > 0 {
      assert Node(h, 0, s.cap) && Node(h, 0, s.cap + s.size - 1);
    }
  }

  /** `propagate` on a nonempty window: the leaves are kept, no node is
      left stale, and the end leaves hold the oldest and youngest values. */
  lemma PropagateStep<P>(m: Monoid<P>, t: seq<P>, s: Span, back: int, R: seq<Range>, h: nat, w: seq<P>, t': seq<P>)
    requires State(m, t, s, back, R, h, w) && s.size > 0
    requires LeavesKept(t, s, t') && Tree(m, t', s, h, [])
    ensures State(m, t', s, back, [], h, w)
    ensures Rotated(t, s) == w && t[Fi(s)] == w[0] && t[Bi(s)] == w[|w| - 1]
    ensures Split(s) <==> s.front + s.size > s.cap
  {
    KeptLeaves(t, s, w, t');
    assert Sched(s, back, [], h);
    WindowEnds(t, s, h, w);
  }

  /** Keeping the leaves keeps the window. */
  lemma KeptLeaves<P>(t: seq<P>, s: Span, w: seq<P>, t': seq<P>)
    requires Leaves(t, s, w) && LeavesKept(t, s, t')
    ensures Leaves(t', s, w)
  {
    forall l | InWin(s, l)
      ensures t'[l] == w[Offset(s, l)]
    {
    }
  }

  /** The leaves read in window order are the window; its ends are the
      oldest and the youngest leaf. */
  lemma WindowEnds<P>(t: seq<P>, s: Span, h: nat, w: seq<P>)
    requires SpanOk(s, h) && Leaves(t, s, w) && s.size > 0
    ensures Rotated(t, s) == w && t[Fi(s)] == w[0] && t[Bi(s)] == w[|w| - 1]
    ensures Split(s) <==> s.front + s.size > s.cap
  {
    WindowRotated(t, s, w);
    assert InWin(s, Fi(s)) && InWin(s, Bi(s));
  }

  /** Recording the youngest leaf of a window with nothing recorded. */
  lemma RecordStep<P>(m: Monoid<P>, t: seq<P>, s: Span, back: int, R: seq<Range>, h: nat, w: seq<P>,
                      R': seq<Range>, p: nat)
    requires State(m, t, s, back, R, h, w) && s.size > 0 && p == s.cap + back
    requires Normalized(R') && (forall y :: Covered(R', y) <==> Covered(R, y) || y == p)
    requires forall i :: 0 <= i < |R'| ==> R'[i] in R || R'[i].0 <= p <= R'[i].1
    ensures State(m, t, s, back, R', h, w) && R' != []
  {
    assert Covered(R', p);
    TreeWiden(m, t, s, h, R, R');
    SchedLeaves(R, R', p, h);
  }

  /** The copy loop of `reallocTo`: a fresh tree of `ncap` leaves holding
      the window from its first leaf on. */
  method CopyWindow<P>(q: array<P>, s: Span, ghost w: seq<P>, ncap: nat, id: P) returns (nq: array<P>)
    requires Leaves(q[..], s, w) && s.front < s.cap && s.size <= s.cap && s.size <= ncap
    ensures fresh(nq) && nq.Length == 2 * ncap
    ensures forall i :: 0 <= i < s.size ==> nq[ncap + i] == w[i]
  {
    nq := new P[2 * ncap](_ => id);
    var pos := 0;
    while pos < s.size
      invariant 0 <= pos <= s.size
      invariant forall i :: 0 <= i < pos ==> nq[ncap + i] == w[i]
      modifies nq
    {
      LeafPos(s, pos);
      nq[ncap + pos] := q[s.cap + (s.front + pos) % s.cap];
      pos := pos + 1;
    }
  }

  /** The loop of `naive_query`: the window's leaves folded from the oldest. */
  method FoldWindow<P>(m: Monoid<P>, q: array<P>, s: Span, ghost w: seq<P>) returns (sum: P)
    requires Leaves(q[..], s, w) && s.front < s.cap && s.size <= s.cap
    ensures sum == Fold(m, w)
  {
    sum := m.identity;
    for i := 0 to s.size
      invariant sum == Fold(m, w[..i])
    {
      LeafPos(s, i);
      sum := m.combine(sum, q[s.cap + (s.front + i) % s.cap]);
      assert w[..i + 1] == w[..i] + [w[i]];
      FoldSnoc(m, w[..i], w[i]);
    }
    assert w[..s.size] == w;
  }

  /** `Aggregate` of cpp/src/Reactive.hpp. */
  class Aggregate<In, P(!new), Out> {
    const op: BinOp<In, P, Out>
    const m: Monoid<P>
    var cap: nat
    var sz: nat
    var frontPtr: nat
    var backPtr: int
    var q: array<P>
    var workQ: seq<Range>
    ghost var height: nat
    ghost var window: seq<P>

    function Slots(): Span
      reads this
    {
      Span(cap, frontPtr, sz)
    }

    ghost predicate Valid()
      reads this, q
    {
      IsMonoid(m) && m.combine == op.m.combine && q.Length == 2 * cap
      && State(m, q[..], Slots(), backPtr, workQ, height, window)
    }

    /** Two leaves, the window empty, nothing recorded.  The source leaves
        the new nodes uninitialized; here they hold the identity. */
    constructor(binOp: BinOp<In, P, Out>, identE: P)
      requires IsMonoid(Monoid(binOp.m.combine, identE))
      ensures Valid() && fresh(q) && op == binOp && m.identity == identE
      ensures window == [] && cap == InitialSize && frontPtr == 0 && workQ == []
    {
      op := binOp;
      m := Monoid(binOp.m.combine, identE);
      cap, sz := InitialSize, 0;
      frontPtr, backPtr := 0, InitialSize - 1;
      q := new P[2 * InitialSize](_ => identE);
      workQ := [];
      height, window := 1, [];
      new;
      TreeFresh(m, q[..], Slots(), height, workQ);
    }

    function Size(): (n: nat)
      reads this, q
      requires Valid()
      ensures n == |window|
    {
      sz
    }

    /** A full window first doubles the capacity. */
    method Insert(v: In)
      requires Valid()
      modifies this, q
      ensures Valid() && (q == old(q) || fresh(q)) && window == old(window) + [op.lift(v)] && workQ != []
      ensures cap == if |old(window)| == old(cap) then 2 * old(cap) else old(cap)
      ensures frontPtr == if |old(window)| == old(cap) then 0 else old(frontPtr)
    {
      if sz == cap {
        DoubleIt();
      }
      Append(v);
    }

    /** `insert` once there is room: the value goes to the slot after the
        youngest and that leaf is recorded. */
    method Append(v: In)
      requires Valid() && sz < cap
      modifies this, q
      ensures Valid() && q == old(q) && window == old(window) + [op.lift(v)] && workQ != []
      ensures cap == old(cap) && frontPtr == old(frontPtr)
    {
      ghost var t, s, back, R, w := q[..], Slots(), backPtr, workQ, window;
      backPtr := (1 + backPtr) % cap;
      q[cap + backPtr] := op.lift(v);
      sz := sz + 1;
      workQ := SchedInsert(cap + backPtr, workQ);
      window := window + [op.lift(v)];
      InsertStep(m, t, s, back, R, height, w, op.lift(v), q[..], Slots(), backPtr, workQ, cap + backPtr);
      assert Covered(workQ, cap + backPtr);
    }

    /** Dropping below a quarter of the capacity halves it (never below
        `InitialSize`). */
    method Evict()
      requires Valid() && |window| > 0
      modifies this
      ensures Valid() && (q == old(q) || fresh(q)) && window == old(window)[1..]
      ensures cap == if |window| < old(cap) / 4 then Max(InitialSize, old(cap) / 2) else old(cap)
      ensures frontPtr == if |window| < old(cap) / 4 then 0 else (old(frontPtr) + 1) % old(cap)
    {
      ghost var s, R, w := Slots(), workQ, window;
      var p := cap + frontPtr;
      workQ := SchedInsert(p, workQ);
      frontPtr := (frontPtr + 1) % cap;
      sz := sz - 1;
      window := window[1..];
      EvictStep(m, q[..], s, backPtr, R, height, w, Slots(), workQ, p);
      if sz < cap / 4 {
        HalfIt();
      }
    }

    /** The aggregate `propagate` computes.  When nothing was recorded since
        the last query and the window wraps, that is only the oldest and the
        youngest value combined. */
    method Query() returns (r: Out)
      requires Valid()
      modifies this, q
      ensures Valid() && q == old(q) && window == old(window) && cap == old(cap) && frontPtr == old(frontPtr)
      ensures |window| > 0 ==> workQ == []
      ensures r == op.lower(if |window| > 0 && frontPtr + |window| > cap && old(workQ) == []
                            then m.combine(window[0], window[|window| - 1])
                            else Fold(m, window))
    {
      var res := Propagate();
      r := op.lower(res);
    }

    /** `query` with a nonempty window and nothing recorded first records
        the youngest leaf, so that `propagate` climbs the two end paths. */
    method QueryCorrected() returns (r: Out)
      requires Valid()
      modifies this, q
      ensures Valid() && q == old(q) && window == old(window) && cap == old(cap) && frontPtr == old(frontPtr)
      ensures r == op.lower(Fold(m, window))
    {
      if workQ == [] && sz > 0 {
        ghost var R := workQ;
        workQ := SchedInsert(cap + backPtr, workQ);
        RecordStep(m, q[..], Slots(), backPtr, R, height, window, workQ, cap + backPtr);
      }
      var res := Propagate();
      r := op.lower(res);
    }

    /** `naive_query`: folds the window leaf by leaf. */
    method NaiveQuery() returns (r: Out)
      requires Valid()
      ensures r == op.lower(Fold(m, window))
    {
      var sum := FoldWindow(m, q, Slots(), window);
      r := op.lower(sum);
    }

    /** `reallocTo`: copies the window to the first leaves of a fresh tree of
        `ncap` leaves, records all of them and propagates. */
    method ReallocTo(ncap: nat, ghost nh: nat)
      requires Valid() && sz <= ncap && nh >= 1 && ncap == Exp2(nh)
      modifies this
      ensures Valid() && fresh(q) && window == old(window) && cap == ncap && frontPtr == 0
      ensures |window| > 0 ==> workQ == []
    {
      var nq := CopyWindow(q, Slots(), window, ncap, m.identity);
      q, cap := nq, ncap;
      frontPtr, backPtr := 0, sz - 1;
      height := nh;
      workQ := SchedAppendRange(cap + 0, cap + sz - 1, []);
      ReallocStep(m, q[..], Slots(), backPtr, workQ, height, window);
      var _ := Propagate();
    }

    method DoubleIt()
      requires Valid()
      modifies this
      ensures Valid() && fresh(q) && window == old(window) && cap == 2 * old(cap) && frontPtr == 0
    {
      ReallocTo(2 * cap, height + 1);
    }

    method HalfIt()
      requires Valid() && sz <= Max(InitialSize, cap / 2)
      modifies this
      ensures Valid() && fresh(q) && window == old(window) && cap == Max(InitialSize, old(cap) / 2) && frontPtr == 0
    {
      var nh := if cap / 2 >= InitialSize then height - 1 else height;
      assert Exp2(height) == 2 * Exp2(height - 1);
      ReallocTo(Max(InitialSize, cap / 2), nh);
    }

    /** `propagate`: nothing to do on an empty window (and `workQ` is then
        kept); otherwise the recorded ranges are consumed. */
    method Propagate() returns (res: P)
      requires Valid()
      modifies this, q
      ensures Valid() && q == old(q) && window == old(window) && cap == old(cap) && frontPtr == old(frontPtr)
      ensures sz == old(sz) && backPtr == old(backPtr) && height == old(height)
      ensures workQ == if |window| > 0 then [] else old(workQ)
      ensures res == if |window| > 0 && frontPtr + |window| > cap && old(workQ) == []
                     then m.combine(window[0], window[|window| - 1])
                     else Fold(m, window)
    {
      if sz == 0 {
        return m.identity;
      }
      var now := workQ;
      workQ := [];
      ghost var t := q[..];
      res := PropagateTree(m, q, Slots(), height, now);
      PropagateStep(m, t, Slots(), backPtr, now, height, window, q[..]);
    }
  }

  /** Inserting 1, 2 and 3 doubles the capacity to four leaves. */
  method Filled() returns (a: Aggregate<int, int, int>)
    ensures fresh(a) && fresh(a.q) && a.Valid() && a.op == IntSum() && a.m == IntSum().m
    ensures a.window == [1, 2, 3] && a.cap == 4 && a.frontPtr == 0
  {
    a := new Aggregate(IntSum(), 0);
    a.Insert(1);
    a.Insert(2);
    a.Insert(3);
  }

  /** Evicting 1 and inserting 4 and 5 then wraps the window 2, 3, 4, 5
      around the four leaves, with leaves recorded. */
  method Wrapped() returns (a: Aggregate<int, int, int>)
    ensures fresh(a) && fresh(a.q) && a.Valid() && a.op == IntSum() && a.m == IntSum().m
    ensures a.window == [2, 3, 4, 5] && a.cap == 4 && a.frontPtr == 1 && a.workQ != []
  {
    a := Shifted();
    a.Insert(5);
  }

  /** Evicting 1 and inserting 4: the window 2, 3, 4 from leaf 1 on. */
  method Shifted() returns (a: Aggregate<int, int, int>)
    ensures fresh(a) && fresh(a.q) && a.Valid() && a.op == IntSum() && a.m == IntSum().m
    ensures a.window == [2, 3, 4] && a.cap == 4 && a.frontPtr == 1
  {
    a := Filled();
    a.Evict();
    a.Insert(4);
  }

  lemma SumWindow()
    ensures Fold(IntSum().m, [2, 3, 4, 5]) == 14
  {
    var m := IntSum().m;
    assert [2, 3, 4, 5][..3] == [2, 3, 4] && [2, 3, 4][..2] == [2, 3] && [2, 3][..1] == [2] && [2][..0] == [];
    assert Fold(m, [2]) == 2;
    assert Fold(m, [2, 3]) == 5;
    assert Fold(m, [2, 3, 4]) == 9;
  }

  /** Two queries in a row on a wrapped window: with Sum, inserting 1, 2, 3,
      evicting, then inserting 4 and 5 leaves the window 2, 3, 4, 5 wrapped
      in four leaves; the first query returns 14 and the second, with
      nothing recorded in between, 2 + 5. */
  method QueryTwice() returns (first: int, second: int)
    ensures first == 14 && second == 7
  {
    var a := Wrapped();
    SumWindow();
    first := a.Query();
    second := a.Query();
  }

  /** The same operations with the corrected query return 14 twice. */
  method QueryTwiceCorrected() returns (first: int, second: int)
    ensures first == 14 && second == 14
  {
    var a := Wrapped();
    SumWindow();
    first := a.QueryCorrected();
    second := a.QueryCorrected();
  }
}
