// cpp/src/OkasakisQueue.hpp: Okasaki's real-time queue with aggregates.
// The front list F is a lazy list whose unevaluated parts are suspended
// rotations `rot(L, R, A)` = L ++ reverse(R) ++ A; the back list B holds the
// newest values, newest first; N walks F one cell per operation, forcing
// the suspensions ahead of the front.  Every cell carries the aggregate of
// the values it stands for, in window order.
//
// The lists are modelled as values: a suspension is forced afresh each time
// it is read instead of caching its head and tail in place, which gives the
// same cells since `rot` is a function of its arguments.
module OkasakisQueue {
  import opened Monoid

  /** `agg_cons`: a forced cell or a suspended rotation; `Nil` is the null
      `cons_ptr`. */
  datatype Lazy<S> =
    | Nil
    | Cons(hd: S, agg: S, tl: Lazy<S>)
    | Susp(agg: S, rotL: Lazy<S>, rotR: Lazy<S>, rotA: Lazy<S>)

  /** The values a list stands for, first cell first. */
  ghost function Contents<S>(x: Lazy<S>): seq<S>
  {
    match x
    case Nil => []
    case Cons(h, _, t) => [h] + Contents(t)
    case Susp(_, l, r, a) => Contents(l) + Reverse(Contents(r)) + Contents(a)
  }

  /** The `sz` each cell records: one more than its tail for a cell, the sum
      of the three parts for a suspension; `__sz` of null is 0. */
  function Sz<S>(x: Lazy<S>): (n: nat)
    ensures n == |Contents(x)|
  {
    match x
    case Nil => 0
    case Cons(_, _, t) => 1 + Sz(t)
    case Susp(_, l, r, a) => Sz(l) + Sz(r) + Sz(a)
  }

  /** `aggOf`: the stored aggregate, or the identity for null. */
  function AggOf<S>(m: Monoid<S>, x: Lazy<S>): S
  {
    if x.Nil? then m.identity else x.agg
  }

  /** A list in the role of F: every cell's aggregate is the fold of what it
      stands for, and a suspension rotates a back list one longer than its
      front part, as `step` creates them. */
  ghost predicate Front<S>(m: Monoid<S>, x: Lazy<S>)
  {
    match x
    case Nil => true
    case Cons(_, g, t) => Front(m, t) && g == Fold(m, Contents(x))
    case Susp(g, l, r, a) =>
      Front(m, l) && Back(m, r) && Front(m, a) && |Contents(r)| == |Contents(l)| + 1
      && g == Fold(m, Contents(x))
  }

  /** A list in the role of B: forced cells, newest first, each holding the
      fold of its values in window order, that is, of their reversal. */
  ghost predicate Back<S>(m: Monoid<S>, x: Lazy<S>)
  {
    match x
    case Nil => true
    case Cons(_, g, t) => Back(m, t) && g == Fold(m, Reverse(Contents(x)))
    case Susp(_, _, _, _) => false
  }

  lemma AggOfFront<S>(m: Monoid<S>, x: Lazy<S>)
    requires Front(m, x)
    ensures AggOf(m, x) == Fold(m, Contents(x))
  {
  }

  lemma AggOfBack<S>(m: Monoid<S>, x: Lazy<S>)
    requires Back(m, x)
    ensures AggOf(m, x) == Fold(m, Reverse(Contents(x)))
  {
  }

  /** A cell consed in front of an F-list: `make_shared<AggNodeT>(h, h ⊕ aggOf(t), t)`. */
  lemma ConsFront<S(!new)>(m: Monoid<S>, h: S, t: Lazy<S>)
    requires IsMonoid(m) && Front(m, t)
    ensures Front(m, Cons(h, m.combine(h, AggOf(m, t)), t))
  {
    AggOfFront(m, t);
    FoldCons(m, h, Contents(t));
  }

  /** The cell `insert` conses onto B: `aggOf(B) ⊕ lifted`. */
  lemma ConsBack<S>(m: Monoid<S>, v: S, t: Lazy<S>)
    requires Back(m, t)
    ensures Back(m, Cons(v, m.combine(AggOf(m, t), v), t))
    ensures Reverse(Contents(Cons(v, m.combine(AggOf(m, t), v), t))) == Reverse(Contents(t)) + [v]
  {
    AggOfBack(m, t);
    ReverseCons(v, Contents(t));
    FoldSnoc(m, Reverse(Contents(t)), v);
  }

  /** The suspension `rot` builds, with aggregate `la ⊕ (ra ⊕ naa)`. */
  lemma SuspFront<S(!new)>(m: Monoid<S>, l: Lazy<S>, r: Lazy<S>, a: Lazy<S>)
    requires IsMonoid(m) && Front(m, l) && Back(m, r) && Front(m, a)
    requires |Contents(r)| == |Contents(l)| + 1
    ensures Front(m, Susp(m.combine(AggOf(m, l), m.combine(AggOf(m, r), AggOf(m, a))), l, r, a))
  {
    AggOfFront(m, l);
    AggOfBack(m, r);
    AggOfFront(m, a);
    var cl, cr, ca := Contents(l), Reverse(Contents(r)), Contents(a);
    FoldAppend(m, cl + cr, ca);
    FoldAppend(m, cl, cr);
    Assoc(m, Fold(m, cl), Fold(m, cr), Fold(m, ca));
  }

  /** `force` (and so `hd()`/`tl()` of an unforced cell): the first cell of
      a non-empty list, with the same values. */
  function Force<S(!new)>(m: Monoid<S>, x: Lazy<S>): (c: Lazy<S>)
    requires IsMonoid(m) && Front(m, x) && !x.Nil?
    ensures c.Cons? && Front(m, c) && Contents(c) == Contents(x)
    decreases x, 1
  {
    match x
    case Cons(_, _, _) => x
    case Susp(_, l, r, a) => Rot(m, l, r, a)
  }

  /** `rot(L, R, A)`: the first cell of L ++ reverse(R) ++ A, with the rest
      suspended; `L->hd()` and `L->tl()` force L once. */
  function Rot<S(!new)>(m: Monoid<S>, L: Lazy<S>, R: Lazy<S>, A: Lazy<S>): (c: Lazy<S>)
    requires IsMonoid(m) && Front(m, L) && Back(m, R) && Front(m, A)
    requires |Contents(R)| == |Contents(L)| + 1
    ensures c.Cons? && Front(m, c)
    ensures Contents(c) == Contents(L) + Reverse(Contents(R)) + Contents(A)
    decreases L, 2
  {
    var rv := R.hd;
    var nextA := Cons(rv, m.combine(rv, AggOf(m, A)), A);
    ConsFront(m, rv, A);
    ReverseCons(rv, Contents(R.tl));
    if L.Nil? then
      assert Contents(R.tl) == [];
      nextA
    else
      var lc := Force(m, L);
      var lt, rt := lc.tl, R.tl;
      var susp := Susp(m.combine(AggOf(m, lt), m.combine(AggOf(m, rt), AggOf(m, nextA))), lt, rt, nextA);
      SuspFront(m, lt, rt, nextA);
      ConsFront(m, lc.hd, susp);
      RotContents(lc.hd, Contents(lt), rv, Contents(rt), Contents(A));
      Cons(lc.hd, m.combine(lc.hd, AggOf(m, susp)), susp)
  }

  lemma RotContents<S>(h: S, lt: seq<S>, rv: S, rt: seq<S>, a: seq<S>)
    ensures [h] + (lt + Reverse(rt) + ([rv] + a)) == ([h] + lt) + (Reverse(rt) + [rv]) + a
  {
  }

  /** `hd()`: the first value. */
  function Head<S(!new)>(m: Monoid<S>, x: Lazy<S>): (v: S)
    requires IsMonoid(m) && Front(m, x) && !x.Nil?
    ensures v == Contents(x)[0]
  {
    Force(m, x).hd
  }

  /** `tl()`: the list without its first value. */
  function Tail<S(!new)>(m: Monoid<S>, x: Lazy<S>): (t: Lazy<S>)
    requires IsMonoid(m) && Front(m, x) && !x.Nil?
    ensures Front(m, t) && Contents(t) == Contents(x)[1..]
  {
    Force(m, x).tl
  }

  /** Okasaki's schedule invariant |N| = |F| - |B|, N being a suffix of F. */
  ghost predicate Scheduled<S>(f: seq<S>, b: seq<S>, n: seq<S>)
  {
    |n| + |b| == |f| && n == f[|f| - |n|..]
  }

  /** The schedule after `insert` or `evict` and before `step`: one cell is
      owed, and all of N but its first value is a suffix of F. */
  ghost predicate Owed<S>(f: seq<S>, b: seq<S>, n: seq<S>)
  {
    |n| + |b| == |f| + 1 && (n == [] || n[1..] == f[|f| - (|n| - 1)..])
  }

  /** `insert` conses onto B: one cell becomes owed. */
  lemma OwedPush<S>(f: seq<S>, b: seq<S>, n: seq<S>, b': seq<S>)
    requires Scheduled(f, b, n) && |b'| == |b| + 1
    ensures Owed(f, b', n)
  {
  }

  /** `evict` drops the first value of F, which a non-empty window has
      since |B| <= |F|: one cell becomes owed. */
  lemma OwedPop<S>(f: seq<S>, b: seq<S>, n: seq<S>, w: seq<S>)
    requires Scheduled(f, b, n) && w == f + Reverse(b) && |w| > 0
    ensures |f| > 0 && w[1..] == f[1..] + Reverse(b)
    ensures Owed(f[1..], b, n)
  {
    if n != [] {
      assert n[1..] == f[|f| - |n| + 1..];
    }
  }

  /** `step` with N null: F = N = rot(F, B, nil) and B = nil. */
  lemma RotTo<S>(f: seq<S>, b: seq<S>, n: seq<S>, w: seq<S>, f': seq<S>)
    requires Owed(f, b, n) && n == [] && w == f + Reverse(b) && f' == f + Reverse(b) + []
    ensures |Reverse(b)| == |f| + 1
    ensures Scheduled(f', [], f') && w == f' + Reverse([]) && f' == w
  {
  }

  /** `step` otherwise: N = tl(N) pays the owed cell. */
  lemma TailTo<S>(f: seq<S>, b: seq<S>, n: seq<S>, n': seq<S>)
    requires Owed(f, b, n) && n != [] && n' == n[1..]
    ensures Scheduled(f, b, n')
  {
  }

  lemma AppendTo<S>(w: seq<S>, f: seq<S>, rb: seq<S>, v: S, rb': seq<S>)
    requires w == f + rb && rb' == rb + [v]
    ensures w + [v] == f + rb'
  {
  }

  class Aggregate<In, P(!new), Out> {
    const op: BinOp<In, P, Out>
    const m: Monoid<P>
    /** F */
    var front: Lazy<P>
    /** B */
    var back: Lazy<P>
    /** N */
    var sched: Lazy<P>
    ghost var window: seq<P>

    /** Everything but the schedule. */
    ghost predicate Lists()
      reads this
    {
      IsMonoid(m) && m.combine == op.m.combine
      && Front(m, front) && Back(m, back) && Front(m, sched)
      && window == Contents(front) + Reverse(Contents(back))
    }

    ghost predicate Valid()
      reads this
    {
      Lists() && Scheduled(Contents(front), Contents(back), Contents(sched))
    }

    constructor(binOp: BinOp<In, P, Out>, identE: P)
      requires IsMonoid(Monoid(binOp.m.combine, identE))
      ensures Valid() && op == binOp && m.identity == identE && window == []
    {
      op := binOp;
      m := Monoid(binOp.m.combine, identE);
      front, back, sched := Nil, Nil, Nil;
      window := [];
    }

    function Size(): (n: nat)
      reads this
      requires Valid()
      ensures n == |window|
    {
      Sz(front) + Sz(back)
    }

    method Insert(v: In)
      requires Valid()
      modifies this
      ensures Valid() && window == old(window) + [op.lift(v)]
    {
      var prev := AggOf(m, back);
      var lifted := op.lift(v);
      ghost var b0 := back;
      ConsBack(m, lifted, b0);
      back := Cons(lifted, m.combine(prev, lifted), back);
      window := window + [lifted];
      AppendTo(old(window), Contents(front), Reverse(Contents(b0)), lifted, Reverse(Contents(back)));
      OwedPush(Contents(front), Contents(b0), Contents(sched), Contents(back));
      Step();
    }

    /** `F = F->tl()`; an empty window has no F to take the tail of. */
    method Evict()
      requires Valid() && |window| > 0
      modifies this
      ensures Valid() && window == old(window)[1..]
    {
      OwedPop(Contents(front), Contents(back), Contents(sched), window);
      front := Tail(m, front);
      window := window[1..];
      Step();
    }

    method Step()
      requires Lists() && Owed(Contents(front), Contents(back), Contents(sched))
      modifies this
      ensures Valid() && window == old(window)
    {
      ghost var f0, b0, n0 := Contents(front), Contents(back), Contents(sched);
      if sched.Nil? {
        front := Rot(m, front, back, Nil);
        sched, back := front, Nil;
        RotTo(f0, b0, n0, window, Contents(front));
      } else {
        sched := Tail(m, sched);
        TailTo(f0, b0, n0, Contents(sched));
      }
    }

    method Query() returns (r: Out)
      requires Valid()
      ensures r == op.lower(Fold(m, window))
    {
      var bp, fp := AggOf(m, back), AggOf(m, front);
      AggOfFront(m, front);
      AggOfBack(m, back);
      FoldAppend(m, Contents(front), Reverse(Contents(back)));
      r := op.lower(m.combine(fp, bp));
    }
  }
}
