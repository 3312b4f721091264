// The region invariant of De-Amortized Banker's Aggregator (DABA), shared by
// cpp/src/TimestampedDABA.hpp, cpp/src/TimestampedDABALite.hpp and
// rust/src/daba/mod.rs.  The queue is cut by four positions
// `l <= r <= a <= b` into five regions; `s[k]` is the stored aggregate of slot
// `k`:
//   [0, l)    the finished front:   s[k] = v_k ⊕ … ⊕ v_(b-1)
//   [l, r)    the left part (L):    s[k] = v_k ⊕ … ⊕ v_(r-1)
//   [r, a)    the right part (R):   s[k] = v_r ⊕ … ⊕ v_k  (full) or v_k (lite)
//   [a, b)    the accumulated (A):  s[k] = v_k ⊕ … ⊕ v_(b-1)
//   [b, |s|)  the back:             s[k] = v_b ⊕ … ⊕ v_k  (full) or v_k (lite)
// The lite variant keeps plain partials in R and in the back and holds their
// aggregates in two extra sums instead.  Each step of the algorithm moves a
// boundary by one slot and rewrites at most two slots; the lemmas below are
// those steps, each preserving the invariant.
module Daba {
  import opened Monoid

  /** Slots `[lo, hi)` hold the aggregate from their own element up to `end`. */
  ghost predicate Suffixes<P>(m: Monoid<P>, s: seq<P>, lo: nat, hi: nat, end: nat, window: seq<P>)
  {
    lo <= hi <= |s| && hi <= end <= |window|
    && forall k {:trigger s[k]} :: lo <= k < hi ==> s[k] == Fold(m, window[k..end])
  }

  /** Slots `[lo, hi)` hold the aggregate from `lo` up to their own element
      (full), or their own element (lite). */
  ghost predicate Growing<P>(m: Monoid<P>, s: seq<P>, lo: nat, hi: nat, window: seq<P>, lite: bool)
  {
    lo <= hi <= |s| && hi <= |window|
    && forall k {:trigger s[k]} :: lo <= k < hi ==>
         s[k] == (if lite then window[k] else Fold(m, window[lo..k + 1]))
  }

  ghost predicate Regions<P>(m: Monoid<P>, s: seq<P>, l: nat, r: nat, a: nat, b: nat,
                             window: seq<P>, lite: bool)
  {
    |s| == |window| && l <= r <= a <= b <= |s|
    && Suffixes(m, s, 0, l, b, window)
    && Suffixes(m, s, l, r, r, window)
    && Growing(m, s, r, a, window, lite)
    && Suffixes(m, s, a, b, b, window)
    && Growing(m, s, b, |s|, window, lite)
  }

  // Each region under the changes a step makes.

  lemma SuffixesAppend<P>(m: Monoid<P>, s: seq<P>, lo: nat, hi: nat, end: nat, window: seq<P>, x: P, y: P)
    requires Suffixes(m, s, lo, hi, end, window)
    ensures Suffixes(m, s + [y], lo, hi, end, window + [x])
  {
    forall k | lo <= k < hi
      ensures (s + [y])[k] == Fold(m, (window + [x])[k..end])
    {
      assert (window + [x])[k..end] == window[k..end];
    }
  }

  lemma GrowingAppend<P>(m: Monoid<P>, s: seq<P>, lo: nat, hi: nat, window: seq<P>, lite: bool, x: P, y: P)
    requires Growing(m, s, lo, hi, window, lite)
    ensures Growing(m, s + [y], lo, hi, window + [x], lite)
  {
    forall k | lo <= k < hi
      ensures (s + [y])[k] == (if lite then (window + [x])[k] else Fold(m, (window + [x])[lo..k + 1]))
    {
      assert (window + [x])[lo..k + 1] == window[lo..k + 1];
    }
  }

  /** A push onto the back region: its new last slot is `x`, or the back
      aggregate so far combined with `x`. */
  lemma GrowingPush<P>(m: Monoid<P>, s: seq<P>, lo: nat, window: seq<P>, lite: bool, x: P)
    requires Growing(m, s, lo, |s|, window, lite) && |s| == |window|
    ensures Growing(m, s + [if lite then x else m.combine(BackAgg(s, lo, m.identity), x)],
                    lo, |s| + 1, window + [x], lite)
  {
    var y := if lite then x else m.combine(BackAgg(s, lo, m.identity), x);
    var w := window + [x];
    GrowingAppend(m, s, lo, |s|, window, lite, x, y);
    if !lite {
      if lo == |s| {
        assert window[lo..] == [];
      } else {
        assert window[lo..|s|] == window[lo..];
      }
      assert w[lo..|s| + 1] == window[lo..] + [x];
      FoldSnoc(m, window[lo..], x);
    }
  }

  lemma SuffixesPop<P>(m: Monoid<P>, s: seq<P>, lo: nat, hi: nat, end: nat, window: seq<P>)
    requires Suffixes(m, s, lo, hi, end, window) && 0 < lo
    ensures Suffixes(m, s[1..], lo - 1, hi - 1, end - 1, window[1..])
  {
    forall k | lo - 1 <= k < hi - 1
      ensures s[1..][k] == Fold(m, window[1..][k..end - 1])
    {
      assert window[1..][k..end - 1] == window[k + 1..end];
    }
  }

  lemma GrowingPop<P>(m: Monoid<P>, s: seq<P>, lo: nat, hi: nat, window: seq<P>, lite: bool)
    requires Growing(m, s, lo, hi, window, lite) && 0 < lo
    ensures Growing(m, s[1..], lo - 1, hi - 1, window[1..], lite)
  {
    forall k | lo - 1 <= k < hi - 1
      ensures s[1..][k] == (if lite then window[1..][k] else Fold(m, window[1..][lo - 1..k + 1]))
    {
      assert window[1..][lo - 1..k + 1] == window[lo..k + 2];
    }
  }

  lemma SuffixesUpdate<P>(m: Monoid<P>, s: seq<P>, lo: nat, hi: nat, end: nat, window: seq<P>, i: nat, v: P)
    requires Suffixes(m, s, lo, hi, end, window) && i < |s| && (i < lo || hi <= i)
    ensures Suffixes(m, s[i := v], lo, hi, end, window)
  {
    forall k | lo <= k < hi
      ensures s[i := v][k] == s[k]
    {
    }
  }

  lemma GrowingUpdate<P>(m: Monoid<P>, s: seq<P>, lo: nat, hi: nat, window: seq<P>, lite: bool, i: nat, v: P)
    requires Growing(m, s, lo, hi, window, lite) && i < |s| && (i < lo || hi <= i)
    ensures Growing(m, s[i := v], lo, hi, window, lite)
  {
    forall k | lo <= k < hi
      ensures s[i := v][k] == s[k]
    {
    }
  }

  /** A region of suffix aggregates taken from its low end. */
  lemma SuffixesLower<P>(m: Monoid<P>, s: seq<P>, lo: nat, hi: nat, end: nat, window: seq<P>)
    requires Suffixes(m, s, lo, hi, end, window) && lo < hi
    ensures Suffixes(m, s, lo + 1, hi, end, window) && s[lo] == Fold(m, window[lo..end])
  {
  }

  /** A region of suffix aggregates grown by one slot at its low end. */
  lemma SuffixesGrowDown<P>(m: Monoid<P>, s: seq<P>, lo: nat, hi: nat, end: nat, window: seq<P>)
    requires Suffixes(m, s, lo, hi, end, window) && 0 < lo && s[lo - 1] == Fold(m, window[lo - 1..end])
    ensures Suffixes(m, s, lo - 1, hi, end, window)
  {
  }

  /** A region of suffix aggregates grown by one slot at its high end. */
  lemma SuffixesGrowUp<P>(m: Monoid<P>, s: seq<P>, lo: nat, hi: nat, end: nat, window: seq<P>)
    requires Suffixes(m, s, lo, hi, end, window) && hi < end && hi < |s| && s[hi] == Fold(m, window[hi..end])
    ensures Suffixes(m, s, lo, hi + 1, end, window)
  {
  }

  lemma GrowingUpper<P>(m: Monoid<P>, s: seq<P>, lo: nat, hi: nat, window: seq<P>, lite: bool)
    requires Growing(m, s, lo, hi, window, lite) && lo < hi
    ensures Growing(m, s, lo, hi - 1, window, lite)
  {
  }

  /** The size invariant checked by `assert_ps_invariants`: L and R have the
      same length, and a non-empty queue has one unprocessed slot more than the
      front is longer than the back (which makes the back shorter than the front). */
  ghost predicate Balanced(l: nat, r: nat, a: nat, b: nat, n: nat)
  {
    r - l == a - r && (n == 0 || l == n - b + 1)
  }

  /** The sizes right after a push or a pop, before the step that follows:
      the unprocessed part is one slot short, or a single element was pushed
      into the empty queue. */
  ghost predicate Unstepped(l: nat, r: nat, a: nat, b: nat, n: nat)
  {
    r - l == a - r && (l == n - b || (n == 1 && b == 0))
  }

  /** `is_gamma_empty() ? identE : (a-1)->_agg`. */
  function Gamma<P>(s: seq<P>, r: nat, a: nat, identE: P): P
    requires r <= a <= |s|
  {
    if a == r then identE else s[a - 1]
  }

  /** `is_delta_empty() ? identE : a->_agg`. */
  function Delta<P>(s: seq<P>, a: nat, b: nat, identE: P): P
    requires a <= b <= |s|
  {
    if a == b then identE else s[a]
  }

  /** `is_front_empty() ? identE : front()._agg`. */
  function Alpha<P>(s: seq<P>, b: nat, identE: P): P
    requires b <= |s|
  {
    if b == 0 then identE else s[0]
  }

  /** `is_back_empty() ? identE : back()._agg`. */
  function BackAgg<P>(s: seq<P>, b: nat, identE: P): P
    requires b <= |s|
  {
    if b == |s| then identE else s[|s| - 1]
  }

  lemma RegionsEmpty<P>(m: Monoid<P>, lite: bool)
    ensures Regions(m, [], 0, 0, 0, 0, [], lite)
  {
  }

  lemma GammaIsFold<P>(m: Monoid<P>, s: seq<P>, l: nat, r: nat, a: nat, b: nat, window: seq<P>)
    requires Regions(m, s, l, r, a, b, window, false)
    ensures Gamma(s, r, a, m.identity) == Fold(m, window[r..a])
  {
    if a == r {
      assert window[r..a] == [];
    }
  }

  lemma DeltaIsFold<P>(m: Monoid<P>, s: seq<P>, l: nat, r: nat, a: nat, b: nat, window: seq<P>, lite: bool)
    requires Regions(m, s, l, r, a, b, window, lite)
    ensures Delta(s, a, b, m.identity) == Fold(m, window[a..b])
  {
    if a == b {
      assert window[a..b] == [];
    }
  }

  lemma BackAggIsFold<P>(m: Monoid<P>, s: seq<P>, l: nat, r: nat, a: nat, b: nat, window: seq<P>)
    requires Regions(m, s, l, r, a, b, window, false)
    ensures BackAgg(s, b, m.identity) == Fold(m, window[b..])
  {
    if b == |s| {
      assert window[b..] == [];
    } else {
      assert window[b..|s|] == window[b..];
    }
  }

  /** With a finished slot 0, the front aggregate is that of slots `[0, b)`. */
  lemma AlphaIsFold<P>(m: Monoid<P>, s: seq<P>, l: nat, r: nat, a: nat, b: nat, window: seq<P>, lite: bool)
    requires Regions(m, s, l, r, a, b, window, lite) && (b == 0 || 0 < l)
    ensures Alpha(s, b, m.identity) == Fold(m, window[..b])
  {
    if b == 0 {
      assert window[..b] == [];
    } else {
      assert window[0..b] == window[..b];
    }
  }

  /** `gamma ⊕ delta`, the aggregate `R ⊕ A` that the left part is completed with. */
  lemma GammaDelta<P(!new)>(m: Monoid<P>, s: seq<P>, l: nat, r: nat, a: nat, b: nat, window: seq<P>)
    requires IsMonoid(m) && Regions(m, s, l, r, a, b, window, false)
    ensures m.combine(Gamma(s, r, a, m.identity), Delta(s, a, b, m.identity)) == Fold(m, window[r..b])
  {
    GammaIsFold(m, s, l, r, a, b, window);
    DeltaIsFold(m, s, l, r, a, b, window, false);
    assert window[r..b] == window[r..a] + window[a..b];
    FoldAppend(m, window[r..a], window[a..b]);
  }

  /** `push_back` at the back region. */
  lemma Push<P>(m: Monoid<P>, s: seq<P>, l: nat, r: nat, a: nat, b: nat, window: seq<P>, lite: bool, x: P)
    requires Regions(m, s, l, r, a, b, window, lite)
    ensures Regions(m, s + [if lite then x else m.combine(BackAgg(s, b, m.identity), x)],
                    l, r, a, b, window + [x], lite)
  {
    var y := if lite then x else m.combine(BackAgg(s, b, m.identity), x);
    SuffixesAppend(m, s, 0, l, b, window, x, y);
    SuffixesAppend(m, s, l, r, r, window, x, y);
    GrowingAppend(m, s, r, a, window, lite, x, y);
    SuffixesAppend(m, s, a, b, b, window, x, y);
    GrowingPush(m, s, b, window, lite, x);
  }

  /** `pop_front` of a finished slot: every position moves down by one. */
  lemma Pop<P>(m: Monoid<P>, s: seq<P>, l: nat, r: nat, a: nat, b: nat, window: seq<P>, lite: bool)
    requires Regions(m, s, l, r, a, b, window, lite) && 0 < l
    ensures Regions(m, s[1..], l - 1, r - 1, a - 1, b - 1, window[1..], lite)
  {
    SuffixesLower(m, s, 0, l, b, window);
    SuffixesPop(m, s, 1, l, b, window);
    SuffixesPop(m, s, l, r, r, window);
    GrowingPop(m, s, r, a, window, lite);
    SuffixesPop(m, s, a, b, b, window);
    GrowingPop(m, s, b, |s|, window, lite);
  }

  /** `_flip`: when nothing is left to process, the finished front becomes
      the left part and the whole back becomes the right part
      (`l = begin; r = b; a = end; b = end`). */
  lemma Flip<P>(m: Monoid<P>, s: seq<P>, l: nat, r: nat, a: nat, b: nat, window: seq<P>, lite: bool)
    requires Regions(m, s, l, r, a, b, window, lite) && l == b
    ensures Regions(m, s, 0, b, |s|, |s|, window, lite)
  {
  }

  /** `--a; a->_agg = combine(a->_val, prev_delta)`: the newest slot of R
      joins A. */
  lemma MoveA<P(!new)>(m: Monoid<P>, s: seq<P>, l: nat, r: nat, a: nat, b: nat, window: seq<P>, lite: bool)
    requires IsMonoid(m) && Regions(m, s, l, r, a, b, window, lite) && r < a
    ensures Regions(m, s[a - 1 := m.combine(window[a - 1], Delta(s, a, b, m.identity))],
                    l, r, a - 1, b, window, lite)
  {
    var v := m.combine(window[a - 1], Delta(s, a, b, m.identity));
    var s' := s[a - 1 := v];
    DeltaIsFold(m, s, l, r, a, b, window, lite);
    assert window[a - 1..b] == [window[a - 1]] + window[a..b];
    FoldCons(m, window[a - 1], window[a..b]);
    SuffixesUpdate(m, s, 0, l, b, window, a - 1, v);
    SuffixesUpdate(m, s, l, r, r, window, a - 1, v);
    GrowingUpper(m, s, r, a, window, lite);
    GrowingUpdate(m, s, r, a - 1, window, lite, a - 1, v);
    SuffixesUpdate(m, s, a, b, b, window, a - 1, v);
    SuffixesGrowDown(m, s', a, b, b, window);
    GrowingUpdate(m, s, b, |s|, window, lite, a - 1, v);
  }

  /** `l->_agg = combine(l->_agg, ra); ++l` with `ra = R ⊕ A`: the oldest
      slot of L is finished. */
  lemma AdvanceL<P(!new)>(m: Monoid<P>, s: seq<P>, l: nat, r: nat, a: nat, b: nat, window: seq<P>, lite: bool,
                          ra: P)
    requires IsMonoid(m) && Regions(m, s, l, r, a, b, window, lite) && l < r
    requires ra == Fold(m, window[r..b])
    ensures Regions(m, s[l := m.combine(s[l], ra)], l + 1, r, a, b, window, lite)
  {
    var v := m.combine(s[l], ra);
    var s' := s[l := v];
    SuffixesLower(m, s, l, r, r, window);
    assert window[l..b] == window[l..r] + window[r..b];
    FoldAppend(m, window[l..r], window[r..b]);
    SuffixesUpdate(m, s, 0, l, b, window, l, v);
    SuffixesGrowUp(m, s', 0, l, b, window);
    SuffixesUpdate(m, s, l + 1, r, r, window, l, v);
    GrowingUpdate(m, s, r, a, window, lite, l, v);
    SuffixesUpdate(m, s, a, b, b, window, l, v);
    GrowingUpdate(m, s, b, |s|, window, lite, l, v);
  }

  /** `++l; ++r; ++a` when L and R are empty: the oldest slot of A is already
      finished. */
  lemma FreeRide<P>(m: Monoid<P>, s: seq<P>, l: nat, r: nat, a: nat, b: nat, window: seq<P>, lite: bool)
    requires Regions(m, s, l, r, a, b, window, lite) && l == r == a < b
    ensures Regions(m, s, l + 1, l + 1, l + 1, b, window, lite)
  {
    SuffixesLower(m, s, a, b, b, window);
    SuffixesGrowUp(m, s, 0, l, b, window);
  }

  /** `singleton` of the Rust version: a queue of at most one element with an
      empty front is all finished front. */
  lemma Singleton<P(!new)>(m: Monoid<P>, s: seq<P>, window: seq<P>)
    requires IsMonoid(m) && Regions(m, s, 0, 0, 0, 0, window, false) && |s| <= 1
    ensures Regions(m, s, |s|, |s|, |s|, |s|, window, false)
  {
    if |s| == 1 {
      assert window[0..1] == window[0..|s|];
    }
  }

  /** The query of the full layout: front aggregate, then back aggregate. */
  lemma Query<P(!new)>(m: Monoid<P>, s: seq<P>, l: nat, r: nat, a: nat, b: nat, window: seq<P>)
    requires IsMonoid(m) && Regions(m, s, l, r, a, b, window, false) && (b == 0 || 0 < l)
    ensures m.combine(Alpha(s, b, m.identity), BackAgg(s, b, m.identity)) == Fold(m, window)
  {
    AlphaIsFold(m, s, l, r, a, b, window, false);
    BackAggIsFold(m, s, l, r, a, b, window);
    FoldSplit(m, window, b);
  }

  /** The balance makes slot 0 finished as soon as the queue is not empty. */
  lemma BalancedFront(l: nat, r: nat, a: nat, b: nat, n: nat)
    requires Balanced(l, r, a, b, n) && l <= b <= n && 0 < n
    ensures 0 < l && n - b < b
  {
  }

  /** After a push the sizes are those `Unstepped` expects. */
  lemma BalancedPush(l: nat, r: nat, a: nat, b: nat, n: nat)
    requires Balanced(l, r, a, b, n) && l <= r <= a <= b <= n
    ensures Unstepped(l, r, a, b, n + 1)
  {
  }

  /** A pop from a non-empty queue removes a finished slot and leaves the
      sizes that `Unstepped` expects. */
  lemma BalancedPop(l: nat, r: nat, a: nat, b: nat, n: nat)
    requires Balanced(l, r, a, b, n) && l <= r <= a <= b <= n && 0 < n
    ensures 0 < l && Unstepped(l - 1, r - 1, a - 1, b - 1, n - 1)
  {
  }
}
