// The invariant of the lite DABA of cpp/src/TimestampedDABALite.hpp and
// cpp/src/RingBufferDABALite.hpp.  Each slot keeps a single `_val`: the
// regions of `Daba.Regions` in their lite form, where R and the back hold
// plain partials, plus `_midSum`, the aggregate `R ⊕ A` (the window from `r`
// to `b`), and `_backSum`, the aggregate of the back.
module DabaLite {
  import opened Monoid
  import D = Daba

  ghost predicate Inv<P>(m: Monoid<P>, s: seq<P>, l: nat, r: nat, a: nat, b: nat,
                         midSum: P, backSum: P, window: seq<P>)
  {
    D.Regions(m, s, l, r, a, b, window, true)
    && midSum == Fold(m, window[r..b]) && backSum == Fold(m, window[b..])
  }

  lemma InvEmpty<P>(m: Monoid<P>)
    ensures Inv(m, [], 0, 0, 0, 0, m.identity, m.identity, [])
  {
    D.RegionsEmpty(m, true);
  }

  /** `_backSum = combine(_backSum, lifted); _q.push_back(lifted)`. */
  lemma InvPush<P>(m: Monoid<P>, s: seq<P>, l: nat, r: nat, a: nat, b: nat,
                   midSum: P, backSum: P, window: seq<P>, x: P)
    requires Inv(m, s, l, r, a, b, midSum, backSum, window)
    ensures Inv(m, s + [x], l, r, a, b, midSum, m.combine(backSum, x), window + [x])
  {
    D.Push(m, s, l, r, a, b, window, true, x);
    var w := window + [x];
    assert w[r..b] == window[r..b];
    assert w[b..] == window[b..] + [x];
    FoldSnoc(m, window[b..], x);
  }

  /** `_q.pop_front()` of a finished slot, stated on the values after it. */
  lemma InvPopTo<P>(m: Monoid<P>, s: seq<P>, l: nat, r: nat, a: nat, b: nat,
                    midSum: P, backSum: P, window: seq<P>,
                    s': seq<P>, l': nat, r': nat, a': nat, b': nat, window': seq<P>)
    requires Inv(m, s, l, r, a, b, midSum, backSum, window) && 0 < l
    requires s' == s[1..] && l' == l - 1 && r' == r - 1 && a' == a - 1 && b' == b - 1
    requires window' == window[1..]
    ensures Inv(m, s', l', r', a', b', midSum, backSum, window')
  {
    D.Pop(m, s, l, r, a, b, window, true);
    assert window[1..][r - 1..b - 1] == window[r..b];
    assert window[1..][b - 1..] == window[b..];
  }

  /** `_flip`: `_midSum = _backSum; _backSum = identE`. */
  lemma InvFlip<P>(m: Monoid<P>, s: seq<P>, l: nat, r: nat, a: nat, b: nat,
                   midSum: P, backSum: P, window: seq<P>)
    requires Inv(m, s, l, r, a, b, midSum, backSum, window) && l == b
    ensures Inv(m, s, 0, b, |s|, |s|, backSum, m.identity, window)
  {
    D.Flip(m, s, l, r, a, b, window, true);
    assert window[b..|s|] == window[b..];
    assert window[|s|..] == [];
  }

  /** `--a; a->_val = combine(a->_val, prev_delta)`. */
  lemma InvMoveA<P(!new)>(m: Monoid<P>, s: seq<P>, l: nat, r: nat, a: nat, b: nat,
                          midSum: P, backSum: P, window: seq<P>)
    requires IsMonoid(m) && Inv(m, s, l, r, a, b, midSum, backSum, window) && r < a
    ensures Inv(m, s[a - 1 := m.combine(s[a - 1], D.Delta(s, a, b, m.identity))], l, r, a - 1, b,
                midSum, backSum, window)
  {
    assert s[a - 1] == window[a - 1];
    D.MoveA(m, s, l, r, a, b, window, true);
  }

  /** `l->_val = combine(l->_val, _midSum); ++l`. */
  lemma InvAdvanceL<P(!new)>(m: Monoid<P>, s: seq<P>, l: nat, r: nat, a: nat, b: nat,
                             midSum: P, backSum: P, window: seq<P>)
    requires IsMonoid(m) && Inv(m, s, l, r, a, b, midSum, backSum, window) && l < r
    ensures Inv(m, s[l := m.combine(s[l], midSum)], l + 1, r, a, b, midSum, backSum, window)
  {
    D.AdvanceL(m, s, l, r, a, b, window, true, midSum);
  }

  /** `++l; ++r; ++a; _midSum = _get_delta()`. */
  lemma InvFreeRide<P>(m: Monoid<P>, s: seq<P>, l: nat, r: nat, a: nat, b: nat,
                       midSum: P, backSum: P, window: seq<P>)
    requires Inv(m, s, l, r, a, b, midSum, backSum, window) && l == r == a < b
    ensures Inv(m, s, l + 1, l + 1, l + 1, b, D.Delta(s, l + 1, b, m.identity), backSum, window)
  {
    D.FreeRide(m, s, l, r, a, b, window, true);
    D.DeltaIsFold(m, s, l + 1, l + 1, l + 1, b, window, true);
  }

  /** With nothing in the queue, both sums may be reset to `identE`. */
  lemma InvReset<P>(m: Monoid<P>, s: seq<P>, l: nat, r: nat, a: nat, b: nat,
                    midSum: P, backSum: P, window: seq<P>)
    requires Inv(m, s, l, r, a, b, midSum, backSum, window) && |s| == 0
    ensures Inv(m, s, l, r, a, b, m.identity, m.identity, window)
  {
  }

  /** `combine(_get_alpha(), _get_back())` is the aggregate of the window. */
  lemma InvQuery<P(!new)>(m: Monoid<P>, s: seq<P>, l: nat, r: nat, a: nat, b: nat,
                          midSum: P, backSum: P, window: seq<P>)
    requires IsMonoid(m) && Inv(m, s, l, r, a, b, midSum, backSum, window) && (b == 0 || 0 < l)
    ensures m.combine(D.Alpha(s, b, m.identity), backSum) == Fold(m, window)
  {
    D.AlphaIsFold(m, s, l, r, a, b, window, true);
    FoldSplit(m, window, b);
  }
}
