// The out-of-order analysis of experiments/data_tools.py: the out-of-order
// degree of every timestamp (a merge-sort recursion), the high-water-mark
// gaps, the running watermarks, and the threshold sampler.
module DataTools {
  import opened Wrappers

  // ---------------------------------------------------------------------
  // Specification of the out-of-order degree.

  /** The out-of-order degree of position `i`: how many earlier timestamps
      are strictly larger.  Equal timestamps do not count. */
  function Degree(t: seq<int>, i: nat): nat
    requires i < |t|
  {
    |set j | 0 <= j < i && t[j] > t[i]|
  }

  /** An `(index, timestamp)` pair produced by `enumerate`. */
  datatype Entry = Entry(index: int, key: int)

  /** `list(enumerate(t))[lo..lo + |ts|]`: positions carry their own index. */
  ghost predicate Enumerated(ts: seq<Entry>, base: int) {
    forall k :: 0 <= k < |ts| ==> ts[k].index == base + k
  }

  function Enumerate(t: seq<int>): (r: seq<Entry>)
    ensures |r| == |t| && Enumerated(r, 0)
    ensures forall k :: 0 <= k < |t| ==> r[k].key == t[k]
  {
    if t == [] then [] else Enumerate(t[..|t| - 1]) + [Entry(|t| - 1, t[|t| - 1])]
  }

  function Keys(s: seq<Entry>): (r: seq<int>)
    ensures |r| == |s| && forall k :: 0 <= k < |s| ==> r[k] == s[k].key
  {
    if s == [] then [] else Keys(s[..|s| - 1]) + [s[|s| - 1].key]
  }

  /** Sum of `f` over the elements of a sequence. */
  function Sum(s: seq<Entry>, f: Entry -> int): int
  {
    if s == [] then 0 else Sum(s[..|s| - 1], f) + f(s[|s| - 1])
  }

  lemma {:induction false} SumAppend(s: seq<Entry>, t: seq<Entry>, f: Entry -> int)
    ensures Sum(s + t, f) == Sum(s, f) + Sum(t, f)
  {
    if t == [] {
      assert s + t == s;
    } else {
      assert (s + t)[..|s + t| - 1] == s + t[..|t| - 1];
      assert (s + t)[|s + t| - 1] == t[|t| - 1];
      SumAppend(s, t[..|t| - 1], f);
    }
  }

  /** Removing the element at `i` takes its term out of the sum. */
  lemma SumRemove(t: seq<Entry>, i: nat, f: Entry -> int)
    requires i < |t|
    ensures Sum(t, f) == Sum(t[..i] + t[i + 1..], f) + f(t[i])
  {
    var a, b := t[..i], t[i + 1..];
    SplitAt(t, i);
    SumAppend(a, [t[i]] + b, f);
    SumCons(t[i], b, f);
    SumAppend(a, b, f);
  }

  lemma SplitAt<T>(t: seq<T>, i: nat)
    requires i < |t|
    ensures t == t[..i] + ([t[i]] + t[i + 1..])
  {
  }

  lemma SumCons(x: Entry, b: seq<Entry>, f: Entry -> int)
    ensures Sum([x] + b, f) == f(x) + Sum(b, f)
  {
    SumAppend([x], b, f);
    assert [x][..0] == [];
  }

  lemma MultisetRemove(t: seq<Entry>, i: nat)
    requires i < |t|
    ensures multiset(t[..i] + t[i + 1..]) == multiset(t) - multiset{t[i]}
  {
    assert t == t[..i] + [t[i]] + t[i + 1..];
  }

  /** A sum does not depend on the order of its terms. */
  lemma {:induction false} SumPermutation(s: seq<Entry>, t: seq<Entry>, f: Entry -> int)
    requires multiset(s) == multiset(t)
    ensures Sum(s, f) == Sum(t, f)
    decreases |s|
  {
    if s == [] {
      assert |t| == |multiset(t)| == 0;
    } else {
      var n := |s| - 1;
      var x := s[n];
      assert x in multiset(t) by { assert x in multiset(s); }
      var i :| 0 <= i < |t| && t[i] == x;
      SumRemove(t, i, f);
      PermDrop(s, t, i);
      SumPermutation(s[..n], t[..i] + t[i + 1..], f);
    }
  }

  /** Taking the last element of `s` out of both sides keeps them
      permutations of each other. */
  lemma PermDrop(s: seq<Entry>, t: seq<Entry>, i: nat)
    requires multiset(s) == multiset(t) && s != [] && i < |t| && t[i] == s[|s| - 1]
    ensures multiset(s[..|s| - 1]) == multiset(t[..i] + t[i + 1..])
  {
    var n := |s| - 1;
    MultisetRemove(t, i);
    assert s == s[..n] + [s[n]];
    assert multiset(s[..n]) == multiset(s) - multiset{s[n]};
  }

  /** The number of elements whose timestamp exceeds `key`. */
  function Above(s: seq<Entry>, key: int): nat
  {
    if s == [] then 0 else Above(s[..|s| - 1], key) + (if s[|s| - 1].key > key then 1 else 0)
  }

  lemma {:induction false} AboveIsSum(s: seq<Entry>, key: int)
    ensures Above(s, key) == Sum(s, (e: Entry) => if e.key > key then 1 else 0)
  {
    if s != [] { AboveIsSum(s[..|s| - 1], key); }
  }

  lemma AbovePermutation(s: seq<Entry>, t: seq<Entry>, key: int)
    requires multiset(s) == multiset(t)
    ensures Above(s, key) == Above(t, key)
  {
    AboveIsSum(s, key);
    AboveIsSum(t, key);
    SumPermutation(s, t, (e: Entry) => if e.key > key then 1 else 0);
  }

  lemma {:induction false} AboveAppend(s: seq<Entry>, t: seq<Entry>, key: int)
    ensures Above(s + t, key) == Above(s, key) + Above(t, key)
  {
    if t == [] {
      assert s + t == s;
    } else {
      assert (s + t)[..|s + t| - 1] == s + t[..|t| - 1];
      assert (s + t)[|s + t| - 1] == t[|t| - 1];
      AboveAppend(s, t[..|t| - 1], key);
    }
  }

  /** The degree of position `p` within the slice `ts`. */
  function SliceDegree(ts: seq<Entry>, p: nat): nat
    requires p < |ts|
  {
    Above(ts[..p], ts[p].key)
  }

  /** A count over a prefix is the size of the set of matching positions. */
  lemma {:induction false} AboveIsCardinality(t: seq<int>, n: nat, key: int)
    requires n <= |t|
    ensures Above(Enumerate(t)[..n], key) == |set j | 0 <= j < n && t[j] > key|
  {
    if n > 0 {
      AboveIsCardinality(t, n - 1, key);
      var s := Enumerate(t)[..n];
      assert s[..n - 1] == Enumerate(t)[..n - 1] && s[n - 1].key == t[n - 1];
      assert Above(s, key) == Above(s[..n - 1], key) + (if t[n - 1] > key then 1 else 0);
      CountStep(t, n, key);
    }
  }

  /** One more position adds one to the count when its timestamp is above. */
  lemma CountStep(t: seq<int>, n: nat, key: int)
    requires 0 < n <= |t|
    ensures |set j | 0 <= j < n && t[j] > key|
            == |set j | 0 <= j < n - 1 && t[j] > key| + (if t[n - 1] > key then 1 else 0)
  {
    var a := set j | 0 <= j < n - 1 && t[j] > key;
    var b := set j | 0 <= j < n && t[j] > key;
    if t[n - 1] > key {
      assert b == a + {n - 1};
    } else {
      assert b == a;
    }
  }

  // ---------------------------------------------------------------------
  // The stable sort `sorted(..., key=lambda r: r[1])`.

  ghost predicate SortedByKey(s: seq<Entry>) {
    forall i, j :: 0 <= i < j < |s| ==> s[i].key <= s[j].key
  }

  /** Entries with equal timestamps appear in index order: what a stable
      sort of an enumerated list gives. */
  ghost predicate TiesInIndexOrder(s: seq<Entry>) {
    forall i, j :: 0 <= i < j < |s| && s[i].key == s[j].key ==> s[i].index < s[j].index
  }

  /** Inserts `x` after every element whose key is at most `x.key`. */
  function Insert(r: seq<Entry>, x: Entry): (q: seq<Entry>)
    ensures multiset(q) == multiset(r) + multiset{x}
  {
    if r == [] || r[|r| - 1].key <= x.key then r + [x]
    else
      assert r == r[..|r| - 1] + [r[|r| - 1]];
      Insert(r[..|r| - 1], x) + [r[|r| - 1]]
  }

  /** `y` may follow the ordered `q` when it is at least as large as every
      element, and later than every element with the same key. */
  ghost predicate MayFollow(q: seq<Entry>, y: Entry) {
    forall e :: e in q ==> e.key <= y.key && (e.key == y.key ==> e.index < y.index)
  }

  lemma AppendOrdered(q: seq<Entry>, y: Entry)
    requires SortedByKey(q) && TiesInIndexOrder(q) && MayFollow(q, y)
    ensures SortedByKey(q + [y]) && TiesInIndexOrder(q + [y])
  {
    forall i | 0 <= i < |q| ensures (q + [y])[i] in q { }
  }

  lemma {:induction false} InsertOrdered(r: seq<Entry>, x: Entry)
    requires SortedByKey(r) && TiesInIndexOrder(r)
    requires forall e :: e in r && e.key == x.key ==> e.index < x.index
    ensures SortedByKey(Insert(r, x)) && TiesInIndexOrder(Insert(r, x))
  {
    if r == [] || r[|r| - 1].key <= x.key {
      AppendOrdered(r, x);
    } else {
      var r' := r[..|r| - 1];
      var y := r[|r| - 1];
      assert SortedByKey(r') && TiesInIndexOrder(r');
      InsertOrdered(r', x);
      var q := Insert(r', x);
      forall e | e in q ensures e.key <= y.key && (e.key == y.key ==> e.index < y.index) {
        assert e in multiset(q);
        if e != x {
          assert e in multiset(r');
          var i :| 0 <= i < |r'| && r'[i] == e;
          assert r[i] == e;
        }
      }
      AppendOrdered(q, y);
    }
  }

  function SortByKey(s: seq<Entry>): (r: seq<Entry>)
    ensures multiset(r) == multiset(s)
  {
    if s == [] then []
    else
      assert s == s[..|s| - 1] + [s[|s| - 1]];
      Insert(SortByKey(s[..|s| - 1]), s[|s| - 1])
  }

  /** Sorting by timestamp is stable: a permutation, ordered by key, and
      ties keep their index order. */
  lemma {:induction false} SortByKeyOrdered(s: seq<Entry>)
    requires TiesInIndexOrder(s)
    ensures SortedByKey(SortByKey(s)) && TiesInIndexOrder(SortByKey(s))
  {
    if s != [] {
      var p := s[..|s| - 1];
      var x := s[|s| - 1];
      SortByKeyOrdered(p);
      forall e | e in SortByKey(p) && e.key == x.key ensures e.index < x.index {
        assert e in multiset(SortByKey(p));
        assert e in p;
      }
      InsertOrdered(SortByKey(p), x);
    }
  }

  // ---------------------------------------------------------------------
  // `bisect_right`

  /** `bisect_right(a, x)` on a sorted list: the number of elements that are
      at most `x`, found by binary search. */
  method BisectRight(a: seq<int>, x: int) returns (lo: nat)
    requires forall i, j :: 0 <= i < j < |a| ==> a[i] <= a[j]
    ensures lo <= |a|
    ensures forall i :: 0 <= i < lo ==> a[i] <= x
    ensures forall i :: lo <= i < |a| ==> a[i] > x
  {
    lo := 0;
    var hi := |a|;
    while lo < hi
      invariant 0 <= lo <= hi <= |a|
      invariant forall i :: 0 <= i < lo ==> a[i] <= x
      invariant forall i :: hi <= i < |a| ==> a[i] > x
    {
      var mid := (lo + hi) / 2;
      if x < a[mid] {
        hi := mid;
      } else {
        lo := mid + 1;
      }
    }
  }

  /** In a sorted list, the elements above `key` are exactly those after the
      `bisect_right` position. */
  lemma {:induction false} AboveSuffix(s: seq<Entry>, key: int, lo: nat)
    requires lo <= |s|
    requires forall i :: 0 <= i < lo ==> s[i].key <= key
    requires forall i :: lo <= i < |s| ==> s[i].key > key
    ensures Above(s, key) == |s| - lo
  {
    if lo == |s| {
      ZeroAbove(s, key);
    } else {
      AboveSuffix(s[..|s| - 1], key, lo);
    }
  }

  lemma {:induction false} ZeroAbove(s: seq<Entry>, key: int)
    requires forall i :: 0 <= i < |s| ==> s[i].key <= key
    ensures Above(s, key) == 0
  {
    if s != [] { ZeroAbove(s[..|s| - 1], key); }
  }

  // ---------------------------------------------------------------------
  // `recursive_ood` and `compute_out_of_order_degree`

  /** How much `ood[k]` grows while the entries `rs` of the right half are
      processed against the sorted left half. */
  function Growth(rs: seq<Entry>, left: seq<Entry>, k: int): int
  {
    Sum(rs, (e: Entry) => if e.index == k then Above(left, e.key) else 0)
  }

  /** In an enumerated slice only the entry carrying index `k` contributes. */
  lemma {:induction false} EnumeratedGrowth(ts: seq<Entry>, base: int, left: seq<Entry>, k: int)
    requires Enumerated(ts, base)
    ensures Growth(ts, left, k) == if base <= k < base + |ts| then Above(left, ts[k - base].key) else 0
  {
    if ts != [] {
      EnumeratedGrowth(ts[..|ts| - 1], base, left, k);
    }
  }

  /** An entry of a permutation of an enumerated slice carries an index of
      that slice. */
  lemma EntryOfSlice(ts: seq<Entry>, base: int, r: seq<Entry>, j: nat)
    requires Enumerated(ts, base) && multiset(r) == multiset(ts) && j < |r|
    ensures base <= r[j].index < base + |ts|
  {
    assert r[j] in multiset(ts);
  }

  /** Processing one more right entry grows only the counter it names. */
  lemma GrowthStep(rs: seq<Entry>, e: Entry, left: seq<Entry>, k: int)
    ensures Growth(rs + [e], left, k) == Growth(rs, left, k) + (if e.index == k then Above(left, e.key) else 0)
  {
    SumAppend(rs, [e], (e': Entry) => if e'.index == k then Above(left, e'.key) else 0);
    assert [e][..0] == [];
  }

  /** The degrees within the two halves plus what the merge adds are the
      degrees within the whole slice: every pair of positions is counted
      either inside one half or, when it straddles the split, by the merge. */
  lemma MergeCounts(ts: seq<Entry>, base: int, m: nat, left: seq<Entry>, right: seq<Entry>, k: int)
    requires Enumerated(ts, base) && m <= |ts|
    requires multiset(left) == multiset(ts[..m]) && multiset(right) == multiset(ts[m..])
    ensures (if base <= k < base + m then SliceDegree(ts[..m], k - base) else 0)
          + (if base + m <= k < base + |ts| then SliceDegree(ts[m..], k - base - m) else 0)
          + Growth(right, left, k)
         == (if base <= k < base + |ts| then SliceDegree(ts, k - base) else 0)
  {
    var lo := ts[..m];
    var hi := ts[m..];
    assert ts == lo + hi;
    assert Enumerated(hi, base + m);
    SumPermutation(right, hi, (e: Entry) => if e.index == k then Above(left, e.key) else 0);
    EnumeratedGrowth(hi, base + m, left, k);
    if base <= k < base + m {
      var p := k - base;
      assert lo[..p] == ts[..p];
    } else if base + m <= k < base + |ts| {
      var p := k - base - m;
      assert k - base == m + p && ts[m + p] == hi[p];
      AbovePermutation(left, lo, hi[p].key);
      assert ts[..k - base] == lo + hi[..p];
      AboveAppend(lo, hi[..p], hi[p].key);
      assert Growth(right, left, k) == Above(left, hi[p].key);
      assert SliceDegree(ts, k - base) == Above(lo + hi[..p], hi[p].key);
    }
  }

  /** Entries of the sorted left half precede, by index, entries of the
      sorted right half, so sorting their concatenation stably keeps ties in
      index order. */
  lemma HalvesTieOrdered(ts: seq<Entry>, base: int, m: nat, left: seq<Entry>, right: seq<Entry>)
    requires Enumerated(ts, base) && m <= |ts|
    requires multiset(left) == multiset(ts[..m]) && multiset(right) == multiset(ts[m..])
    requires TiesInIndexOrder(left) && TiesInIndexOrder(right)
    ensures TiesInIndexOrder(left + right)
  {
    forall i, i' | 0 <= i < |left| && 0 <= i' < |right| ensures left[i].index < right[i'].index {
      EntryOfSlice(ts[..m], base, left, i);
      EntryOfSlice(ts[m..], base + m, right, i');
    }
  }

  /** The loop of `recursive_ood` over the right half: every right entry's
      counter grows by the number of left timestamps strictly above its own,
      `len(left) - bisect_right(left_keys, key)`. */
  method CountAgainstLeft(left: seq<Entry>, right: seq<Entry>, ood: array<int>)
    requires SortedByKey(left)
    requires forall j :: 0 <= j < |right| ==> 0 <= right[j].index < ood.Length
    modifies ood
    ensures forall k :: 0 <= k < ood.Length ==> ood[k] == old(ood[k]) + Growth(right, left, k)
  {
    var leftKeys := Keys(left);
    var j := 0;
    while j < |right|
      invariant 0 <= j <= |right|
      invariant forall k :: 0 <= k < ood.Length ==> ood[k] == old(ood[k]) + Growth(right[..j], left, k)
    {
      var e := right[j];
      var pos := BisectRight(leftKeys, e.key);
      var d := |left| - pos;
      AboveSuffix(left, e.key, pos);
      assert right[..j + 1] == right[..j] + [e];
      forall k | 0 <= k < ood.Length
        ensures Growth(right[..j + 1], left, k) == Growth(right[..j], left, k) + (if e.index == k then d else 0)
      {
        GrowthStep(right[..j], e, left, k);
      }
      ood[e.index] := ood[e.index] + d;
      j := j + 1;
    }
    assert right[..|right|] == right;
  }

  /** The recursion of `recursive_ood` on a slice `ts` of the enumerated
      timestamps starting at `base`: it adds to every `ood[index]` of the
      slice the number of earlier, strictly larger timestamps inside the
      slice, leaves the rest of `ood` alone, and returns the slice sorted
      stably by timestamp. */
  method RecursiveOod(ts: seq<Entry>, ood: array<int>, ghost base: int) returns (r: seq<Entry>)
    requires Enumerated(ts, base) && 0 <= base && base + |ts| <= ood.Length
    modifies ood
    ensures multiset(r) == multiset(ts)
    ensures SortedByKey(r) && TiesInIndexOrder(r)
    ensures forall k :: 0 <= k < ood.Length ==>
      ood[k] == old(ood[k]) + (if base <= k < base + |ts| then SliceDegree(ts, k - base) else 0)
    decreases |ts|
  {
    if |ts| <= 1 {
      forall p | 0 <= p < |ts| ensures SliceDegree(ts, p) == 0 {
        assert ts[..0] == [];
      }
      return ts;
    }
    var m := |ts| / 2;
    ghost var before := ood[..];
    var left := RecursiveOod(ts[..m], ood, base);
    var right := RecursiveOod(ts[m..], ood, base + m);
    forall j | 0 <= j < |right| ensures 0 <= right[j].index < ood.Length {
      EntryOfSlice(ts[m..], base + m, right, j);
    }
    CountAgainstLeft(left, right, ood);
    forall k | 0 <= k < ood.Length
      ensures ood[k] == before[k] + (if base <= k < base + |ts| then SliceDegree(ts, k - base) else 0)
    {
      MergeCounts(ts, base, m, left, right, k);
    }
    HalvesTieOrdered(ts, base, m, left, right);
    r := SortByKey(left + right);
    SortByKeyOrdered(left + right);
    assert ts == ts[..m] + ts[m..];
    assert multiset(left + right) == multiset(ts);
  }

  /** `compute_out_of_order_degree`: the out-of-order degree of every
      position. */
  method ComputeOutOfOrderDegree(timestamps: seq<int>) returns (r: seq<int>)
    ensures |r| == |timestamps|
    ensures forall i :: 0 <= i < |r| ==> r[i] == Degree(timestamps, i)
  {
    var ood := new int[|timestamps|](_ => 0);
    var indexed := Enumerate(timestamps);
    var _ := RecursiveOod(indexed, ood, 0);
    r := ood[..];
    forall i | 0 <= i < |r| ensures r[i] == Degree(timestamps, i) {
      AboveIsCardinality(timestamps, i, timestamps[i]);
    }
  }

  /** The degree of position `i` is at most `i`, and position 0 has none. */
  lemma DegreeBounds(t: seq<int>, i: nat)
    requires i < |t|
    ensures 0 <= Degree(t, i) <= i
    ensures i == 0 ==> Degree(t, i) == 0
  {
    AboveIsCardinality(t, i, t[i]);
    AboveAtMostLength(Enumerate(t)[..i], t[i]);
  }

  lemma {:induction false} AboveAtMostLength(s: seq<Entry>, key: int)
    ensures Above(s, key) <= |s|
  {
    if s != [] { AboveAtMostLength(s[..|s| - 1], key); }
  }

  // ---------------------------------------------------------------------
  // Watermarks

  /** The high-water mark at position `i`: the largest timestamp so far. */
  function HighWatermark(t: seq<int>, i: nat): int
    requires i < |t|
  {
    if i == 0 then t[0]
    else
      var w := HighWatermark(t, i - 1);
      if t[i] > w then t[i] else w
  }

  /** The high-water mark is the maximum of the timestamps seen so far. */
  lemma {:induction false} HighWatermarkIsMaximum(t: seq<int>, i: nat)
    requires i < |t|
    ensures forall j :: 0 <= j <= i ==> t[j] <= HighWatermark(t, i)
    ensures exists j :: 0 <= j <= i && t[j] == HighWatermark(t, i)
  {
    if i > 0 {
      HighWatermarkIsMaximum(t, i - 1);
      var j :| 0 <= j <= i - 1 && t[j] == HighWatermark(t, i - 1);
      if t[i] <= HighWatermark(t, i - 1) {
        assert t[j] == HighWatermark(t, i);
      }
    } else {
      assert t[0] == HighWatermark(t, 0);
    }
  }

  /** `list(accumulate(timestamps, max))`. */
  function Watermarks(t: seq<int>): (r: seq<int>)
    ensures |r| == |t|
  {
    if t == [] then [] else
      var w := Watermarks(t[..|t| - 1]);
      w + [if |t| == 1 then t[0] else Max(w[|t| - 2], t[|t| - 1])]
  }

  function Max(a: int, b: int): int { if a >= b then a else b }

  /** The running maximum: every entry is the high-water mark there, so the
      list is non-decreasing. */
  lemma {:induction false} WatermarksAreMaxima(t: seq<int>)
    ensures forall i :: 0 <= i < |t| ==> Watermarks(t)[i] == HighWatermark(t, i)
    ensures forall i, j :: 0 <= i <= j < |t| ==> Watermarks(t)[i] <= Watermarks(t)[j]
  {
    if t != [] {
      var p := t[..|t| - 1];
      WatermarksAreMaxima(p);
      forall i | 0 <= i < |p| ensures HighWatermark(p, i) == HighWatermark(t, i) {
        HighWatermarkPrefix(t, p, i);
      }
      forall i, j | 0 <= i <= j < |t| ensures Watermarks(t)[i] <= Watermarks(t)[j] {
        HighWatermarkMono(t, i, j);
      }
    }
  }

  lemma {:induction false} HighWatermarkPrefix(t: seq<int>, p: seq<int>, i: nat)
    requires p <= t && i < |p|
    ensures HighWatermark(p, i) == HighWatermark(t, i)
  {
    if i > 0 { HighWatermarkPrefix(t, p, i - 1); }
  }

  lemma {:induction false} HighWatermarkMono(t: seq<int>, i: nat, j: nat)
    requires i <= j < |t|
    ensures HighWatermark(t, i) <= HighWatermark(t, j)
  {
    if i < j { HighWatermarkMono(t, i, j - 1); }
  }

  /** `analyze_watermark`: how far every timestamp lags behind the
      high-water mark.  The unpacking `high_wm, *_ = timestamps` raises on
      an empty list. */
  method AnalyzeWatermark(timestamps: seq<int>) returns (r: Result<seq<int>, string>)
    ensures r.Err? <==> timestamps == []
    ensures r.Ok? ==> |r.value| == |timestamps|
    ensures r.Ok? ==> forall i :: 0 <= i < |timestamps| ==>
      r.value[i] == HighWatermark(timestamps, i) - timestamps[i] && r.value[i] >= 0
  {
    if |timestamps| == 0 {
      return Err("not enough values to unpack");
    }
    var gaps := seq(|timestamps|, _ => 0);
    var highWm := timestamps[0];
    var index := 0;
    while index < |timestamps|
      invariant 0 <= index <= |timestamps| && |gaps| == |timestamps|
      invariant index == 0 ==> highWm == timestamps[0]
      invariant index > 0 ==> highWm == HighWatermark(timestamps, index - 1)
      invariant forall i :: 0 <= i < index ==> gaps[i] == HighWatermark(timestamps, i) - timestamps[i]
      invariant forall i :: 0 <= i < index ==> gaps[i] >= 0
    {
      var ts := timestamps[index];
      highWm := Max(ts, highWm);
      assert highWm == HighWatermark(timestamps, index);
      gaps := gaps[index := highWm - ts];
      index := index + 1;
    }
    return Ok(gaps);
  }

  /** The gap at each position is the watermark there minus the timestamp. */
  lemma GapsFromWatermarks(t: seq<int>, i: nat)
    requires i < |t|
    ensures HighWatermark(t, i) - t[i] == Watermarks(t)[i] - t[i] >= 0
  {
    WatermarksAreMaxima(t);
    HighWatermarkIsMaximum(t, i);
  }

  // ---------------------------------------------------------------------
  // Threshold sampling

  /** Position `i` of the series made it into the sample. */
  ghost predicate Picked(sampled: seq<(nat, int)>, i: nat) {
    exists k :: 0 <= k < |sampled| && sampled[k].0 == i
  }

  lemma PickedAppend(sampled: seq<(nat, int)>, x: (nat, int))
    ensures Picked(sampled + [x], x.0)
    ensures forall i :: i != x.0 ==> (Picked(sampled + [x], i) <==> Picked(sampled, i))
  {
    assert (sampled + [x])[|sampled|] == x;
    forall i | i != x.0 && Picked(sampled + [x], i) ensures Picked(sampled, i) {
      var k :| 0 <= k < |sampled + [x]| && (sampled + [x])[k].0 == i;
      assert sampled[k].0 == i;
    }
    forall i | Picked(sampled, i) ensures Picked(sampled + [x], i) {
      var k :| 0 <= k < |sampled| && sampled[k].0 == i;
      assert (sampled + [x])[k].0 == i;
    }
  }

  /** `threshold_sample`.  `lucky[i]` is the outcome of the random test
      `random.random() < p*(1+a*log10(d+1))` for element `i` (drawn once
      per element, before the threshold is looked at); an element is kept
      when it wins that draw or exceeds `thres`. */
  method ThresholdSample(lucky: seq<bool>, thres: int, series: seq<int>) returns (sampled: seq<(nat, int)>)
    requires |lucky| == |series|
    ensures forall k :: 0 <= k < |sampled| ==> sampled[k].0 < |series| && sampled[k].1 == series[sampled[k].0]
    ensures forall k, k' :: 0 <= k < k' < |sampled| ==> sampled[k].0 < sampled[k'].0
    ensures forall i :: 0 <= i < |series| ==> (Picked(sampled, i) <==> lucky[i] || series[i] > thres)
  {
    sampled := [];
    var i := 0;
    while i < |series|
      invariant 0 <= i <= |series|
      invariant forall k :: 0 <= k < |sampled| ==> sampled[k].0 < i && sampled[k].1 == series[sampled[k].0]
      invariant forall k, k' :: 0 <= k < k' < |sampled| ==> sampled[k].0 < sampled[k'].0
      invariant forall i' :: 0 <= i' < i ==> (Picked(sampled, i') <==> lucky[i'] || series[i'] > thres)
    {
      var d := series[i];
      if lucky[i] || d > thres {
        PickedAppend(sampled, (i, d));
        sampled := sampled + [(i, d)];
      }
      i := i + 1;
    }
  }

  // ---------------------------------------------------------------------
  // The sample of the script's main block.

  function Sample(): seq<int> { [300, 1, 2, 125, 100, 303, 4, 9, 300] }

  /** The script's main block: the degrees, gaps and watermarks of its
      sample. */
  lemma SampleResults()
    ensures forall i :: 0 <= i < |Sample()| ==> Degree(Sample(), i) == [0, 1, 1, 1, 2, 0, 4, 4, 1][i]
    ensures forall i :: 0 <= i < |Sample()| ==> HighWatermark(Sample(), i) - Sample()[i] == [0, 299, 298, 175, 200, 0, 299, 294, 3][i]
    ensures Watermarks(Sample()) == [300, 300, 300, 300, 300, 303, 303, 303, 303]
  {
    SampleWatermarks();
    SampleDegrees();
  }

  lemma SampleWatermarks()
    ensures forall i :: 0 <= i < |Sample()| ==> HighWatermark(Sample(), i) - Sample()[i] == [0, 299, 298, 175, 200, 0, 299, 294, 3][i]
    ensures Watermarks(Sample()) == [300, 300, 300, 300, 300, 303, 303, 303, 303]
  {
    WatermarksAreMaxima(Sample());
    assert HighWatermark(Sample(), 4) == 300;
    assert HighWatermark(Sample(), 8) == 303;
  }

  lemma SampleDegrees()
    ensures forall i :: 0 <= i < |Sample()| ==> Degree(Sample(), i) == [0, 1, 1, 1, 2, 0, 4, 4, 1][i]
  {
    DegreeBounds(Sample(), 0);
    assert (set j | 0 <= j < 1 && Sample()[j] > Sample()[1]) == {0};
    assert (set j | 0 <= j < 2 && Sample()[j] > Sample()[2]) == {0};
    assert (set j | 0 <= j < 3 && Sample()[j] > Sample()[3]) == {0};
    assert (set j | 0 <= j < 4 && Sample()[j] > Sample()[4]) == {0, 3};
    assert (set j | 0 <= j < 5 && Sample()[j] > Sample()[5]) == {};
    assert (set j | 0 <= j < 6 && Sample()[j] > Sample()[6]) == {0, 3, 4, 5};
    assert (set j | 0 <= j < 7 && Sample()[j] > Sample()[7]) == {0, 3, 4, 5};
    assert (set j | 0 <= j < 8 && Sample()[j] > Sample()[8]) == {5};
  }
}
