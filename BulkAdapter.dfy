// cpp/src/BulkAdapter.hpp: bulk insertion and bulk eviction layered over a
// timestamped aggregator `Base` by repeated single-value calls.  `Base` is
// instantiated here by `TimestampedTwoStacksLite` with integer timestamps,
// as `make_bulk_aggregate` of cpp/src/TimestampedTwoStacksLite.hpp does.
module BulkAdapter {
  import opened Monoid
  import TSL = TimestampedTwoStacksLite

  /** The number of leading timestamps that are at most `bound`: the prefix
      `bulkEvict(bound)` removes. */
  function LeadingAtMost(ts: seq<int>, bound: int): (k: nat)
    ensures k <= |ts|
    ensures forall i :: 0 <= i < k ==> ts[i] <= bound
    ensures k < |ts| ==> ts[k] > bound
  {
    if ts == [] || ts[0] > bound then 0 else 1 + LeadingAtMost(ts[1..], bound)
  }

  ghost predicate NonDecreasing(ts: seq<int>)
  {
    forall i, j :: 0 <= i <= j < |ts| ==> ts[i] <= ts[j]
  }

  /** On a window in time order, the removed prefix is exactly the
      timestamps at most `bound`: everything left is younger. */
  lemma LeadingAtMostSorted(ts: seq<int>, bound: int)
    requires NonDecreasing(ts)
    ensures forall i :: 0 <= i < |ts| ==> (i < LeadingAtMost(ts, bound) <==> ts[i] <= bound)
  {
    var k := LeadingAtMost(ts, bound);
    forall i | 0 <= i < |ts|
      ensures i < k <==> ts[i] <= bound
    {
      if k <= i {
        assert ts[k] <= ts[i];
      }
    }
  }

  /** The lifted values of a batch, in batch order. */
  function Lifted<In, P, Out>(op: BinOp<In, P, Out>, entries: seq<(int, In)>): (r: seq<P>)
    ensures |r| == |entries|
    ensures forall i :: 0 <= i < |r| ==> r[i] == op.lift(entries[i].1)
  {
    if entries == [] then [] else Lifted(op, entries[..|entries| - 1]) + [op.lift(entries[|entries| - 1].1)]
  }

  /** The timestamps of a batch, in batch order. */
  function Stamps<In>(entries: seq<(int, In)>): (r: seq<int>)
    ensures |r| == |entries|
    ensures forall i :: 0 <= i < |r| ==> r[i] == entries[i].0
  {
    if entries == [] then [] else Stamps(entries[..|entries| - 1]) + [entries[|entries| - 1].0]
  }

  lemma BatchSnoc<In, P, Out>(op: BinOp<In, P, Out>, entries: seq<(int, In)>, i: nat)
    requires i < |entries|
    ensures Lifted(op, entries[..i + 1]) == Lifted(op, entries[..i]) + [op.lift(entries[i].1)]
    ensures Stamps(entries[..i + 1]) == Stamps(entries[..i]) + [entries[i].0]
  {
    assert entries[..i + 1][..i] == entries[..i];
  }

  lemma SnocTo<X>(s0: seq<X>, s: seq<X>, x: X, s': seq<X>)
    requires s' == s + [x]
    ensures s0 + s + [x] == s0 + s'
  {
    assert (s0 + s) + [x] == s0 + (s + [x]);
  }

  /** `bulkInsert`: the entries in order, each by `insert(time, value)`. */
  method BulkInsert<In, P(!new), Out>(agg: TSL.Aggregate<In, P, Out, int>, entries: seq<(int, In)>)
    requires agg.Valid()
    modifies agg
    ensures agg.Valid()
    ensures agg.window == old(agg.window) + Lifted(agg.op, entries)
    ensures agg.times == old(agg.times) + Stamps(entries)
  {
    ghost var w0, t0 := agg.window, agg.times;
    var i := 0;
    while i < |entries|
      invariant 0 <= i <= |entries| && agg.Valid()
      invariant agg.window == w0 + Lifted(agg.op, entries[..i])
      invariant agg.times == t0 + Stamps(entries[..i])
    {
      ghost var w, t := agg.window, agg.times;
      agg.Insert(entries[i].0, entries[i].1);
      BatchSnoc(agg.op, entries, i);
      SnocTo(w0, Lifted(agg.op, entries[..i]), agg.op.lift(entries[i].1), Lifted(agg.op, entries[..i + 1]));
      SnocTo(t0, Stamps(entries[..i]), entries[i].0, Stamps(entries[..i + 1]));
      i := i + 1;
    }
    assert entries[..i] == entries;
  }

  /** `bulkEvict`: evicts while the oldest timestamp is at most `time`.  The
      loop reads `oldest()` without checking for an empty window, so some
      timestamp of the window must be younger than `time`. */
  method BulkEvict<In, P(!new), Out>(agg: TSL.Aggregate<In, P, Out, int>, time: int)
    requires agg.Valid() && LeadingAtMost(agg.times, time) < |agg.times|
    modifies agg
    ensures agg.Valid() && |agg.times| > 0 && agg.Oldest() > time
    ensures agg.times == old(agg.times)[LeadingAtMost(old(agg.times), time)..]
    ensures agg.window == old(agg.window)[LeadingAtMost(old(agg.times), time)..]
  {
    ghost var k := LeadingAtMost(agg.times, time);
    ghost var i := 0;
    while agg.Oldest() <= time
      invariant 0 <= i <= k && agg.Valid()
      invariant agg.times == old(agg.times)[i..] && agg.window == old(agg.window)[i..]
      decreases k - i
    {
      agg.Evict();
      i := i + 1;
    }
  }
}
