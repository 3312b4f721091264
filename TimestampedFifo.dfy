// cpp/src/TimestampedFifo.hpp: a timestamped window built from an
// untimestamped FIFO aggregator and a `ChunkedArrayQueue` of timestamps that
// moves in lockstep with it.  The inner aggregator here is the two-stacks
// aggregator of `TwoStacks`; the source accepts any FIFO aggregator with
// `insert`, `evict`, `query` and `size`.
module TimestampedFifo {
  import opened Monoid
  import CQ = ChunkedArrayQueue
  import TS = TwoStacks

  class Aggregate<T(0), In, P(!new), Out> {
    /** `_times`. */
    const times: CQ.ChunkedArrayQueue<T>
    /** `_q`. */
    const q: TS.Aggregate<In, P, Out>
    ghost var Repr: set<object>

    ghost predicate Valid()
      reads this, Repr
    {
      times in Repr && q in Repr && times.Repr <= Repr && this !in Repr
      && Repr == {times, q} + times.Repr
      && q !in times.Repr && (times as object) != q
      && times.Valid() && q.Valid()
      && |times.contents| == |q.window|
    }

    /** The window of lifted partials, oldest first. */
    ghost function Window(): seq<P>
      reads this, q
    {
      q.window
    }

    /** The timestamps of the window, oldest first. */
    ghost function Times(): seq<T>
      reads this, times
    {
      times.contents
    }

    /** `timeSize` stands for `sizeof(Timestamp)`, which fixes the chunk
        capacity of `_times`. */
    constructor(binOp: BinOp<In, P, Out>, identE: P, timeSize: nat)
      requires IsMonoid(Monoid(binOp.m.combine, identE)) && timeSize > 0
      ensures Valid() && fresh(Repr) && Window() == [] && Times() == []
      ensures q.op == binOp && q.m.identity == identE
    {
      times := new CQ.ChunkedArrayQueue<T>(timeSize);
      q := new TS.Aggregate(binOp, identE);
      new;
      Repr := {times, q} + times.Repr;
    }

    function Size(): (n: nat)
      reads this, Repr
      requires Valid()
      ensures n == |Window()| && n == |Times()|
    {
      q.Size()
    }

    method Insert(time: T, v: In)
      requires Valid()
      modifies this, Repr
      ensures Valid() && fresh(Repr - old(Repr))
      ensures Window() == old(Window()) + [q.op.lift(v)] && Times() == old(Times()) + [time]
    {
      times.PushBack(time);
      q.Insert(v);
      Repr := {times, q} + times.Repr;
    }

    /** Drops the oldest value and its timestamp. */
    method Evict()
      requires Valid() && |Window()| > 0
      modifies Repr
      ensures Valid() && Repr == old(Repr)
      ensures Window() == old(Window())[1..] && Times() == old(Times())[1..]
    {
      times.PopFront();
      q.Evict();
    }

    function Oldest(): (t: T)
      reads this, Repr
      requires Valid() && |Times()| > 0
      ensures t == Times()[0]
    {
      times.Front()
    }

    function Youngest(): (t: T)
      reads this, Repr
      requires Valid() && |Times()| > 0
      ensures t == Times()[|Times()| - 1]
    {
      times.Back()
    }

    method Query() returns (r: Out)
      requires Valid()
      ensures r == q.op.lower(Fold(q.m, Window()))
    {
      r := q.Query();
    }
  }
}
