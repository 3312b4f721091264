// cpp/src/TimestampedImplicitTwoStacksLite.hpp: the single-queue two stacks
// whose entries carry timestamps, with the front size kept as the counter
// `_num_flipped`.  Its `flip` runs over every slot, the oldest included.  The
// stored values are projected onto the queue layout of `RustTwoStacksLite`;
// the timestamps of the queue are the times of the window.
module TimestampedImplicitTwoStacksLite {
  import opened Monoid
  import R = RustTwoStacksLite
  import I = ImplicitTwoStacksLite

  datatype AggT<P, T> = AggT(val: P, timestamp: T)

  function Values<P, T>(s: seq<AggT<P, T>>): (r: seq<P>)
    ensures |r| == |s|
  {
    seq(|s|, k requires 0 <= k < |s| => s[k].val)
  }

  function Times<P, T>(s: seq<AggT<P, T>>): (r: seq<T>)
    ensures |r| == |s|
  {
    seq(|s|, k requires 0 <= k < |s| => s[k].timestamp)
  }

  lemma Push<P, T>(s: seq<AggT<P, T>>, e: AggT<P, T>)
    ensures Values(s + [e]) == Values(s) + [e.val] && Times(s + [e]) == Times(s) + [e.timestamp]
  {
  }

  lemma Pop<P, T>(s: seq<AggT<P, T>>)
    requires |s| > 0
    ensures Values(s[1..]) == Values(s)[1..] && Times(s[1..]) == Times(s)[1..]
  {
  }

  /** Overwriting one slot's value leaves the times alone. */
  lemma Overwrite<P, T>(s: seq<AggT<P, T>>, i: nat, v: P)
    requires i < |s|
    ensures Values(s[i := AggT(v, s[i].timestamp)]) == Values(s)[i := v]
    ensures Times(s[i := AggT(v, s[i].timestamp)]) == Times(s)
  {
  }

  /** The flip's state on entries: `I.Flipping` on their values, times untouched. */
  ghost predicate Flipping<P, T>(m: Monoid<P>, q: seq<AggT<P, T>>, it: nat, running: P,
                                 window: seq<P>, times: seq<T>)
  {
    Times(q) == times && I.Flipping(m, Values(q), it, running, window)
  }

  lemma FlipStep<P(!new), T>(m: Monoid<P>, q: seq<AggT<P, T>>, it: nat, running: P,
                             window: seq<P>, times: seq<T>)
    requires IsMonoid(m) && 0 < it <= |q| && Flipping(m, q, it, running, window, times)
    ensures Flipping(m, q[it - 1 := AggT(m.combine(q[it - 1].val, running), q[it - 1].timestamp)], it - 1,
                     m.combine(q[it - 1].val, running), window, times)
  {
    I.FlipStep(m, Values(q), it - 1, running, window);
    Overwrite(q, it - 1, m.combine(q[it - 1].val, running));
  }

  class Aggregate<In, P(!new), Out, T> {
    const op: BinOp<In, P, Out>
    const m: Monoid<P>
    var q: seq<AggT<P, T>>
    var numFlipped: nat
    var backSum: P
    ghost var window: seq<P>
    /** The timestamps of the window, oldest first. */
    ghost var times: seq<T>

    ghost predicate Valid()
      reads this
    {
      IsMonoid(m) && m.combine == op.m.combine
      && R.Inv(m, Values(q), numFlipped, backSum, window) && times == Times(q)
    }

    constructor(binOp: BinOp<In, P, Out>, identE: P)
      requires IsMonoid(Monoid(binOp.m.combine, identE))
      ensures Valid() && op == binOp && m.identity == identE
      ensures window == [] && times == []
    {
      op := binOp;
      m := Monoid(binOp.m.combine, identE);
      q, numFlipped, backSum := [], 0, identE;
      window, times := [], [];
      R.InvEmpty(Monoid(binOp.m.combine, identE));
    }

    function Size(): (n: nat)
      reads this
      requires Valid()
      ensures n == |window| && n == |times|
    {
      |q|
    }

    method Insert(time: T, v: In)
      requires Valid()
      modifies this
      ensures Valid()
      ensures window == old(window) + [op.lift(v)] && times == old(times) + [time]
      ensures numFlipped == old(numFlipped) && q[..|old(q)|] == old(q)
    {
      var lifted := op.lift(v);
      Push(q, AggT(lifted, time));
      R.InvPush(m, Values(q), numFlipped, backSum, window, lifted);
      backSum := m.combine(backSum, lifted);
      q := q + [AggT(lifted, time)];
      window, times := window + [lifted], times + [time];
    }

    /** Turns the whole queue into the front: every value becomes the
        aggregate of itself and everything newer. */
    method Flip()
      requires Valid() && numFlipped == 0
      modifies this
      ensures Valid() && window == old(window) && times == old(times)
      ensures numFlipped == |q| && backSum == m.identity
    {
      var qq := q;
      var n := |qq|;
      var it: nat := n;
      var running := m.identity;
      I.FlipStart(m, Values(qq), backSum, window);
      for rep := 0 to n
        invariant window == old(window) && times == old(times)
        invariant it == n - rep && |qq| == n
        invariant Flipping(m, qq, it, running, window, times)
      {
        FlipStep(m, qq, it, running, window, times);
        it := it - 1;
        running := m.combine(qq[it].val, running);
        qq := qq[it := AggT(running, qq[it].timestamp)];
      }
      I.FlipEnd(m, Values(qq), running, window);
      q, backSum, numFlipped := qq, m.identity, n;
    }

    method Evict()
      requires Valid() && |window| > 0
      modifies this
      ensures Valid() && window == old(window)[1..] && times == old(times)[1..]
    {
      if numFlipped == 0 {
        Flip();
      }
      Pop(q);
      R.InvPop(m, Values(q), numFlipped, backSum, window);
      q := q[1..];
      numFlipped := numFlipped - 1;
      window, times := window[1..], times[1..];
    }

    method Query() returns (r: Out)
      requires Valid()
      ensures r == op.lower(Fold(m, window))
    {
      var bp := backSum;
      var fp := if numFlipped == 0 then m.identity else q[0].val;
      R.InvQuery(m, Values(q), numFlipped, backSum, window);
      r := op.lower(m.combine(fp, bp));
    }

    function Oldest(): (t: T)
      reads this
      requires Valid() && |window| > 0
      ensures t == times[0]
    {
      q[0].timestamp
    }

    function Youngest(): (t: T)
      reads this
      requires Valid() && |window| > 0
      ensures t == times[|times| - 1]
    {
      q[|q| - 1].timestamp
    }
  }
}
