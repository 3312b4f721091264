// rust/src/two_stacks_lite/mod.rs: `TwoStacksLite`, two stacks in one
// `VecDeque`.  The first `front_len` slots hold, for each position, the
// aggregate of the front from that position on; the others hold lifted
// partials, whose fold is `agg_back`.
module RustTwoStacksLite {
  import opened Monoid
  import opened Wrappers

  ghost predicate Inv<P>(m: Monoid<P>, queue: seq<P>, frontLen: nat, aggBack: P, window: seq<P>)
  {
    |queue| == |window| && frontLen <= |queue|
    && (forall k :: 0 <= k < frontLen ==> queue[k] == Fold(m, window[k..frontLen]))
    && (forall k :: frontLen <= k < |queue| ==> queue[k] == window[k])
    && aggBack == Fold(m, window[frontLen..])
  }

  /** `agg_front`: the identity when the front is empty, else the queue's first slot. */
  function AggFront<P>(queue: seq<P>, frontLen: nat, identity: P): P
  {
    if frontLen == 0 || queue == [] then identity else queue[0]
  }

  lemma InvEmpty<P>(m: Monoid<P>)
    ensures Inv(m, [], 0, m.identity, [])
  {
  }

  lemma InvPush<P>(m: Monoid<P>, queue: seq<P>, frontLen: nat, aggBack: P, window: seq<P>, x: P)
    requires Inv(m, queue, frontLen, aggBack, window)
    ensures Inv(m, queue + [x], frontLen, m.combine(aggBack, x), window + [x])
  {
    var w := window + [x];
    forall k | 0 <= k < frontLen
      ensures w[k..frontLen] == window[k..frontLen]
    {
    }
    assert w[frontLen..] == window[frontLen..] + [x];
    FoldSnoc(m, window[frontLen..], x);
  }

  /** The state of the sweep `queue[i] = queue[i] ⊕ queue[i+1]`: from `i` on,
      every slot holds the aggregate of the window from there to the end. */
  ghost predicate Sweeping<P>(m: Monoid<P>, queue: seq<P>, i: nat, window: seq<P>)
  {
    |queue| == |window| && i < |queue|
    && (forall k :: 0 <= k < i ==> queue[k] == window[k])
    && (forall k :: i <= k < |queue| ==> queue[k] == Fold(m, window[k..]))
  }

  lemma SweepStart<P(!new)>(m: Monoid<P>, queue: seq<P>, aggBack: P, window: seq<P>)
    requires IsMonoid(m) && Inv(m, queue, 0, aggBack, window) && |queue| > 0
    ensures Sweeping(m, queue, |queue| - 1, window)
  {
    assert window[|queue| - 1..] == [window[|queue| - 1]];
    FoldSingleton(m, window[|queue| - 1]);
  }

  lemma SweepStep<P(!new)>(m: Monoid<P>, queue: seq<P>, i: nat, window: seq<P>)
    requires IsMonoid(m) && Sweeping(m, queue, i, window) && i > 0
    ensures Sweeping(m, queue[i - 1 := m.combine(queue[i - 1], queue[i])], i - 1, window)
  {
    var q := queue[i - 1 := m.combine(queue[i - 1], queue[i])];
    assert queue[i - 1] == window[i - 1];
    assert queue[i] == Fold(m, window[i..]);
    SliceCons(window, i - 1);
    FoldCons(m, window[i - 1], window[i..]);
    assert q[i - 1] == Fold(m, window[i - 1..]);
    forall k | 0 <= k < i - 1
      ensures q[k] == window[k]
    {
      assert q[k] == queue[k];
    }
    forall k | i <= k < |q|
      ensures q[k] == Fold(m, window[k..])
    {
      assert q[k] == queue[k];
    }
  }

  /** The sweep done: the whole queue is the front, and `agg_back` is reset. */
  lemma SweepEnd<P>(m: Monoid<P>, queue: seq<P>, window: seq<P>)
    requires Sweeping(m, queue, 0, window)
    ensures Inv(m, queue, |queue|, m.identity, window)
  {
    forall k | 0 <= k < |queue|
      ensures window[k..|queue|] == window[k..]
    {
    }
    assert window[|queue|..] == [];
  }

  /** Popping the front slot removes the oldest partial; the slot held the
      aggregate of the whole front. */
  lemma InvPop<P>(m: Monoid<P>, queue: seq<P>, frontLen: nat, aggBack: P, window: seq<P>)
    requires Inv(m, queue, frontLen, aggBack, window) && frontLen > 0
    ensures window != [] && queue[0] == Fold(m, window[..frontLen])
    ensures Inv(m, queue[1..], frontLen - 1, aggBack, window[1..])
  {
    assert window[0..frontLen] == window[..frontLen];
    forall k | 0 <= k < frontLen - 1
      ensures queue[1..][k] == Fold(m, window[1..][k..frontLen - 1])
    {
      assert window[1..][k..frontLen - 1] == window[k + 1..frontLen];
    }
    assert window[1..][frontLen - 1..] == window[frontLen..];
  }

  lemma InvQuery<P(!new)>(m: Monoid<P>, queue: seq<P>, frontLen: nat, aggBack: P, window: seq<P>)
    requires IsMonoid(m) && Inv(m, queue, frontLen, aggBack, window)
    ensures m.combine(AggFront(queue, frontLen, m.identity), aggBack) == Fold(m, window)
  {
    FoldSplit(m, window, frontLen);
    if frontLen == 0 || queue == [] {
      assert window[..frontLen] == [];
    } else {
      assert window[0..frontLen] == window[..frontLen];
    }
  }

  class TwoStacksLite<In, P(!new), Out> {
    const op: BinOp<In, P, Out>
    var queue: seq<P>
    var aggBack: P
    var frontLen: nat
    ghost var window: seq<P>

    ghost predicate Valid()
      reads this
    {
      IsMonoid(op.m) && Inv(op.m, queue, frontLen, aggBack, window)
    }

    constructor(binOp: BinOp<In, P, Out>)
      requires IsMonoid(binOp.m)
      ensures Valid() && op == binOp && window == []
    {
      op := binOp;
      queue, aggBack, frontLen := [], binOp.m.identity, 0;
      window := [];
      InvEmpty(binOp.m);
    }

    method Push(v: In)
      requires Valid()
      modifies this
      ensures Valid() && window == old(window) + [op.lift(v)]
    {
      var lifted := op.lift(v);
      InvPush(op.m, queue, frontLen, aggBack, window, lifted);
      queue := queue + [lifted];
      aggBack := op.m.combine(aggBack, lifted);
      window := window + [lifted];
    }

    /** `None` on an empty window.  Otherwise, when the front is empty, sweeps
        the whole queue into suffix aggregates; then pops the front slot and
        returns it lowered: the aggregate of the front part of the window
        (all of it, just after a sweep), not the popped partial alone. */
    method Pop() returns (r: Option<Out>)
      requires Valid()
      modifies this
      ensures Valid()
      ensures old(window) == [] ==> r == None && window == []
      ensures old(window) != [] ==>
        window == old(window)[1..]
        && r == Some(op.lower(Fold(op.m, old(window)[..if old(frontLen) == 0 then |old(window)| else old(frontLen)])))
    {
      if queue == [] {
        r := None;
      } else {
        var end := |queue| - 1;
        if frontLen == 0 {
          var q := queue;
          var i := end;
          SweepStart(op.m, q, aggBack, window);
          while i != 0
            invariant 0 <= i <= end
            invariant window == old(window)
            invariant Sweeping(op.m, q, i, window)
            decreases i
          {
            SweepStep(op.m, q, i, window);
            i := i - 1;
            q := q[i := op.m.combine(q[i], q[i + 1])];
          }
          SweepEnd(op.m, q, window);
          queue := q;
          frontLen := end + 1;
          aggBack := op.m.identity;
        }
        var item := queue[0];
        InvPop(op.m, queue, frontLen, aggBack, window);
        frontLen := frontLen - 1;
        queue := queue[1..];
        window := window[1..];
        r := Some(op.lower(item));
      }
    }

    method Query() returns (r: Out)
      requires Valid()
      ensures r == op.lower(Fold(op.m, window))
    {
      var f := AggFront(queue, frontLen, op.m.identity);
      InvQuery(op.m, queue, frontLen, aggBack, window);
      r := op.lower(op.m.combine(f, aggBack));
    }

    function Len(): (n: nat)
      reads this
      requires Valid()
      ensures n == |window|
    {
      |queue|
    }

    function IsEmpty(): (b: bool)
      reads this
      requires Valid()
      ensures b <==> window == []
    {
      queue == []
    }
  }
}
