// cpp/src/ImplicitTwoStacksLite.hpp: both stacks of `TwoStacksLite` in one
// queue.  The slots before `_split` are the front, each holding the aggregate
// of the front from that slot on; the slots after it are the back, holding
// lifted partials whose fold is `_backSum`.  This layout is the one of
// `RustTwoStacksLite`, whose invariant and pop and push lemmas are reused;
// the flip differs, since it carries a running sum and leaves the oldest
// slot, which is popped at once, untouched.
module ImplicitTwoStacksLite {
  import opened Monoid
  import R = RustTwoStacksLite
  import RB = RingBufferQueue

  /** The state of the flip loop, whose iterator stands just below slot `i`:
      the slots from `i` on hold the aggregate of the window from there to the
      end, the others their partials, and `running` is the aggregate from `i` on. */
  ghost predicate Flipping<P>(m: Monoid<P>, q: seq<P>, i: nat, running: P, window: seq<P>)
  {
    |q| == |window| && i <= |q|
    && (forall k :: 0 <= k < i ==> q[k] == window[k])
    && (forall k :: i <= k < |q| ==> q[k] == Fold(m, window[k..]))
    && running == Fold(m, window[i..])
  }

  lemma FlipStart<P>(m: Monoid<P>, q: seq<P>, backSum: P, window: seq<P>)
    requires R.Inv(m, q, 0, backSum, window)
    ensures Flipping(m, q, |q|, m.identity, window)
  {
    assert window[|q|..] == [];
  }

  /** `running_sum = combine(it->_val, running_sum); it->_val = running_sum`. */
  lemma FlipStep<P(!new)>(m: Monoid<P>, q: seq<P>, i: nat, running: P, window: seq<P>)
    requires IsMonoid(m) && i < |q| && Flipping(m, q, i + 1, running, window)
    ensures Flipping(m, q[i := m.combine(q[i], running)], i, m.combine(q[i], running), window)
  {
    var q' := q[i := m.combine(q[i], running)];
    SliceCons(window, i);
    FoldCons(m, window[i], window[i + 1..]);
    assert q'[i] == Fold(m, window[i..]);
    forall k | 0 <= k < i
      ensures q'[k] == window[k]
    {
      assert q'[k] == q[k];
    }
    forall k | i < k < |q'|
      ensures q'[k] == Fold(m, window[k..])
    {
      assert q'[k] == q[k];
    }
  }

  /** The flip stops above the oldest slot; popping that slot leaves a queue
      that is all front. */
  lemma FlipPop<P>(m: Monoid<P>, q: seq<P>, running: P, window: seq<P>)
    requires |q| > 0 && Flipping(m, q, 1, running, window)
    ensures R.Inv(m, q[1..], |q| - 1, m.identity, window[1..])
  {
    forall k | 0 <= k < |q| - 1
      ensures q[1..][k] == Fold(m, window[1..][k..|q| - 1])
    {
      assert window[1..][k..|q| - 1] == window[k + 1..];
    }
    assert window[1..][|q| - 1..] == [];
  }

  /** The flip run down to slot 0 (as in the timestamped variant): the whole
      queue is the front and the back sum is reset. */
  lemma FlipEnd<P>(m: Monoid<P>, q: seq<P>, running: P, window: seq<P>)
    requires Flipping(m, q, 0, running, window)
    ensures R.Inv(m, q, |q|, m.identity, window)
  {
    forall k | 0 <= k < |q|
      ensures window[k..|q|] == window[k..]
    {
    }
    assert window[|q|..] == [];
  }

  /** The flip loop of `evict`, from the newest slot down to, but not
      including, the oldest: each slot is given the aggregate of the window
      from there to the end. */
  method Flip<P(!new)>(m: Monoid<P>, q: seq<P>, backSum: P, ghost window: seq<P>)
    returns (qq: seq<P>, running: P)
    requires IsMonoid(m) && R.Inv(m, q, 0, backSum, window) && |q| > 0
    ensures Flipping(m, qq, 1, running, window)
  {
    qq := q;
    var it: nat := |qq| - 1;
    running := m.identity;
    FlipStart(m, qq, backSum, window);
    while it != 0
      invariant it < |qq| && Flipping(m, qq, it + 1, running, window)
      decreases it
    {
      FlipStep(m, qq, it, running, window);
      running := m.combine(qq[it], running);
      qq := qq[it := running];
      it := it - 1;
    }
  }

  class Aggregate<In, P(!new), Out> {
    const op: BinOp<In, P, Out>
    const m: Monoid<P>
    /** `_q`: the `_val` of every entry, oldest first. */
    var q: seq<P>
    /** `_split` as the number of slots before it, the size of the front. */
    var split: nat
    var backSum: P
    ghost var window: seq<P>

    ghost predicate Valid()
      reads this
    {
      IsMonoid(m) && m.combine == op.m.combine && R.Inv(m, q, split, backSum, window)
    }

    constructor(binOp: BinOp<In, P, Out>, identE: P)
      requires IsMonoid(Monoid(binOp.m.combine, identE))
      ensures Valid() && op == binOp && m.identity == identE
      ensures window == []
    {
      op := binOp;
      m := Monoid(binOp.m.combine, identE);
      q, split, backSum := [], 0, identE;
      window := [];
      R.InvEmpty(Monoid(binOp.m.combine, identE));
    }

    function Size(): (n: nat)
      reads this
      requires Valid()
      ensures n == |window|
    {
      |q|
    }

    /** `begin == _split`. */
    function FrontEmpty(): (b: bool)
      reads this
      requires Valid()
      ensures b <==> split == 0
    {
      split == 0
    }

    method Insert(v: In)
      requires Valid()
      modifies this
      ensures Valid() && window == old(window) + [op.lift(v)] && split == old(split)
    {
      var lifted := op.lift(v);
      R.InvPush(m, q, split, backSum, window, lifted);
      backSum := m.combine(backSum, lifted);
      q := q + [lifted];
      window := window + [lifted];
    }

    method Evict()
      requires Valid() && |window| > 0
      modifies this
      ensures Valid() && window == old(window)[1..]
    {
      var q', split', backSum' := q, split, backSum;
      if split == 0 {
        var qq, running := Flip(m, q, backSum, window);
        FlipPop(m, qq, running, window);
        q', split', backSum' := qq[1..], |qq| - 1, m.identity;
      } else {
        R.InvPop(m, q, split, backSum, window);
        q', split' := q[1..], split - 1;
      }
      if |q'| == 0 {
        split' := 0;
      }
      q, split, backSum, window := q', split', backSum', window[1..];
    }

    method Query() returns (r: Out)
      requires Valid()
      ensures r == op.lower(Fold(m, window))
    {
      var bp := backSum;
      var fp := if |q| == 0 || split == 0 then m.identity else q[0];
      R.InvQuery(m, q, split, backSum, window);
      r := op.lower(m.combine(fp, bp));
    }
  }

  /** The aggregator as written, over the ring buffer itself: `_split` is a
      `RingBufferQueue::iterator`, a pointer into the buffer it was taken
      from, kept here as that buffer and a slot, and `front_empty()` compares
      it with `begin()`.  A rescale moves the queue to a new buffer and leaves
      the iterator pointing into the old one. */
  class SplitIteratorAggregate<P(0, !new)> {
    const op: BinOp<P, P, P>
    const q: RB.RingBufferQueue<P>
    var splitBuffer: array<P>
    var splitSlot: nat
    var backSum: P

    ghost predicate Valid()
      reads this, q, q.buffer
    {
      q.Valid() && q.presetCap == 0
    }

    /** The constructor: an empty dynamic queue and `_split = _q.begin()`. */
    constructor(binOp: BinOp<P, P, P>, identE: P)
      ensures Valid() && fresh(q) && fresh(q.buffer) && op == binOp && backSum == identE && q.contents == []
      ensures q.capacity == RB.MagicMinimumRingSize
      ensures splitBuffer == q.buffer && splitSlot == q.front
    {
      op := binOp;
      q := new RB.RingBufferQueue<P>(0);
      backSum := identE;
      new;
      splitBuffer, splitSlot := q.buffer, q.front;
    }

    /** `front_empty()`: `_q.begin() == _split`, as pointers. */
    function FrontEmpty(): (b: bool)
      reads this, q
    {
      q.buffer == splitBuffer && q.front == splitSlot
    }

    /** `insert(v)`: extends `_backSum` and pushes the lifted value, leaving
        `_split` as it was. */
    method Insert(v: P)
      requires Valid()
      modifies this, q, q.buffer
      ensures Valid() && q.contents == old(q.contents) + [op.lift(v)]
      ensures backSum == op.m.combine(old(backSum), op.lift(v))
      ensures splitBuffer == old(splitBuffer) && splitSlot == old(splitSlot)
      ensures if old(q.size) + 1 >= old(q.capacity) then fresh(q.buffer) else q.buffer == old(q.buffer)
      ensures q.capacity == if old(q.size) + 1 >= old(q.capacity) then RB.Thres * old(q.capacity)
                            else old(q.capacity)
      ensures q.front == old(q.front)
    {
      var lifted := op.lift(v);
      backSum := op.m.combine(backSum, lifted);
      var thrown := q.PushBack(lifted);
    }

    /** `query()`: the front's aggregate (the oldest slot, unless the front
        is empty) combined with `_backSum`. */
    method Query() returns (r: P)
      requires Valid()
      ensures r == op.lower(op.m.combine(
                if q.size == 0 || FrontEmpty() then op.m.identity else q.contents[0], backSum))
    {
      var fp := if q.size == 0 || FrontEmpty() then op.m.identity else q.Front();
      r := op.lower(op.m.combine(fp, backSum));
    }
  }

  /** Three insertions into a fresh aggregator over integer sums fill three
      of the four slots without a rescale. */
  method ThreeInserted() returns (a: SplitIteratorAggregate<int>)
    ensures fresh(a) && fresh(a.q) && fresh(a.q.buffer) && a.Valid() && a.op == IntSum()
    ensures a.q.contents == [1, 2, 3] && a.backSum == 6 && a.q.capacity == RB.MagicMinimumRingSize
    ensures a.splitBuffer == a.q.buffer && a.splitSlot == a.q.front
  {
    a := new SplitIteratorAggregate<int>(IntSum(), 0);
    a.Insert(1);
    assert a.q.contents == [1] && a.backSum == 1;
    a.Insert(2);
    assert a.q.contents == [1, 2] && a.backSum == 3;
    a.Insert(3);
  }

  /** The fourth push finds the buffer full and rescales it, so `_split` no
      longer equals `begin()`.  The front counts as non-empty and `query()`
      adds the unflipped oldest value to `_backSum` a second time: 11 for a
      window summing to 10. */
  method StaleSplitScenario() returns (frontEmpty: bool, answer: int)
    ensures !frontEmpty && answer == 11
  {
    var a := ThreeInserted();
    a.Insert(4);
    assert a.q.contents == [1, 2, 3, 4] && a.backSum == 10;
    frontEmpty := a.FrontEmpty();
    answer := a.Query();
  }

  /** The same three insertions into the aggregator whose split is the
      number of front slots. */
  method ThreeCounted() returns (a: Aggregate<int, int, int>)
    ensures fresh(a) && a.Valid() && a.op == IntSum() && a.m == IntSum().m
    ensures a.window == [1, 2, 3] && a.split == 0
  {
    a := new Aggregate<int, int, int>(IntSum(), 0);
    assert a.m == IntSum().m;
    a.Insert(1);
    assert a.window == [1];
    a.Insert(2);
    assert a.window == [1, 2];
    a.Insert(3);
  }

  /** After the fourth insertion the front is still empty and `query()` is
      the window's sum. */
  method SplitCountScenario() returns (frontEmpty: bool, answer: int)
    ensures frontEmpty && answer == 10
  {
    var a := ThreeCounted();
    a.Insert(4);
    assert a.window == [1, 2, 3, 4];
    frontEmpty := a.FrontEmpty();
    answer := a.Query();
    SumOneToFour();
  }

  lemma SumOneToFour()
    ensures Fold(IntSum().m, [1, 2, 3, 4]) == 10
  {
    var m := IntSum().m;
    assert [1, 2, 3, 4][..3] == [1, 2, 3] && [1, 2, 3][..2] == [1, 2] && [1, 2][..1] == [1] && [1][..0] == [];
    assert Fold(m, [1]) == 1;
    assert Fold(m, [1, 2]) == 3;
    assert Fold(m, [1, 2, 3]) == 6;
  }
}
