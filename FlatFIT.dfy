// cpp/src/FlatFIT.hpp: the flat fixed-size aggregator.  The window lives in
// a circular buffer of entries (`__AggT`), each holding a partial `_val` and a
// buffer index `_next`.  Following `_next` from `_front` leads to `_back`;
// every entry on the way holds the aggregate of the window from itself up to,
// not including, the entry it points to.  `query` walks that path, then
// rewrites every entry on it to point straight at `_back` with the aggregate
// up to `_back` (path compression).
//
// Positions are offsets from `_front` in window order; `Slot` and `Pos`
// convert between positions and buffer indices.  The module-level
// predicates are shared with `DynamicFlatFIT`.
module FlatFIT {
  import opened Monoid

  /** `__AggT<aggT, ptrT>`. */
  datatype Entry<P> = Entry(val: P, next: nat)

  /** The buffer index of position `p`: `(front + p) % cap`. */
  function Slot(front: nat, p: nat, cap: nat): (s: nat)
    requires front < cap && p < cap
    ensures s < cap
  {
    if front + p < cap then front + p else front + p - cap
  }

  /** The position of buffer index `j`: `(j + cap - front) % cap`. */
  function Pos(front: nat, j: nat, cap: nat): (p: nat)
    requires front < cap && j < cap
    ensures p < cap && Slot(front, p, cap) == j
  {
    if j >= front then j - front else j + cap - front
  }

  lemma SlotInjective(front: nat, p: nat, q: nat, cap: nat)
    requires front < cap && p < cap && q < cap
    ensures Slot(front, p, cap) == Slot(front, q, cap) <==> p == q
  {
  }

  lemma PosSlot(front: nat, p: nat, cap: nat)
    requires front < cap && p < cap
    ensures Pos(front, Slot(front, p, cap), cap) == p
  {
    SlotInjective(front, Pos(front, Slot(front, p, cap), cap), p, cap);
  }

  /** An entry whose slot keeps its content stays linked in a window that
      only grows at the back. */
  lemma LinkedFrame<P>(m: Monoid<P>, buf: seq<Entry<P>>, buf': seq<Entry<P>>, front: nat,
                       w: seq<P>, w': seq<P>, p: nat)
    requires Linked(m, buf, front, w, p) && |buf'| == |buf| && |w| <= |w'| <= |buf| && w'[..|w|] == w
    requires buf'[Slot(front, p, |buf|)] == buf[Slot(front, p, |buf|)]
    ensures Linked(m, buf', front, w', p)
  {
    var q := Pos(front, buf[Slot(front, p, |buf|)].next, |buf|);
    assert w'[p..q] == w[p..q];
  }

  /** After `front` moves one slot on, position `p + 1` becomes `p`. */
  lemma LinkedShift<P>(m: Monoid<P>, buf: seq<Entry<P>>, front: nat, front': nat, w: seq<P>, p: nat)
    requires Linked(m, buf, front, w, p + 1) && |w| > 0 && front' == Slot(front, 1, |buf|)
    ensures Linked(m, buf, front', w[1..], p)
  {
    var cap := |buf|;
    assert Slot(front', p, cap) == Slot(front, p + 1, cap);
    var e := buf[Slot(front, p + 1, cap)];
    var q := Pos(front, e.next, cap);
    assert Pos(front', e.next, cap) == q - 1;
    assert w[1..][p..q - 1] == w[p + 1..q];
  }

  /** The modular offset the rescaling code computes is `Pos`. */
  lemma ModIsPos(front: nat, j: nat, cap: nat)
    requires front < cap && j < cap
    ensures (j + cap - front) % cap == Pos(front, j, cap)
  {
    if j >= front {
      assert j + cap - front == (j - front) + cap;
    }
  }

  /** The entry at position `p` points to a later position `q` of the window
      and holds the aggregate of positions `p` to `q - 1`. */
  ghost predicate Linked<P>(m: Monoid<P>, buf: seq<Entry<P>>, front: nat, w: seq<P>, p: nat)
  {
    front < |buf| && p < |buf| && |w| <= |buf|
    && var e := buf[Slot(front, p, |buf|)];
       e.next < |buf| && p < Pos(front, e.next, |buf|) < |w|
       && e.val == Fold(m, w[p..Pos(front, e.next, |buf|)])
  }

  /** Every entry but the back one is linked. */
  ghost predicate Chain<P>(m: Monoid<P>, buf: seq<Entry<P>>, front: nat, w: seq<P>)
  {
    forall p :: 0 <= p < |w| - 1 ==> Linked(m, buf, front, w, p)
  }

  /** The circular layout: `back` is the last position of the window; on an
      empty window the next slot after `back` is `front` (`back` = -1 right
      after a reset). */
  ghost predicate Ring(cap: nat, front: nat, back: int, size: nat)
  {
    0 < cap && size <= cap && front < cap && -1 <= back < cap
    && if size > 0 then back == Slot(front, size - 1, cap)
       else (if back + 1 == cap then 0 else back + 1) == front
  }

  /** The layout, the links, and the back entry holding the newest value. */
  ghost predicate Inv<P>(m: Monoid<P>, buf: seq<Entry<P>>, front: nat, back: int, w: seq<P>)
  {
    Ring(|buf|, front, back, |w|) && Chain(m, buf, front, w)
    && (|w| > 0 ==> buf[back].val == w[|w| - 1])
  }

  /** The circular `insert`: the new value goes to the slot after `back`,
      which the old back entry now points to. */
  lemma RingInsertTo<P(!new)>(m: Monoid<P>, buf: seq<Entry<P>>, front: nat, back: int, w: seq<P>, x: P,
                              back': nat, b1: seq<Entry<P>>, buf': seq<Entry<P>>)
    requires IsMonoid(m) && Inv(m, buf, front, back, w) && |w| < |buf|
    requires back' == (back + 1) % |buf| && b1 == buf[back' := Entry(x, 0)]
    requires buf' == if |w| > 0 then b1[back := b1[back].(next := back')] else b1
    ensures Inv(m, buf', front, back', w + [x]) && |buf'| == |buf|
  {
    var cap, s := |buf|, |w|;
    InsertRing(cap, front, back, s, back');
    if s > 0 {
      SlotInjective(front, s - 1, s, cap);
      RingInsertChain(m, buf, buf', front, w, x, back, back');
      assert buf'[back'] == b1[back'];
    }
  }

  lemma InsertRing(cap: nat, front: nat, back: int, size: nat, back': nat)
    requires Ring(cap, front, back, size) && size < cap && back' == (back + 1) % cap
    ensures Ring(cap, front, back', size + 1) && back' == Slot(front, size, cap)
  {
    var next := if back + 1 == cap then 0 else back + 1;
    if back + 1 == cap {
      assert (back + 1) % cap == cap % cap == 0;
    } else {
      assert 0 <= back + 1 < cap;
    }
    assert back' == next;
    if size > 0 {
      assert Slot(front, size, cap) == next;
    }
  }

  lemma RingInsertChain<P(!new)>(m: Monoid<P>, buf: seq<Entry<P>>, buf': seq<Entry<P>>, front: nat,
                                 w: seq<P>, x: P, back: nat, back': nat)
    requires IsMonoid(m) && Chain(m, buf, front, w) && front < |buf| && 0 < |w| < |buf|
    requires back == Slot(front, |w| - 1, |buf|) && back' == Slot(front, |w|, |buf|)
    requires buf[back].val == w[|w| - 1]
    requires buf' == buf[back' := Entry(x, 0)][back := buf[back].(next := back')]
    ensures Chain(m, buf', front, w + [x])
  {
    var cap, s, w' := |buf|, |w|, w + [x];
    assert w'[..s] == w;
    forall p | 0 <= p < s
      ensures Linked(m, buf', front, w', p)
    {
      if p < s - 1 {
        SlotInjective(front, p, s, cap);
        SlotInjective(front, p, s - 1, cap);
        LinkedFrame(m, buf, buf', front, w, w', p);
      } else {
        SlotInjective(front, s - 1, s, cap);
        LinkedBack(m, buf', front, w', s - 1, w[s - 1]);
      }
    }
  }

  /** The old back entry, pointed at the new one, covers just its value. */
  lemma LinkedBack<P(!new)>(m: Monoid<P>, buf: seq<Entry<P>>, front: nat, w: seq<P>, p: nat, v: P)
    requires IsMonoid(m) && front < |buf| && p + 1 < |w| <= |buf| && w[p] == v
    requires buf[Slot(front, p, |buf|)] == Entry(v, Slot(front, p + 1, |buf|))
    ensures Linked(m, buf, front, w, p)
  {
    PosSlot(front, p + 1, |buf|);
    assert w[p..p + 1] == [v];
    FoldSingleton(m, v);
  }

  /** `evict`: `front` moves to the next slot and every position shifts
      down by one. */
  lemma EvictTo<P>(m: Monoid<P>, buf: seq<Entry<P>>, front: nat, back: int, w: seq<P>, front': nat)
    requires Inv(m, buf, front, back, w) && |w| > 0 && front' == (front + 1) % |buf|
    ensures Inv(m, buf, front', back, w[1..])
  {
    EvictRing(|buf|, front, back, |w|, front');
    if |buf| > 1 {
      EvictChain(m, buf, front, front', w);
    }
    if |w| > 1 {
      assert w[1..][|w| - 2] == w[|w| - 1];
    }
  }

  lemma EvictRing(cap: nat, front: nat, back: int, size: nat, front': nat)
    requires Ring(cap, front, back, size) && size > 0 && front' == (front + 1) % cap
    ensures Ring(cap, front', back, size - 1)
    ensures cap > 1 ==> front' == Slot(front, 1, cap)
  {
    var next := if front + 1 == cap then 0 else front + 1;
    NextSlot(front, cap);
    assert front' == next;
    if size > 1 {
      assert Slot(front, size - 1, cap) == Slot(next, size - 2, cap);
    }
  }

  /** Moving forward one slot wraps from the last slot to the first. */
  lemma NextSlot(front: nat, cap: nat)
    requires front < cap
    ensures (front + 1) % cap == if front + 1 == cap then 0 else front + 1
  {
    if front + 1 == cap {
      assert (front + 1) % cap == cap % cap == 0;
    }
  }

  lemma EvictChain<P>(m: Monoid<P>, buf: seq<Entry<P>>, front: nat, front': nat, w: seq<P>)
    requires Chain(m, buf, front, w) && |w| > 0 && 1 < |buf| && front < |buf| && front' == Slot(front, 1, |buf|)
    ensures Chain(m, buf, front', w[1..])
  {
    forall p | 0 <= p < |w| - 2
      ensures Linked(m, buf, front', w[1..], p)
    {
      assert Linked(m, buf, front, w, p + 1);
      LinkedShift(m, buf, front, front', w, p);
    }
  }

  /** The pushes of `query`'s first loop: `stack` holds the buffer indices of
      the path from `front`, at positions `poss`, and `cp` is the position
      the last of them points to. */
  ghost predicate Traced<P>(buf: seq<Entry<P>>, front: nat, stack: seq<nat>, poss: seq<nat>, cp: nat)
  {
    |stack| == |poss| && front < |buf| && cp < |buf|
    && (forall i {:trigger stack[i]} :: 0 <= i < |poss| ==>
          poss[i] < cp && stack[i] == Slot(front, poss[i], |buf|) && buf[stack[i]].next < |buf|
          && Pos(front, buf[stack[i]].next, |buf|) == From(poss, i + 1, cp))
    && (forall i, j :: 0 <= i < j < |poss| ==> poss[i] < poss[j])
    && (if |poss| > 0 then poss[0] == 0 else cp == 0)
  }

  /** The `i`-th traced position, or `last` past the end of the trace. */
  function From(poss: seq<nat>, i: nat, last: nat): nat
  {
    if i < |poss| then poss[i] else last
  }

  /** One round of the first loop: push `cur` and follow its link. */
  lemma TraceStep<P>(m: Monoid<P>, buf: seq<Entry<P>>, front: nat, w: seq<P>,
                     stack: seq<nat>, poss: seq<nat>, cp: nat)
    requires Chain(m, buf, front, w) && Traced(buf, front, stack, poss, cp) && cp + 1 < |w|
    ensures var e := buf[Slot(front, cp, |buf|)];
            e.next < |buf| && cp < Pos(front, e.next, |buf|) < |w|
            && Traced(buf, front, stack + [Slot(front, cp, |buf|)], poss + [cp], Pos(front, e.next, |buf|))
  {
    assert Linked(m, buf, front, w, cp);
    var cap, cur := |buf|, Slot(front, cp, |buf|);
    var cp' := Pos(front, buf[cur].next, cap);
    var stack', poss' := stack + [cur], poss + [cp];
    forall i | 0 <= i < |poss'|
      ensures poss'[i] < cp' && stack'[i] == Slot(front, poss'[i], cap) && buf[stack'[i]].next < cap
      ensures Pos(front, buf[stack'[i]].next, cap) == From(poss', i + 1, cp')
    {
      if i < |poss| {
        assert poss'[i] == poss[i] && stack'[i] == stack[i];
        if i + 1 < |poss| {
          assert poss'[i + 1] == poss[i + 1];
        }
      }
    }
  }

  /** The state of `query`'s second loop after popping all but `i` of the
      traced indices: each popped entry was rewritten to point at `back`
      with the aggregate up to it, `theSum` is the aggregate from the last
      popped position, and the pending entries are those of `buf0`. */
  ghost predicate Compressing<P>(m: Monoid<P>, buf0: seq<Entry<P>>, buf: seq<Entry<P>>, front: nat, back: int,
                                 w: seq<P>, full: seq<nat>, poss: seq<nat>, i: nat, theSum: P)
  {
    |w| > 0 && Inv(m, buf, front, back, w) && |buf| == |buf0| && Traced(buf0, front, full, poss, |w| - 1)
    && i <= |full|
    && (forall j :: 0 <= j < i ==> buf[full[j]] == buf0[full[j]])
    && From(poss, i, |w| - 1) <= |w| - 1 && theSum == Fold(m, w[From(poss, i, |w| - 1)..|w| - 1])
    && (i < |full| ==> buf[full[i]] == Entry(theSum, back))
  }

  lemma CompressStart<P>(m: Monoid<P>, buf: seq<Entry<P>>, front: nat, back: int, w: seq<P>,
                         full: seq<nat>, poss: seq<nat>)
    requires |w| > 0 && Inv(m, buf, front, back, w) && Traced(buf, front, full, poss, |w| - 1)
    ensures Compressing(m, buf, buf, front, back, w, full, poss, |full|, m.identity)
  {
  }

  /** One round of the second loop: pop `index`, fold its value in front of
      `theSum` and point it at `back`. */
  lemma CompressStep<P(!new)>(m: Monoid<P>, buf0: seq<Entry<P>>, buf: seq<Entry<P>>, front: nat, back: int,
                              w: seq<P>, full: seq<nat>, poss: seq<nat>, i: nat, theSum: P)
    requires IsMonoid(m) && Compressing(m, buf0, buf, front, back, w, full, poss, i, theSum) && i > 0
    ensures var index := full[i - 1];
            var sum := m.combine(buf[index].val, theSum);
            Compressing(m, buf0, buf[index := Entry(sum, back)], front, back, w, full, poss, i - 1, sum)
  {
    var index, p := full[i - 1], poss[i - 1];
    var sum := m.combine(buf[index].val, theSum);
    CompressSum(m, buf0, buf, front, back, w, full, poss, i, theSum);
    CompressFrame(buf0, buf, front, full, poss, |w| - 1, i, Entry(sum, back));
    CompressLinked(m, buf, front, back, w, p, sum);
  }

  /** The popped entry's aggregate, folded in front of `theSum`, covers
      the window from the popped position to just before `back`. */
  lemma CompressSum<P(!new)>(m: Monoid<P>, buf0: seq<Entry<P>>, buf: seq<Entry<P>>, front: nat, back: int,
                             w: seq<P>, full: seq<nat>, poss: seq<nat>, i: nat, theSum: P)
    requires IsMonoid(m) && Compressing(m, buf0, buf, front, back, w, full, poss, i, theSum) && i > 0
    ensures poss[i - 1] < |w| - 1 && full[i - 1] == Slot(front, poss[i - 1], |buf|)
    ensures m.combine(buf[full[i - 1]].val, theSum) == Fold(m, w[poss[i - 1]..|w| - 1])
  {
    var cap, s := |buf|, |w|;
    var index, p := full[i - 1], poss[i - 1];
    var e := From(poss, i, s - 1);
    assert Pos(front, buf0[index].next, cap) == e;
    assert Linked(m, buf, front, w, p);
    PosSlot(front, p, cap);
    SumStep(m, w, p, e, buf[index].val, theSum);
  }

  /** Rewriting the entry just popped leaves the entries still pending
      untouched: the traced positions are distinct. */
  lemma CompressFrame<P>(buf0: seq<Entry<P>>, buf: seq<Entry<P>>, front: nat, full: seq<nat>, poss: seq<nat>,
                         cp: nat, i: nat, x: Entry<P>)
    requires Traced(buf0, front, full, poss, cp) && |buf| == |buf0| && 0 < i <= |full|
    requires forall j :: 0 <= j < i ==> buf[full[j]] == buf0[full[j]]
    ensures forall j :: 0 <= j < i - 1 ==> buf[full[i - 1] := x][full[j]] == buf0[full[j]]
  {
    var cap := |buf|;
    forall j | 0 <= j < i - 1
      ensures buf[full[i - 1] := x][full[j]] == buf0[full[j]]
    {
      assert full[j] == Slot(front, poss[j], cap) && full[i - 1] == Slot(front, poss[i - 1], cap);
      SlotInjective(front, poss[j], poss[i - 1], cap);
    }
  }

  lemma SumStep<P(!new)>(m: Monoid<P>, w: seq<P>, p: nat, e: nat, v: P, theSum: P)
    requires IsMonoid(m) && p <= e < |w| && v == Fold(m, w[p..e]) && theSum == Fold(m, w[e..|w| - 1])
    ensures m.combine(v, theSum) == Fold(m, w[p..|w| - 1])
  {
    assert w[p..|w| - 1] == w[p..e] + w[e..|w| - 1];
    FoldAppend(m, w[p..e], w[e..|w| - 1]);
  }

  /** Pointing the entry at position `p` straight at `back` with the
      aggregate up to `back` keeps every entry linked. */
  lemma CompressLinked<P>(m: Monoid<P>, buf: seq<Entry<P>>, front: nat, back: int, w: seq<P>, p: nat, v: P)
    requires Inv(m, buf, front, back, w) && |w| > 0 && p < |w| - 1 && v == Fold(m, w[p..|w| - 1])
    ensures Inv(m, buf[Slot(front, p, |buf|) := Entry(v, back)], front, back, w)
  {
    var cap, s, index := |buf|, |w|, Slot(front, p, |buf|);
    var buf' := buf[index := Entry(v, back)];
    PosSlot(front, s - 1, cap);
    forall q | 0 <= q < s - 1
      ensures Linked(m, buf', front, w, q)
    {
      SlotInjective(front, q, p, cap);
      if q != p {
        assert Linked(m, buf, front, w, q);
      }
    }
    SlotInjective(front, s - 1, p, cap);
  }

  /** After the second loop: the aggregate of all but the newest value, and
      the front entry compressed to point at `back`. */
  lemma CompressDone<P>(m: Monoid<P>, buf0: seq<Entry<P>>, buf: seq<Entry<P>>, front: nat, back: int,
                        w: seq<P>, full: seq<nat>, poss: seq<nat>, theSum: P)
    requires Compressing(m, buf0, buf, front, back, w, full, poss, 0, theSum)
    ensures theSum == Fold(m, w[..|w| - 1])
    ensures |w| > 1 ==> buf[front] == Entry(theSum, back)
  {
    if |poss| > 0 {
      assert w[poss[0]..|w| - 1] == w[..|w| - 1];
      assert full[0] == front;
    } else {
      assert w[..|w| - 1] == [];
    }
  }

  class Aggregate<In, P(!new), Out> {
    const op: BinOp<In, P, Out>
    const m: Monoid<P>
    var size: nat
    var buffer: seq<Entry<P>>
    var everEvicted: bool
    var front: nat
    var back: int
    ghost var window: seq<P>

    /** Until the first `evict` the buffer is exactly the window, from slot
        0; from then on it is a ring of fixed capacity. */
    ghost predicate Valid()
      reads this
    {
      IsMonoid(m) && m.combine == op.m.combine && size == |window|
      && if everEvicted then Inv(m, buffer, front, back, window)
         else front == 0 && |buffer| == size && back == size - 1
              && (size > 0 ==> Inv(m, buffer, front, back, window))
    }

    constructor(binOp: BinOp<In, P, Out>, identE: P)
      requires IsMonoid(Monoid(binOp.m.combine, identE))
      ensures Valid() && op == binOp && m.identity == identE
      ensures window == [] && buffer == [] && !everEvicted
    {
      op := binOp;
      m := Monoid(binOp.m.combine, identE);
      size, buffer, everEvicted := 0, [], false;
      front, back := 0, -1;
      window := [];
    }

    function Size(): (n: nat)
      reads this
      requires Valid()
      ensures n == |window|
    {
      size
    }

    /** Before the first evict the buffer grows by one; afterwards a window
        that would outgrow the buffer throws, changing nothing. */
    method Insert(v: In) returns (thrown: bool)
      requires Valid()
      modifies this
      ensures Valid() && everEvicted == old(everEvicted)
      ensures thrown <==> everEvicted && |old(window)| + 1 > |old(buffer)|
      ensures thrown ==> window == old(window) && buffer == old(buffer)
                         && front == old(front) && back == old(back)
      ensures !thrown ==> window == old(window) + [op.lift(v)]
      ensures if everEvicted then |buffer| == |old(buffer)| else |buffer| == |window|
    {
      if everEvicted && size + 1 > |buffer| {
        return true;
      }
      thrown := false;
      var prev := if size > 0 then back else -1;
      var vAgg := Entry(op.lift(v), 0);
      ghost var buf0, back0, w0 := buffer, back, window;
      back, size := back + 1, size + 1;
      ghost var b1;
      if everEvicted {
        back := back % |buffer|;
        buffer := buffer[back := vAgg];
        b1 := buffer;
      } else {
        buffer := buffer + [vAgg];
        b1 := buffer;
      }
      if prev >= 0 {
        buffer := buffer[prev := buffer[prev].(next := back)];
      }
      window := window + [op.lift(v)];
      if everEvicted {
        RingInsertTo(m, buf0, front, back0, w0, op.lift(v), back, b1, buffer);
      } else {
        AppendInsertTo(m, buf0, back0, w0, op.lift(v), b1, buffer);
      }
    }

    /** An evict on an empty window would make `_size` negative. */
    method Evict()
      requires Valid() && |window| > 0
      modifies this
      ensures Valid() && everEvicted && window == old(window)[1..] && buffer == old(buffer)
      ensures front == (old(front) + 1) % |buffer| && back == old(back)
    {
      ghost var f0 := front;
      everEvicted := true;
      front := (front + 1) % |buffer|;
      size := size - 1;
      window := window[1..];
      EvictTo(m, buffer, f0, back, old(window), front);
    }

    /** The aggregate of the window, identity when empty.  Every entry on
        the path from `front` is compressed to point at `back`, so the next
        query reaches `back` in one step. */
    method Query() returns (r: Out)
      requires Valid()
      modifies this
      ensures Valid() && r == op.lower(Fold(m, window))
      ensures window == old(window) && everEvicted == old(everEvicted) && |buffer| == |old(buffer)|
      ensures front == old(front) && back == old(back)
      ensures |window| > 1 ==> buffer[front].next == back
    {
      if size == 0 {
        return op.lower(m.identity);
      }
      var stack, poss := Trace(m, buffer, front, back, window);
      var buf, theSum := Compress(m, buffer, front, back, window, stack, poss);
      var agg := m.combine(theSum, buf[back].val);
      FoldLast(m, window, theSum, buf[back].val);
      buffer := buf;
      r := op.lower(agg);
    }
  }

  /** The aggregate of all but the last value, combined with the last. */
  lemma FoldLast<P>(m: Monoid<P>, w: seq<P>, init: P, last: P)
    requires |w| > 0 && init == Fold(m, w[..|w| - 1]) && last == w[|w| - 1]
    ensures m.combine(init, last) == Fold(m, w)
  {
  }

  /** The first loop of `query`,
      `for (cur = _front; cur != _back; cur = _buffer[cur]._next) push(cur)`:
      the path of links from `front` to `back`. */
  method Trace<P>(m: Monoid<P>, buf: seq<Entry<P>>, front: nat, back: int, ghost w: seq<P>)
    returns (stack: seq<nat>, ghost poss: seq<nat>)
    requires |w| > 0 && Inv(m, buf, front, back, w)
    ensures Traced(buf, front, stack, poss, |w| - 1)
  {
    var cur: int := front;
    ghost var cp := 0;
    stack, poss := [], [];
    while cur != back
      invariant cp < |w| && cur == Slot(front, cp, |buf|)
      invariant Traced(buf, front, stack, poss, cp)
      decreases |w| - cp
    {
      if cp + 1 == |w| {
        assert false;
      }
      TraceStep(m, buf, front, w, stack, poss, cp);
      stack, poss := stack + [cur], poss + [cp];
      cur := buf[cur].next;
      cp := Pos(front, cur, |buf|);
    }
    SlotInjective(front, cp, |w| - 1, |buf|);
  }

  /** The pops of `query`'s second loop: each traced entry, newest first,
      gets the aggregate from its position up to `back` and a link to
      `back`. */
  method Compress<P(!new)>(m: Monoid<P>, buf0: seq<Entry<P>>, front: nat, back: int, ghost w: seq<P>,
                           stack0: seq<nat>, ghost poss: seq<nat>) returns (buf: seq<Entry<P>>, theSum: P)
    requires IsMonoid(m) && |w| > 0 && Inv(m, buf0, front, back, w) && Traced(buf0, front, stack0, poss, |w| - 1)
    ensures Inv(m, buf, front, back, w) && |buf| == |buf0|
    ensures theSum == Fold(m, w[..|w| - 1])
    ensures |w| > 1 ==> buf[front] == Entry(theSum, back)
  {
    var stack := stack0;
    buf, theSum := buf0, m.identity;
    CompressStart(m, buf, front, back, w, stack0, poss);
    while stack != []
      invariant |stack| <= |stack0| && stack == stack0[..|stack|]
      invariant Compressing(m, buf0, buf, front, back, w, stack0, poss, |stack|, theSum)
    {
      var index := stack[|stack| - 1];
      assert index == stack0[|stack| - 1];
      CompressStep(m, buf0, buf, front, back, w, stack0, poss, |stack|, theSum);
      theSum := m.combine(buf[index].val, theSum);
      buf := buf[index := Entry(theSum, back)];
      stack := stack[..|stack| - 1];
    }
    CompressDone(m, buf0, buf, front, back, w, stack0, poss, theSum);
  }

  /** The growing `insert` before the first evict: `push_back` the new entry
      and point the old back at it. */
  lemma AppendInsertTo<P(!new)>(m: Monoid<P>, buf: seq<Entry<P>>, back: int, w: seq<P>, x: P,
                                b1: seq<Entry<P>>, buf': seq<Entry<P>>)
    requires IsMonoid(m) && |buf| == |w| && back == |w| - 1 && (|w| > 0 ==> Inv(m, buf, 0, back, w))
    requires b1 == buf + [Entry(x, 0)]
    requires buf' == if |w| > 0 then b1[back := b1[back].(next := back + 1)] else b1
    ensures Inv(m, buf', 0, back + 1, w + [x]) && |buf'| == |w| + 1
  {
    var s, w' := |w|, w + [x];
    forall p | 0 <= p < |w'| - 1
      ensures Linked(m, buf', 0, w', p)
    {
      if p + 1 < s {
        assert Linked(m, buf, 0, w, p);
        assert buf'[p] == buf[p];
        var q := buf[p].next;
        assert w'[p..q] == w[p..q];
      } else {
        assert w'[p..s] == [w[s - 1]];
        FoldSingleton(m, w[s - 1]);
      }
    }
  }
}
