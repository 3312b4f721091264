// cpp/src/DynamicFlatFIT.hpp: the flat aggregator of `FlatFIT` over a
// buffer that grows and shrinks.  An insert into a full buffer first doubles
// it; an evict that leaves the buffer less than a quarter full halves it
// (never below `LOW_CAP`).  Rescaling packs the window to the start of the
// new buffer in window order and rewrites every link as a position, so the
// layout and the links of `FlatFIT` carry over unchanged.
module DynamicFlatFIT {
  import opened Monoid
  import opened FlatFIT

  /** Grow by a factor of `THRES`; shrink by `THRES` once the load drops
      below one in `2 * THRES`. */
  const THRES: nat := 2
  const LOW_CAP: nat := 2

  function Max(a: nat, b: nat): (r: nat)
    ensures r >= a && r >= b && (r == a || r == b)
  {
    if a >= b then a else b
  }

  /** The entry the packing loop of `rescale_to` writes at index `k`: the
      entry at position `k`, its link rewritten to the position it points
      to, `(next + old_cap - front) % old_cap`. */
  function PackedEntry<P>(buf: seq<Entry<P>>, front: nat, k: nat): (e: Entry<P>)
    requires front < |buf| && k < |buf|
    ensures e.val == buf[Slot(front, k, |buf|)].val
    ensures buf[Slot(front, k, |buf|)].next < |buf| ==> e.next == Pos(front, buf[Slot(front, k, |buf|)].next, |buf|)
  {
    var e0 := buf[Slot(front, k, |buf|)];
    ModIsPosIf(front, e0.next, |buf|);
    Entry(e0.val, (e0.next + |buf| - front) % |buf|)
  }

  lemma ModIsPosIf(front: nat, j: nat, cap: nat)
    requires front < cap
    ensures j < cap ==> (j + cap - front) % cap == Pos(front, j, cap)
  {
    if j < cap {
      ModIsPos(front, j, cap);
    }
  }

  /** The buffer `rescale_to` builds: the window packed from index 0. */
  ghost predicate Packed<P>(buf: seq<Entry<P>>, front: nat, size: nat, packed: seq<Entry<P>>, fill: Entry<P>)
    requires front < |buf| && size <= |buf|
  {
    size <= |packed|
    && (forall k :: 0 <= k < size ==> packed[k] == PackedEntry(buf, front, k))
    && (forall k :: size <= k < |packed| ==> packed[k] == fill)
  }

  /** Packing keeps every link: the window now starts at slot 0 and ends at
      slot `size - 1`. */
  lemma PackTo<P>(m: Monoid<P>, buf: seq<Entry<P>>, front: nat, back: int, w: seq<P>,
                  packed: seq<Entry<P>>, fill: Entry<P>)
    requires Inv(m, buf, front, back, w) && |packed| > 0 && Packed(buf, front, |w|, packed, fill)
    ensures Inv(m, packed, 0, |w| - 1, w)
  {
    var cap, s := |buf|, |w|;
    forall p | 0 <= p < s - 1
      ensures Linked(m, packed, 0, w, p)
    {
      assert Linked(m, buf, front, w, p);
      var e := buf[Slot(front, p, cap)];
      assert packed[p] == PackedEntry(buf, front, p);
      assert Slot(0, p, |packed|) == p;
      assert Pos(0, packed[p].next, |packed|) == Pos(front, e.next, cap);
    }
    if s > 0 {
      assert packed[s - 1] == PackedEntry(buf, front, s - 1);
    }
  }

  class Aggregate<In, P(!new), Out> {
    const op: BinOp<In, P, Out>
    const m: Monoid<P>
    var size: nat
    var buffer: seq<Entry<P>>
    var front: nat
    var back: int
    ghost var window: seq<P>

    /** The layout and links of `FlatFIT` on a buffer of at least
        `LOW_CAP` entries. */
    ghost predicate Layout()
      reads this
    {
      IsMonoid(m) && m.combine == op.m.combine && size == |window|
      && LOW_CAP <= |buffer| && Inv(m, buffer, front, back, window)
    }

    /** Besides the layout, the buffer is never less than a quarter full
        (rounding the quarter down): space stays linear in the window. */
    ghost predicate Valid()
      reads this
    {
      Layout() && |buffer| / (2 * THRES) <= size
    }

    constructor(binOp: BinOp<In, P, Out>, identE: P)
      requires IsMonoid(Monoid(binOp.m.combine, identE))
      ensures Valid() && op == binOp && m.identity == identE
      ensures window == [] && |buffer| == LOW_CAP
    {
      op := binOp;
      m := Monoid(binOp.m.combine, identE);
      size, buffer := 0, seq(LOW_CAP, _ => Entry(identE, 0));
      front, back := 0, -1;
      window := [];
    }

    function Size(): (n: nat)
      reads this
      requires Valid()
      ensures n == |window|
    {
      size
    }

    /** A full buffer is first doubled, so an insert always succeeds. */
    method Insert(v: In)
      requires Valid()
      modifies this
      ensures Valid() && window == old(window) + [op.lift(v)]
      ensures |buffer| == if |old(window)| == |old(buffer)| then THRES * |old(buffer)| else |old(buffer)|
    {
      if size + 1 > |buffer| {
        var thrown := RescaleTo(|buffer| * THRES, size + 1);
        assert !thrown;
      }
      var prev := if size > 0 then back else -1;
      var vAgg := Entry(op.lift(v), 0);
      var back' := (back + 1) % |buffer|;
      var b1 := buffer[back' := vAgg];
      var buf' := if prev >= 0 then b1[prev := b1[prev].(next := back')] else b1;
      ghost var window' := window + [op.lift(v)];
      RingInsertTo(m, buffer, front, back, window, op.lift(v), back', b1, buf');
      back, size, buffer, window := back', size + 1, buf', window';
    }

    /** An evict that leaves fewer than a quarter of the slots in use halves
        the buffer.  On an empty window `_size` would become -1. */
    method Evict()
      requires Valid() && |window| > 0
      modifies this
      ensures Valid() && window == old(window)[1..]
      ensures |buffer| == if |window| < |old(buffer)| / (2 * THRES) then Max(|old(buffer)| / THRES, LOW_CAP)
                          else |old(buffer)|
    {
      ghost var f0 := front;
      front := (front + 1) % |buffer|;
      size := size - 1;
      window := window[1..];
      EvictTo(m, buffer, f0, back, old(window), front);
      if size < |buffer| / (2 * THRES) {
        var thrown := RescaleTo(|buffer| / THRES, size);
        assert !thrown;
      }
    }

    /** The aggregate of the window, identity when empty, with the path
        from `front` compressed as in `FlatFIT`. */
    method Query() returns (r: Out)
      requires Valid()
      modifies this
      ensures Valid() && r == op.lower(Fold(m, window))
      ensures window == old(window) && |buffer| == |old(buffer)|
      ensures front == old(front) && back == old(back)
      ensures |window| > 1 ==> buffer[front].next == back
    {
      if size == 0 {
        return op.lower(m.identity);
      }
      var stack, poss := Trace(m, buffer, front, back, window);
      var buf, theSum := Compress(m, buffer, front, back, window, stack, poss);
      var agg := m.combine(theSum, buf[back].val);
      FoldLast(m, window, theSum, buf[back].val);
      buffer := buf;
      r := op.lower(agg);
    }

    /** `rescale_to`: a buffer of `max(newSize, LOW_CAP)` entries holding the
        window packed from index 0; the remaining entries are fresh ones
        (modelled as the identity with a link to 0).  It throws when
        `ensureSize` would not fit. */
    method RescaleTo(newSize: nat, ensureSize: nat) returns (thrown: bool)
      requires Layout() && |window| <= ensureSize
      modifies this
      ensures window == old(window) && size == old(size)
      ensures thrown <==> ensureSize > Max(newSize, LOW_CAP)
      ensures thrown ==> buffer == old(buffer) && front == old(front) && back == old(back) && Layout()
      ensures !thrown ==> Layout() && |buffer| == Max(newSize, LOW_CAP) && front == 0 && back == size - 1
                          && Packed(old(buffer), old(front), size, buffer, Entry(m.identity, 0))
    {
      var cap := Max(newSize, LOW_CAP);
      if ensureSize > cap {
        return true;
      }
      thrown := false;
      var rescaled := seq(cap, _ => Entry(m.identity, 0));
      var index := 0;
      while index < size
        invariant 0 <= index <= size && |rescaled| == cap
        invariant forall k :: 0 <= k < index ==> rescaled[k] == PackedEntry(buffer, front, k)
        invariant forall k :: index <= k < cap ==> rescaled[k] == Entry(m.identity, 0)
      {
        rescaled := rescaled[index := PackedEntry(buffer, front, index)];
        index := index + 1;
      }
      PackTo(m, buffer, front, back, window, rescaled, Entry(m.identity, 0));
      buffer := rescaled;
      front := 0;
      back := size - 1;
    }
  }
}
