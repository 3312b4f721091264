// cpp/src/RingBufferQueue.hpp: a FIFO queue in a circular buffer.  With
// `PRESET_CAP == 0` the buffer resizes itself (dynamic mode): it starts at
// four slots, doubles when a push would fill it and halves when a pop leaves
// it at most a quarter full, never going below four; with `PRESET_CAP > 0` it
// keeps that many slots and any resize throws (static mode).  The front and
// back pointers are modelled as the offsets `front` and `back` into the
// buffer; `contents` is the queue, oldest first.
module RingBufferQueue {
  /** `THRES`. */
  const Thres: nat := 2
  /** `MAGIC_MINIMUM_RING_SIZE`. */
  const MagicMinimumRingSize: nat := 4

  function Max(x: nat, y: nat): (r: nat)
    ensures r >= x && r >= y && (r == x || r == y)
  {
    if x >= y then x else y
  }

  lemma ModSmall(x: nat, c: nat)
    requires x < c
    ensures x % c == x
  {
  }

  /** Taking `c` off a value at least `c` keeps its remainder. */
  lemma ModSub(x: nat, c: nat)
    requires 0 < c <= x
    ensures (x - c) % c == x % c
  {
    assert x == c * ((x - c) / c + 1) + (x - c) % c;
    ModUnique(x, c, (x - c) / c + 1, (x - c) % c);
  }

  /** The remainder is the unique `r` in `[0, c)` with `x = c * q + r`. */
  lemma ModUnique(x: int, c: nat, q: int, r: int)
    requires 0 < c && 0 <= r < c && x == c * q + r
    ensures x % c == r
  {
    var q', r' := x / c, x % c;
    assert c * q' + r' == c * q + r;
    if q' > q {
      assert c * q' >= c * (q + 1) by { MulMono(c, q + 1, q'); }
    } else if q' < q {
      assert c * q >= c * (q' + 1) by { MulMono(c, q' + 1, q); }
    }
  }

  lemma MulMono(c: nat, x: int, y: int)
    requires x <= y
    ensures c * x <= c * y
  {
    assert c * y - c * x == c * (y - x);
  }

  /** One step round the ring: `++p`, less `c` if it ran off the end. */
  lemma ModNext(x: nat, c: nat)
    requires 0 < c
    ensures (x + 1) % c == if x % c + 1 == c then 0 else x % c + 1
  {
    var q := x / c;
    assert x == c * q + x % c;
    if x % c + 1 == c {
      assert x + 1 == c * (q + 1) + 0;
      ModUnique(x + 1, c, q + 1, 0);
    } else {
      ModUnique(x + 1, c, q, x % c + 1);
    }
  }

  /** `x % c` for `x` less than twice `c`: at most one wrap. */
  lemma ModWrap(x: nat, c: nat)
    requires 0 < c && x < 2 * c
    ensures x % c == if x < c then x else x - c
  {
    if x < c {
      ModSmall(x, c);
    } else {
      ModSub(x, c);
      ModSmall(x - c, c);
    }
  }

  /** The slot `i` places after `front` in a ring of `capacity` slots. */
  function Slot(front: nat, i: nat, capacity: nat): (r: nat)
    requires front < capacity && i <= capacity
    ensures r < capacity
  {
    if front + i < capacity then front + i else front + i - capacity
  }

  /** `iterator::operator++`: the next slot, wrapping at the end. */
  function IterNext(p: nat, capacity: nat): (r: nat)
    requires p < capacity
    ensures r < capacity && r == Slot(p, 1, capacity)
  {
    if p + 1 >= capacity then p + 1 - capacity else p + 1
  }

  /** `iterator::operator--`: the previous slot, wrapping at the start. */
  function IterPrev(p: nat, capacity: nat): (r: nat)
    requires p < capacity
    ensures r < capacity && IterNext(r, capacity) == p
  {
    if p == 0 then capacity - 1 else p - 1
  }

  /** The slot that `back()` of the source dereferences: `back_ptr - 1`,
      which is one before the buffer when `back` has wrapped to 0. */
  function BackSlotAsWritten(back: nat): (r: int)
    ensures back == 0 ==> r < 0
  {
    back - 1
  }

  /** The slot of the newest element: one before `back`, round the ring. */
  function BackSlot(back: nat, capacity: nat): (r: nat)
    requires back < capacity
    ensures r < capacity && IterNext(r, capacity) == back
  {
    IterPrev(back, capacity)
  }

  /** A power of two: the dynamic buffer starts at four slots and only
      ever doubles or halves. */
  ghost predicate Pow2(c: nat)
  {
    c == 1 || (c >= 2 && c % 2 == 0 && Pow2(c / 2))
  }

  lemma Pow2Four()
    ensures Pow2(MagicMinimumRingSize)
  {
    assert Pow2(1);
    assert Pow2(2);
  }

  lemma Pow2Double(c: nat)
    requires Pow2(c)
    ensures Pow2(Thres * c)
  {
    assert (2 * c) / 2 == c;
  }

  /** The elements of `contents` lie round the ring `buf` from `front`. */
  ghost predicate Ring<E>(buf: seq<E>, front: nat, contents: seq<E>)
  {
    front < |buf| && |contents| <= |buf|
    && forall i {:trigger contents[i]} :: 0 <= i < |contents| ==> contents[i] == buf[Slot(front, i, |buf|)]
  }

  lemma RingPush<E>(buf: seq<E>, front: nat, contents: seq<E>, x: E)
    requires Ring(buf, front, contents) && |contents| < |buf|
    ensures Ring(buf[Slot(front, |contents|, |buf|) := x], front, contents + [x])
  {
  }

  lemma RingPop<E>(buf: seq<E>, front: nat, contents: seq<E>)
    requires Ring(buf, front, contents) && |contents| > 0
    ensures Ring(buf, IterNext(front, |buf|), contents[1..])
  {
    var f := IterNext(front, |buf|);
    forall i | 0 <= i < |contents| - 1
      ensures contents[1..][i] == buf[Slot(f, i, |buf|)]
    {
      assert Slot(f, i, |buf|) == Slot(front, i + 1, |buf|);
    }
  }

  /** The state of the copy loop of `rescale_to`: the first `index` elements
      are in place in `dst`, round the ring from `front`. */
  ghost predicate Copied<E>(dst: seq<E>, front: nat, index: nat, contents: seq<E>)
  {
    front < |dst| && index <= |contents| && index <= |dst|
    && forall i {:trigger contents[i]} :: 0 <= i < index ==> dst[Slot(front, i, |dst|)] == contents[i]
  }

  lemma CopyStep<E>(dst: seq<E>, front: nat, index: nat, contents: seq<E>)
    requires Copied(dst, front, index, contents) && index < |contents| && index < |dst|
    ensures Copied(dst[Slot(front, index, |dst|) := contents[index]], front, index + 1, contents)
  {
  }

  /** The copy loop of `rescale_to`: `f_src` runs round the old ring and
      `f_dst` round the new one, both from the old front, each brought back
      by one length when it runs off its end. */
  method CopyRing<E(0)>(buf: array<E>, f: nat, n: nat, ns: nat, ghost cs: seq<E>) returns (rescaled: array<E>)
    requires Ring(buf[..], f, cs) && n == |cs| <= ns && buf.Length <= 2 * ns
    ensures fresh(rescaled) && rescaled.Length == ns
    ensures Copied(rescaled[..], if f >= ns then f - ns else f, n, cs)
  {
    rescaled := new E[ns];
    var oldCap := buf.Length;
    ghost var fr: nat := if f >= ns then f - ns else f;
    var fSrc: nat, fDst: nat := f, f;
    var index: nat := 0;
    while index < n
      invariant index <= n && rescaled.Length == ns
      invariant index == 0 ==> fSrc == f && fDst == f
      invariant index > 0 ==> fSrc == Slot(f, index - 1, oldCap) + 1
      invariant index > 0 ==> fDst == Slot(fr, index - 1, ns) + 1
      invariant Copied(rescaled[..], fr, index, cs)
    {
      if fDst >= ns {
        fDst := fDst - ns;
      }
      if fSrc >= oldCap {
        fSrc := fSrc - oldCap;
      }
      assert fDst == Slot(fr, index, ns) && fSrc == Slot(f, index, oldCap);
      CopyStep(rescaled[..], fr, index, cs);
      assert cs[index] == buf[..][Slot(f, index, oldCap)];
      rescaled[fDst] := buf[fSrc];
      fDst, fSrc := fDst + 1, fSrc + 1;
      index := index + 1;
    }
  }

  class RingBufferQueue<E(0)> {
    /** `PRESET_CAP`; 0 selects the dynamic mode. */
    const presetCap: nat
    var buffer: array<E>
    var capacity: nat
    var size: nat
    var front: nat
    var back: nat
    ghost var contents: seq<E>

    /** The queue occupies `size` consecutive slots round the ring from
        `front`, and `back` is the slot after them. */
    ghost predicate Layout()
      reads this, buffer
    {
      capacity == buffer.Length && front < capacity && |contents| == size <= capacity
      && back == Slot(front, size, capacity) && Ring(buffer[..], front, contents)
      && (presetCap == 0 ==> capacity >= MagicMinimumRingSize && Pow2(capacity))
      && (presetCap > 0 ==> capacity == presetCap)
    }

    /** There is always a free slot. */
    ghost predicate Valid()
      reads this, buffer
    {
      Layout() && size < capacity
    }

    constructor(preset: nat)
      ensures Valid() && presetCap == preset && contents == [] && fresh(buffer)
      ensures capacity == (if preset == 0 then MagicMinimumRingSize else preset)
      ensures front == 0 && back == 0
    {
      presetCap := preset;
      var c := if preset == 0 then MagicMinimumRingSize else preset;
      buffer := new E[c];
      capacity, size, front, back := c, 0, 0, 0;
      contents := [];
    }

    function Size(): (n: nat)
      reads this, buffer
      requires Valid()
      ensures n == |contents|
    {
      size
    }

    /** `front()`: the oldest element. */
    function Front(): (e: E)
      reads this, buffer
      requires Valid() && |contents| > 0
      ensures e == contents[0]
    {
      assert contents[0] == buffer[..][Slot(front, 0, capacity)];
      buffer[front]
    }

    /** `back()` as evidently intended: the newest element, read from the
        slot before `back` round the ring. */
    function Back(): (e: E)
      reads this, buffer
      requires Valid() && |contents| > 0
      ensures e == contents[|contents| - 1]
    {
      assert contents[size - 1] == buffer[..][Slot(front, size - 1, capacity)];
      buffer[BackSlot(back, capacity)]
    }

    /** A state with a non-empty queue and `back` wrapped to slot 0, where
        `back()` of the source reads before the buffer. */
    ghost predicate BackWrapped()
      reads this, buffer
    {
      Valid() && size > 0 && back == 0 && BackSlotAsWritten(back) < 0
    }

    /** `rescale_to(new_size, ensure_size)`: the copy loop moves every
        element to the same position modulo the new size. */
    method RescaleTo(newSize: nat, ensureSize: nat) returns (thrown: bool)
      requires Layout() && size <= ensureSize && capacity <= 2 * newSize
      requires presetCap == 0 ==> Pow2(newSize)
      modifies this
      ensures thrown <==> presetCap > 0 || ensureSize > Max(newSize, MagicMinimumRingSize)
      ensures thrown ==> buffer == old(buffer) && capacity == old(capacity) && size == old(size)
                         && front == old(front) && back == old(back) && contents == old(contents)
      ensures !thrown ==> Layout() && fresh(buffer) && contents == old(contents) && size == old(size)
                          && capacity == Max(newSize, MagicMinimumRingSize)
                          && front == old(front) % capacity
    {
      if presetCap > 0 {
        return true;
      }
      var ns := Max(newSize, MagicMinimumRingSize);
      if ensureSize > ns {
        return true;
      }
      ghost var fr: nat := if front >= ns then front - ns else front;
      var rescaled := CopyRing(buffer, front, size, ns, contents);
      ModWrap(front, ns);
      ModWrap(fr + size, ns);
      Pow2Four();
      buffer := rescaled;
      capacity := ns;
      front := front % ns;
      back := (front + size) % ns;
      thrown := false;
    }

    /** `push_back`: a push that would fill the buffer first rescales it to
        twice its size, which throws in static mode. */
    method PushBack(elem: E) returns (thrown: bool)
      requires Valid()
      modifies this, buffer
      ensures thrown <==> presetCap > 0 && old(size) + 1 >= old(capacity)
      ensures if !thrown && old(size) + 1 >= old(capacity) then fresh(buffer) else buffer == old(buffer)
      ensures thrown ==> buffer == old(buffer) && capacity == old(capacity) && size == old(size)
                         && front == old(front) && back == old(back) && contents == old(contents)
                         && buffer[..] == old(buffer[..])
      ensures !thrown ==> Valid() && contents == old(contents) + [elem] && front == old(front)
                          && capacity == (if old(size) + 1 >= old(capacity) then Thres * old(capacity)
                                          else old(capacity))
    {
      var n := size;
      if n + 1 >= capacity {
        if presetCap == 0 {
          Pow2Double(capacity);
        }
        thrown := RescaleTo(Thres * capacity, n + 1);
        if thrown {
          return;
        }
        ModSmall(old(front), capacity);
      }
      thrown := false;
      RingPush(buffer[..], front, contents, elem);
      buffer[back] := elem;
      size := size + 1;
      contents := contents + [elem];
      back := IterNext(back, capacity);
    }

    /** `pop_front`; in dynamic mode a queue left at most a quarter full is
        rescaled to half the buffer. */
    method PopFront()
      requires Valid() && |contents| > 0
      modifies this
      ensures Valid() && contents == old(contents)[1..]
      ensures buffer == old(buffer) || fresh(buffer)
      ensures capacity == if presetCap == 0 && old(size) - 1 <= old(capacity) / (2 * Thres)
                          then Max(old(capacity) / Thres, MagicMinimumRingSize) else old(capacity)
      ensures front == IterNext(old(front), old(capacity)) % capacity
    {
      RingPop(buffer[..], front, contents);
      front := IterNext(front, capacity);
      size := size - 1;
      contents := contents[1..];
      ModSmall(front, capacity);
      if presetCap == 0 {
        var n := size;
        if n <= capacity / (2 * Thres) {
          var thrown := RescaleTo(capacity / Thres, n);
          assert !thrown;
        }
      }
    }
  }

  /** The run of the source's own ring-buffer test order that reaches a
      wrapped `back`: in dynamic mode push three values, pop all three (the
      last two pops rescale to four slots and keep the front in place), then
      push one more.  `back()` as written then reads slot -1. */
  method BackWrapReachable() returns (q: RingBufferQueue<int>)
    ensures q.BackWrapped() && q.contents == [4] && q.capacity == MagicMinimumRingSize
    ensures q.front == 3 && BackSlotAsWritten(q.back) == -1
  {
    q := new RingBufferQueue(0);
    var t := q.PushBack(1);
    t := q.PushBack(2);
    t := q.PushBack(3);
    assert q.size == 3 && q.front == 0 && q.capacity == 4;
    q.PopFront();
    assert q.size == 2 && q.front == 1 && q.capacity == 4;
    q.PopFront();
    assert q.size == 1 && q.front == 2 && q.capacity == 4;
    q.PopFront();
    assert q.size == 0 && q.front == 3 && q.capacity == 4;
    t := q.PushBack(4);
  }
}
