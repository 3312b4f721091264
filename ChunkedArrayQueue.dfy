// cpp/src/ChunkedArrayQueue.hpp: a FIFO queue in a doubly linked list of
// fixed-size chunks.  `_begin` points at the oldest element and `_end` at the
// free slot after the newest; the last chunk always has a free slot, because
// a push that fills it links a fresh chunk at once, and a pop that leaves the
// first chunk exhausted frees it.  The ghost `chunks` lists the live chunks
// from `_begin`'s to `_end`'s, `cells` their contents, and the queue is the
// stretch of the concatenated cells from `_begin` to `_end`.
module ChunkedArrayQueue {
  /** `MAGIC_CHUNK_SIZE`: the byte size each chunk aims at. */
  const MagicChunkSize: nat := 512

  /** `CAPACITY` for elements of `elemSize` bytes: as many as fit in
      `MAGIC_CHUNK_SIZE` bytes, and one when not even one fits. */
  function ChunkCapacity(elemSize: nat): (c: nat)
    requires elemSize > 0
    ensures c >= 1
    ensures MagicChunkSize < elemSize ==> c == 1
    ensures elemSize <= MagicChunkSize ==> c * elemSize <= MagicChunkSize < (c + 1) * elemSize
  {
    if MagicChunkSize < elemSize then 1 else MagicChunkSize / elemSize
  }

  /** The cells of a list of chunks, one after the other. */
  ghost function Concat<E>(cs: seq<seq<E>>): seq<E>
  {
    if cs == [] then [] else Concat(cs[..|cs| - 1]) + cs[|cs| - 1]
  }

  lemma {:induction false} ConcatAppend<E>(a: seq<seq<E>>, b: seq<seq<E>>)
    ensures Concat(a + b) == Concat(a) + Concat(b)
    decreases |b|
  {
    if b == [] {
      assert a + b == a;
    } else {
      var b' := b[..|b| - 1];
      var ab := a + b;
      assert ab[..|ab| - 1] == a + b' && ab[|ab| - 1] == b[|b| - 1];
      calc {
        Concat(ab);
        Concat(a + b') + b[|b| - 1];
        { ConcatAppend(a, b'); }
        Concat(a) + Concat(b') + b[|b| - 1];
        Concat(a) + Concat(b);
      }
    }
  }

  /** Freeing the first chunk drops its cells from the front. */
  lemma ConcatDrop<E>(cs: seq<seq<E>>)
    requires |cs| > 0
    ensures |cs[0]| <= |Concat(cs)|
    ensures Concat(cs[1..]) == Concat(cs)[|cs[0]|..]
  {
    assert cs == [cs[0]] + cs[1..];
    ConcatAppend([cs[0]], cs[1..]);
    assert Concat([cs[0]]) == Concat([]) + cs[0];
  }

  /** Writing slot `j` of the last chunk writes one cell of the
      concatenation. */
  lemma ConcatSetLast<E>(cs: seq<seq<E>>, j: nat, e: E)
    requires |cs| > 0 && j < |cs[|cs| - 1]|
    ensures var n := |cs| - 1;
            Concat(cs[n := cs[n][j := e]]) == Concat(cs)[|Concat(cs[..n])| + j := e]
  {
    var n := |cs| - 1;
    assert cs[n := cs[n][j := e]][..n] == cs[..n];
  }

  /** Slot `j` of chunk `k` is the cell `|Concat(cs[..k])| + j`. */
  lemma ConcatIndex<E>(cs: seq<seq<E>>, k: nat, j: nat)
    requires k < |cs| && j < |cs[k]|
    ensures |Concat(cs[..k])| + j < |Concat(cs)|
    ensures Concat(cs)[|Concat(cs[..k])| + j] == cs[k][j]
  {
    assert cs == cs[..k + 1] + cs[k + 1..];
    ConcatAppend(cs[..k + 1], cs[k + 1..]);
    assert cs[..k + 1][..k] == cs[..k];
  }

  /** With every chunk of `c` cells, chunk `k` starts at cell `k * c`. */
  lemma {:induction false} PrefixLength<E>(cs: seq<seq<E>>, k: nat, c: nat)
    requires k <= |cs| && Uniform(cs, c)
    ensures |Concat(cs[..k])| == k * c
  {
    if k > 0 {
      assert cs[..k][..k - 1] == cs[..k - 1];
      PrefixLength(cs, k - 1, c);
      assert |Concat(cs[..k])| == |Concat(cs[..k - 1])| + |cs[k - 1]|;
    }
  }

  /** Different (chunk, slot) positions are different cells. */
  lemma SlotsDistinct(k: nat, j: nat, k': nat, j': nat, c: nat)
    requires j < c && j' < c && (k, j) != (k', j')
    ensures k * c + j != k' * c + j'
  {
    if k < k' {
      assert (k + 1) * c <= k' * c by { MulLe(k + 1, k', c); }
    } else if k' < k {
      assert (k' + 1) * c <= k * c by { MulLe(k' + 1, k, c); }
    }
  }

  /** Different (chunk, slot) positions have different cells. */
  lemma OffsetInjective<E>(cs: seq<seq<E>>, c: nat, k: nat, j: nat, k': nat, j': nat)
    requires Uniform(cs, c) && k < |cs| && k' < |cs| && j < c && j' < c && (k, j) != (k', j')
    ensures |Concat(cs[..k])| + j != |Concat(cs[..k'])| + j'
  {
    PrefixLength(cs, k, c);
    PrefixLength(cs, k', c);
    SlotsDistinct(k, j, k', j', c);
  }

  lemma MulLe(x: nat, y: nat, c: nat)
    requires x <= y
    ensures x * c <= y * c
  {
    assert y * c - x * c == (y - x) * c;
  }

  ghost predicate Uniform<E>(cs: seq<seq<E>>, c: nat)
  {
    forall k {:trigger cs[k]} :: 0 <= k < |cs| ==> |cs[k]| == c
  }

  /** The queue `contents` is the stretch of the cells of `cs`, chunks of
      `c` cells each, from slot `bi` of the first chunk up to slot `ei` of
      the last. */
  ghost predicate Window<E>(cs: seq<seq<E>>, bi: nat, ei: nat, size: nat, c: nat, contents: seq<E>)
  {
    |cs| >= 1 && Uniform(cs, c) && bi < c && ei < c && |contents| == size
    && bi + size + c == |Concat(cs)| + ei && contents == Concat(cs)[bi .. bi + size]
  }

  /** The last chunk ends the concatenation. */
  lemma WindowLast<E>(cs: seq<seq<E>>, bi: nat, ei: nat, size: nat, c: nat, contents: seq<E>)
    requires Window(cs, bi, ei, size, c, contents)
    ensures |Concat(cs)| == |Concat(cs[..|cs| - 1])| + c
    ensures bi + size == |Concat(cs[..|cs| - 1])| + ei
  {
  }

  /** `push_back`, stated on the cells after it: slot `ei` of the last chunk
      is written, and a chunk of `c` added cells is linked when `_end` runs
      off the last one. */
  lemma WindowPushTo<E>(cs: seq<seq<E>>, bi: nat, ei: nat, size: nat, c: nat, contents: seq<E>, x: E,
                        cs': seq<seq<E>>, ei': nat, added: seq<E>)
    requires Window(cs, bi, ei, size, c, contents)
    requires var n := |cs| - 1; var w := cs[n := cs[n][ei := x]];
             if ei + 1 < c then cs' == w && ei' == ei + 1
             else cs' == w + [added] && |added| == c && ei' == 0
    ensures Window(cs', bi, ei', size + 1, c, contents + [x])
  {
    var n := |cs| - 1;
    var w := cs[n := cs[n][ei := x]];
    ConcatSetLast(cs, ei, x);
    assert Uniform(w, c) by {
      forall k | 0 <= k < |w| ensures |w[k]| == c {
        assert |cs[k]| == c;
      }
    }
    WindowLast(cs, bi, ei, size, c, contents);
    assert Concat(w)[bi .. bi + size + 1] == contents + [x];
    if ei + 1 == c {
      ConcatAppend(w, [added]);
      assert Concat([added]) == Concat([]) + added;
      assert Concat(cs')[bi .. bi + size + 1] == Concat(w)[bi .. bi + size + 1];
      assert Uniform(cs', c) by {
        forall k | 0 <= k < |cs'| ensures |cs'[k]| == c {
          if k < |w| {
            assert cs'[k] == w[k];
          }
        }
      }
    }
  }

  /** A pop that exhausts the first chunk leaves a chunk after it. */
  lemma WindowPopNext<E>(cs: seq<seq<E>>, bi: nat, ei: nat, size: nat, c: nat, contents: seq<E>)
    requires Window(cs, bi, ei, size, c, contents) && size > 0 && bi + 1 == c
    ensures |cs| > 1
  {
    WindowLast(cs, bi, ei, size, c, contents);
    ConcatNonEmpty(cs[..|cs| - 1]);
  }

  lemma ConcatNonEmpty<E>(cs: seq<seq<E>>)
    ensures |Concat(cs)| > 0 ==> |cs| > 0
  {
  }

  /** `pop_front`, stated on the cells after it: `_begin` steps, and an
      exhausted first chunk is freed. */
  lemma WindowPopTo<E>(cs: seq<seq<E>>, bi: nat, ei: nat, size: nat, c: nat, contents: seq<E>,
                       cs': seq<seq<E>>, bi': nat)
    requires Window(cs, bi, ei, size, c, contents) && size > 0
    requires if bi + 1 < c then cs' == cs && bi' == bi + 1 else |cs| > 1 && cs' == cs[1..] && bi' == 0
    ensures Window(cs', bi', ei, size - 1, c, contents[1..])
  {
    if bi + 1 == c {
      ConcatDrop(cs);
      assert Uniform(cs', c) by {
        forall k | 0 <= k < |cs'| ensures |cs'[k]| == c {
          assert cs'[k] == cs[k + 1];
        }
      }
    }
  }

  /** `Chunk`: `CAPACITY` slots and the links to its neighbours. */
  class Chunk<E(0)> {
    var prev: Chunk?<E>
    var next: Chunk?<E>
    const elems: array<E>

    constructor(prev0: Chunk?<E>, next0: Chunk?<E>, capacity: nat)
      ensures prev == prev0 && next == next0 && fresh(elems) && elems.Length == capacity
    {
      prev, next := prev0, next0;
      elems := new E[capacity];
    }
  }

  /** Chunks linked in order by `prev`/`next`, each a distinct buffer of
      `c` slots holding the corresponding `cells`, all inside `repr`. */
  ghost predicate Chain<E(0)>(chunks: seq<Chunk<E>>, cells: seq<seq<E>>, c: nat, repr: set<object>)
    reads repr
  {
    c >= 1 && |chunks| >= 1 && |cells| == |chunks|
    && (forall k {:trigger chunks[k]} :: 0 <= k < |chunks| ==> chunks[k] in repr && chunks[k].elems in repr)
    && (forall k {:trigger chunks[k]} :: 0 <= k < |chunks| ==>
          chunks[k].elems.Length == c && chunks[k].elems[..] == cells[k])
    && (forall k, k' :: 0 <= k < k' < |chunks| ==>
          chunks[k] != chunks[k'] && chunks[k].elems != chunks[k'].elems)
    && (forall k {:trigger chunks[k].next} :: 0 <= k < |chunks| - 1 ==>
          chunks[k].next == chunks[k + 1] && chunks[k + 1].prev == chunks[k])
    && chunks[0].prev == null && chunks[|chunks| - 1].next == null
  }

  /** `iterator`: a chunk and a slot in it. */
  datatype Iter<E(0)> = Iter(chunk: Chunk?<E>, index: nat)

  class ChunkedArrayQueue<E(0)> {
    /** `CAPACITY`. */
    const capacity: nat
    var begin: Iter<E>
    var end: Iter<E>
    var size: nat
    ghost var chunks: seq<Chunk<E>>
    ghost var cells: seq<seq<E>>
    ghost var contents: seq<E>
    ghost var Repr: set<object>

    /** The chunks are linked in order, each with `capacity` cells. */
    ghost predicate Linked()
      reads this, Repr
    {
      this !in Repr && Chain(chunks, cells, capacity, Repr)
    }

    ghost predicate Valid()
      reads this, Repr
    {
      Linked()
      && begin.chunk == chunks[0] && end.chunk == chunks[|chunks| - 1]
      && Window(cells, begin.index, end.index, size, capacity, contents)
    }

    /** The iterator `it` is slot `it.index` of the `k`-th live chunk. */
    ghost predicate At(it: Iter<E>, k: nat)
      reads this
    {
      k < |chunks| && it.chunk == chunks[k] && it.index < capacity
    }

    /** The cell of slot `j` of the `k`-th live chunk. */
    ghost function Offset(k: nat, j: nat): nat
      reads this
      requires k <= |cells|
    {
      |Concat(cells[..k])| + j
    }

    constructor(elemSize: nat)
      requires elemSize > 0
      ensures Valid() && fresh(Repr) && contents == [] && capacity == ChunkCapacity(elemSize)
    {
      capacity := ChunkCapacity(elemSize);
      var c := new Chunk<E>(null, null, ChunkCapacity(elemSize));
      begin, end, size := Iter(c, 0), Iter(c, 0), 0;
      chunks, cells, contents := [c], [c.elems[..]], [];
      Repr := {c, c.elems};
      new;
      assert Concat(cells) == Concat([]) + cells[0];
    }

    function Size(): (n: nat)
      reads this, Repr
      requires Valid()
      ensures n == |contents|
    {
      size
    }

    /** `push_back`: write at `_end`, then step it, linking a fresh chunk
        when it runs off the last one. */
    method PushBack(elem: E)
      requires Valid()
      modifies Repr
      modifies this
      ensures Valid() && contents == old(contents) + [elem] && fresh(Repr - old(Repr))
    {
      ghost var cs0, ei0, ct0, sz0 := cells, end.index, contents, size;
      size := size + 1;
      contents := contents + [elem];
      WriteEnd(elem);
      ghost var added: seq<E> := [];
      if end.index == capacity {
        added := LinkChunk();
      }
      WindowPushTo(cs0, begin.index, ei0, sz0, capacity, ct0, elem, cells, end.index, added);
    }

    /** `*_end = elem; _end.index++`. */
    method WriteEnd(elem: E)
      requires Linked() && end.chunk == chunks[|chunks| - 1] && end.index < capacity
      modifies end.chunk.elems, this
      ensures Linked() && chunks == old(chunks) && Repr == old(Repr)
      ensures cells == old(cells[|cells| - 1 := cells[|cells| - 1][end.index := elem]])
      ensures end == Iter(old(end.chunk), old(end.index) + 1)
      ensures begin == old(begin) && size == old(size) && contents == old(contents)
    {
      ghost var n := |chunks| - 1;
      end.chunk.elems[end.index] := elem;
      cells := cells[n := cells[n][end.index := elem]];
      end := Iter(end.chunk, end.index + 1);
    }

    /** `new Chunk(_end.chunk, NULL)`, linked after the last chunk, with
        `_end` reset to its first slot. */
    method LinkChunk() returns (ghost added: seq<E>)
      requires Linked() && end.chunk == chunks[|chunks| - 1]
      modifies this, end.chunk
      ensures Linked() && |chunks| == |old(chunks)| + 1 && chunks[..|old(chunks)|] == old(chunks)
      ensures cells == old(cells) + [added] && |added| == capacity
      ensures end == Iter(chunks[|chunks| - 1], 0) && begin == old(begin)
      ensures size == old(size) && contents == old(contents) && fresh(Repr - old(Repr))
    {
      ghost var cs0 := chunks;
      ghost var n := |chunks| - 1;
      var c := new Chunk<E>(end.chunk, null, capacity);
      end.chunk.next := c;
      end := Iter(c, 0);
      added := c.elems[..];
      chunks, cells := chunks + [c], cells + [added];
      Repr := Repr + {c, c.elems};
      forall k | 0 <= k < |chunks| - 1
        ensures chunks[k].next == chunks[k + 1] && chunks[k + 1].prev == chunks[k]
      {
        if k < n {
          assert cs0[k] != cs0[n];
        }
      }
    }

    /** `pop_front`: step `_begin`, freeing the first chunk when it is
        exhausted. */
    method PopFront()
      requires Valid() && |contents| > 0
      modifies this, Repr
      ensures Valid() && contents == old(contents)[1..] && Repr == old(Repr)
    {
      ghost var cs0, bi0, ct0, sz0 := cells, begin.index, contents, size;
      if begin.index + 1 == capacity {
        WindowPopNext(cells, begin.index, end.index, size, capacity, contents);
      }
      size := size - 1;
      contents := contents[1..];
      AdvanceBegin();
      WindowPopTo(cs0, bi0, end.index, sz0, capacity, ct0, cells, begin.index);
    }

    /** `_begin.index++`, and when that exhausts the first chunk, free it,
        unlink it from the next one and move `_begin` there. */
    method AdvanceBegin()
      requires Linked() && begin.chunk == chunks[0] && begin.index < capacity
      requires begin.index + 1 == capacity ==> |chunks| > 1
      modifies this, Repr
      ensures Linked() && Repr == old(Repr)
      ensures if old(begin.index) + 1 < capacity
              then chunks == old(chunks) && cells == old(cells) && begin == Iter(old(begin.chunk), old(begin.index) + 1)
              else chunks == old(chunks[1..]) && cells == old(cells[1..]) && begin == Iter(chunks[0], 0)
      ensures end == old(end) && size == old(size) && contents == old(contents)
    {
      begin := Iter(begin.chunk, begin.index + 1);
      if begin.index == capacity {
        var next := begin.chunk.next;
        ghost var cs0 := chunks;
        chunks, cells := chunks[1..], cells[1..];
        next.prev := null;
        begin := Iter(next, 0);
        forall k | 0 <= k < |chunks| - 1
          ensures chunks[k].next == chunks[k + 1] && chunks[k + 1].prev == chunks[k]
        {
          assert cs0[k + 1].next == cs0[k + 2] && cs0[k + 2] != cs0[1];
        }
      }
    }

    /** `front()`: the oldest element. */
    function Front(): (e: E)
      reads this, Repr
      requires Valid() && |contents| > 0
      ensures e == contents[0]
    {
      ConcatIndex(cells, 0, begin.index);
      begin.chunk.elems[begin.index]
    }

    /** `back()`: the element before `_end`. */
    function Back(): (e: E)
      reads this, Repr
      requires Valid() && |contents| > 0
      ensures e == contents[|contents| - 1]
    {
      var n := |chunks| - 1;
      assert |Concat(cells)| == |Concat(cells[..n])| + capacity;
      var last := Prev(end, n);
      ghost var k := if end.index == 0 then n - 1 else n;
      Deref(last, k)
    }

    /** `begin()` is the oldest element's slot in the first chunk. */
    function Begin(): (it: Iter<E>)
      reads this, Repr
      requires Valid()
      ensures At(it, 0) && Offset(0, it.index) == |Concat(cells)| - |contents| - capacity + end.index
    {
      begin
    }

    /** `end()` is the free slot after the newest element, in the last
        chunk. */
    function End(): (it: Iter<E>)
      reads this, Repr
      requires Valid()
      ensures At(it, |chunks| - 1) && Offset(|chunks| - 1, it.index) == begin.index + |contents|
    {
      assert |Concat(cells)| == |Concat(cells[..|chunks| - 1])| + capacity;
      end
    }

    /** `operator++`: the next cell, across the link at the end of a
        chunk. */
    function Next(it: Iter<E>, ghost k: nat): (r: Iter<E>)
      reads this, Repr
      requires Linked() && At(it, k) && (it.index + 1 < capacity || k + 1 < |chunks|)
      ensures var k' := if it.index + 1 < capacity then k else k + 1;
              At(r, k') && Offset(k', r.index) == Offset(k, it.index) + 1
    {
      if it.index + 1 == capacity then
        assert cells[..k + 1][..k] == cells[..k];
        Iter(it.chunk.next, 0)
      else
        Iter(it.chunk, it.index + 1)
    }

    /** `operator--`: the previous cell, across the link at the start of a
        chunk. */
    function Prev(it: Iter<E>, ghost k: nat): (r: Iter<E>)
      reads this, Repr
      requires Linked() && At(it, k) && (it.index > 0 || k > 0)
      ensures var k' := if it.index > 0 then k else k - 1;
              At(r, k') && Offset(k', r.index) + 1 == Offset(k, it.index)
    {
      if it.index == 0 then
        assert cells[..k][..k - 1] == cells[..k - 1];
        assert chunks[k - 1].next == chunks[k];
        Iter(it.chunk.prev, capacity - 1)
      else
        Iter(it.chunk, it.index - 1)
    }

    /** `operator*` on a cell of the queue: the element that many places
        after the oldest. */
    function Deref(it: Iter<E>, ghost k: nat): (e: E)
      reads this, Repr
      requires Valid() && At(it, k) && begin.index <= Offset(k, it.index) < begin.index + |contents|
      ensures e == contents[Offset(k, it.index) - begin.index]
    {
      ConcatIndex(cells, k, it.index);
      it.chunk.elems[it.index]
    }

    /** `operator<=`: walk forward from `x` until `y` turns up or the last
        slot of the last chunk is passed; so `x <= y` exactly when `y` is at
        or after `x`. */
    method LessEq(x: Iter<E>, ghost kx: nat, y: Iter<E>, ghost ky: nat) returns (b: bool)
      requires Valid() && At(x, kx) && At(y, ky)
      ensures b <==> Offset(kx, x.index) <= Offset(ky, y.index)
    {
      ghost var n := |chunks|;
      ghost var ox, oy := Offset(kx, x.index), Offset(ky, y.index);
      ghost var total := |Concat(cells)|;
      assert total == |Concat(cells[..n - 1])| + capacity;
      assert Uniform(cells, capacity);
      ConcatIndex(cells, ky, y.index);
      var cur := x;
      ghost var kc := kx;
      ConcatIndex(cells, kc, cur.index);
      while true
        invariant Linked() && Uniform(cells, capacity) && At(cur, kc) && ox <= Offset(kc, cur.index) < total
        invariant Offset(kc, cur.index) <= oy || oy < ox
        decreases total - Offset(kc, cur.index)
      {
        if cur == y {
          assert kc == ky;
          return true;
        }
        OffsetInjective(cells, capacity, kc, cur.index, ky, y.index);
        if cur.index == capacity - 1 && cur.chunk.next == null {
          assert kc == n - 1;
          return false;
        }
        ghost var k' := if cur.index + 1 < capacity then kc else kc + 1;
        cur := Next(cur, kc);
        kc := k';
        ConcatIndex(cells, kc, cur.index);
      }
    }
  }
}
