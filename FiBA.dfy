// The finger B-tree aggregator of cpp/src/FiBA.hpp.
//
// `Aggregate<timeT, minArity, kind, binOpFunc>` keeps a B-tree whose nodes
// hold between `minArity` and `2 * minArity` children (the root may hold
// fewer) and whose entries, read in order, are the window's (time, partial)
// pairs sorted by time.  Every node caches an aggregate whose meaning depends
// on where the node sits: with `kind == finger` the root and the nodes on
// the left and right spines cache partial sums that let `query` combine just
// three values, the other nodes (and every node of the other kinds) cache
// the aggregate of their subtree.
//
// The model has two layers.  The class `Aggregate` keeps the window as the
// sorted sequence of entries the tree represents, and states the effect of
// every update on it.  The tree itself is a datatype `Node` constrained by the
// source's local invariant (`localCheckInvariant`, `recalcAgg*`), and the
// read algorithms (`query`, `rangeQueryRec`, `searchNode`/`at`, `oldest`,
// `youngest`) are proved to compute, on any tree meeting that invariant, the
// value their names promise over the tree's in-order entries.
module FiBA {
  import opened Monoid
  import opened Wrappers

  /** The template parameter `Kind`: whether nodes on the spines cache
      finger sums and whether searches start at the fingers. */
  datatype Kind = Classic | Knuckle | Finger

  /** A time and its partial aggregate: `_times[i]` and `_values[i]` of a node. */
  datatype Entry<P> = Entry(time: int, val: P)

  function Values<P>(es: seq<Entry<P>>): (r: seq<P>)
    ensures |r| == |es|
  {
    if es == [] then [] else [es[0].val] + Values(es[1..])
  }

  lemma {:induction false} ValuesAppend<P>(a: seq<Entry<P>>, b: seq<Entry<P>>)
    ensures Values(a + b) == Values(a) + Values(b)
  {
    if a != [] {
      assert (a + b)[1..] == a[1..] + b;
      ValuesAppend(a[1..], b);
    } else {
      assert a + b == b;
    }
  }

  /** Strictly increasing times, the order the tree keeps its entries in. */
  ghost predicate Increasing<P>(es: seq<Entry<P>>) {
    forall i, j :: 0 <= i < j < |es| ==> es[i].time < es[j].time
  }

  /** The value stored for time `t`, if there is one. */
  function Lookup<P>(es: seq<Entry<P>>, t: int): (r: Option<P>)
    ensures r.Some? <==> exists i :: 0 <= i < |es| && es[i].time == t
    ensures Increasing(es) ==> forall i :: 0 <= i < |es| && es[i].time == t ==> r == Some(es[i].val)
  {
    if es == [] then None
    else if es[0].time == t then Some(es[0].val)
    else Lookup(es[1..], t)
  }

  /** What `at(t)` answers: the partial stored for `t`, or the identity. */
  function ValueAt<P>(m: Monoid<P>, es: seq<Entry<P>>, t: int): P {
    match Lookup(es, t)
    case Some(v) => v
    case None => m.identity
  }

  /** `localInsertEntry` read on the whole sorted sequence: a value for a time
      already present is combined after the stored one, a new time is
      inserted in order. */
  function InsertEntry<P>(m: Monoid<P>, es: seq<Entry<P>>, t: int, v: P): (r: seq<Entry<P>>)
    ensures r != [] && r[0].time == (if es == [] || t < es[0].time then t else es[0].time)
  {
    if es == [] then [Entry(t, v)]
    else if t < es[0].time then [Entry(t, v)] + es
    else if t == es[0].time then [Entry(t, m.combine(es[0].val, v))] + es[1..]
    else [es[0]] + InsertEntry(m, es[1..], t, v)
  }

  /** Where `v` ends up: combined into the entry for `t` or stored on its own,
      every other time keeping its value, one more entry exactly when `t` is new. */
  lemma {:induction false} InsertEntryLookup<P>(m: Monoid<P>, es: seq<Entry<P>>, t: int, v: P, u: int)
    requires Increasing(es)
    ensures Increasing(InsertEntry(m, es, t, v))
    ensures Lookup(InsertEntry(m, es, t, v), u)
            == if u != t then Lookup(es, u)
               else match Lookup(es, t) case None => Some(v) case Some(o) => Some(m.combine(o, v))
    ensures |InsertEntry(m, es, t, v)| == |es| + (if Lookup(es, t).None? then 1 else 0)
  {
    if es != [] && t > es[0].time {
      InsertEntryLookup(m, es[1..], t, v, u);
      var r := InsertEntry(m, es[1..], t, v);
      assert InsertEntry(m, es, t, v) == [es[0]] + r;
      assert Lookup(es, t) == Lookup(es[1..], t);
    }
  }

  /** A time younger than every entry goes to the end. */
  lemma {:induction false} InsertEntryYoungest<P>(m: Monoid<P>, es: seq<Entry<P>>, t: int, v: P)
    requires forall i :: 0 <= i < |es| ==> es[i].time < t
    ensures InsertEntry(m, es, t, v) == es + [Entry(t, v)]
  {
    if es != [] {
      InsertEntryYoungest(m, es[1..], t, v);
      assert es == [es[0]] + es[1..];
    }
  }

  /** `evict(t)`: removes the entry for `t`, if there is one. */
  function Remove<P>(es: seq<Entry<P>>, t: int): (r: seq<Entry<P>>)
    ensures |r| <= |es|
    ensures |r| > 0 && Increasing(es) ==> r[0].time >= es[0].time
  {
    if es == [] then []
    else if es[0].time == t then es[1..]
    else [es[0]] + Remove(es[1..], t)
  }

  /** Only `t` loses its entry, and the count drops by one exactly when it had one. */
  lemma {:induction false} RemoveLookup<P>(es: seq<Entry<P>>, t: int, u: int)
    requires Increasing(es)
    ensures Increasing(Remove(es, t))
    ensures Lookup(Remove(es, t), u) == if u == t then None else Lookup(es, u)
    ensures |Remove(es, t)| == |es| - (if Lookup(es, t).Some? then 1 else 0)
    ensures Lookup(es, t).None? ==> Remove(es, t) == es
  {
    if es != [] && es[0].time != t {
      RemoveLookup(es[1..], t, u);
      assert Remove(es, t) == [es[0]] + Remove(es[1..], t);
    }
  }

  /** `bulkEvict(t)`: drops the prefix of entries no younger than `t`. */
  function After<P>(es: seq<Entry<P>>, t: int): (r: seq<Entry<P>>)
    ensures |r| <= |es| && r == es[|es| - |r|..]
  {
    if es == [] then []
    else if es[0].time <= t then After(es[1..], t)
    else es
  }

  /** On a sorted window exactly the entries younger than `t` survive. */
  lemma {:induction false} AfterLookup<P>(es: seq<Entry<P>>, t: int, u: int)
    requires Increasing(es)
    ensures Increasing(After(es, t))
    ensures forall i :: 0 <= i < |After(es, t)| ==> After(es, t)[i].time > t
    ensures Lookup(After(es, t), u) == if u > t then Lookup(es, u) else None
  {
    if es != [] && es[0].time <= t {
      IncreasingTail(es);
      AfterLookup(es[1..], t, u);
      assert After(es, t) == After(es[1..], t);
      if u > t {
        assert Lookup(es, u) == Lookup(es[1..], u);
      }
    } else if es != [] {
      assert After(es, t) == es;
      forall i | 0 <= i < |es| ensures es[i].time > t {
        assert i == 0 || es[0].time < es[i].time;
      }
    }
  }

  /** The entries whose time lies in `[from, to]`, in order. */
  function InRange<P>(es: seq<Entry<P>>, from: int, to: int): (r: seq<Entry<P>>)
    ensures forall i :: 0 <= i < |r| ==> from <= r[i].time <= to
  {
    if es == [] then []
    else (if from <= es[0].time <= to then [es[0]] else []) + InRange(es[1..], from, to)
  }

  /** The pairs of a `bulkInsert` batch with their inputs lifted. */
  function Lift<In, P, Out>(op: BinOp<In, P, Out>, batch: seq<(int, In)>): (r: seq<Entry<P>>)
    ensures |r| == |batch|
    ensures forall k :: 0 <= k < |batch| ==> r[k] == Entry(batch[k].0, op.lift(batch[k].1))
  {
    seq(|batch|, k requires 0 <= k < |batch| => Entry(batch[k].0, op.lift(batch[k].1)))
  }

  /** The batch `bulkInsert` is defined against: one `insert` per pair, in order. */
  function InsertAll<P>(m: Monoid<P>, es: seq<Entry<P>>, b: seq<Entry<P>>): seq<Entry<P>>
    decreases |b|
  {
    if b == [] then es else InsertAll(m, InsertEntry(m, es, b[0].time, b[0].val), b[1..])
  }

  /** One pass over two sorted sequences, combining the values of a shared
      time (the tree's first): the merge of `mergeIn` with the combines of
      `doInitialMultisearch`. */
  function Merge<P>(m: Monoid<P>, a: seq<Entry<P>>, b: seq<Entry<P>>): seq<Entry<P>>
    decreases |a| + |b|
  {
    if a == [] then b
    else if b == [] then a
    else if b[0].time < a[0].time then [b[0]] + Merge(m, a, b[1..])
    else if b[0].time == a[0].time then [Entry(a[0].time, m.combine(a[0].val, b[0].val))] + Merge(m, a[1..], b[1..])
    else [a[0]] + Merge(m, a[1..], b)
  }

  lemma IncreasingCons<P>(x: Entry<P>, a: seq<Entry<P>>)
    requires Increasing(a) && (a == [] || x.time < a[0].time)
    ensures Increasing([x] + a)
  {
  }

  lemma IncreasingTail<P>(a: seq<Entry<P>>)
    requires Increasing(a) && a != []
    ensures Increasing(a[1..])
  {
  }

  lemma MergeHead<P>(m: Monoid<P>, x: Entry<P>, a: seq<Entry<P>>, b: seq<Entry<P>>)
    requires b == [] || x.time < b[0].time
    ensures Merge(m, [x] + a, b) == [x] + Merge(m, a, b)
  {
    assert ([x] + a)[1..] == a;
  }

  /** Merging a sorted batch into a sorted window is the same as inserting
      its pairs one at a time. */
  lemma {:induction false} MergeIsInserts<P>(m: Monoid<P>, a: seq<Entry<P>>, b: seq<Entry<P>>)
    requires Increasing(a) && Increasing(b)
    ensures Merge(m, a, b) == InsertAll(m, a, b)
    decreases |b|, |a|
  {
    if b == [] {
    } else {
      var x := b[0];
      IncreasingTail(b);
      assert InsertAll(m, a, b) == InsertAll(m, InsertEntry(m, a, x.time, x.val), b[1..]);
      if a == [] {
        IncreasingCons(x, []);
        MergeIsInserts(m, [x], b[1..]);
        MergeHead(m, x, [], b[1..]);
      } else if x.time < a[0].time {
        IncreasingCons(x, a);
        MergeIsInserts(m, [x] + a, b[1..]);
        MergeHead(m, x, a, b[1..]);
      } else if x.time == a[0].time {
        var c := Entry(a[0].time, m.combine(a[0].val, x.val));
        IncreasingTail(a);
        IncreasingCons(c, a[1..]);
        MergeIsInserts(m, [c] + a[1..], b[1..]);
        MergeHead(m, c, a[1..], b[1..]);
      } else {
        MergeGreater(m, a, b);
      }
    }
  }

  /** The case of `MergeIsInserts` where the window's first time is the older. */
  lemma {:induction false} MergeGreater<P>(m: Monoid<P>, a: seq<Entry<P>>, b: seq<Entry<P>>)
    requires Increasing(a) && Increasing(b) && a != [] && b != [] && a[0].time < b[0].time
    ensures Merge(m, a, b) == InsertAll(m, a, b)
    decreases |b|, |a|, 0
  {
    var x := b[0];
    IncreasingTail(a);
    IncreasingTail(b);
    var r := InsertEntry(m, a[1..], x.time, x.val);
    InsertEntryLookup(m, a[1..], x.time, x.val, x.time);
    assert InsertEntry(m, a, x.time, x.val) == [a[0]] + r;
    assert InsertAll(m, a, b) == InsertAll(m, [a[0]] + r, b[1..]);
    assert InsertAll(m, a[1..], b) == InsertAll(m, r, b[1..]);
    IncreasingCons(a[0], r);
    MergeIsInserts(m, [a[0]] + r, b[1..]);
    MergeHead(m, a[0], r, b[1..]);
    MergeIsInserts(m, r, b[1..]);
    MergeIsInserts(m, a[1..], b);
  }

  /** Inserting keeps the window sorted. */
  lemma {:induction false} InsertAllIncreasing<P>(m: Monoid<P>, es: seq<Entry<P>>, b: seq<Entry<P>>)
    requires Increasing(es)
    ensures Increasing(InsertAll(m, es, b))
    decreases |b|
  {
    if b != [] {
      InsertEntryLookup(m, es, b[0].time, b[0].val, b[0].time);
      InsertAllIncreasing(m, InsertEntry(m, es, b[0].time, b[0].val), b[1..]);
    }
  }

  lemma MergeStep<P>(m: Monoid<P>, a: seq<Entry<P>>, b: seq<Entry<P>>, i: nat, j: nat)
    requires i < |a| && j < |b|
    ensures Merge(m, a[i..], b[j..])
            == if b[j].time < a[i].time then [b[j]] + Merge(m, a[i..], b[j + 1..])
               else if b[j].time == a[i].time then [Entry(a[i].time, m.combine(a[i].val, b[j].val))] + Merge(m, a[i + 1..], b[j + 1..])
               else [a[i]] + Merge(m, a[i + 1..], b[j..])
  {
    assert a[i..][0] == a[i] && a[i..][1..] == a[i + 1..];
    assert b[j..][0] == b[j] && b[j..][1..] == b[j + 1..];
  }

  /** `TreeletMerger::mergeIn` over a whole sorted window: walks the window
      and the batch side by side, taking the older time first and combining
      a time both hold. */
  method MergeIn<P>(m: Monoid<P>, a: seq<Entry<P>>, b: seq<Entry<P>>) returns (r: seq<Entry<P>>)
    requires Increasing(a) && Increasing(b)
    ensures r == InsertAll(m, a, b)
  {
    var i, j := 0, 0;
    r := [];
    while i < |a| && j < |b|
      invariant 0 <= i <= |a| && 0 <= j <= |b|
      invariant r + Merge(m, a[i..], b[j..]) == Merge(m, a, b)
      decreases |a| - i + |b| - j
    {
      MergeStep(m, a, b, i, j);
      if b[j].time < a[i].time {
        ConcatAssoc(r, [b[j]], Merge(m, a[i..], b[j + 1..]));
        r := r + [b[j]];
        j := j + 1;
      } else if b[j].time == a[i].time {
        var c := Entry(a[i].time, m.combine(a[i].val, b[j].val));
        ConcatAssoc(r, [c], Merge(m, a[i + 1..], b[j + 1..]));
        r := r + [c];
        i, j := i + 1, j + 1;
      } else {
        ConcatAssoc(r, [a[i]], Merge(m, a[i + 1..], b[j..]));
        r := r + [a[i]];
        i := i + 1;
      }
    }
    r := r + a[i..] + b[j..];
    MergeIsInserts(m, a, b);
  }

  /** Strictly increasing batch times, as the multi-search of `bulkInsert`
      requires of its input. */
  predicate BatchSorted<In>(batch: seq<(int, In)>) {
    forall i, j :: 0 <= i < j < |batch| ==> batch[i].0 < batch[j].0
  }

  /** `size_t`, the type of `_size`. */
  const SIZE_T_MODULUS: nat := 0x1_0000_0000_0000_0000

  /** `_size--` on a `size_t`: zero wraps round to the largest value. */
  function Decrement(n: nat): (r: nat)
    requires n < SIZE_T_MODULUS
    ensures r < SIZE_T_MODULUS && (r + 1) % SIZE_T_MODULUS == n
  {
    if n == 0 then SIZE_T_MODULUS - 1 else n - 1
  }

  /** `_size++` on a `size_t`. */
  function Increment(n: nat): (r: nat)
    requires n < SIZE_T_MODULUS
    ensures r < SIZE_T_MODULUS && r == (n + 1) % SIZE_T_MODULUS
  {
    if n == SIZE_T_MODULUS - 1 then 0 else n + 1
  }

  /** The aggregator as its users see it: the sorted entries that the tree
      holds, read in order, and the `size_t` counter `_size`.  `insert`,
      `evict` and `evict(time)` keep the counter equal to the number of
      entries (`Counted`); `bulkEvict` and `bulkInsert` leave it alone. */
  class Aggregate<In, P(!new), Out> {
    const op: BinOp<In, P, Out>
    const m: Monoid<P>
    const kind: Kind
    /** Every node's entries, in order of the in-order walk. */
    var entries: seq<Entry<P>>
    /** `_size`. */
    var size: nat

    ghost predicate Valid()
      reads this
    {
      IsMonoid(m) && m == op.m && Increasing(entries) && size < SIZE_T_MODULUS
    }

    /** `_size` is the number of distinct times held. */
    ghost predicate Counted()
      reads this
    {
      size == |entries|
    }

    /** The constructor: one empty leaf as the root (and both fingers). */
    constructor(binOp: BinOp<In, P, Out>, k: Kind)
      requires IsMonoid(binOp.m)
      ensures Valid() && Counted() && op == binOp && kind == k
      ensures entries == [] && size == 0
    {
      op, m, kind := binOp, binOp.m, k;
      entries, size := [], 0;
    }

    /** `size()`: the counter, which is the number of entries as long as
        only the single-entry operations have run. */
    function Size(): (n: nat)
      reads this
      requires Valid()
      ensures n < SIZE_T_MODULUS
      ensures Counted() ==> n == |entries|
    {
      size
    }

    /** `insert(time, value)`: combines into an existing time or adds a new
        one; `_size` grows only in the second case. */
    method Insert(time: int, v: In)
      requires Valid()
      modifies this
      ensures Valid()
      ensures entries == InsertEntry(m, old(entries), time, op.lift(v))
      ensures size == if Lookup(old(entries), time).None? then Increment(old(size)) else old(size)
      ensures old(Counted()) && |entries| < SIZE_T_MODULUS ==> Counted()
    {
      InsertEntryLookup(m, entries, time, op.lift(v), time);
      size := if Lookup(entries, time).None? then Increment(size) else size;
      entries := InsertEntry(m, entries, time, op.lift(v));
    }

    /** `insert(val)`: time 0 when `_size` is 0, otherwise one past the
        youngest time.  With a nonzero `_size` and no entries the youngest
        leaf has no time to read; that call is refused (`ok` false) and
        changes nothing. */
    method InsertNext(v: In) returns (ok: bool)
      requires Valid()
      modifies this
      ensures Valid()
      ensures ok <==> old(size) == 0 || old(entries) != []
      ensures !ok ==> entries == old(entries) && size == old(size)
      ensures ok && old(size) == 0 ==> entries == InsertEntry(m, old(entries), 0, op.lift(v))
      ensures ok && old(size) != 0 ==>
                entries == old(entries) + [Entry(old(entries)[|old(entries)| - 1].time + 1, op.lift(v))]
      ensures old(Counted()) ==> ok
      ensures old(Counted()) && |entries| < SIZE_T_MODULUS ==> Counted()
      ensures old(Counted()) && old(entries) == [] ==> entries == [Entry(0, op.lift(v))]
    {
      if size == 0 {
        Insert(0, v);
        return true;
      }
      if entries == [] {
        return false;
      }
      var time := entries[|entries| - 1].time + 1;
      InsertEntryYoungest(m, entries, time, op.lift(v));
      Insert(time, v);
      ok := true;
    }

    /** `evict()`: removes the oldest entry (the first of the left finger)
        and decrements `_size`. */
    method Evict()
      requires Valid() && entries != []
      modifies this
      ensures Valid()
      ensures entries == old(entries)[1..] && size == Decrement(old(size))
      ensures old(Counted()) ==> Counted()
    {
      IncreasingTail(entries);
      entries, size := entries[1..], Decrement(size);
    }

    /** `evict(time)`: removes the entry for `time` and answers whether there was one. */
    method EvictAt(time: int) returns (found: bool)
      requires Valid()
      modifies this
      ensures Valid()
      ensures found == Lookup(old(entries), time).Some?
      ensures entries == Remove(old(entries), time)
      ensures size == if found then Decrement(old(size)) else old(size)
      ensures old(Counted()) ==> Counted()
    {
      RemoveLookup(entries, time, time);
      found := Lookup(entries, time).Some?;
      if found {
        entries, size := Remove(entries, time), Decrement(size);
      }
    }

    /** `bulkEvict(time)`: drops every entry no younger than `time`; `_size`
        is not touched. */
    method BulkEvict(time: int)
      requires Valid()
      modifies this
      ensures Valid()
      ensures entries == After(old(entries), time) && size == old(size)
    {
      AfterLookup(entries, time, time);
      entries := After(entries, time);
    }

    /** `bulkEvict(time)` with `_size` reduced by the number of entries
        dropped, as the counter promises. */
    method BulkEvictCounted(time: int)
      requires Valid()
      modifies this
      ensures Valid()
      ensures entries == After(old(entries), time)
      ensures old(Counted()) ==> Counted()
    {
      AfterLookup(entries, time, time);
      var dropped := |entries| - |After(entries, time)|;
      entries := After(entries, time);
      size := if size >= dropped then size - dropped else size;
    }

    /** `bulkInsert(batch)`: refused (the source throws) unless `kind` is
        `finger`; otherwise the same as inserting the pairs one by one.
        `_size` is not touched. */
    method BulkInsert(batch: seq<(int, In)>) returns (thrown: bool)
      requires Valid() && BatchSorted(batch)
      modifies this
      ensures Valid() && size == old(size)
      ensures thrown <==> kind != Finger
      ensures thrown ==> entries == old(entries)
      ensures !thrown ==> entries == InsertAll(m, old(entries), Lift(op, batch))
    {
      if kind != Finger {
        return true;
      }
      var b := Lift(op, batch);
      var merged := MergeIn(m, entries, b);
      InsertAllIncreasing(m, entries, b);
      entries := merged;
      thrown := false;
    }

    /** `bulkInsert(batch)` with `_size` grown by the number of new times. */
    method BulkInsertCounted(batch: seq<(int, In)>) returns (thrown: bool)
      requires Valid() && BatchSorted(batch)
      modifies this
      ensures Valid()
      ensures thrown <==> kind != Finger
      ensures thrown ==> entries == old(entries) && size == old(size)
      ensures !thrown ==> entries == InsertAll(m, old(entries), Lift(op, batch))
      ensures old(Counted()) && |entries| < SIZE_T_MODULUS ==> Counted()
    {
      var before := |entries|;
      thrown := BulkInsert(batch);
      if !thrown {
        var added := |entries| - before;
        size := if size + added < SIZE_T_MODULUS && size + added >= 0 then size + added else size;
      }
    }
  }

  /** The first scenario in which `_size` goes stale: after `insert(1, a)`,
      `insert(2, b)` and `bulkEvict(1)` one entry is left but `size()` is 2. */
  method StaleEvictScenario() returns (sizeAfterEvict: nat, left: seq<Entry<int>>)
    ensures sizeAfterEvict == 2 && left == [Entry(2, 20)]
  {
    var a := new Aggregate<int, int, int>(IntSum(), Finger);
    a.Insert(1, 10);
    assert a.entries == [Entry(1, 10)] && a.size == 1;
    a.Insert(2, 20);
    assert a.entries == [Entry(1, 10), Entry(2, 20)] && a.size == 2;
    a.BulkEvict(1);
    assert a.entries == [Entry(2, 20)];
    sizeAfterEvict, left := a.Size(), a.entries;
  }

  /** The second: after `bulkInsert({(5, c)})` into an empty finger tree
      `size()` is 0, so `insert(d)` files `d` at time 0, before the entry for
      5, instead of at 6. */
  method StaleInsertScenario() returns (entriesAfterInsert: seq<Entry<int>>)
    ensures entriesAfterInsert == [Entry(0, 4), Entry(5, 3)]
  {
    var b := new Aggregate<int, int, int>(IntSum(), Finger);
    var thrown := b.BulkInsert([(5, 3)]);
    assert b.entries == [Entry(5, 3)] by {
      assert BatchSorted([(5, 3)]);
    }
    var ok := b.InsertNext(4);
    entriesAfterInsert := b.entries;
  }

  /** The corrected bulk eviction keeps the counter exact: the same calls
      leave `size()` equal to the number of entries. */
  method CountedEvictScenario() returns (sizeAfterEvict: nat)
    ensures sizeAfterEvict == 1
  {
    var a := new Aggregate<int, int, int>(IntSum(), Finger);
    a.Insert(1, 10);
    assert a.entries == [Entry(1, 10)] && a.size == 1;
    a.Insert(2, 20);
    assert a.entries == [Entry(1, 10), Entry(2, 20)] && a.size == 2;
    a.BulkEvictCounted(1);
    sizeAfterEvict := a.Size();
  }

  /** The corrected bulk insertion counts its entries, so the next `insert(d)`
      is filed at 6, after the entry for 5. */
  method CountedInsertScenario() returns (entriesAfterInsert: seq<Entry<int>>)
    ensures entriesAfterInsert == [Entry(5, 3), Entry(6, 4)]
  {
    var b := new Aggregate<int, int, int>(IntSum(), Finger);
    var thrown := b.BulkInsertCounted([(5, 3)]);
    assert b.entries == [Entry(5, 3)] by {
      assert BatchSorted([(5, 3)]);
    }
    var ok := b.InsertNext(4);
    entriesAfterInsert := b.entries;
  }

  // ---------------------------------------------------------------------
  // The tree.

  /** A node: its `_times`/`_values` as entries (the node's `_arity` is one
      more than their number), `_children` (none for a leaf), `_agg` and the
      `_leftSpine`/`_rightSpine` flags. */
  datatype Node<P> = Node(entries: seq<Entry<P>>, children: seq<Node<P>>, agg: P,
                          leftSpine: bool, rightSpine: bool)

  /** Where a node sits: the root, or a child with the spine flags that
      `recalcLeftSpine`/`recalcRightSpine` give it and its parent's `_agg`
      when that parent is not the root. */
  datatype Pos<P> = Root | Child(left: bool, right: bool, above: Option<P>)

  /** The in-order walk of a subtree: child 0, separator 0, child 1, … */
  function Entries<P>(n: Node<P>): seq<Entry<P>>
    decreases n, 1
  {
    if n.children == [] then n.entries else Seg(n, 0)
  }

  /** Child `i`'s entries followed by those of separator `i` and beyond. */
  function Seg<P>(n: Node<P>, i: nat): seq<Entry<P>>
    requires i < |n.children|
    decreases n, 0, |n.children| - i
  {
    Entries(n.children[i])
    + (if i < |n.entries| && i + 1 < |n.children| then [n.entries[i]] + Seg(n, i + 1) else [])
  }

  /** The entries left of child `k`: children `0..k-1` and their separators. */
  function LeftOf<P>(n: Node<P>, k: nat): seq<Entry<P>>
    requires k <= |n.entries| && k <= |n.children|
  {
    if k == 0 then [] else LeftOf(n, k - 1) + Entries(n.children[k - 1]) + [n.entries[k - 1]]
  }

  /** The entries right of child `k`. */
  function RightOf<P>(n: Node<P>, k: nat): seq<Entry<P>>
    requires k < |n.children|
  {
    if k < |n.entries| && k + 1 < |n.children| then [n.entries[k]] + Seg(n, k + 1) else []
  }

  /** An inner node holds one child more than entries, and at least two. */
  predicate InnerShape<P>(n: Node<P>) {
    n.children != [] ==> |n.children| == |n.entries| + 1 && |n.entries| >= 1
  }

  /** Every inner node has the shape above and every non-root node holds an
      entry (with `minArity >= 2` the arity bounds give both). */
  ghost predicate Shaped<P>(n: Node<P>)
    decreases n
  {
    InnerShape(n)
    && forall i :: 0 <= i < |n.children| ==> n.children[i].entries != [] && Shaped(n.children[i])
  }

  /** Any child's entries sit between its separators. */
  lemma {:induction false} Decompose<P>(n: Node<P>, k: nat)
    requires InnerShape(n) && n.children != [] && k < |n.children|
    ensures Entries(n) == LeftOf(n, k) + Entries(n.children[k]) + RightOf(n, k)
  {
    if k > 0 {
      Decompose(n, k - 1);
      assert RightOf(n, k - 1) == [n.entries[k - 1]] + Seg(n, k);
      assert Seg(n, k) == Entries(n.children[k]) + RightOf(n, k);
      Regroup(LeftOf(n, k - 1), Entries(n.children[k - 1]), [n.entries[k - 1]],
              Entries(n.children[k]), RightOf(n, k));
    } else {
      assert Entries(n) == Seg(n, 0) == Entries(n.children[0]) + RightOf(n, 0);
      assert LeftOf(n, 0) + Entries(n.children[0]) == Entries(n.children[0]);
    }
  }

  lemma Regroup<T>(a: seq<T>, b: seq<T>, c: seq<T>, d: seq<T>, e: seq<T>)
    ensures a + b + (c + (d + e)) == (a + b + c) + d + e
  {
  }

  /** The entries from separator 0 to the last separator, with the children
      between them: what `recalcAggInner` aggregates, in order. */
  function Mid<P>(n: Node<P>): seq<Entry<P>>
    requires InnerShape(n) && n.children != []
  {
    [n.entries[0]] + MidFrom(n, 1)
  }

  function MidFrom<P>(n: Node<P>, i: nat): seq<Entry<P>>
    requires InnerShape(n) && n.children != []
    decreases |n.entries| - i
  {
    if i < |n.entries| then Entries(n.children[i]) + [n.entries[i]] + MidFrom(n, i + 1) else []
  }

  lemma {:induction false} SegMid<P>(n: Node<P>, i: nat)
    requires InnerShape(n) && n.children != [] && 1 <= i <= |n.entries|
    ensures Seg(n, i) == MidFrom(n, i) + Entries(n.children[|n.entries|])
    decreases |n.entries| - i
  {
    if i < |n.entries| {
      SegMid(n, i + 1);
    }
  }

  /** An inner node's walk: its first child, the middle, its last child. */
  lemma EntriesInner<P>(n: Node<P>)
    requires InnerShape(n) && n.children != []
    ensures Entries(n) == Entries(n.children[0]) + Mid(n) + Entries(n.children[|n.children| - 1])
  {
    SegMid(n, 1);
  }

  /** The partials `recalcAggInner` combines for an inner node, in order:
      separator 0, then child `i`'s `_agg` and separator `i` for each middle child. */
  function Parts<P>(n: Node<P>, i: nat): seq<P>
    decreases |n.entries| - i
  {
    if i < |n.entries| && i < |n.children| then [n.children[i].agg, n.entries[i].val] + Parts(n, i + 1) else []
  }

  /** `recalcAggInner`. */
  function InnerAgg<P>(m: Monoid<P>, n: Node<P>): P {
    if n.children == [] then Fold(m, Values(n.entries))
    else if |n.entries| >= 1 then Fold(m, [n.entries[0].val] + Parts(n, 1))
    else m.identity
  }

  /** `recalcAggLeft`: the inner part, the last child, then the parent's `_agg`
      unless the parent is the root. */
  function LeftAgg<P>(m: Monoid<P>, n: Node<P>, pos: Pos<P>): P {
    var r := InnerAgg(m, n);
    var r := if n.children != [] then m.combine(r, n.children[|n.children| - 1].agg) else r;
    if pos.Child? && pos.above.Some? then m.combine(r, pos.above.value) else r
  }

  /** `recalcAggRight`: mirror image of `recalcAggLeft`. */
  function RightAgg<P>(m: Monoid<P>, n: Node<P>, pos: Pos<P>): P {
    var r := InnerAgg(m, n);
    var r := if n.children != [] then m.combine(n.children[0].agg, r) else r;
    if pos.Child? && pos.above.Some? then m.combine(pos.above.value, r) else r
  }

  /** `recalcAggUp`: the subtree's aggregate from the children's. */
  function UpAgg<P>(m: Monoid<P>, n: Node<P>): P {
    if n.children == [] then InnerAgg(m, n)
    else if |n.entries| == 0 then n.children[0].agg
    else m.combine(n.children[0].agg, m.combine(InnerAgg(m, n), n.children[|n.children| - 1].agg))
  }

  /** `recalcAgg`. */
  function RecalcAgg<P>(m: Monoid<P>, kind: Kind, n: Node<P>, pos: Pos<P>): P {
    if kind == Finger && (pos.Root? || (n.leftSpine && n.rightSpine)) then InnerAgg(m, n)
    else if kind == Finger && n.leftSpine then LeftAgg(m, n, pos)
    else if kind == Finger && n.rightSpine then RightAgg(m, n, pos)
    else UpAgg(m, n)
  }

  /** `hasAggUp`: the node's `_agg` is its subtree's aggregate. */
  function HasAggUp<P>(kind: Kind, n: Node<P>, isRoot: bool): bool {
    kind != Finger || !(isRoot || n.leftSpine || n.rightSpine)
  }

  /** The position of child `i`: on the left spine when it is child 0 of the
      root or of a left-spine node, on the right spine likewise. */
  function ChildPos<P>(n: Node<P>, pos: Pos<P>, i: nat): Pos<P> {
    Child(i == 0 && (pos.Root? || n.leftSpine),
          i == |n.children| - 1 && (pos.Root? || n.rightSpine),
          if pos.Root? then None else Some(n.agg))
  }

  /** `localCheckInvariant` in its strong form, for one node: the arity
      bounds, the spine flags and `_agg == recalcAgg()`. */
  ghost predicate LocalOk<P>(m: Monoid<P>, kind: Kind, minArity: nat, n: Node<P>, pos: Pos<P>) {
    |n.entries| + 1 <= 2 * minArity
    && (pos.Child? ==> minArity <= |n.entries| + 1)
    && InnerShape(n)
    && n.leftSpine == (pos.Child? && pos.left)
    && n.rightSpine == (pos.Child? && pos.right)
    && n.agg == RecalcAgg(m, kind, n, pos)
  }

  /** `checkInvariant`: every node of the subtree is locally sound. */
  ghost predicate NodeOk<P>(m: Monoid<P>, kind: Kind, minArity: nat, n: Node<P>, pos: Pos<P>)
    decreases n
  {
    LocalOk(m, kind, minArity, n, pos)
    && forall i :: 0 <= i < |n.children| ==> NodeOk(m, kind, minArity, n.children[i], ChildPos(n, pos, i))
  }

  /** A whole tree: sound nodes holding their entries in time order. */
  ghost predicate TreeOk<P(!new)>(m: Monoid<P>, kind: Kind, minArity: nat, root: Node<P>) {
    IsMonoid(m) && 2 <= minArity && NodeOk(m, kind, minArity, root, Root) && Increasing(Entries(root))
  }

  lemma {:induction false} NodeOkShaped<P>(m: Monoid<P>, kind: Kind, minArity: nat, n: Node<P>, pos: Pos<P>)
    requires 2 <= minArity && NodeOk(m, kind, minArity, n, pos)
    ensures Shaped(n)
    decreases n
  {
    forall i | 0 <= i < |n.children|
      ensures n.children[i].entries != [] && Shaped(n.children[i])
    {
      NodeOkShaped(m, kind, minArity, n.children[i], ChildPos(n, pos, i));
    }
  }

  /** The middle children's `_agg`s are their subtrees' aggregates. */
  ghost predicate MidExact<P>(m: Monoid<P>, n: Node<P>) {
    forall i {:trigger Entries(n.children[i])} :: 1 <= i < |n.entries| && i < |n.children| ==>
      n.children[i].agg == Fold(m, Values(Entries(n.children[i])))
  }

  lemma PartsFold<P(!new)>(m: Monoid<P>, n: Node<P>, i: nat)
    requires IsMonoid(m) && InnerShape(n) && n.children != [] && 1 <= i && MidExact(m, n)
    ensures Fold(m, Parts(n, i)) == Fold(m, Values(MidFrom(n, i)))
  {
    PartsRight(m, n, i);
    MidRight(m, n, i);
  }

  /** The middle combined right to left. */
  function RightParts<P>(m: Monoid<P>, n: Node<P>, i: nat): P
    decreases |n.entries| - i
  {
    if i < |n.entries| && i < |n.children|
    then m.combine(n.children[i].agg, m.combine(n.entries[i].val, RightParts(m, n, i + 1)))
    else m.identity
  }

  lemma {:induction false} PartsRight<P(!new)>(m: Monoid<P>, n: Node<P>, i: nat)
    requires IsMonoid(m)
    ensures Fold(m, Parts(n, i)) == RightParts(m, n, i)
    decreases |n.entries| - i
  {
    if i < |n.entries| && i < |n.children| {
      PartsRight(m, n, i + 1);
      FoldPair(m, n.children[i].agg, n.entries[i].val, Parts(n, i + 1));
    }
  }

  /** The same with each middle child's aggregate recomputed from its subtree. */
  function RightExact<P>(m: Monoid<P>, n: Node<P>, i: nat): P
    decreases |n.entries| - i
  {
    if i < |n.entries| && i < |n.children|
    then m.combine(Fold(m, Values(Entries(n.children[i]))), m.combine(n.entries[i].val, RightExact(m, n, i + 1)))
    else m.identity
  }

  lemma {:induction false} RightPartsExact<P>(m: Monoid<P>, n: Node<P>, i: nat)
    requires 1 <= i && MidExact(m, n)
    ensures RightParts(m, n, i) == RightExact(m, n, i)
    decreases |n.entries| - i
  {
    if i < |n.entries| && i < |n.children| {
      RightPartsExact(m, n, i + 1);
      assert n.children[i].agg == Fold(m, Values(Entries(n.children[i])));
    }
  }

  lemma {:induction false} MidRight<P(!new)>(m: Monoid<P>, n: Node<P>, i: nat)
    requires IsMonoid(m) && InnerShape(n) && n.children != [] && 1 <= i && MidExact(m, n)
    ensures RightParts(m, n, i) == Fold(m, Values(MidFrom(n, i)))
  {
    RightPartsExact(m, n, i);
    MidExactRight(m, n, i);
  }

  lemma {:induction false} MidExactRight<P(!new)>(m: Monoid<P>, n: Node<P>, i: nat)
    requires IsMonoid(m) && InnerShape(n) && n.children != []
    ensures RightExact(m, n, i) == Fold(m, Values(MidFrom(n, i)))
    decreases |n.entries| - i
  {
    if i < |n.entries| {
      MidExactRight(m, n, i + 1);
      var ce, e, rest := Entries(n.children[i]), n.entries[i], MidFrom(n, i + 1);
      assert MidFrom(n, i) == ce + [e] + rest;
      FoldAround(m, ce, e, rest);
    } else {
      assert MidFrom(n, i) == [] && Values(MidFrom(n, i)) == [];
    }
  }

  lemma FoldPair<P(!new)>(m: Monoid<P>, a: P, b: P, ps: seq<P>)
    requires IsMonoid(m)
    ensures Fold(m, [a, b] + ps) == m.combine(a, m.combine(b, Fold(m, ps)))
  {
    assert [a, b] + ps == [a] + ([b] + ps);
    FoldCons(m, a, [b] + ps);
    FoldCons(m, b, ps);
  }

  lemma FoldAround<P(!new)>(m: Monoid<P>, ce: seq<Entry<P>>, e: Entry<P>, mid: seq<Entry<P>>)
    requires IsMonoid(m)
    ensures Fold(m, Values(ce + [e] + mid)) == m.combine(Fold(m, Values(ce)), m.combine(e.val, Fold(m, Values(mid))))
  {
    Fold3(m, ce, [e], mid);
    assert Values([e]) == [e.val];
    FoldSingleton(m, e.val);
  }

  /** `recalcAggInner` of an inner node with exact middle children is the
      aggregate of the entries between its first and last child. */
  lemma InnerAggMid<P(!new)>(m: Monoid<P>, n: Node<P>)
    requires IsMonoid(m) && InnerShape(n) && n.children != [] && MidExact(m, n)
    ensures InnerAgg(m, n) == Fold(m, Values(Mid(n)))
  {
    PartsFold(m, n, 1);
    FoldCons(m, n.entries[0].val, Parts(n, 1));
    ValuesAppend([n.entries[0]], MidFrom(n, 1));
    FoldCons(m, n.entries[0].val, Values(MidFrom(n, 1)));
  }

  /** Folding three consecutive pieces of the walk. */
  lemma Fold3<P(!new)>(m: Monoid<P>, a: seq<Entry<P>>, b: seq<Entry<P>>, c: seq<Entry<P>>)
    requires IsMonoid(m)
    ensures Fold(m, Values(a + b + c))
            == m.combine(Fold(m, Values(a)), m.combine(Fold(m, Values(b)), Fold(m, Values(c))))
  {
    ValuesAppend(a + b, c);
    ValuesAppend(a, b);
    FoldAppend(m, Values(a) + Values(b), Values(c));
    FoldAppend(m, Values(a), Values(b));
    Assoc(m, Fold(m, Values(a)), Fold(m, Values(b)), Fold(m, Values(c)));
  }

  /** A node whose `_agg` is an up-aggregate (every node of the classic and
      knuckle kinds, the nodes off the spines for `finger`) stores the
      aggregate of its whole subtree. */
  lemma {:induction false} UpExact<P(!new)>(m: Monoid<P>, kind: Kind, minArity: nat, n: Node<P>, pos: Pos<P>)
    requires IsMonoid(m) && NodeOk(m, kind, minArity, n, pos)
    requires kind != Finger || (pos.Child? && !pos.left && !pos.right)
    ensures n.agg == Fold(m, Values(Entries(n)))
    decreases n
  {
    forall i | 0 <= i < |n.children|
      ensures n.children[i].agg == Fold(m, Values(Entries(n.children[i])))
    {
      UpExact(m, kind, minArity, n.children[i], ChildPos(n, pos, i));
    }
    AggIsUp(m, kind, minArity, n, pos);
    if n.children != [] {
      var first, last := n.children[0], n.children[|n.children| - 1];
      InnerAggMid(m, n);
      EntriesInner(n);
      UpStep(m, first.agg, InnerAgg(m, n), last.agg, Entries(first), Mid(n), Entries(last));
      assert UpAgg(m, n) == m.combine(first.agg, m.combine(InnerAgg(m, n), last.agg));
    }
  }

  /** Off the spines (or for `classic` and `knuckle`) `recalcAgg` is `recalcAggUp`. */
  lemma AggIsUp<P>(m: Monoid<P>, kind: Kind, minArity: nat, n: Node<P>, pos: Pos<P>)
    requires LocalOk(m, kind, minArity, n, pos)
    requires kind != Finger || (pos.Child? && !pos.left && !pos.right)
    ensures n.agg == UpAgg(m, n)
  {
  }

  /** A node for which `hasAggUp()` holds stores the aggregate of its whole
      subtree, so `rangeQueryRec` may answer a full range with `_agg`. */
  lemma HasAggUpExact<P(!new)>(m: Monoid<P>, kind: Kind, minArity: nat, n: Node<P>, pos: Pos<P>)
    requires IsMonoid(m) && NodeOk(m, kind, minArity, n, pos) && HasAggUp(kind, n, pos.Root?)
    ensures n.agg == Fold(m, Values(Entries(n)))
  {
    UpExact(m, kind, minArity, n, pos);
  }

  /** The algebra of one `UpExact` step, free of the tree. */
  lemma UpStep<P(!new)>(m: Monoid<P>, firstAgg: P, inner: P, lastAgg: P,
                        first: seq<Entry<P>>, mid: seq<Entry<P>>, last: seq<Entry<P>>)
    requires IsMonoid(m)
    requires firstAgg == Fold(m, Values(first)) && inner == Fold(m, Values(mid)) && lastAgg == Fold(m, Values(last))
    ensures m.combine(firstAgg, m.combine(inner, lastAgg)) == Fold(m, Values(first + mid + last))
  {
    Fold3(m, first, mid, last);
  }

  /** The leaf `_leftFinger` points at: the end of the left spine. */
  function LeftmostLeaf<P>(n: Node<P>): Node<P> {
    if n.children == [] then n else LeftmostLeaf(n.children[0])
  }

  /** The leaf `_rightFinger` points at: the end of the right spine. */
  function RightmostLeaf<P>(n: Node<P>): Node<P> {
    if n.children == [] then n else RightmostLeaf(n.children[|n.children| - 1])
  }

  /** `x` with the parent's aggregate combined after it, when there is one. */
  function ThenAbove<P>(m: Monoid<P>, x: P, above: Option<P>): P {
    match above
    case None => x
    case Some(a) => m.combine(x, a)
  }

  /** … and before it. */
  function AboveThen<P>(m: Monoid<P>, above: Option<P>, x: P): P {
    match above
    case None => x
    case Some(a) => m.combine(a, x)
  }

  /** The left-spine sums telescope: the left finger's `_agg` is the
      aggregate of everything from there to the end of the subtree, then of
      what the subtree's ancestors below the root hold to its right. */
  lemma {:induction false} LeftFinger<P(!new)>(m: Monoid<P>, minArity: nat, n: Node<P>, above: Option<P>)
    requires IsMonoid(m) && NodeOk(m, Finger, minArity, n, Child(true, false, above))
    ensures LeftmostLeaf(n).agg == ThenAbove(m, Fold(m, Values(Entries(n))), above)
    decreases n
  {
    if n.children != [] {
      var pos := Child(true, false, above);
      var first, last := n.children[0], n.children[|n.children| - 1];
      forall i | 1 <= i < |n.children|
        ensures n.children[i].agg == Fold(m, Values(Entries(n.children[i])))
      {
        UpExact(m, Finger, minArity, n.children[i], ChildPos(n, pos, i));
      }
      LeftFinger(m, minArity, first, Some(n.agg));
      InnerAggMid(m, n);
      EntriesInner(n);
      LeftFingerStep(m, LeftmostLeaf(first).agg, n.agg, last.agg, Entries(first), Mid(n), Entries(last), above);
    }
  }

  /** The algebra of one `LeftFinger` step, free of the tree. */
  lemma LeftFingerStep<P(!new)>(m: Monoid<P>, leafAgg: P, nAgg: P, lastAgg: P,
                                first: seq<Entry<P>>, mid: seq<Entry<P>>, last: seq<Entry<P>>, above: Option<P>)
    requires IsMonoid(m)
    requires leafAgg == m.combine(Fold(m, Values(first)), nAgg)
    requires lastAgg == Fold(m, Values(last))
    requires nAgg == ThenAbove(m, m.combine(Fold(m, Values(mid)), lastAgg), above)
    ensures leafAgg == ThenAbove(m, Fold(m, Values(first + mid + last)), above)
  {
    Fold3(m, first, mid, last);
    if above.Some? {
      Assoc(m, Fold(m, Values(first)), m.combine(Fold(m, Values(mid)), lastAgg), above.value);
    }
  }

  /** The right-spine sums telescope, mirror image of `LeftFinger`. */
  lemma {:induction false} RightFinger<P(!new)>(m: Monoid<P>, minArity: nat, n: Node<P>, above: Option<P>)
    requires IsMonoid(m) && NodeOk(m, Finger, minArity, n, Child(false, true, above))
    ensures RightmostLeaf(n).agg == AboveThen(m, above, Fold(m, Values(Entries(n))))
    decreases n
  {
    if n.children != [] {
      var pos := Child(false, true, above);
      var first, last := n.children[0], n.children[|n.children| - 1];
      forall i | 0 <= i < |n.children| - 1
        ensures n.children[i].agg == Fold(m, Values(Entries(n.children[i])))
      {
        UpExact(m, Finger, minArity, n.children[i], ChildPos(n, pos, i));
      }
      RightFinger(m, minArity, last, Some(n.agg));
      InnerAggMid(m, n);
      EntriesInner(n);
      RightFingerStep(m, RightmostLeaf(last).agg, n.agg, first.agg, Entries(first), Mid(n), Entries(last), above);
    }
  }

  /** The algebra of one `RightFinger` step, free of the tree. */
  lemma RightFingerStep<P(!new)>(m: Monoid<P>, leafAgg: P, nAgg: P, firstAgg: P,
                                 first: seq<Entry<P>>, mid: seq<Entry<P>>, last: seq<Entry<P>>, above: Option<P>)
    requires IsMonoid(m)
    requires leafAgg == m.combine(nAgg, Fold(m, Values(last)))
    requires firstAgg == Fold(m, Values(first))
    requires nAgg == AboveThen(m, above, m.combine(firstAgg, Fold(m, Values(mid))))
    ensures leafAgg == AboveThen(m, above, Fold(m, Values(first + mid + last)))
  {
    Fold3(m, first, mid, last);
    Assoc(m, Fold(m, Values(first)), Fold(m, Values(mid)), Fold(m, Values(last)));
    if above.Some? {
      Assoc(m, above.value, m.combine(firstAgg, Fold(m, Values(mid))), Fold(m, Values(last)));
    }
  }

  /** `query()`: for `finger` the left finger, the root and the right finger
      (or the root alone when it is a leaf), otherwise the root.  Either
      way the aggregate of the whole window. */
  function Query<In, P(!new), Out>(op: BinOp<In, P, Out>, kind: Kind, minArity: nat, root: Node<P>): (r: Out)
    requires TreeOk(op.m, kind, minArity, root)
    ensures r == op.lower(Fold(op.m, Values(Entries(root))))
  {
    var m := op.m;
    if kind == Finger && root.children != [] then
      var left := LeftmostLeaf(root).agg;
      var right := RightmostLeaf(root).agg;
      QueryFinger(m, minArity, root);
      op.lower(m.combine(left, m.combine(root.agg, right)))
    else
      if kind != Finger then UpExact(m, kind, minArity, root, Root); op.lower(root.agg)
      else op.lower(root.agg)
  }

  /** The three sums of a finger tree with an inner root. */
  lemma QueryFinger<P(!new)>(m: Monoid<P>, minArity: nat, root: Node<P>)
    requires IsMonoid(m) && NodeOk(m, Finger, minArity, root, Root) && root.children != []
    ensures m.combine(LeftmostLeaf(root).agg, m.combine(root.agg, RightmostLeaf(root).agg))
            == Fold(m, Values(Entries(root)))
  {
    var last := |root.children| - 1;
    forall i | 1 <= i < last
      ensures root.children[i].agg == Fold(m, Values(Entries(root.children[i])))
    {
      UpExact(m, Finger, minArity, root.children[i], ChildPos(root, Root, i));
    }
    LeftFinger(m, minArity, root.children[0], None);
    RightFinger(m, minArity, root.children[last], None);
    InnerAggMid(m, root);
    EntriesInner(root);
    Fold3(m, Entries(root.children[0]), Mid(root), Entries(root.children[last]));
  }

  // ---------------------------------------------------------------------
  // Searching.

  lemma {:induction false} LookupAppend<P>(a: seq<Entry<P>>, b: seq<Entry<P>>, t: int)
    ensures Lookup(a + b, t) == if Lookup(a, t).Some? then Lookup(a, t) else Lookup(b, t)
  {
    if a != [] {
      assert (a + b)[1..] == a[1..] + b;
      LookupAppend(a[1..], b, t);
    } else {
      assert a + b == b;
    }
  }

  /** The first entry with time `t` is the one found. */
  lemma {:induction false} LookupFirst<P>(es: seq<Entry<P>>, t: int, i: nat)
    requires i < |es| && es[i].time == t
    requires forall k :: 0 <= k < i ==> es[k].time != t
    ensures Lookup(es, t) == Some(es[i].val)
  {
    if i > 0 {
      LookupFirst(es[1..], t, i - 1);
    }
  }

  /** The parts around a piece of a sorted sequence bound its times. */
  lemma Between<P>(a: seq<Entry<P>>, x: seq<Entry<P>>, b: seq<Entry<P>>)
    requires Increasing(a + x + b)
    ensures Increasing(x)
    ensures a != [] ==> forall i :: 0 <= i < |x| ==> a[|a| - 1].time < x[i].time
    ensures b != [] ==> forall i :: 0 <= i < |x| ==> x[i].time < b[0].time
    ensures a != [] ==> forall i :: 0 <= i < |a| ==> a[i].time <= a[|a| - 1].time
    ensures b != [] ==> forall i :: 0 <= i < |b| ==> b[0].time <= b[i].time
  {
    var s := a + x + b;
    forall i, j | 0 <= i < j < |x| ensures x[i].time < x[j].time {
      assert x[i] == s[|a| + i] && x[j] == s[|a| + j];
    }
    if a != [] {
      forall i | 0 <= i < |x| ensures a[|a| - 1].time < x[i].time {
        assert a[|a| - 1] == s[|a| - 1] && x[i] == s[|a| + i];
      }
      forall i | 0 <= i < |a| ensures a[i].time <= a[|a| - 1].time {
        assert a[i] == s[i] && a[|a| - 1] == s[|a| - 1];
      }
    }
    if b != [] {
      forall i | 0 <= i < |x| ensures x[i].time < b[0].time {
        assert x[i] == s[|a| + i] && b[0] == s[|a| + |x|];
      }
      forall i | 0 <= i < |b| ensures b[0].time <= b[i].time {
        assert b[0] == s[|a| + |x|] && b[i] == s[|a| + |x| + i];
      }
    }
  }

  /** Child `k` holds the times strictly between separators `k-1` and `k`, and
      its walk is sorted. */
  lemma ChildBounds<P>(n: Node<P>, k: nat)
    requires InnerShape(n) && n.children != [] && k < |n.children| && Increasing(Entries(n))
    ensures Increasing(Entries(n.children[k]))
    ensures k > 0 ==> forall i :: 0 <= i < |Entries(n.children[k])| ==>
                        n.entries[k - 1].time < Entries(n.children[k])[i].time
    ensures k < |n.entries| ==> forall i :: 0 <= i < |Entries(n.children[k])| ==>
                                  Entries(n.children[k])[i].time < n.entries[k].time
  {
    Decompose(n, k);
    Between(LeftOf(n, k), Entries(n.children[k]), RightOf(n, k));
  }

  /** A time strictly between separators `k-1` and `k` can only be in child `k`. */
  lemma LookupChild<P>(n: Node<P>, k: nat, t: int)
    requires InnerShape(n) && n.children != [] && k < |n.children| && Increasing(Entries(n))
    requires k > 0 ==> n.entries[k - 1].time < t
    requires k < |n.entries| ==> t < n.entries[k].time
    ensures Lookup(Entries(n), t) == Lookup(Entries(n.children[k]), t)
  {
    var a, x, b := LeftOf(n, k), Entries(n.children[k]), RightOf(n, k);
    Decompose(n, k);
    Between(a, x, b);
    LookupAppend(a + x, b, t);
    LookupAppend(a, x, t);
    assert Lookup(a, t).None?;
    assert Lookup(b, t).None?;
  }

  /** A separator is its time's entry in the whole walk. */
  lemma LookupSeparator<P>(n: Node<P>, i: nat)
    requires InnerShape(n) && n.children != [] && i < |n.entries| && Increasing(Entries(n))
    ensures Lookup(Entries(n), n.entries[i].time) == Some(n.entries[i].val)
  {
    Decompose(n, i);
    var p := |LeftOf(n, i)| + |Entries(n.children[i])|;
    assert Entries(n)[p] == n.entries[i];
  }

  /** `searchNode(time)` from the root: descends until a node holds `time`
      or a leaf is reached.  The node it stops at holds `time`'s entry in
      its own arrays when the tree has one. */
  method SearchNode<P>(root: Node<P>, time: int) returns (node: Node<P>)
    requires Shaped(root) && Increasing(Entries(root))
    ensures Lookup(node.entries, time) == Lookup(Entries(root), time)
    ensures node.children != [] ==> Lookup(node.entries, time).Some?
  {
    node := root;
    while node.children != []
      invariant Shaped(node) && Increasing(Entries(node))
      invariant Lookup(Entries(node), time) == Lookup(Entries(root), time)
      decreases node
    {
      var i := 0;
      while i < |node.entries| && time >= node.entries[i].time
        invariant 0 <= i <= |node.entries|
        invariant forall k :: 0 <= k < i ==> node.entries[k].time < time
      {
        if time == node.entries[i].time {
          LookupFirst(node.entries, time, i);
          LookupSeparator(node, i);
          return;
        }
        i := i + 1;
      }
      LookupChild(node, i, time);
      ChildBounds(node, i);
      node := node.children[i];
    }
  }

  /** `at(time)`: the partial stored for `time`, or the identity. */
  method At<P>(m: Monoid<P>, root: Node<P>, time: int) returns (v: P)
    requires Shaped(root) && Increasing(Entries(root))
    ensures v == ValueAt(m, Entries(root), time)
    ensures (exists i :: 0 <= i < |Entries(root)| && Entries(root)[i].time == time && v == Entries(root)[i].val)
            || ((forall i :: 0 <= i < |Entries(root)| ==> Entries(root)[i].time != time) && v == m.identity)
  {
    var node := SearchNode(root, time);
    var i := 0;
    while i < |node.entries|
      invariant 0 <= i <= |node.entries|
      invariant forall k :: 0 <= k < i ==> node.entries[k].time != time
    {
      if time == node.entries[i].time {
        LookupFirst(node.entries, time, i);
        return node.entries[i].val;
      }
      i := i + 1;
    }
    return m.identity;
  }

  lemma NonEmptyWalk<P>(n: Node<P>)
    requires InnerShape(n) && n.entries != []
    ensures Entries(n) != []
  {
    if n.children != [] {
      EntriesInner(n);
    }
  }

  /** `oldest()`: down the first children to a leaf, then its first time;
      the oldest time of the window. */
  method Oldest<P>(root: Node<P>) returns (time: int)
    requires Shaped(root) && Increasing(Entries(root)) && Entries(root) != []
    ensures time == Entries(root)[0].time
    ensures forall i :: 0 <= i < |Entries(root)| ==> time <= Entries(root)[i].time
  {
    var node := root;
    while node.children != []
      invariant Shaped(node) && Entries(node) != [] && Entries(node)[0] == Entries(root)[0]
      decreases node
    {
      NonEmptyWalk(node.children[0]);
      EntriesInner(node);
      node := node.children[0];
    }
    time := node.entries[0].time;
  }

  /** `youngest()`: down the last children to a leaf, then its last time;
      the youngest time of the window. */
  method Youngest<P>(root: Node<P>) returns (time: int)
    requires Shaped(root) && Increasing(Entries(root)) && Entries(root) != []
    ensures time == Entries(root)[|Entries(root)| - 1].time
    ensures forall i :: 0 <= i < |Entries(root)| ==> Entries(root)[i].time <= time
  {
    var node := root;
    while node.children != []
      invariant Shaped(node) && Entries(node) != []
      invariant Entries(node)[|Entries(node)| - 1] == Entries(root)[|Entries(root)| - 1]
      decreases node
    {
      var last := node.children[|node.children| - 1];
      NonEmptyWalk(last);
      EntriesInner(node);
      node := last;
    }
    time := node.entries[|node.entries| - 1].time;
  }

  // ---------------------------------------------------------------------
  // Range queries.

  /** Every time lies in `[lo, hi]`, the range of the time type. */
  ghost predicate TimesIn<P>(es: seq<Entry<P>>, lo: int, hi: int) {
    forall i :: 0 <= i < |es| ==> lo <= es[i].time <= hi
  }

  lemma {:induction false} InRangeAppend<P>(a: seq<Entry<P>>, b: seq<Entry<P>>, from: int, to: int)
    ensures InRange(a + b, from, to) == InRange(a, from, to) + InRange(b, from, to)
  {
    if a != [] {
      var h := if from <= a[0].time <= to then [a[0]] else [];
      assert (a + b)[0] == a[0] && (a + b)[1..] == a[1..] + b;
      assert InRange(a + b, from, to) == h + InRange(a[1..] + b, from, to);
      InRangeAppend(a[1..], b, from, to);
      ConcatAssoc(h, InRange(a[1..], from, to), InRange(b, from, to));
    } else {
      assert a + b == b;
    }
  }

  /** Two ranges that agree on every time of `es` select the same entries. */
  lemma {:induction false} InRangeSame<P>(es: seq<Entry<P>>, from: int, to: int, from2: int, to2: int)
    requires forall i :: 0 <= i < |es| ==> (from <= es[i].time <==> from2 <= es[i].time)
    requires forall i :: 0 <= i < |es| ==> (es[i].time <= to <==> es[i].time <= to2)
    ensures InRange(es, from, to) == InRange(es, from2, to2)
  {
    if es != [] {
      InRangeSame(es[1..], from, to, from2, to2);
    }
  }

  lemma {:induction false} InRangeNone<P>(es: seq<Entry<P>>, from: int, to: int)
    requires forall i :: 0 <= i < |es| ==> !(from <= es[i].time <= to)
    ensures InRange(es, from, to) == []
  {
    if es != [] {
      InRangeNone(es[1..], from, to);
    }
  }

  lemma {:induction false} InRangeAll<P>(es: seq<Entry<P>>, from: int, to: int)
    requires TimesIn(es, from, to)
    ensures InRange(es, from, to) == es
  {
    if es != [] {
      InRangeAll(es[1..], from, to);
    }
  }

  /** The lower bound `rangeQueryRec` hands child `k`: the type's minimum
      when the separator left of the child is already in range. */
  function FromFor<P>(n: Node<P>, k: nat, tmin: int, from: int): int
    requires k <= |n.entries|
  {
    if k > 0 && from <= n.entries[k - 1].time then tmin else from
  }

  /** The upper bound it hands child `k`: the type's maximum when the
      separator right of the child is still in range. */
  function ToFor<P>(n: Node<P>, k: nat, tmax: int, to: int): int
    requires k <= |n.entries|
  {
    if k < |n.entries| && n.entries[k].time <= to then tmax else to
  }

  /** What `rangeQueryRec` hands a child selects that child's entries in range. */
  lemma ChildWindow<P>(n: Node<P>, k: nat, tmin: int, tmax: int, from: int, to: int)
    requires InnerShape(n) && n.children != [] && k < |n.children| && Increasing(Entries(n))
    requires TimesIn(Entries(n), tmin, tmax)
    ensures Increasing(Entries(n.children[k])) && TimesIn(Entries(n.children[k]), tmin, tmax)
    ensures InRange(Entries(n.children[k]), FromFor(n, k, tmin, from), ToFor(n, k, tmax, to))
            == InRange(Entries(n.children[k]), from, to)
  {
    ChildBounds(n, k);
    ChildTimes(n, k, tmin, tmax);
    InRangeSame(Entries(n.children[k]), from, to, FromFor(n, k, tmin, from), ToFor(n, k, tmax, to));
  }

  lemma ChildTimes<P>(n: Node<P>, k: nat, tmin: int, tmax: int)
    requires InnerShape(n) && n.children != [] && k < |n.children| && TimesIn(Entries(n), tmin, tmax)
    ensures TimesIn(Entries(n.children[k]), tmin, tmax)
  {
    Decompose(n, k);
    var a, x := LeftOf(n, k), Entries(n.children[k]);
    forall i | 0 <= i < |x| ensures tmin <= x[i].time <= tmax {
      assert x[i] == Entries(n)[|a| + i];
    }
  }

  /** A child that `rangeQueryRec` skips holds nothing in range. */
  lemma ChildSkipped<P>(n: Node<P>, k: nat, from: int, to: int)
    requires InnerShape(n) && n.children != [] && k < |n.children| && Increasing(Entries(n))
    requires (k > 0 && to <= n.entries[k - 1].time) || (k < |n.entries| && n.entries[k].time <= from)
    ensures InRange(Entries(n.children[k]), from, to) == []
  {
    ChildBounds(n, k);
    InRangeNone(Entries(n.children[k]), from, to);
  }

  /** The entries `rangeQueryRec` has visited after `i` rounds of its loop:
      the first `i` of a leaf; for an inner node child 0 and then, for each
      round, a separator and the child after it (the last child comes after
      the loop). */
  function Visited<P>(n: Node<P>, i: nat): seq<Entry<P>>
    requires InnerShape(n) && i <= |n.entries|
  {
    if n.children == [] then n.entries[..i]
    else LeftOf(n, i) + (if i < |n.entries| then Entries(n.children[i]) else [])
  }

  lemma VisitedFirst<P>(n: Node<P>)
    requires InnerShape(n) && n.children != []
    ensures Visited(n, 0) == Entries(n.children[0])
  {
    assert [] + Entries(n.children[0]) == Entries(n.children[0]);
  }

  /** One round of the loop visits a separator and the child after it ... */
  lemma VisitedStep<P>(n: Node<P>, i: nat)
    requires InnerShape(n) && n.children != [] && i + 1 < |n.entries|
    ensures Visited(n, i + 1) == (Visited(n, i) + [n.entries[i]]) + Entries(n.children[i + 1])
  {
    ConcatAssoc(LeftOf(n, i) + Entries(n.children[i]), [n.entries[i]], Entries(n.children[i + 1]));
  }

  /** ... or only the separator, in a leaf and in the last round. */
  lemma VisitedLast<P>(n: Node<P>, i: nat)
    requires InnerShape(n) && i < |n.entries| && (n.children == [] || i + 1 == |n.entries|)
    ensures Visited(n, i + 1) == Visited(n, i) + [n.entries[i]]
  {
    if n.children == [] {
      assert n.entries[..i + 1] == n.entries[..i] + [n.entries[i]];
    } else {
      assert Visited(n, i + 1) == LeftOf(n, i + 1) + [];
    }
  }

  /** After the loop only the last child remains. */
  lemma VisitedEnd<P>(n: Node<P>)
    requires InnerShape(n)
    ensures n.children == [] ==> Visited(n, |n.entries|) == Entries(n)
    ensures n.children != [] ==> Visited(n, |n.entries|) + Entries(n.children[|n.entries|]) == Entries(n)
  {
    if n.children == [] {
      assert n.entries[..|n.entries|] == n.entries;
    } else {
      Decompose(n, |n.entries|);
      assert Visited(n, |n.entries|) == LeftOf(n, |n.entries|) + [];
    }
  }

  /** Folding the in-range part of a sequence one more piece at a time. */
  lemma FoldRangeAppend<P(!new)>(m: Monoid<P>, a: seq<Entry<P>>, b: seq<Entry<P>>, from: int, to: int)
    requires IsMonoid(m)
    ensures Fold(m, Values(InRange(a + b, from, to)))
            == m.combine(Fold(m, Values(InRange(a, from, to))), Fold(m, Values(InRange(b, from, to))))
  {
    InRangeAppend(a, b, from, to);
    ValuesAppend(InRange(a, from, to), InRange(b, from, to));
    FoldAppend(m, Values(InRange(a, from, to)), Values(InRange(b, from, to)));
  }

  lemma FoldRangeEntry<P(!new)>(m: Monoid<P>, a: seq<Entry<P>>, e: Entry<P>, from: int, to: int)
    requires IsMonoid(m)
    ensures Fold(m, Values(InRange(a + [e], from, to)))
            == if from <= e.time <= to then m.combine(Fold(m, Values(InRange(a, from, to))), e.val)
               else Fold(m, Values(InRange(a, from, to)))
  {
    FoldRangeAppend(m, a, [e], from, to);
    assert InRange([e], from, to) == if from <= e.time <= to then [e] else [];
    assert Values([e]) == [e.val];
    FoldSingleton(m, e.val);
    IdentityRight(m, Fold(m, Values(InRange(a, from, to))));
  }

  /** The fold of an empty selection. */
  lemma FoldRangeEmpty<P(!new)>(m: Monoid<P>, a: seq<Entry<P>>, b: seq<Entry<P>>, from: int, to: int)
    requires IsMonoid(m) && InRange(b, from, to) == []
    ensures Fold(m, Values(InRange(a + b, from, to))) == Fold(m, Values(InRange(a, from, to)))
  {
    FoldRangeAppend(m, a, b, from, to);
    IdentityRight(m, Fold(m, Values(InRange(a, from, to))));
  }

  /** `rangeQueryRec(node, tFrom, tTo)`: the aggregate of the subtree's
      entries with times in `[tFrom, tTo]`, reusing the node's `_agg` when the
      range is the whole time type and the node keeps an up-aggregate, and
      descending only into children that can hold times in range. */
  method RangeQueryRec<P(!new)>(m: Monoid<P>, kind: Kind, minArity: nat, n: Node<P>, ghost pos: Pos<P>,
                                isRoot: bool, tmin: int, tmax: int, from: int, to: int) returns (res: P)
    requires IsMonoid(m) && NodeOk(m, kind, minArity, n, pos) && isRoot == pos.Root?
    requires Increasing(Entries(n)) && TimesIn(Entries(n), tmin, tmax) && tmin <= from && to <= tmax
    ensures res == Fold(m, Values(InRange(Entries(n), from, to)))
    decreases n, 2
  {
    if from == tmin && to == tmax && HasAggUp(kind, n, isRoot) {
      UpExact(m, kind, minArity, n, pos);
      InRangeAll(Entries(n), tmin, tmax);
      return n.agg;
    }
    assert InnerShape(n);
    res := m.identity;
    if n.children != [] {
      res := RangeChild(m, kind, minArity, n, pos, 0, tmin, tmax, from, to, from < n.entries[0].time, res, []);
      VisitedFirst(n);
      assert [] + Entries(n.children[0]) == Visited(n, 0);
    } else {
      assert Visited(n, 0) == [];
    }
    res := RangeLoop(m, kind, minArity, n, pos, tmin, tmax, from, to, res);
    VisitedEnd(n);
    if n.children != [] {
      var k := |n.entries|;
      res := RangeChild(m, kind, minArity, n, pos, k, tmin, tmax, from, to,
                        n.entries[k - 1].time < to, res, Visited(n, k));
    }
  }

  /** The loop of `rangeQueryRec` over the node's entries: each in range
      is combined, and after each the child that follows it. */
  method RangeLoop<P(!new)>(m: Monoid<P>, kind: Kind, minArity: nat, n: Node<P>, ghost pos: Pos<P>,
                            tmin: int, tmax: int, from: int, to: int, res0: P) returns (res: P)
    requires IsMonoid(m) && NodeOk(m, kind, minArity, n, pos) && InnerShape(n)
    requires Increasing(Entries(n)) && TimesIn(Entries(n), tmin, tmax) && tmin <= from && to <= tmax
    requires res0 == Fold(m, Values(InRange(Visited(n, 0), from, to)))
    ensures res == Fold(m, Values(InRange(Visited(n, |n.entries|), from, to)))
    decreases n, 1
  {
    res := res0;
    var i := 0;
    while i < |n.entries|
      invariant 0 <= i <= |n.entries|
      invariant res == Fold(m, Values(InRange(Visited(n, i), from, to)))
    {
      var tCurr := n.entries[i].time;
      FoldRangeEntry(m, Visited(n, i), n.entries[i], from, to);
      if from <= tCurr <= to {
        res := m.combine(res, n.entries[i].val);
      }
      if n.children != [] && i + 1 < |n.entries| {
        var tNext := n.entries[i + 1].time;
        res := RangeChild(m, kind, minArity, n, pos, i + 1, tmin, tmax, from, to,
                          tCurr < to && from < tNext, res, Visited(n, i) + [n.entries[i]]);
        VisitedStep(n, i);
      } else {
        VisitedLast(n, i);
      }
      i := i + 1;
    }
  }

  /** One child in `rangeQueryRec`: when it can hold times in range, recurse
      into it with the bounds handed down and combine the result after the
      aggregate so far. */
  method RangeChild<P(!new)>(m: Monoid<P>, kind: Kind, minArity: nat, n: Node<P>, ghost pos: Pos<P>, k: nat,
                             tmin: int, tmax: int, from: int, to: int, take: bool, res0: P,
                             ghost done: seq<Entry<P>>) returns (res: P)
    requires IsMonoid(m) && NodeOk(m, kind, minArity, n, pos) && n.children != [] && k < |n.children|
    requires Increasing(Entries(n)) && TimesIn(Entries(n), tmin, tmax) && tmin <= from && to <= tmax
    requires take <==> (k > 0 ==> n.entries[k - 1].time < to) && (k < |n.entries| ==> from < n.entries[k].time)
    requires res0 == Fold(m, Values(InRange(done, from, to)))
    ensures res == Fold(m, Values(InRange(done + Entries(n.children[k]), from, to)))
    decreases n, 0
  {
    ChildWindow(n, k, tmin, tmax, from, to);
    if take {
      var c := RangeQueryRec(m, kind, minArity, n.children[k], ChildPos(n, pos, k), false,
                             tmin, tmax, FromFor(n, k, tmin, from), ToFor(n, k, tmax, to));
      FoldRangeAppend(m, done, Entries(n.children[k]), from, to);
      res := m.combine(res0, c);
    } else {
      ChildSkipped(n, k, from, to);
      FoldRangeEmpty(m, done, Entries(n.children[k]), from, to);
      res := res0;
    }
  }

  /** `rangeQuery(tFrom, tTo)`, searched from the root: the aggregate of
      the window's entries with times in `[tFrom, tTo]`. */
  method RangeQuery<In, P(!new), Out>(op: BinOp<In, P, Out>, kind: Kind, minArity: nat, root: Node<P>,
                                      tmin: int, tmax: int, from: int, to: int) returns (r: Out)
    requires TreeOk(op.m, kind, minArity, root) && TimesIn(Entries(root), tmin, tmax)
    requires tmin <= from && to <= tmax
    ensures r == op.lower(Fold(op.m, Values(InRange(Entries(root), from, to))))
  {
    var res := RangeQueryRec(op.m, kind, minArity, root, Root, true, tmin, tmax, from, to);
    r := op.lower(res);
  }
}
