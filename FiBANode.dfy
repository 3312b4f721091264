// cpp/src/FiBA.hpp, the local operations of one leaf `Node`: the fixed-size
// arrays `_times[maxArity]` and `_values[maxArity]`, of which the first
// `_arity - 1` slots are live, updated in place by shifting loops.  Every
// write goes through `setEntry`, which sets a time and its value together,
// so the two arrays are modelled as one array of entries.  Each
// operation is proved against the sequence-level function of module `FiBA`
// that the aggregator's map-level operations use, so a leaf update does to
// the leaf's entries what the aggregator's update does to the window.
module FiBANode {
  import opened Monoid
  import opened FiBA

  // ---------------------------------------------------------------------
  // Where an update lands in a sorted sequence of entries.

  /** A new time goes between the entries older and younger than it. */
  lemma {:induction false} InsertEntryAt<P>(m: Monoid<P>, es: seq<Entry<P>>, t: int, v: P, k: nat)
    requires k <= |es| && (forall j :: 0 <= j < k ==> es[j].time < t) && (k < |es| ==> t < es[k].time)
    ensures InsertEntry(m, es, t, v) == es[..k] + [Entry(t, v)] + es[k..]
  {
    if k == 0 {
      assert es[..0] + [Entry(t, v)] + es[0..] == [Entry(t, v)] + es;
    } else {
      var rest := es[1..];
      assert es[0].time < t;
      assert forall j :: 0 <= j < k - 1 ==> rest[j].time < t by {
        forall j | 0 <= j < k - 1 ensures rest[j].time < t {
          assert rest[j] == es[j + 1];
        }
      }
      InsertEntryAt(m, rest, t, v, k - 1);
      assert InsertEntry(m, es, t, v) == [es[0]] + InsertEntry(m, rest, t, v);
      assert rest[..k - 1] == es[1..k] && rest[k - 1..] == es[k..];
      assert es[..k] == [es[0]] + es[1..k];
    }
  }

  /** A present time has its value combined in place. */
  lemma {:induction false} InsertEntryFound<P>(m: Monoid<P>, es: seq<Entry<P>>, t: int, v: P, k: nat)
    requires k < |es| && es[k].time == t && forall j :: 0 <= j < k ==> es[j].time < t
    ensures InsertEntry(m, es, t, v) == es[..k] + [Entry(t, m.combine(es[k].val, v))] + es[k + 1..]
  {
    if k > 0 {
      InsertEntryFound(m, es[1..], t, v, k - 1);
      assert es[1..][..k - 1] == es[1..k] && es[1..][k..] == es[k + 1..];
      assert es[..k] == [es[0]] + es[1..k];
    }
  }

  /** Removing a present time closes the gap it leaves. */
  lemma {:induction false} RemoveAt<P>(es: seq<Entry<P>>, t: int, k: nat)
    requires k < |es| && es[k].time == t && forall j :: 0 <= j < k ==> es[j].time != t
    ensures Remove(es, t) == es[..k] + es[k + 1..]
  {
    if k > 0 {
      var rest := es[1..];
      assert es[0].time != t;
      assert forall j :: 0 <= j < k - 1 ==> rest[j].time != t by {
        forall j | 0 <= j < k - 1 ensures rest[j].time != t {
          assert rest[j] == es[j + 1];
        }
      }
      RemoveAt(rest, t, k - 1);
      assert rest[..k - 1] == es[1..k] && rest[k..] == es[k + 1..];
      assert es[..k] == [es[0]] + es[1..k];
    }
  }

  /** Evicting up to `t` drops exactly the entries no younger than `t`. */
  lemma {:induction false} AfterDrop<P>(es: seq<Entry<P>>, t: int, k: nat)
    requires k <= |es| && (forall j :: 0 <= j < k ==> es[j].time <= t) && (k < |es| ==> t < es[k].time)
    ensures After(es, t) == es[k..]
  {
    if k > 0 {
      AfterDrop(es[1..], t, k - 1);
      assert es[1..][k - 1..] == es[k..];
    }
  }

  /** Where `localSearch` stops tells how much of the front `After` drops:
      the older entries, and the entry for `t` when there is one. */
  lemma SearchDrop<P>(es: seq<Entry<P>>, t: int, found: bool, k: nat)
    requires Increasing(es) && k <= |es| && forall j :: 0 <= j < k ==> es[j].time < t
    requires found <==> k < |es| && es[k].time == t
    requires !found && k < |es| ==> t < es[k].time
    ensures k + (if found then 1 else 0) <= |es|
    ensures After(es, t) == es[k + (if found then 1 else 0)..]
  {
    var d := k + (if found then 1 else 0);
    if found && d < |es| {
      assert es[k].time < es[d].time;
    }
    AfterDrop(es, t, d);
  }

  /** A sequence with one element inserted at `k`, read off pointwise. */
  lemma InsertedAt<T>(s: seq<T>, s0: seq<T>, k: nat, x: T)
    requires |s| == |s0| + 1 && k <= |s0|
    requires forall j :: 0 <= j < k ==> s[j] == s0[j]
    requires s[k] == x
    requires forall j :: k < j < |s| ==> s[j] == s0[j - 1]
    ensures s == s0[..k] + [x] + s0[k..]
  {
    var r := s0[..k] + [x] + s0[k..];
    forall j | 0 <= j < |s| ensures s[j] == r[j] {
      if j < k {
        assert r[j] == s0[j];
      } else if j > k {
        assert r[j] == s0[j - 1];
      }
    }
  }

  /** A sequence with `d` elements taken out at `k`, read off pointwise. */
  lemma DroppedAt<T>(s: seq<T>, s0: seq<T>, k: nat, d: nat)
    requires |s0| == |s| + d && k <= |s|
    requires forall j :: 0 <= j < k ==> s[j] == s0[j]
    requires forall j :: k <= j < |s| ==> s[j] == s0[j + d]
    ensures s == s0[..k] + s0[k + d..]
  {
    var r := s0[..k] + s0[k + d..];
    forall j | 0 <= j < |s| ensures s[j] == r[j] {
      if j < k {
        assert r[j] == s0[j];
      } else {
        assert r[j] == s0[j + d];
      }
    }
  }

  lemma PushBackSorted<P>(es: seq<Entry<P>>, e: Entry<P>)
    requires Increasing(es) && forall j :: 0 <= j < |es| ==> es[j].time < e.time
    ensures Increasing(es + [e])
  {
  }

  lemma DropSorted<P>(es: seq<Entry<P>>, k: nat)
    requires Increasing(es) && k <= |es|
    ensures Increasing(es[k..])
  {
  }

  /** Folding one more value. */
  lemma FoldEntrySnoc<P>(m: Monoid<P>, es: seq<Entry<P>>, e: Entry<P>)
    ensures Fold(m, Values(es + [e])) == m.combine(Fold(m, Values(es)), e.val)
  {
    ValuesAppend(es, [e]);
    assert Values([e]) == [e.val];
    FoldSnoc(m, Values(es), e.val);
  }

  // What the leaf's updates leave, stated on sequences so that the methods
  // only have to match these conclusions.

  lemma CombinedAt<P>(m: Monoid<P>, es0: seq<Entry<P>>, es: seq<Entry<P>>, t: int, v: P, k: nat)
    requires Increasing(es0) && k < |es0| && es0[k].time == t && forall j :: 0 <= j < k ==> es0[j].time < t
    requires es == es0[..k] + [Entry(t, m.combine(es0[k].val, v))] + es0[k + 1..]
    ensures es == InsertEntry(m, es0, t, v) && Increasing(es) && Lookup(es0, t).Some?
  {
    InsertEntryFound(m, es0, t, v, k);
    InsertEntryLookup(m, es0, t, v, t);
  }

  lemma InsertedLast<P>(m: Monoid<P>, es0: seq<Entry<P>>, es: seq<Entry<P>>, t: int, v: P)
    requires Increasing(es0) && (forall j :: 0 <= j < |es0| ==> es0[j].time < t) && es == es0 + [Entry(t, v)]
    ensures es == InsertEntry(m, es0, t, v) && Lookup(es0, t).None?
  {
    InsertEntryAt(m, es0, t, v, |es0|);
    assert es0[..|es0|] == es0 && es0[|es0|..] == [];
  }

  lemma InsertedBetween<P>(m: Monoid<P>, es0: seq<Entry<P>>, es: seq<Entry<P>>, t: int, v: P, k: nat)
    requires Increasing(es0) && k < |es0| && (forall j :: 0 <= j < k ==> es0[j].time < t) && t < es0[k].time
    requires es == es0[..k] + [Entry(t, v)] + es0[k..]
    ensures es == InsertEntry(m, es0, t, v) && Increasing(es) && Lookup(es0, t).None?
  {
    InsertEntryAt(m, es0, t, v, k);
    InsertEntryLookup(m, es0, t, v, t);
  }

  lemma EvictedAt<P>(es0: seq<Entry<P>>, es: seq<Entry<P>>, t: int, k: nat)
    requires Increasing(es0) && k < |es0| && es0[k].time == t && forall j :: 0 <= j < k ==> es0[j].time < t
    requires es == es0[..k] + es0[k + 1..]
    ensures es == Remove(es0, t) && Increasing(es)
  {
    RemoveAt(es0, t, k);
    RemoveLookup(es0, t, t);
  }

  /** One leaf `Node` of a tree over the monoid `m`, with `_parent == NULL`
      read as `isRoot` and no `_children` array. */
  class Leaf<P(!new)> {
    const m: Monoid<P>
    const kind: Kind
    const minArity: nat
    /** `_times[maxArity]` and `_values[maxArity]`, slot by slot. */
    const slots: array<Entry<P>>
    /** One more than the number of live entries. */
    var arity: int
    var agg: P
    var isRoot: bool
    var leftSpine: bool
    var rightSpine: bool

    /** The arrays hold `maxArity == 2 * minArity` slots, and `_arity` is at
        most one more than that (a leaf overflows by one before it is split). */
    ghost predicate Bounds()
      reads this
    {
      slots.Length == 2 * minArity && 1 <= arity <= 2 * minArity + 1
    }

    /** The live entries, oldest first. */
    ghost function Entries(): seq<Entry<P>>
      reads this, slots
      requires Bounds()
    {
      slots[..arity - 1]
    }

    /** The node's share of `localCheckInvariant` that its own operations
        keep: strictly increasing times. */
    ghost predicate Valid()
      reads this, slots
    {
      IsMonoid(m) && Bounds() && Increasing(Entries())
    }

    /** `hasAggUp`: whether `_agg` is this node's own aggregate (always,
        except for the root and the spines of a finger tree). */
    predicate HasAggUp()
      reads this
    {
      kind != Finger || !(isRoot || leftSpine || rightSpine)
    }

    /** The strong `localCheckInvariant`'s `_agg == recalcAgg()` for a leaf
        whose `_agg` is its own. */
    ghost predicate AggOk()
      reads this, slots
      requires Bounds()
    {
      HasAggUp() ==> agg == Fold(m, Values(Entries()))
    }

    /** `Node(true)`: an empty leaf root. */
    constructor(op: Monoid<P>, k: Kind, minAr: nat)
      requires IsMonoid(op) && minAr >= 1
      ensures Valid() && AggOk() && Entries() == [] && isRoot && !leftSpine && !rightSpine
      ensures m == op && kind == k && minArity == minAr && agg == op.identity
    {
      m, kind, minArity := op, k, minAr;
      slots := new Entry<P>[2 * minAr](_ => Entry(0, op.identity));
      arity, agg := 1, op.identity;
      isRoot, leftSpine, rightSpine := true, false, false;
    }

    /** `localSearch(time, index)`: scans the times until one is not older
        than `time`, reporting whether it is `time`. */
    method LocalSearch(time: int) returns (found: bool, index: int)
      requires Valid()
      ensures 0 <= index <= arity - 1
      ensures found <==> index < arity - 1 && slots[index].time == time
      ensures forall j :: 0 <= j < index ==> slots[j].time < time
      ensures !found && index < arity - 1 ==> time < slots[index].time
      ensures found <==> Lookup(Entries(), time).Some?
    {
      ghost var es := Entries();
      index := 0;
      var n := arity - 1;
      while index < n
        invariant 0 <= index <= n
        invariant forall j :: 0 <= j < index ==> es[j].time < time
      {
        if time < slots[index].time {
          found := false;
          forall j | 0 <= j < |es| ensures es[j].time != time {
            assert j < index || es[index].time <= es[j].time;
          }
          return;
        } else if time == slots[index].time {
          found := true;
          assert es[index].time == time;
          return;
        }
        index := index + 1;
      }
      found := false;
    }

    /** `recalcAggInner` of a leaf: its values combined in order. */
    method RecalcAggInner() returns (r: P)
      requires Valid()
      ensures r == Fold(m, Values(Entries()))
    {
      ghost var es := Entries();
      r := m.identity;
      var i := 0;
      while i < arity - 1
        invariant 0 <= i <= arity - 1
        invariant r == Fold(m, Values(es[..i]))
      {
        assert es[..i + 1] == es[..i] + [es[i]];
        FoldEntrySnoc(m, es[..i], es[i]);
        r := m.combine(r, slots[i].val);
        i := i + 1;
      }
      assert es[..i] == es;
    }

    /** `localRepairAggIfUp`: recomputes `_agg` when it is the node's own. */
    method LocalRepairAggIfUp()
      requires Valid()
      modifies this`agg
      ensures Valid() && AggOk() && Entries() == old(Entries())
      ensures !HasAggUp() ==> agg == old(agg)
    {
      if HasAggUp() {
        agg := RecalcAggInner();
      }
    }

    /** `pushBackEntry`: appends an entry younger than every other and
        extends `_agg` by it. */
    method PushBackEntry(time: int, value: P)
      requires Valid() && arity <= 2 * minArity
      requires forall j :: 0 <= j < arity - 1 ==> slots[j].time < time
      modifies this`arity, this`agg, slots
      ensures Valid() && arity == old(arity) + 1
      ensures Entries() == old(Entries()) + [Entry(time, value)]
      ensures agg == if HasAggUp() then m.combine(old(agg), value) else old(agg)
      ensures old(AggOk()) ==> AggOk()
    {
      ghost var es0 := Entries();
      slots[arity - 1] := Entry(time, value);
      arity := arity + 1;
      assert Entries() == es0 + [Entry(time, value)];
      PushBackSorted(es0, Entry(time, value));
      if HasAggUp() {
        FoldEntrySnoc(m, es0, Entry(time, value));
        agg := m.combine(agg, value);
      }
    }

    /** `localInsertEntry(time, value)` with `repairs` set: combines into
        the entry for `time`, or shifts the younger entries up to make room
        for a new one; answers whether the time was new. */
    method LocalInsertEntry(time: int, value: P) returns (added: bool)
      requires Valid() && arity <= 2 * minArity
      modifies this`arity, this`agg, slots
      ensures Valid()
      ensures Entries() == InsertEntry(m, old(Entries()), time, value)
      ensures added <==> Lookup(old(Entries()), time).None?
      ensures old(AggOk()) ==> AggOk()
    {
      var found, index := LocalSearch(time);
      if found {
        CombineEntry(index, time, value);
      } else if index == arity - 1 {
        ghost var es0 := Entries();
        PushBackEntry(time, value);
        InsertedLast(m, es0, Entries(), time, value);
      } else {
        InsertBefore(index, time, value);
      }
      added := !found;
    }

    /** The branch of `localInsertEntry` that finds `time` in slot `index`:
        the stored value is combined with the new one and `_agg` repaired. */
    method CombineEntry(index: int, time: int, value: P)
      requires Valid() && 0 <= index < arity - 1 && slots[index].time == time
      requires forall j :: 0 <= j < index ==> slots[j].time < time
      modifies this`agg, slots
      ensures Valid()
      ensures Entries() == InsertEntry(m, old(Entries()), time, value)
      ensures Lookup(old(Entries()), time).Some?
      ensures old(AggOk()) ==> AggOk()
    {
      ghost var es0 := Entries();
      var combined := m.combine(slots[index].val, value);
      SetEntry(index, Entry(time, combined));
      ghost var es := Entries();
      CombinedAt(m, es0, es, time, value, index);
      LocalRepairAggIfUp();
    }

    /** The branch of `localInsertEntry` for a new time older than the
        entry in slot `index`: the younger entries shift up and `_agg` is
        repaired. */
    method InsertBefore(index: int, time: int, value: P)
      requires Valid() && arity <= 2 * minArity && 0 <= index < arity - 1
      requires forall j :: 0 <= j < index ==> slots[j].time < time
      requires time < slots[index].time
      modifies this`arity, this`agg, slots
      ensures Valid() && arity == old(arity) + 1
      ensures Entries() == InsertEntry(m, old(Entries()), time, value)
      ensures Lookup(old(Entries()), time).None?
      ensures old(AggOk()) ==> AggOk()
    {
      ghost var es0 := Entries();
      ShiftUp(index, Entry(time, value));
      ghost var es := Entries();
      InsertedBetween(m, es0, es, time, value, index);
      LocalRepairAggIfUp();
    }

    /** `setEntry(index, time, value)` on a live slot. */
    method SetEntry(index: int, e: Entry<P>)
      requires Bounds() && 0 <= index < arity - 1
      modifies slots
      ensures Bounds()
      ensures Entries() == old(Entries())[..index] + [e] + old(Entries())[index + 1..]
    {
      slots[index] := e;
    }

    /** The shifting loop of `localInsertEntry`: every entry from `index` on
        moves one slot up and the new entry takes slot `index`. */
    method ShiftUp(index: int, e: Entry<P>)
      requires Bounds() && arity <= 2 * minArity && 0 <= index < arity - 1
      modifies this`arity, slots
      ensures Bounds() && arity == old(arity) + 1
      ensures Entries() == old(Entries())[..index] + [e] + old(Entries())[index..]
    {
      ghost var es0 := Entries();
      arity := arity + 1;
      var i := arity - 2;
      while i > index
        modifies slots
        invariant index <= i <= arity - 2
        invariant forall j :: 0 <= j < i ==> slots[j] == es0[j]
        invariant forall j :: i < j <= arity - 2 ==> slots[j] == es0[j - 1]
      {
        slots[i] := slots[i - 1];
        i := i - 1;
      }
      slots[index] := e;
      InsertedAt(Entries(), es0, index, e);
    }

    /** `localEvictEntry(time)`: removes the entry for `time` (which the
        caller has found) by shifting the younger ones down. */
    method LocalEvictEntry(time: int)
      requires Valid() && Lookup(Entries(), time).Some?
      modifies this`arity, this`agg, slots
      ensures Valid() && AggOk()
      ensures Entries() == Remove(old(Entries()), time)
      ensures !HasAggUp() ==> agg == old(agg)
    {
      ghost var es0 := Entries();
      var found, index := LocalSearch(time);
      ShiftDown(index, 1);
      EvictedAt(es0, Entries(), time, index);
      LocalRepairAggIfUp();
    }

    /** The shifting loop shared by `localEvictEntry` and `popFront`: the
        entries from `index + howMany` on move `howMany` slots down. */
    method ShiftDown(index: int, howMany: int)
      requires Bounds() && 0 <= index && 1 <= howMany && index + howMany <= arity - 1
      modifies this`arity, slots
      ensures Bounds() && arity == old(arity) - howMany
      ensures Entries() == old(Entries())[..index] + old(Entries())[index + howMany..]
    {
      ghost var es0 := Entries();
      var i, n := index, arity - 1 - howMany;
      while i < n
        modifies slots
        invariant index <= i <= n
        invariant forall j :: 0 <= j < i ==> slots[j] == es0[if j < index then j else j + howMany]
        invariant forall j :: i <= j < arity - 1 ==> slots[j] == es0[j]
      {
        slots[i] := slots[i + howMany];
        i := i + 1;
      }
      arity := arity - howMany;
      DroppedAt(Entries(), es0, index, howMany);
    }

    /** `popFront(howMany)` of a leaf: drops the oldest `howMany` entries. */
    method PopFront(howMany: int)
      requires Valid() && 1 <= howMany < arity
      modifies this`arity, this`agg, slots
      ensures Valid() && AggOk()
      ensures Entries() == old(Entries())[howMany..]
      ensures !HasAggUp() ==> agg == old(agg)
    {
      ghost var es0 := Entries();
      ShiftDown(0, howMany);
      assert es0[..0] + es0[howMany..] == es0[howMany..];
      DropSorted(es0, howMany);
      LocalRepairAggIfUp();
    }

    /** The count `localEvictUpTo` computes from `localSearch`: the entries
        older than `time`, and the entry for `time` when there is one. */
    method EvictionCount(time: int) returns (toPop: int)
      requires Valid()
      ensures 0 <= toPop < arity
      ensures After(Entries(), time) == Entries()[toPop..]
    {
      var found, index := LocalSearch(time);
      toPop := index + (if found then 1 else 0);
      SearchDrop(Entries(), time, found, index);
    }

    /** `localEvictUpTo(time)` of a leaf: pops every entry no younger than
        `time`, answering whether there was one. */
    method LocalEvictUpTo(time: int) returns (popped: bool)
      requires Valid()
      modifies this`arity, this`agg, slots
      ensures Valid()
      ensures Entries() == After(old(Entries()), time)
      ensures popped <==> |Entries()| < |old(Entries())|
      ensures !popped ==> agg == old(agg)
      ensures popped ==> AggOk()
    {
      var toPop := EvictionCount(time);
      if toPop > 0 {
        PopFront(toPop);
      }
      popped := toPop > 0;
    }
  }
}
