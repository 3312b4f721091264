// cpp/src/AMTA.hpp: the amortized monoid tree aggregator.  The window is a
// binary counter of trees: `_tails[i]` is the root of a tree of height `i`,
// `_tails[0]` holds the youngest element and the last tail (the "big root")
// the oldest.  New elements ripple a carry up the tails; evictions pop the
// oldest leaf of the big root.  `_backSum` aggregates every tail but the big
// root, `_frontSum` the big root, and `_frontStack` keeps, for every full
// node on the big root's front spine, everything to the right of that spine.
//
// Nodes are modelled as values: a node's parent pointer becomes the path
// from the big root, and an operation that changes a node deep in a tree
// rebuilds the nodes above it.  Timestamps are `int`s.
module AMTA {
  import opened Monoid
  import opened Wrappers

  /** One of a node's two slots: `agg[k]`, `times[k]` and `children[k]`. */
  datatype Slot<P> = Slot(agg: P, time: int, child: Option<Node<P>>)

  /** `Node`: `arity` is 0, 1 or 2 live slots, or -1 when only the right
      slot is live (the left one was popped). */
  datatype Node<P> = Node(arity: int, s0: Slot<P>, s1: Slot<P>)

  /** An element of the window: its timestamp and its lifted value. */
  datatype Elem<P> = Elem(time: int, val: P)

  predicate LeftPopped<P>(n: Node<P>) { n.arity == -1 }
  predicate RightEmpty<P>(n: Node<P>) { n.arity == 1 }
  predicate Full<P>(n: Node<P>) { n.arity == 2 }
  predicate Live0<P>(n: Node<P>) { n.arity == 1 || n.arity == 2 }
  predicate Live1<P>(n: Node<P>) { n.arity == 2 || n.arity == -1 }

  /** The slot the front spine goes through: the right one once the left
      is popped, the left one otherwise. */
  function SpineIdx<P>(n: Node<P>): nat
  {
    if n.arity == -1 then 1 else 0
  }

  function At<P>(n: Node<P>, k: nat): Slot<P>
    requires k < 2
  {
    if k == 0 then n.s0 else n.s1
  }

  /** The child the front spine continues to. */
  function Next<P>(n: Node<P>): Option<Node<P>>
  {
    if n.arity == -1 then n.s1.child else n.s0.child
  }

  // ---------------------------------------------------------------------
  // The contents of a tree

  /** The elements below a slot: the slot itself at a leaf-level node. */
  function SlotElems<P>(s: Slot<P>): seq<Elem<P>>
    decreases s
  {
    match s.child
    case None => [Elem(s.time, s.agg)]
    case Some(c) => Elems(c)
  }

  /** The elements of a tree, oldest first. */
  function Elems<P>(n: Node<P>): seq<Elem<P>>
    decreases n
  {
    (if Live0(n) then SlotElems(n.s0) else []) + (if Live1(n) then SlotElems(n.s1) else [])
  }

  function Values<P>(e: seq<Elem<P>>): (r: seq<P>)
    ensures |r| == |e|
  {
    seq(|e|, k requires 0 <= k < |e| => e[k].val)
  }

  lemma ValuesAppend<P>(a: seq<Elem<P>>, b: seq<Elem<P>>)
    ensures Values(a + b) == Values(a) + Values(b)
  {
  }

  lemma ValuesTail<P>(e: seq<Elem<P>>)
    requires |e| > 0
    ensures Values(e) == [e[0].val] + Values(e[1..])
  {
  }

  /** The window held by the tails, oldest first: the big root's elements,
      then those of every younger tail down to `_tails[0]`. */
  function Flat<P>(ts: seq<Node<P>>): seq<Elem<P>>
  {
    if ts == [] then [] else Flat(ts[1..]) + Elems(ts[0])
  }

  lemma {:induction false} FlatAppend<P>(a: seq<Node<P>>, b: seq<Node<P>>)
    ensures Flat(a + b) == Flat(b) + Flat(a)
  {
    if a != [] {
      assert (a + b)[1..] == a[1..] + b;
      FlatAppend(a[1..], b);
    } else {
      assert a + b == b;
    }
  }

  lemma Regroup<T>(a: seq<T>, b: seq<T>, c: seq<T>, d: seq<T>)
    ensures a + (b + c) + d == a + b + (c + d)
  {
  }

  /** Splitting the tails at `i`: the older tails, `ts[i]`, the younger ones. */
  lemma {:induction false} FlatAt<P>(ts: seq<Node<P>>, i: nat)
    requires i < |ts|
    ensures Flat(ts) == Flat(ts[i + 1..]) + Elems(ts[i]) + Flat(ts[..i])
    decreases i
  {
    var r := ts[1..];
    assert Flat(ts) == Flat(r) + Elems(ts[0]);
    if i == 0 {
      assert ts[..0] == [] && ts[1..] == r;
    } else {
      FlatAt(r, i - 1);
      assert r[i..] == ts[i + 1..] && r[i - 1] == ts[i] && r[..i - 1] == ts[1..i];
      assert ts[..i][1..] == ts[1..i];
      assert Flat(ts[..i]) == Flat(ts[1..i]) + Elems(ts[0]);
    }
  }

  lemma FlatOne<P>(x: Node<P>)
    ensures Flat([x]) == Elems(x)
  {
    assert [x][1..] == [];
    assert Flat([x]) == Flat([]) + Elems(x);
  }

  /** The big root comes first in the window. */
  lemma FlatLast<P>(ts: seq<Node<P>>)
    requires |ts| > 0
    ensures Flat(ts) == Elems(ts[|ts| - 1]) + Flat(ts[..|ts| - 1])
  {
    FlatAt(ts, |ts| - 1);
    assert ts[|ts|..] == [];
  }

  // ---------------------------------------------------------------------
  // The node operations of the `Node` struct

  /** `Node(a, t, left)` / `init`: one live slot.  The right slot keeps
      whatever the memory held; it is modelled as a copy of the left one. */
  function NewNode<P>(s: Slot<P>): (n: Node<P>)
    ensures n.arity == 1 && Elems(n) == SlotElems(s)
  {
    Node(1, s, s)
  }

  /** `push_back`: fills the first free slot. */
  function PushBack<P>(n: Node<P>, s: Slot<P>): (r: Node<P>)
    requires n.arity == 0 || n.arity == 1
    ensures r.arity == n.arity + 1 && Elems(r) == Elems(n) + SlotElems(s)
  {
    if n.arity == 0 then n.(arity := 1, s0 := s) else n.(arity := 2, s1 := s)
  }

  /** `pop_front`: the node without its first live slot, and the child it
      returns (`children[1]` when one slot was live).  The slots themselves
      keep their contents. */
  function PopFront<P>(n: Node<P>): (r: (Node<P>, Option<Node<P>>))
    ensures r.0.s0 == n.s0 && r.0.s1 == n.s1
    ensures Full(n) ==> LeftPopped(r.0) && r.1 == n.s0.child && Elems(r.0) == SlotElems(n.s1)
    ensures (n.arity == 1 || n.arity == -1) ==> r.0.arity == 0 && Elems(r.0) == []
  {
    if n.arity == 1 || n.arity == -1 then (n.(arity := 0), n.s1.child) else (n.(arity := -1), n.s0.child)
  }

  // ---------------------------------------------------------------------
  // The shape invariant

  /** A live slot of a node at `level`: leaf-level slots have no child, the
      others a non-root node one level down; `times[k]` is the newest time
      below; `agg[k]` aggregates everything below when `exact`. */
  ghost predicate SlotOk<P(!new)>(m: Monoid<P>, s: Slot<P>, level: nat, exact: bool)
    decreases s
  {
    (level == 0 <==> s.child.None?)
    && (s.child.Some? ==> NodeOk(m, s.child.value, level - 1, exact, false))
    && |SlotElems(s)| > 0
    && s.time == SlotElems(s)[|SlotElems(s)| - 1].time
    && (exact ==> s.agg == Fold(m, Values(SlotElems(s))))
  }

  /** A node at `level`.  A root (a tail) holds one or two slots, or its
      right slot after a pop; an inner node is full or left-popped, since
      only those are carried.  When not `exact` the aggregate of the slot on
      the front spine may be stale: evictions never update the aggregates
      above the evicted leaf. */
  ghost predicate NodeOk<P(!new)>(m: Monoid<P>, n: Node<P>, level: nat, exact: bool, root: bool)
    decreases n
  {
    (if root then n.arity == 1 || n.arity == 2 || n.arity == -1 else n.arity == 2 || n.arity == -1)
    && (Live0(n) ==> SlotOk(m, n.s0, level, exact || SpineIdx(n) != 0))
    && (Live1(n) ==> SlotOk(m, n.s1, level, exact || SpineIdx(n) != 1))
  }

  /** A tail other than the big root: never popped from, every aggregate exact. */
  ghost predicate TailOk<P(!new)>(m: Monoid<P>, n: Node<P>, level: nat)
  {
    NodeOk(m, n, level, true, true) && !LeftPopped(n)
  }

  /** `_tails[i]` has height `i`; only the big root is evicted from. */
  ghost predicate Shape<P(!new)>(m: Monoid<P>, ts: seq<Node<P>>)
  {
    (forall i {:trigger TailOk(m, ts[i], i)} | 0 <= i < |ts| - 1 :: TailOk(m, ts[i], i))
    && (|ts| > 0 ==> NodeOk(m, ts[|ts| - 1], |ts| - 1, false, true))
  }

  lemma {:induction false} Weaken<P(!new)>(m: Monoid<P>, n: Node<P>, level: nat, root: bool)
    requires NodeOk(m, n, level, true, root)
    ensures NodeOk(m, n, level, false, root)
    decreases n
  {
    if Live0(n) && n.s0.child.Some? {
      Weaken(m, n.s0.child.value, level - 1, false);
    }
    if Live1(n) && n.s1.child.Some? {
      Weaken(m, n.s1.child.value, level - 1, false);
    }
  }

  /** A well-formed node holds at least one element; its newest time is the
      time of its last live slot. */
  lemma NodeNonEmpty<P(!new)>(m: Monoid<P>, n: Node<P>, level: nat, exact: bool, root: bool)
    requires NodeOk(m, n, level, exact, root)
    ensures |Elems(n)| > 0
    ensures Elems(n)[|Elems(n)| - 1].time == (if Full(n) || LeftPopped(n) then n.s1.time else n.s0.time)
  {
    var e := Elems(n);
    if Live1(n) {
      var e1 := SlotElems(n.s1);
      assert e == (if Live0(n) then SlotElems(n.s0) else []) + e1;
      assert e[|e| - 1] == e1[|e1| - 1];
    } else {
      assert e == SlotElems(n.s0);
    }
  }

  // ---------------------------------------------------------------------
  // The front spine

  /** The entries `rebuildFrontFrom(n)` pushes when the stack's top is
      `above`: one for every full node on the spine, combining its right
      aggregate with the entry above. */
  function FrontStack<P>(m: Monoid<P>, n: Node<P>, above: P): seq<P>
    decreases n
  {
    var a := if Full(n) then m.combine(n.s1.agg, above) else above;
    var rest := match (if n.arity == -1 then n.s1.child else n.s0.child)
                case None => []
                case Some(c) => FrontStack(m, c, a);
    if Full(n) then [a] + rest else rest
  }

  lemma FrontStackFull<P>(m: Monoid<P>, n: Node<P>, above: P)
    requires Full(n)
    ensures n.s0.child.None? ==> FrontStack(m, n, above) == [m.combine(n.s1.agg, above)]
    ensures n.s0.child.Some? ==> FrontStack(m, n, above) == [m.combine(n.s1.agg, above)] + FrontStack(m, n.s0.child.value, m.combine(n.s1.agg, above))
  {
  }

  lemma FrontStackSingle<P>(m: Monoid<P>, n: Node<P>, above: P)
    requires !Full(n)
    ensures Next(n).None? ==> FrontStack(m, n, above) == []
    ensures Next(n).Some? ==> FrontStack(m, n, above) == FrontStack(m, Next(n).value, above)
  {
  }

  /** The leaf-level node at the end of the front spine: `_frontNode`. */
  function Bottom<P>(n: Node<P>): Node<P>
    decreases n
  {
    match (if n.arity == -1 then n.s1.child else n.s0.child)
    case None => n
    case Some(c) => Bottom(c)
  }

  function Top<P>(s: seq<P>, identE: P): P
  {
    if s == [] then identE else s[|s| - 1]
  }

  /** The oldest element sits in the spine slot of the front node. */
  lemma {:induction false} BottomFront<P(!new)>(m: Monoid<P>, n: Node<P>, level: nat, exact: bool, root: bool)
    requires NodeOk(m, n, level, exact, root)
    ensures Next(Bottom(n)).None?
    ensures Bottom(n).arity != 0
    ensures |Elems(n)| > 0
            && Elems(n)[0] == Elem(At(Bottom(n), SpineIdx(Bottom(n))).time, At(Bottom(n), SpineIdx(Bottom(n))).agg)
    decreases n
  {
    NodeNonEmpty(m, n, level, exact, root);
    var s := At(n, SpineIdx(n));
    assert Elems(n)[0] == SlotElems(s)[0];
    match Next(n)
    case None =>
    case Some(c) =>
      BottomFront(m, c, level - 1, exact || SpineIdx(n) != SpineIdx(n), false);
  }

  /** Everything after the oldest element, combined with `above`, is the top
      of the stack the spine pushes; no entry is pushed only when the tree
      holds a single element. */
  lemma {:induction false} StackTop<P(!new)>(m: Monoid<P>, n: Node<P>, level: nat, exact: bool, root: bool, above: P)
    requires IsMonoid(m) && NodeOk(m, n, level, exact, root)
    ensures |Elems(n)| > 0
    ensures FrontStack(m, n, above) == [] ==> |Elems(n)| == 1
    ensures FrontStack(m, n, above) != [] ==>
              Top(FrontStack(m, n, above), m.identity) == m.combine(Fold(m, Values(Elems(n)[1..])), above)
    decreases n, 2
  {
    NodeNonEmpty(m, n, level, exact, root);
    if Full(n) {
      StackTopFull(m, n, level, exact, root, above);
    } else {
      StackTopSingle(m, n, level, exact, root, above);
    }
  }

  lemma {:induction false} StackTopFull<P(!new)>(m: Monoid<P>, n: Node<P>, level: nat, exact: bool, root: bool, above: P)
    requires IsMonoid(m) && NodeOk(m, n, level, exact, root) && Full(n) && |Elems(n)| > 0
    ensures FrontStack(m, n, above) != []
    ensures Top(FrontStack(m, n, above), m.identity) == m.combine(Fold(m, Values(Elems(n)[1..])), above)
    decreases n, 1
  {
    var e0, e1 := SlotElems(n.s0), SlotElems(n.s1);
    assert Elems(n) == e0 + e1;
    FrontStackFull(m, n, above);
    if n.s0.child.None? {
      JoinRight(m, e0, e1, n.s1.agg, above, m.combine(n.s1.agg, above));
    } else {
      StackTopInner(m, n, level, exact, above);
    }
  }

  lemma {:induction false} StackTopInner<P(!new)>(m: Monoid<P>, n: Node<P>, level: nat, exact: bool, above: P)
    requires IsMonoid(m) && Full(n) && n.s0.child.Some? && level > 0
    requires NodeOk(m, n.s0.child.value, level - 1, exact, false)
    requires n.s1.agg == Fold(m, Values(SlotElems(n.s1))) && |SlotElems(n.s0)| > 0
    ensures Top(FrontStack(m, n, above), m.identity)
            == m.combine(Fold(m, Values((SlotElems(n.s0) + SlotElems(n.s1))[1..])), above)
    decreases n, 0
  {
    var c := n.s0.child.value;
    var a := m.combine(n.s1.agg, above);
    var fs := FrontStack(m, c, a);
    FrontStackFull(m, n, above);
    assert FrontStack(m, n, above) == [a] + fs;
    StackTop(m, c, level - 1, exact, false, a);
    var t := Top(FrontStack(m, n, above), m.identity);
    TopCons(a, fs, m.identity);
    assert t == if fs == [] then a else Top(fs, m.identity);
    assert SlotElems(n.s0) == Elems(c);
    JoinRight(m, Elems(c), SlotElems(n.s1), n.s1.agg, above, t);
  }

  lemma TopCons<P>(x: P, s: seq<P>, identE: P)
    ensures Top([x] + s, identE) == if s == [] then x else Top(s, identE)
  {
  }

  /** The algebra of a full node's entry: the rest of its left part, then its
      right part, then what lies above. */
  lemma JoinRight<P(!new)>(m: Monoid<P>, e0: seq<Elem<P>>, e1: seq<Elem<P>>, agg1: P, above: P, t: P)
    requires IsMonoid(m) && |e0| > 0 && agg1 == Fold(m, Values(e1))
    requires (|e0| == 1 && t == m.combine(agg1, above))
             || t == m.combine(Fold(m, Values(e0[1..])), m.combine(agg1, above))
    ensures t == m.combine(Fold(m, Values((e0 + e1)[1..])), above)
  {
    assert (e0 + e1)[1..] == e0[1..] + e1;
    ValuesAppend(e0[1..], e1);
    FoldAppend(m, Values(e0[1..]), Values(e1));
    Assoc(m, Fold(m, Values(e0[1..])), agg1, above);
    if |e0| == 1 && t == m.combine(agg1, above) {
      assert Values(e0[1..]) == [];
      IdentityLeft(m, agg1);
    }
  }

  lemma {:induction false} StackTopSingle<P(!new)>(m: Monoid<P>, n: Node<P>, level: nat, exact: bool, root: bool, above: P)
    requires IsMonoid(m) && NodeOk(m, n, level, exact, root) && !Full(n) && |Elems(n)| > 0
    ensures FrontStack(m, n, above) == [] ==> |Elems(n)| == 1
    ensures FrontStack(m, n, above) != [] ==>
              Top(FrontStack(m, n, above), m.identity) == m.combine(Fold(m, Values(Elems(n)[1..])), above)
    decreases n, 1
  {
    var k := SpineIdx(n);
    var es := SlotElems(At(n, k));
    assert Elems(n) == es;
    match Next(n)
    case None =>
      FrontStackSingle(m, n, above);
      assert es == [Elem(At(n, k).time, At(n, k).agg)];
    case Some(c) =>
      FrontStackSingle(m, n, above);
      StackTop(m, c, level - 1, exact, false, above);
      assert Elems(c) == es;
  }

  /** `rebuildFront`'s `_frontSum`: the oldest value combined with the top of
      the stack is the aggregate of the whole big root. */
  lemma FrontSum<P(!new)>(m: Monoid<P>, n: Node<P>, level: nat, exact: bool, root: bool)
    requires IsMonoid(m) && NodeOk(m, n, level, exact, root)
    ensures m.combine(At(Bottom(n), SpineIdx(Bottom(n))).agg, Top(FrontStack(m, n, m.identity), m.identity))
            == Fold(m, Values(Elems(n)))
  {
    StackTop(m, n, level, exact, root, m.identity);
    BottomFront(m, n, level, exact, root);
    var e := Elems(n);
    ValuesTail(e);
    FoldCons(m, e[0].val, Values(e[1..]));
    IdentityRight(m, Fold(m, Values(e[1..])));
    if FrontStack(m, n, m.identity) == [] {
      assert e[1..] == [];
    }
  }

  lemma SlotWeaken<P(!new)>(m: Monoid<P>, s: Slot<P>, level: nat)
    requires SlotOk(m, s, level, true)
    ensures SlotOk(m, s, level, false)
  {
    if s.child.Some? {
      Weaken(m, s.child.value, level - 1, false);
    }
  }

  // ---------------------------------------------------------------------
  // Eviction

  /** `evict`'s loop: the front of `_frontNode` is popped, and a node left
      empty is deleted and its parent popped in turn.  The climb through
      parent pointers is modelled as a descent along the front spine that
      rebuilds the nodes above the change. */
  function PopOldest<P>(n: Node<P>): Node<P>
    decreases n
  {
    match (if n.arity == -1 then n.s1.child else n.s0.child)
    case None => PopFront(n).0
    case Some(c) =>
      var c' := PopOldest(c);
      if c'.arity != 0 then
        (if n.arity == -1 then n.(s1 := n.s1.(child := Some(c'))) else n.(s0 := n.s0.(child := Some(c'))))
      else PopFront(n).0
  }

  /** Popping the oldest element: the rest of the elements remain, the node
      becomes empty exactly when it held one element, and the shape is kept
      with the spine aggregates now possibly stale. */
  lemma {:induction false} PopOldestOk<P(!new)>(m: Monoid<P>, n: Node<P>, level: nat, exact: bool, root: bool)
    requires NodeOk(m, n, level, exact, root)
    ensures |Elems(n)| > 0 && Elems(PopOldest(n)) == Elems(n)[1..]
    ensures PopOldest(n).arity == 0 <==> |Elems(n)| == 1
    ensures PopOldest(n).arity != 0 ==> NodeOk(m, PopOldest(n), level, false, root)
    decreases n, 1
  {
    NodeNonEmpty(m, n, level, exact, root);
    match Next(n)
    case None =>
      PopLeafOk(m, n, level, exact, root);
    case Some(c) =>
      PopOldestOk(m, c, level - 1, exact || SpineIdx(n) != SpineIdx(n), false);
      if PopOldest(c).arity != 0 {
        PopInnerOk(m, n, level, exact, root);
      } else {
        PopEmptiedOk(m, n, level, exact, root);
      }
  }

  /** The front spine ends here: the oldest element is this node's own slot. */
  lemma PopLeafOk<P(!new)>(m: Monoid<P>, n: Node<P>, level: nat, exact: bool, root: bool)
    requires NodeOk(m, n, level, exact, root) && Next(n).None? && |Elems(n)| > 0
    ensures Elems(PopOldest(n)) == Elems(n)[1..]
    ensures PopOldest(n).arity == 0 <==> |Elems(n)| == 1
    ensures PopOldest(n).arity != 0 ==> NodeOk(m, PopOldest(n), level, false, root)
  {
    var r := PopFront(n).0;
    assert PopOldest(n) == r;
    if Full(n) {
      assert Elems(n) == [Elem(n.s0.time, n.s0.agg)] + SlotElems(n.s1);
      SlotWeaken(m, n.s1, level);
      NodeNonEmpty(m, r, level, false, root);
    } else {
      assert Elems(n) == SlotElems(At(n, SpineIdx(n)));
    }
  }

  /** The spine child keeps elements: it replaces the old one in its slot. */
  lemma PopInnerOk<P(!new)>(m: Monoid<P>, n: Node<P>, level: nat, exact: bool, root: bool)
    requires NodeOk(m, n, level, exact, root) && Next(n).Some?
    requires var c := Next(n).value;
             level > 0 && PopOldest(c).arity != 0 && |Elems(c)| > 0 && Elems(PopOldest(c)) == Elems(c)[1..]
             && NodeOk(m, PopOldest(c), level - 1, false, false)
    ensures |Elems(n)| > 0 && Elems(PopOldest(n)) == Elems(n)[1..]
    ensures PopOldest(n).arity != 0 && |Elems(n)| != 1
    ensures NodeOk(m, PopOldest(n), level, false, root)
  {
    var s := At(n, SpineIdx(n));
    var c' := PopOldest(Next(n).value);
    assert SlotOk(m, s, level, exact) && s.child == Next(n);
    PopSlot(m, s, level, exact, c');
    PopReplaced(m, n, level, exact, root, c');
  }

  /** A slot whose subtree loses its oldest element. */
  lemma PopSlot<P(!new)>(m: Monoid<P>, s: Slot<P>, level: nat, exact: bool, c': Node<P>)
    requires s.child.Some? && SlotOk(m, s, level, exact) && level > 0
    requires NodeOk(m, c', level - 1, false, false) && Elems(c') == Elems(s.child.value)[1..]
    ensures SlotOk(m, s.(child := Some(c')), level, false)
    ensures SlotElems(s.(child := Some(c'))) == SlotElems(s)[1..]
    ensures |SlotElems(s)| > 1
  {
    var e, e' := Elems(s.child.value), Elems(c');
    NodeNonEmpty(m, c', level - 1, false, false);
    assert e'[|e'| - 1] == e[|e| - 1];
    Reattach(m, s, c', level);
  }

  /** The node with its spine slot's subtree replaced by the popped one. */
  lemma PopReplaced<P(!new)>(m: Monoid<P>, n: Node<P>, level: nat, exact: bool, root: bool, c': Node<P>)
    requires NodeOk(m, n, level, exact, root) && Next(n).Some?
    requires PopOldest(Next(n).value) == c' && c'.arity != 0
    requires SlotOk(m, At(n, SpineIdx(n)).(child := Some(c')), level, false)
    requires |SlotElems(At(n, SpineIdx(n)))| > 1
    requires SlotElems(At(n, SpineIdx(n)).(child := Some(c'))) == SlotElems(At(n, SpineIdx(n)))[1..]
    ensures |Elems(n)| > 0 && Elems(PopOldest(n)) == Elems(n)[1..]
    ensures PopOldest(n).arity != 0 && |Elems(n)| != 1
    ensures NodeOk(m, PopOldest(n), level, false, root)
  {
    if Full(n) {
      PopReplacedFull(m, n, level, root, c');
    } else {
      PopReplacedSingle(m, n, level, root, c');
    }
  }

  lemma PopReplacedFull<P(!new)>(m: Monoid<P>, n: Node<P>, level: nat, root: bool, c': Node<P>)
    requires Full(n) && n.s0.child.Some? && PopOldest(n.s0.child.value) == c' && c'.arity != 0
    requires SlotOk(m, n.s0.(child := Some(c')), level, false) && SlotOk(m, n.s1, level, true)
    requires |SlotElems(n.s0)| > 1 && SlotElems(n.s0.(child := Some(c'))) == SlotElems(n.s0)[1..]
    ensures |Elems(n)| > 1 && Elems(PopOldest(n)) == Elems(n)[1..]
    ensures PopOldest(n).arity == 2 && NodeOk(m, PopOldest(n), level, false, root)
  {
    var r := n.(s0 := n.s0.(child := Some(c')));
    assert PopOldest(n) == r;
    var e0, e1 := SlotElems(n.s0), SlotElems(n.s1);
    assert Elems(n) == e0 + e1;
    assert Elems(r) == e0[1..] + e1;
    assert (e0 + e1)[1..] == e0[1..] + e1;
  }

  lemma PopReplacedSingle<P(!new)>(m: Monoid<P>, n: Node<P>, level: nat, root: bool, c': Node<P>)
    requires (n.arity == 1 && root) || n.arity == -1
    requires var s := At(n, SpineIdx(n));
             s.child.Some? && PopOldest(s.child.value) == c' && c'.arity != 0
             && SlotOk(m, s.(child := Some(c')), level, false)
             && |SlotElems(s)| > 1 && SlotElems(s.(child := Some(c'))) == SlotElems(s)[1..]
    ensures |Elems(n)| > 1 && Elems(PopOldest(n)) == Elems(n)[1..]
    ensures PopOldest(n).arity == n.arity && NodeOk(m, PopOldest(n), level, false, root)
  {
    if n.arity == -1 {
      assert PopOldest(n) == n.(s1 := n.s1.(child := Some(c')));
      assert Elems(n) == SlotElems(n.s1);
    } else {
      assert PopOldest(n) == n.(s0 := n.s0.(child := Some(c')));
      assert Elems(n) == SlotElems(n.s0);
    }
  }

  /** The spine child held only the oldest element: it is deleted and this
      node popped. */
  lemma PopEmptiedOk<P(!new)>(m: Monoid<P>, n: Node<P>, level: nat, exact: bool, root: bool)
    requires NodeOk(m, n, level, exact, root) && Next(n).Some?
    requires var c := Next(n).value;
             PopOldest(c).arity == 0 && |Elems(c)| == 1
    ensures |Elems(n)| > 0 && Elems(PopOldest(n)) == Elems(n)[1..]
    ensures PopOldest(n).arity == 0 <==> |Elems(n)| == 1
    ensures PopOldest(n).arity != 0 ==> NodeOk(m, PopOldest(n), level, false, root)
  {
    var c := Next(n).value;
    var r := PopFront(n).0;
    assert PopOldest(n) == r;
    if Full(n) {
      assert Elems(n) == Elems(c) + SlotElems(n.s1);
      SlotWeaken(m, n.s1, level);
      NodeNonEmpty(m, r, level, false, root);
    } else {
      assert Elems(n) == Elems(c);
    }
  }

  /** The nodes on the front spine hold one or two live slots. */
  ghost predicate SpineOk<P>(n: Node<P>)
    decreases n
  {
    (n.arity == 1 || n.arity == 2 || n.arity == -1)
    && match (if n.arity == -1 then n.s1.child else n.s0.child)
       case None => true
       case Some(c) => SpineOk(c)
  }

  lemma {:induction false} ShapeSpine<P(!new)>(m: Monoid<P>, n: Node<P>, level: nat, exact: bool, root: bool)
    requires NodeOk(m, n, level, exact, root)
    ensures SpineOk(n)
    decreases n
  {
    match Next(n)
    case None =>
    case Some(c) =>
      ShapeSpine(m, c, level - 1, exact || SpineIdx(n) != SpineIdx(n), false);
  }

  /** The deepest full node on the front spine: the node where the climb in
      `evict` stops, after popping its left slot; `None` when the climb
      empties the whole root. */
  function DeepFull<P>(n: Node<P>): Option<Node<P>>
    decreases n
  {
    var below := match (if n.arity == -1 then n.s1.child else n.s0.child)
                 case None => None
                 case Some(c) => DeepFull(c);
    if below.Some? then below else if Full(n) then Some(n) else None
  }

  /** Without a full node on the spine the climb empties the root, and the
      spine pushes nothing on the stack. */
  lemma {:induction false} EvictEmpties<P>(m: Monoid<P>, n: Node<P>, above: P)
    requires SpineOk(n)
    ensures PopOldest(n).arity == 0 <==> DeepFull(n).None?
    ensures DeepFull(n).None? ==> FrontStack(m, n, above) == []
    decreases n
  {
    match Next(n)
    case None =>
    case Some(c) =>
      var a := if Full(n) then m.combine(n.s1.agg, above) else above;
      EvictEmpties(m, c, a);
      if DeepFull(c).Some? {
        assert PopOldest(n).arity == n.arity;
      }
  }

  /** `evict`'s repair of `_frontStack`: the climb pops the entry of the full
      node it stops at, the last one pushed, and `rebuildFrontFrom` on that
      node pushes the entries of its new spine.  This gives the stack of the
      popped tree, and the same front node. */
  lemma {:induction false} EvictFront<P>(m: Monoid<P>, n: Node<P>, above: P)
    requires SpineOk(n) && DeepFull(n).Some?
    ensures PopOldest(n).arity != 0 && FrontStack(m, n, above) != []
    ensures var st := FrontStack(m, n, above);
            var rest := st[..|st| - 1];
            var d := PopFront(DeepFull(n).value).0;
            FrontStack(m, PopOldest(n), above) == rest + FrontStack(m, d, Top(rest, above))
            && Bottom(PopOldest(n)) == Bottom(d)
    decreases n
  {
    EvictEmpties(m, n, above);
    var a := if Full(n) then m.combine(n.s1.agg, above) else above;
    var pre := if Full(n) then [a] else [];
    match Next(n)
    case None =>
      assert PopOldest(n) == PopFront(n).0;
      FrontStackFull(m, n, above);
    case Some(c) =>
      if DeepFull(c).Some? {
        EvictFront(m, c, a);
        var c' := PopOldest(c);
        var st := FrontStack(m, c, a);
        assert FrontStack(m, n, above) == pre + st;
        assert FrontStack(m, PopOldest(n), above) == pre + FrontStack(m, c', a);
        assert (pre + st)[..|pre + st| - 1] == pre + st[..|st| - 1];
      } else {
        EvictEmpties(m, c, a);
        FrontStackFull(m, n, above);
        assert PopOldest(n) == PopFront(n).0;
      }
  }

  /** `rebuildFrontFrom(c)` on the stack alone: walks the front spine from
      `c`, pushing for every full node its right aggregate combined with the
      entry before it; the last node visited is the new `_frontNode`. */
  method FrontFrom<P>(m: Monoid<P>, stack0: seq<P>, c0: Node<P>) returns (stack: seq<P>, fn: Node<P>)
    ensures stack == stack0 + FrontStack(m, c0, Top(stack0, m.identity))
    ensures fn == Bottom(c0)
  {
    ghost var goal := stack0 + FrontStack(m, c0, Top(stack0, m.identity));
    var agg := Top(stack0, m.identity);
    stack, fn := stack0, c0;
    var c: Option<Node<P>> := Some(c0);
    while c.Some?
      invariant c.Some? ==> stack + FrontStack(m, c.value, agg) == goal && Bottom(c.value) == Bottom(c0)
      invariant c.None? ==> stack == goal && fn == Bottom(c0)
      decreases c
    {
      var n := c.value;
      var next := if LeftPopped(n) then n.s1.child else n.s0.child;
      ghost var st := stack;
      ghost var a0 := agg;
      if Full(n) {
        agg := m.combine(n.s1.agg, agg);
        stack := stack + [agg];
      }
      if next.None? {
        fn := n;
      }
      FrontFromStep(m, n, st, a0, stack, agg);
      c := next;
    }
  }

  lemma FrontFromStep<P>(m: Monoid<P>, n: Node<P>, st: seq<P>, a0: P, st': seq<P>, a': P)
    requires a' == (if Full(n) then m.combine(n.s1.agg, a0) else a0)
    requires st' == (if Full(n) then st + [a'] else st)
    ensures Next(n).None? ==> st' == st + FrontStack(m, n, a0) && Bottom(n) == n
    ensures Next(n).Some? ==> st' + FrontStack(m, Next(n).value, a') == st + FrontStack(m, n, a0)
                              && Bottom(Next(n).value) == Bottom(n)
  {
    if Full(n) {
      FrontStackFull(m, n, a0);
    } else {
      FrontStackSingle(m, n, a0);
    }
  }

  /** `nodeAgg` in `rebuildBack`: both aggregates of a full tail, the left one
      of any other. */
  function NodeAgg<P>(m: Monoid<P>, n: Node<P>): P
  {
    if Full(n) then m.combine(n.s0.agg, n.s1.agg) else n.s0.agg
  }

  lemma NodeAggOk<P(!new)>(m: Monoid<P>, n: Node<P>, level: nat)
    requires IsMonoid(m) && TailOk(m, n, level)
    ensures NodeAgg(m, n) == Fold(m, Values(Elems(n)))
  {
    assert SlotOk(m, n.s0, level, true);
    if Full(n) {
      assert SlotOk(m, n.s1, level, true);
      assert Elems(n) == SlotElems(n.s0) + SlotElems(n.s1);
      ValuesAppend(SlotElems(n.s0), SlotElems(n.s1));
      FoldAppend(m, Values(SlotElems(n.s0)), Values(SlotElems(n.s1)));
    } else {
      assert Elems(n) == SlotElems(n.s0);
    }
  }

  /** `rebuildBack`'s loop: the tails younger than the big root, combined from
      the oldest of them to `_tails[0]`. */
  method SumTails<P(!new)>(m: Monoid<P>, ts: seq<Node<P>>) returns (agg: P)
    requires IsMonoid(m) && Shape(m, ts) && |ts| > 0
    ensures agg == Fold(m, Values(Flat(ts[..|ts| - 1])))
  {
    var last := |ts| - 1;
    agg := m.identity;
    var j := last;
    assert ts[j..last] == [];
    while j > 0
      invariant 0 <= j <= last
      invariant agg == Fold(m, Values(Flat(ts[j..last])))
    {
      j := j - 1;
      NodeAggOk(m, ts[j], j);
      SumStep(m, ts, j, last, agg);
      agg := m.combine(agg, NodeAgg(m, ts[j]));
    }
    assert ts[..last] == ts[0..last];
  }

  lemma SumStep<P(!new)>(m: Monoid<P>, ts: seq<Node<P>>, j: nat, last: nat, agg: P)
    requires IsMonoid(m) && j < last <= |ts| && agg == Fold(m, Values(Flat(ts[j + 1..last])))
    ensures Fold(m, Values(Flat(ts[j..last]))) == m.combine(agg, Fold(m, Values(Elems(ts[j]))))
  {
    assert ts[j..last][1..] == ts[j + 1..last];
    assert Flat(ts[j..last]) == Flat(ts[j + 1..last]) + Elems(ts[j]);
    ValuesAppend(Flat(ts[j + 1..last]), Elems(ts[j]));
    FoldAppend(m, Values(Flat(ts[j + 1..last])), Values(Elems(ts[j])));
  }

  // ---------------------------------------------------------------------
  // Bulk eviction

  /** Timestamps strictly increase from the oldest element to the youngest. */
  ghost predicate Increasing<P>(e: seq<Elem<P>>)
  {
    forall i, j | 0 <= i < j < |e| :: Older(e, i, j)
  }

  ghost predicate Older<P>(e: seq<Elem<P>>, i: int, j: int)
    requires 0 <= i < |e| && 0 <= j < |e|
  {
    e[i].time < e[j].time
  }

  /** The elements newer than `time`, in order: what `bulkEvict(time)` keeps. */
  function After<P>(e: seq<Elem<P>>, time: int): (r: seq<Elem<P>>)
    ensures |r| <= |e|
  {
    if e == [] then [] else (if e[0].time > time then [e[0]] else []) + After(e[1..], time)
  }

  lemma {:induction false} AfterAppend<P>(a: seq<Elem<P>>, b: seq<Elem<P>>, time: int)
    ensures After(a + b, time) == After(a, time) + After(b, time)
  {
    if a != [] {
      assert (a + b)[1..] == a[1..] + b;
      AfterAppend(a[1..], b, time);
    } else {
      assert a + b == b;
    }
  }

  lemma {:induction false} AfterAll<P>(e: seq<Elem<P>>, time: int)
    requires forall k | 0 <= k < |e| :: e[k].time > time
    ensures After(e, time) == e
  {
    if e != [] {
      AfterAll(e[1..], time);
    }
  }

  lemma {:induction false} AfterNone<P>(e: seq<Elem<P>>, time: int)
    requires forall k | 0 <= k < |e| :: e[k].time <= time
    ensures After(e, time) == []
  {
    if e != [] {
      AfterNone(e[1..], time);
    }
  }

  /** In an increasing sequence cut in two, the left part ends with its
      newest element and everything on the right is newer. */
  lemma SplitIncreasing<P>(a: seq<Elem<P>>, b: seq<Elem<P>>)
    requires Increasing(a + b) && |a| > 0
    ensures Increasing(a) && Increasing(b)
    ensures forall k | 0 <= k < |a| :: a[k].time <= a[|a| - 1].time
    ensures forall k | 0 <= k < |b| :: b[k].time > a[|a| - 1].time
  {
    var ab := a + b;
    forall k | 0 <= k < |b|
      ensures b[k].time > a[|a| - 1].time
    {
      assert Older(ab, |a| - 1, |a| + k);
    }
    forall i, j | 0 <= i < j < |b|
      ensures Older(b, i, j)
    {
      assert Older(ab, |a| + i, |a| + j);
    }
    forall i, j | 0 <= i < j < |a|
      ensures Older(a, i, j)
    {
      assert Older(ab, i, j);
    }
    forall k | 0 <= k < |a| - 1
      ensures a[k].time <= a[|a| - 1].time
    {
      assert Older(ab, k, |a| - 1);
    }
  }

  /** Bulk eviction on two consecutive parts of an increasing sequence:
      cutting before the end of the left part keeps the right part whole,
      cutting at or after it drops the left part. */
  lemma AfterSplit<P>(e0: seq<Elem<P>>, e1: seq<Elem<P>>, time: int)
    requires Increasing(e0 + e1) && |e0| > 0
    ensures Increasing(e0) && Increasing(e1)
    ensures time < e0[|e0| - 1].time ==> After(e0 + e1, time) == After(e0, time) + e1
    ensures time >= e0[|e0| - 1].time ==> After(e0 + e1, time) == After(e1, time)
    ensures time == e0[|e0| - 1].time ==> After(e0 + e1, time) == e1
  {
    SplitIncreasing(e0, e1);
    AfterAppend(e0, e1, time);
    if time < e0[|e0| - 1].time {
      AfterAll(e1, time);
    } else {
      AfterNone(e0, time);
      if time == e0[|e0| - 1].time {
        AfterAll(e1, time);
      }
    }
  }

  lemma AfterOne<P>(x: Elem<P>, time: int)
    requires x.time > time
    ensures After([x], time) == [x]
  {
    assert [x][1..] == [];
  }

  /** Cutting at a time before the newest element keeps the last element. */
  lemma AfterLast<P>(e: seq<Elem<P>>, time: int)
    requires |e| > 0 && e[|e| - 1].time > time
    ensures |After(e, time)| > 0 && After(e, time)[|After(e, time)| - 1] == e[|e| - 1]
  {
    var i := |e| - 1;
    assert e == e[..i] + [e[i]];
    AfterAppend(e[..i], [e[i]], time);
    assert After([e[i]], time) == [e[i]] by {
      assert [e[i]][1..] == [];
    }
  }

  /** `_slice(node, time)`: below a root, drops the elements up to `time`
      along one path; `throw 1` where no branch applies. */
  function Slice<P>(c: Option<Node<P>>, time: int): Result<Option<Node<P>>, int>
    decreases c
  {
    match c
    case None => Ok(None)
    case Some(n) =>
      if !LeftPopped(n) && time < n.s0.time then
        match Slice(n.s0.child, time)
        case Ok(c0) => Ok(Some(n.(s0 := n.s0.(child := c0))))
        case Err(e) => Err(e)
      else if !LeftPopped(n) && time == n.s0.time then
        Ok(Some(PopFront(n).0))
      else if !RightEmpty(n) && time < n.s1.time then
        var n' := if !LeftPopped(n) then PopFront(n).0 else n;
        match Slice(n.s1.child, time)
        case Ok(c1) => Ok(Some(n'.(s1 := n'.s1.(child := c1))))
        case Err(e) => Err(e)
      else
        Err(1)
  }

  /** A slot whose subtree is replaced by one with the same newest element. */
  lemma Reattach<P(!new)>(m: Monoid<P>, s: Slot<P>, c': Node<P>, level: nat)
    requires level > 0 && NodeOk(m, c', level - 1, false, false)
    requires |Elems(c')| > 0 && Elems(c')[|Elems(c')| - 1].time == s.time
    ensures SlotOk(m, s.(child := Some(c')), level, false)
    ensures SlotElems(s.(child := Some(c'))) == Elems(c')
  {
  }

  lemma SlotAny<P(!new)>(m: Monoid<P>, s: Slot<P>, level: nat, exact: bool)
    requires SlotOk(m, s, level, exact)
    ensures SlotOk(m, s, level, false)
  {
    if exact {
      SlotWeaken(m, s, level);
    }
  }

  /** `_slice` below a root that still holds an element newer than `time`:
      it never throws, it keeps exactly the elements newer than `time`, and
      the node keeps its shape with the sliced path as its front spine. */
  lemma {:induction false} SliceOk<P(!new)>(m: Monoid<P>, n: Node<P>, level: nat, exact: bool, time: int)
    requires NodeOk(m, n, level, exact, false) && Increasing(Elems(n)) && time < n.s1.time
    ensures Slice(Some(n), time).Ok? && Slice(Some(n), time).value.Some?
    ensures Elems(Slice(Some(n), time).value.value) == After(Elems(n), time)
    ensures NodeOk(m, Slice(Some(n), time).value.value, level, false, false)
    decreases n, 1
  {
    if Full(n) && time < n.s0.time {
      SliceLeft(m, n, level, exact, time);
    } else if Full(n) && time == n.s0.time {
      SliceDrop(m, n, level, exact, time);
    } else {
      SliceRight(m, n, level, exact, time);
    }
  }

  /** Older than everything on the right: only the left subtree is sliced. */
  lemma SliceLeft<P(!new)>(m: Monoid<P>, n: Node<P>, level: nat, exact: bool, time: int)
    requires NodeOk(m, n, level, exact, false) && Increasing(Elems(n)) && Full(n) && time < n.s0.time
    ensures Slice(Some(n), time).Ok? && Slice(Some(n), time).value.Some?
    ensures Elems(Slice(Some(n), time).value.value) == After(Elems(n), time)
    ensures NodeOk(m, Slice(Some(n), time).value.value, level, false, false)
    decreases n, 0
  {
    var e0, e1 := SlotElems(n.s0), SlotElems(n.s1);
    assert Elems(n) == e0 + e1;
    AfterSplit(e0, e1, time);
    match n.s0.child
    case None =>
      assert Slice(Some(n), time) == Ok(Some(n));
      AfterOne(e0[0], time);
      if exact {
        Weaken(m, n, level, false);
      }
    case Some(c) =>
      SlotAny(m, n.s0, level, exact);
      SlotSliced(m, n.s0, level, time);
      LeftReplaced(m, n, level, time, Slice(n.s0.child, time).value.value);
  }

  /** A full node below a root whose left subtree slices to `c'`. */
  lemma LeftReplaced<P(!new)>(m: Monoid<P>, n: Node<P>, level: nat, time: int, c': Node<P>)
    requires Full(n) && time < n.s0.time && n.s0.child.Some? && SlotOk(m, n.s1, level, true)
    requires Slice(n.s0.child, time) == Ok(Some(c'))
    requires SlotOk(m, n.s0.(child := Some(c')), level, false)
    ensures Slice(Some(n), time) == Ok(Some(n.(s0 := n.s0.(child := Some(c')))))
    ensures Elems(n.(s0 := n.s0.(child := Some(c')))) == SlotElems(n.s0.(child := Some(c'))) + SlotElems(n.s1)
    ensures NodeOk(m, n.(s0 := n.s0.(child := Some(c'))), level, false, false)
  {
  }

  /** Exactly the left subtree is old: it is dropped. */
  lemma SliceDrop<P(!new)>(m: Monoid<P>, n: Node<P>, level: nat, exact: bool, time: int)
    requires NodeOk(m, n, level, exact, false) && Increasing(Elems(n)) && Full(n) && time == n.s0.time
    ensures Slice(Some(n), time).Ok? && Slice(Some(n), time).value.Some?
    ensures Elems(Slice(Some(n), time).value.value) == After(Elems(n), time)
    ensures NodeOk(m, Slice(Some(n), time).value.value, level, false, false)
  {
    var e0, e1 := SlotElems(n.s0), SlotElems(n.s1);
    var r := PopFront(n).0;
    assert Slice(Some(n), time) == Ok(Some(r));
    assert Elems(n) == e0 + e1;
    AfterSplit(e0, e1, time);
    SlotWeaken(m, n.s1, level);
  }

  /** The cut lies in the right subtree: the left one, if still there, is
      dropped and the right one sliced. */
  lemma SliceRight<P(!new)>(m: Monoid<P>, n: Node<P>, level: nat, exact: bool, time: int)
    requires NodeOk(m, n, level, exact, false) && Increasing(Elems(n)) && time < n.s1.time
    requires Full(n) ==> n.s0.time < time
    ensures Slice(Some(n), time).Ok? && Slice(Some(n), time).value.Some?
    ensures Elems(Slice(Some(n), time).value.value) == After(Elems(n), time)
    ensures NodeOk(m, Slice(Some(n), time).value.value, level, false, false)
    decreases n, 0
  {
    var e0, e1 := (if Full(n) then SlotElems(n.s0) else []), SlotElems(n.s1);
    var n' := if Full(n) then PopFront(n).0 else n;
    assert Elems(n) == e0 + e1;
    if Full(n) {
      AfterSplit(e0, e1, time);
    } else {
      assert e0 + e1 == e1;
    }
    assert After(Elems(n), time) == After(e1, time);
    SlotAny(m, n.s1, level, exact || SpineIdx(n) != 1);
    match n.s1.child
    case None =>
      assert Slice(Some(n), time) == Ok(Some(n'));
      AfterOne(e1[0], time);
    case Some(c) =>
      SlotSliced(m, n.s1, level, time);
      RightReplaced(m, n, level, time, Slice(n.s1.child, time).value.value);
  }

  /** A node below a root whose right subtree slices to `c'`: the left
      subtree, if still there, goes. */
  lemma RightReplaced<P(!new)>(m: Monoid<P>, n: Node<P>, level: nat, time: int, c': Node<P>)
    requires (Full(n) || LeftPopped(n)) && time < n.s1.time && (Full(n) ==> n.s0.time < time)
    requires n.s1.child.Some? && Slice(n.s1.child, time) == Ok(Some(c'))
    requires SlotOk(m, n.s1.(child := Some(c')), level, false)
    ensures Slice(Some(n), time) == Ok(Some(Node(-1, n.s0, n.s1.(child := Some(c')))))
    ensures Elems(Node(-1, n.s0, n.s1.(child := Some(c')))) == SlotElems(n.s1.(child := Some(c')))
    ensures NodeOk(m, Node(-1, n.s0, n.s1.(child := Some(c'))), level, false, false)
  {
  }

  /** The newest time under a root: `mostRecent` in `bulkEvict`. */
  function MostRecent<P>(head: Node<P>): int
  {
    if RightEmpty(head) then head.s0.time else head.s1.time
  }

  /** `bulkEvict` on the root it stops at: a full root drops its left
      subtree when `time` reaches it and slices the right one, or slices the
      left one; any other root slices its only subtree. */
  function SliceHead<P>(head: Node<P>, time: int): Result<Node<P>, int>
  {
    if Full(head) then
      if time >= head.s0.time then
        var h := PopFront(head).0;
        match Slice(h.s1.child, time)
        case Ok(c) => Ok(h.(s1 := h.s1.(child := c)))
        case Err(e) => Err(e)
      else
        match Slice(head.s0.child, time)
        case Ok(c) => Ok(head.(s0 := head.s0.(child := c)))
        case Err(e) => Err(e)
    else
      var k := if RightEmpty(head) then 0 else 1;
      match Slice(At(head, k).child, time)
      case Ok(c) => Ok(if k == 0 then head.(s0 := head.s0.(child := c)) else head.(s1 := head.s1.(child := c)))
      case Err(e) => Err(e)
  }

  /** Slicing the root that holds something newer than `time` keeps exactly
      its elements newer than `time`. */
  lemma SliceHeadOk<P(!new)>(m: Monoid<P>, head: Node<P>, level: nat, time: int)
    requires NodeOk(m, head, level, false, true) && Increasing(Elems(head)) && time < MostRecent(head)
    ensures SliceHead(head, time).Ok?
    ensures Elems(SliceHead(head, time).value) == After(Elems(head), time)
    ensures NodeOk(m, SliceHead(head, time).value, level, false, true)
  {
    if Full(head) && time >= head.s0.time {
      HeadRight(m, head, level, time);
    } else if Full(head) {
      HeadLeft(m, head, level, time);
    } else {
      HeadSingle(m, head, level, time);
    }
  }

  lemma HeadRight<P(!new)>(m: Monoid<P>, head: Node<P>, level: nat, time: int)
    requires NodeOk(m, head, level, false, true) && Increasing(Elems(head)) && time < MostRecent(head)
    requires Full(head) && time >= head.s0.time
    ensures SliceHead(head, time).Ok?
    ensures Elems(SliceHead(head, time).value) == After(Elems(head), time)
    ensures NodeOk(m, SliceHead(head, time).value, level, false, true)
  {
    var e0, e1 := SlotElems(head.s0), SlotElems(head.s1);
    var h := PopFront(head).0;
    assert Elems(head) == e0 + e1;
    AfterSplit(e0, e1, time);
    SlotWeaken(m, head.s1, level);
    match head.s1.child
    case None =>
      assert SliceHead(head, time) == Ok(h);
      AfterOne(e1[0], time);
    case Some(c) =>
      HeadRightInner(m, head, level, time);
  }

  lemma HeadRightInner<P(!new)>(m: Monoid<P>, head: Node<P>, level: nat, time: int)
    requires Full(head) && time >= head.s0.time && time < head.s1.time && head.s1.child.Some?
    requires SlotOk(m, head.s1, level, true) && Increasing(SlotElems(head.s1))
    ensures SliceHead(head, time).Ok?
    ensures Elems(SliceHead(head, time).value) == After(SlotElems(head.s1), time)
    ensures NodeOk(m, SliceHead(head, time).value, level, false, true)
  {
    SlotWeaken(m, head.s1, level);
    SlotSliced(m, head.s1, level, time);
    HeadRightReplaced(m, head, level, time, Slice(head.s1.child, time).value.value);
  }

  /** A full root past its left subtree whose right subtree slices to `c'`. */
  lemma HeadRightReplaced<P(!new)>(m: Monoid<P>, head: Node<P>, level: nat, time: int, c': Node<P>)
    requires Full(head) && time >= head.s0.time && head.s1.child.Some?
    requires Slice(head.s1.child, time) == Ok(Some(c'))
    requires SlotOk(m, head.s1.(child := Some(c')), level, false)
    ensures SliceHead(head, time) == Ok(Node(-1, head.s0, head.s1.(child := Some(c'))))
    ensures Elems(Node(-1, head.s0, head.s1.(child := Some(c')))) == SlotElems(head.s1.(child := Some(c')))
    ensures NodeOk(m, Node(-1, head.s0, head.s1.(child := Some(c'))), level, false, true)
  {
  }

  lemma HeadLeft<P(!new)>(m: Monoid<P>, head: Node<P>, level: nat, time: int)
    requires NodeOk(m, head, level, false, true) && Increasing(Elems(head))
    requires Full(head) && time < head.s0.time
    ensures SliceHead(head, time).Ok?
    ensures Elems(SliceHead(head, time).value) == After(Elems(head), time)
    ensures NodeOk(m, SliceHead(head, time).value, level, false, true)
  {
    var e0, e1 := SlotElems(head.s0), SlotElems(head.s1);
    assert Elems(head) == e0 + e1;
    AfterSplit(e0, e1, time);
    match head.s0.child
    case None =>
      assert SliceHead(head, time) == Ok(head);
      AfterOne(e0[0], time);
    case Some(c) =>
      NodeNonEmpty(m, c, level - 1, false, false);
      SliceOk(m, c, level - 1, false, time);
      var c' := Slice(Some(c), time).value.value;
      var r := head.(s0 := head.s0.(child := Some(c')));
      assert SliceHead(head, time) == Ok(r);
      AfterLast(e0, time);
      assert Elems(r) == Elems(c') + e1;
      assert SlotOk(m, r.s0, level, false);
  }

  lemma HeadSingle<P(!new)>(m: Monoid<P>, head: Node<P>, level: nat, time: int)
    requires NodeOk(m, head, level, false, true) && Increasing(Elems(head)) && time < MostRecent(head)
    requires !Full(head)
    ensures SliceHead(head, time).Ok?
    ensures Elems(SliceHead(head, time).value) == After(Elems(head), time)
    ensures NodeOk(m, SliceHead(head, time).value, level, false, true)
  {
    var s := At(head, SpineIdx(head));
    assert Elems(head) == SlotElems(s);
    if s.child.None? {
      assert SliceHead(head, time) == Ok(head);
      assert SlotElems(s) == [Elem(s.time, s.agg)];
      AfterOne(SlotElems(s)[0], time);
    } else {
      HeadSingleInner(m, head, level, time);
    }
  }

  /** The only live slot of a root has a subtree: that subtree is sliced. */
  lemma HeadSingleInner<P(!new)>(m: Monoid<P>, head: Node<P>, level: nat, time: int)
    requires head.arity == 1 || head.arity == -1
    requires var s := At(head, SpineIdx(head));
             s.child.Some? && SlotOk(m, s, level, false) && Increasing(SlotElems(s)) && time < s.time
    ensures SliceHead(head, time).Ok?
    ensures Elems(SliceHead(head, time).value) == After(SlotElems(At(head, SpineIdx(head))), time)
    ensures NodeOk(m, SliceHead(head, time).value, level, false, true)
  {
    var s := At(head, SpineIdx(head));
    SlotSliced(m, s, level, time);
    SingleReplaced(m, head, level, time, Slice(s.child, time).value.value);
  }

  /** A root with one live slot whose subtree slices to `c'`. */
  lemma SingleReplaced<P(!new)>(m: Monoid<P>, head: Node<P>, level: nat, time: int, c': Node<P>)
    requires head.arity == 1 || head.arity == -1
    requires Slice(At(head, SpineIdx(head)).child, time) == Ok(Some(c'))
    requires At(head, SpineIdx(head)).child.Some?
    requires SlotOk(m, At(head, SpineIdx(head)).(child := Some(c')), level, false)
    ensures SliceHead(head, time).Ok?
    ensures Elems(SliceHead(head, time).value) == SlotElems(At(head, SpineIdx(head)).(child := Some(c')))
    ensures NodeOk(m, SliceHead(head, time).value, level, false, true)
  {
    var s' := At(head, SpineIdx(head)).(child := Some(c'));
    if head.arity == 1 {
      assert SliceHead(head, time) == Ok(head.(s0 := s'));
    } else {
      assert SliceHead(head, time) == Ok(head.(s1 := s'));
    }
  }

  /** Slicing the subtree of a slot newer than `time`: the slot keeps its
      shape and exactly its elements newer than `time`. */
  lemma SlotSliced<P(!new)>(m: Monoid<P>, s: Slot<P>, level: nat, time: int)
    requires s.child.Some? && SlotOk(m, s, level, false) && Increasing(SlotElems(s)) && time < s.time
    ensures Slice(s.child, time).Ok? && Slice(s.child, time).value.Some?
    ensures SlotOk(m, s.(child := Slice(s.child, time).value), level, false)
    ensures SlotElems(s.(child := Slice(s.child, time).value)) == After(SlotElems(s), time)
    decreases s, 2
  {
    var c := s.child.value;
    NodeNonEmpty(m, c, level - 1, false, false);
    SliceOk(m, c, level - 1, false, time);
    ReattachSliced(m, s, Slice(Some(c), time).value.value, level, time);
  }

  /** `Reattach` for the subtree that keeps what was newer than `time`. */
  lemma ReattachSliced<P(!new)>(m: Monoid<P>, s: Slot<P>, c': Node<P>, level: nat, time: int)
    requires s.child.Some? && SlotOk(m, s, level, false) && time < s.time
    requires NodeOk(m, c', level - 1, false, false) && Elems(c') == After(Elems(s.child.value), time)
    ensures SlotOk(m, s.(child := Some(c')), level, false)
    ensures SlotElems(s.(child := Some(c'))) == After(SlotElems(s), time)
  {
    var e := Elems(s.child.value);
    assert SlotElems(s) == e && e[|e| - 1].time == s.time;
    AfterLast(e, time);
    Reattach(m, s, c', level);
  }

  // ---------------------------------------------------------------------
  // Insertion: the binary-counter carry

  /** A tail that passes the carry on rather than absorbing it. */
  predicate Carries<P>(n: Node<P>) { Full(n) || LeftPopped(n) }

  /** The carry a full or left-popped tail passes on: `nextCarry`. */
  function CarryAgg<P>(m: Monoid<P>, n: Node<P>): P
  {
    if Full(n) then m.combine(n.s0.agg, n.s1.agg) else n.s1.agg
  }

  /** The carry `insert_lifted` holds on reaching `_tails[j]`: the new
      element itself, or the contents of the tail below, which it points to. */
  function CarryIn<P>(m: Monoid<P>, ts0: seq<Node<P>>, time: int, lifted: P, j: nat): Slot<P>
    requires j <= |ts0|
  {
    if j == 0 then Slot(lifted, time, None)
    else Slot(CarryAgg(m, ts0[j - 1]), ts0[j - 1].s1.time, Some(ts0[j - 1]))
  }

  /** The tails below `k` once the carry has passed them: each holds the
      carry it received, alone. */
  function Resets<P>(m: Monoid<P>, ts0: seq<Node<P>>, time: int, lifted: P, k: nat): (r: seq<Node<P>>)
    requires k <= |ts0|
    ensures |r| == k
  {
    seq(k, j requires 0 <= j < k => NewNode(CarryIn(m, ts0, time, lifted, j)))
  }

  lemma ResetsStep<P>(m: Monoid<P>, ts0: seq<Node<P>>, time: int, lifted: P, i: nat)
    requires i < |ts0|
    ensures (Resets(m, ts0, time, lifted, i) + ts0[i..])[i := NewNode(CarryIn(m, ts0, time, lifted, i))]
            == Resets(m, ts0, time, lifted, i + 1) + ts0[i + 1..]
  {
  }

  /** One round of the carry: `_tails[i]` passes its contents on and holds
      the carry it received. */
  lemma CarryStep<P>(m: Monoid<P>, ts0: seq<Node<P>>, time: int, lifted: P, i: nat, ts: seq<Node<P>>, cs: Slot<P>)
    requires i < |ts0| && ts == Resets(m, ts0, time, lifted, i) + ts0[i..] && cs == CarryIn(m, ts0, time, lifted, i)
    ensures ts[i] == ts0[i]
    ensures ts[i := NewNode(cs)] == Resets(m, ts0, time, lifted, i + 1) + ts0[i + 1..]
    ensures Slot(CarryAgg(m, ts[i]), ts[i].s1.time, Some(ts[i])) == CarryIn(m, ts0, time, lifted, i + 1)
  {
    ResetsStep(m, ts0, time, lifted, i);
  }

  /** `insert_lifted`'s loop: every full or left-popped tail is replaced by a
      single node holding the carry, and passes its own contents on. */
  method CarryLoop<P>(m: Monoid<P>, ts0: seq<Node<P>>, time: int, lifted: P)
    returns (ts: seq<Node<P>>, i: nat, cs: Slot<P>)
    ensures i <= |ts0| && ts == Resets(m, ts0, time, lifted, i) + ts0[i..]
    ensures cs == CarryIn(m, ts0, time, lifted, i)
    ensures forall j | 0 <= j < i :: Carries(ts0[j])
    ensures i < |ts0| ==> !Carries(ts0[i])
  {
    ts, i, cs := ts0, 0, Slot(lifted, time, None);
    assert Resets(m, ts0, time, lifted, 0) == [];
    while i < |ts| && (Full(ts[i]) || LeftPopped(ts[i]))
      invariant i <= |ts0| && ts == Resets(m, ts0, time, lifted, i) + ts0[i..]
      invariant cs == CarryIn(m, ts0, time, lifted, i)
      invariant forall j | 0 <= j < i :: Carries(ts0[j])
      decreases |ts0| - i
    {
      CarryStep(m, ts0, time, lifted, i, ts, cs);
      var node := ts[i];
      var nextCarry := CarryAgg(m, node);
      var nextTime := node.s1.time;
      ts := ts[i := NewNode(cs)];
      cs := Slot(nextCarry, nextTime, Some(node));
      i := i + 1;
    }
    if i < |ts0| {
      CarryExit(m, ts0, time, lifted, i, ts);
    }
  }

  lemma CarryExit<P>(m: Monoid<P>, ts0: seq<Node<P>>, time: int, lifted: P, i: nat, ts: seq<Node<P>>)
    requires i < |ts0| && ts == Resets(m, ts0, time, lifted, i) + ts0[i..]
    ensures i < |ts| && ts[i] == ts0[i]
  {
  }

  /** A root that may be a child: full or left-popped. */
  lemma RootAsChild<P(!new)>(m: Monoid<P>, n: Node<P>, level: nat, exact: bool)
    requires NodeOk(m, n, level, exact, true) && Carries(n)
    ensures NodeOk(m, n, level, exact, false)
  {
  }

  /** The slot carried out of a full or left-popped tail. */
  lemma CarrySlot<P(!new)>(m: Monoid<P>, n: Node<P>, level: nat, exact: bool)
    requires IsMonoid(m) && NodeOk(m, n, level, exact, true) && Carries(n)
    requires exact ==> TailOk(m, n, level)
    ensures SlotOk(m, Slot(CarryAgg(m, n), n.s1.time, Some(n)), level + 1, exact)
  {
    RootAsChild(m, n, level, exact);
    NodeNonEmpty(m, n, level, exact, true);
    if exact {
      NodeAggOk(m, n, level);
    }
  }

  /** The carry reaching `_tails[j]` is a well-formed slot of height `j`,
      with exact aggregates unless it comes out of the big root. */
  lemma CarryInOk<P(!new)>(m: Monoid<P>, ts0: seq<Node<P>>, time: int, lifted: P, j: nat)
    requires IsMonoid(m) && Shape(m, ts0) && j <= |ts0|
    requires j > 0 ==> Carries(ts0[j - 1])
    ensures SlotOk(m, CarryIn(m, ts0, time, lifted, j), j, j < |ts0| || j == 0)
  {
    if j == 0 {
      FoldSingleton(m, lifted);
      assert Values([Elem(time, lifted)]) == [lifted];
    } else if j < |ts0| {
      assert TailOk(m, ts0[j - 1], j - 1);
      CarrySlot(m, ts0[j - 1], j - 1, true);
    } else {
      CarrySlot(m, ts0[j - 1], j - 1, false);
    }
  }

  /** The reset tails are tails: single nodes with exact aggregates. */
  lemma ResetsOk<P(!new)>(m: Monoid<P>, ts0: seq<Node<P>>, time: int, lifted: P, k: nat)
    requires IsMonoid(m) && Shape(m, ts0) && k <= |ts0|
    requires forall j | 0 <= j < k :: Carries(ts0[j])
    ensures forall j | 0 <= j < k :: TailOk(m, Resets(m, ts0, time, lifted, k)[j], j)
  {
    forall j | 0 <= j < k
      ensures TailOk(m, Resets(m, ts0, time, lifted, k)[j], j)
    {
      CarryInOk(m, ts0, time, lifted, j);
    }
  }

  /** The reset tails and the carry hold exactly the elements of the tails
      the carry passed, plus the new one. */
  lemma {:induction false} ResetsFlat<P>(m: Monoid<P>, ts0: seq<Node<P>>, time: int, lifted: P, k: nat)
    requires k <= |ts0|
    ensures SlotElems(CarryIn(m, ts0, time, lifted, k)) + Flat(Resets(m, ts0, time, lifted, k))
            == Flat(ts0[..k]) + [Elem(time, lifted)]
  {
    if k == 0 {
      assert ts0[..0] == [];
    } else {
      var r := Resets(m, ts0, time, lifted, k);
      ResetsFlat(m, ts0, time, lifted, k - 1);
      FlatLast(r);
      assert r[..k - 1] == Resets(m, ts0, time, lifted, k - 1);
      FlatLast(ts0[..k]);
      assert ts0[..k][..k - 1] == ts0[..k - 1];
    }
  }

  /** The first tail that does not pass the carry on has one live slot. */
  lemma Absorber<P(!new)>(m: Monoid<P>, ts0: seq<Node<P>>, k: nat)
    requires Shape(m, ts0) && k < |ts0| && !Carries(ts0[k])
    ensures RightEmpty(ts0[k])
  {
    if k < |ts0| - 1 {
      assert TailOk(m, ts0[k], k);
    }
  }

  /** The carry is absorbed by the first tail with a single live slot. */
  lemma AbsorbOk<P(!new)>(m: Monoid<P>, ts0: seq<Node<P>>, time: int, lifted: P, k: nat)
    requires IsMonoid(m) && Shape(m, ts0) && k < |ts0| && !Carries(ts0[k])
    requires forall j | 0 <= j < k :: Carries(ts0[j])
    ensures RightEmpty(ts0[k])
    ensures var ts := Resets(m, ts0, time, lifted, k) + [PushBack(ts0[k], CarryIn(m, ts0, time, lifted, k))] + ts0[k + 1..];
            Shape(m, ts) && Flat(ts) == Flat(ts0) + [Elem(time, lifted)]
  {
    Absorber(m, ts0, k);
    AbsorbShape(m, ts0, time, lifted, k);
    AbsorbFlat(m, ts0, time, lifted, k);
  }

  lemma AbsorbFlat<P>(m: Monoid<P>, ts0: seq<Node<P>>, time: int, lifted: P, k: nat)
    requires k < |ts0| && RightEmpty(ts0[k])
    ensures var ts := Resets(m, ts0, time, lifted, k) + [PushBack(ts0[k], CarryIn(m, ts0, time, lifted, k))] + ts0[k + 1..];
            Flat(ts) == Flat(ts0) + [Elem(time, lifted)]
  {
    var cs := CarryIn(m, ts0, time, lifted, k);
    var r := Resets(m, ts0, time, lifted, k);
    var x := PushBack(ts0[k], cs);
    ResetsFlat(m, ts0, time, lifted, k);
    FlatPlaced(r, x, ts0[k + 1..]);
    FlatAt(ts0, k);
    Regroup(Flat(ts0[k + 1..]), Elems(ts0[k]), SlotElems(cs), Flat(r));
  }

  /** The window of the tails `r`, then `x`, then `rest`. */
  lemma FlatPlaced<P>(r: seq<Node<P>>, x: Node<P>, rest: seq<Node<P>>)
    ensures Flat(r + [x] + rest) == Flat(rest) + Elems(x) + Flat(r)
  {
    FlatAppend(r + [x], rest);
    FlatAppend(r, [x]);
    FlatOne(x);
  }

  lemma AbsorbShape<P(!new)>(m: Monoid<P>, ts0: seq<Node<P>>, time: int, lifted: P, k: nat)
    requires IsMonoid(m) && Shape(m, ts0) && k < |ts0| && RightEmpty(ts0[k])
    requires forall j | 0 <= j < k :: Carries(ts0[j])
    ensures Shape(m, Resets(m, ts0, time, lifted, k) + [PushBack(ts0[k], CarryIn(m, ts0, time, lifted, k))] + ts0[k + 1..])
  {
    var cs := CarryIn(m, ts0, time, lifted, k);
    CarryInOk(m, ts0, time, lifted, k);
    ResetsOk(m, ts0, time, lifted, k);
    if k < |ts0| - 1 {
      assert TailOk(m, ts0[k], k);
      AbsorbNode(m, ts0[k], cs, k, true);
    } else {
      AbsorbNode(m, ts0[k], cs, k, false);
    }
    ShapePlaced(m, ts0, Resets(m, ts0, time, lifted, k), PushBack(ts0[k], cs), k);
  }

  /** A root with one live slot takes the carry as its second slot. */
  lemma AbsorbNode<P(!new)>(m: Monoid<P>, n: Node<P>, cs: Slot<P>, level: nat, exact: bool)
    requires NodeOk(m, n, level, exact, true) && RightEmpty(n) && SlotOk(m, cs, level, true)
    ensures NodeOk(m, PushBack(n, cs), level, exact, true) && !LeftPopped(PushBack(n, cs))
  {
  }

  /** The tails once tail `k` absorbed the carry. */
  lemma ShapePlaced<P(!new)>(m: Monoid<P>, ts0: seq<Node<P>>, r: seq<Node<P>>, x: Node<P>, k: nat)
    requires Shape(m, ts0) && k < |ts0| && |r| == k
    requires forall j | 0 <= j < k :: TailOk(m, r[j], j)
    requires k < |ts0| - 1 ==> NodeOk(m, x, k, true, true) && !LeftPopped(x)
    requires k == |ts0| - 1 ==> NodeOk(m, x, k, false, true)
    ensures Shape(m, r + [x] + ts0[k + 1..])
  {
    var ts := r + [x] + ts0[k + 1..];
    forall j | 0 <= j < |ts| - 1
      ensures TailOk(m, ts[j], j)
    {
      if j < k {
        assert ts[j] == r[j];
      } else if j > k {
        assert ts[j] == ts0[j];
      }
    }
    assert ts[|ts| - 1] == if k == |ts0| - 1 then x else ts0[|ts0| - 1];
  }

  /** No tail absorbs the carry: it becomes a new big root. */
  lemma GrowOk<P(!new)>(m: Monoid<P>, ts0: seq<Node<P>>, time: int, lifted: P)
    requires IsMonoid(m) && Shape(m, ts0)
    requires forall j | 0 <= j < |ts0| :: Carries(ts0[j])
    ensures var ts := Resets(m, ts0, time, lifted, |ts0|) + [NewNode(CarryIn(m, ts0, time, lifted, |ts0|))];
            Shape(m, ts) && Flat(ts) == Flat(ts0) + [Elem(time, lifted)]
  {
    GrowShape(m, ts0, time, lifted);
    GrowFlat(m, ts0, time, lifted);
  }

  lemma GrowShape<P(!new)>(m: Monoid<P>, ts0: seq<Node<P>>, time: int, lifted: P)
    requires IsMonoid(m) && Shape(m, ts0)
    requires forall j | 0 <= j < |ts0| :: Carries(ts0[j])
    ensures Shape(m, Resets(m, ts0, time, lifted, |ts0|) + [NewNode(CarryIn(m, ts0, time, lifted, |ts0|))])
  {
    GrowRoot(m, ts0, time, lifted);
    ResetsOk(m, ts0, time, lifted, |ts0|);
    ShapeSnoc(m, Resets(m, ts0, time, lifted, |ts0|), NewNode(CarryIn(m, ts0, time, lifted, |ts0|)));
  }

  /** The new big root: a single node holding the contents of the old one. */
  lemma GrowRoot<P(!new)>(m: Monoid<P>, ts0: seq<Node<P>>, time: int, lifted: P)
    requires IsMonoid(m) && Shape(m, ts0)
    requires |ts0| > 0 ==> Carries(ts0[|ts0| - 1])
    ensures NodeOk(m, NewNode(CarryIn(m, ts0, time, lifted, |ts0|)), |ts0|, false, true)
  {
    var k := |ts0|;
    var cs := CarryIn(m, ts0, time, lifted, k);
    CarryInOk(m, ts0, time, lifted, k);
    SlotAny(m, cs, k, k == 0);
    NewNodeOk(m, cs, k);
  }

  lemma NewNodeOk<P(!new)>(m: Monoid<P>, s: Slot<P>, level: nat)
    requires SlotOk(m, s, level, false)
    ensures NodeOk(m, NewNode(s), level, false, true)
  {
  }

  /** A new big root on top of tails. */
  lemma ShapeSnoc<P(!new)>(m: Monoid<P>, r: seq<Node<P>>, x: Node<P>)
    requires forall j | 0 <= j < |r| :: TailOk(m, r[j], j)
    requires NodeOk(m, x, |r|, false, true)
    ensures Shape(m, r + [x])
  {
    var ts := r + [x];
    forall j | 0 <= j < |ts| - 1
      ensures TailOk(m, ts[j], j)
    {
      assert ts[j] == r[j];
    }
  }

  lemma GrowFlat<P>(m: Monoid<P>, ts0: seq<Node<P>>, time: int, lifted: P)
    ensures var ts := Resets(m, ts0, time, lifted, |ts0|) + [NewNode(CarryIn(m, ts0, time, lifted, |ts0|))];
            Flat(ts) == Flat(ts0) + [Elem(time, lifted)]
  {
    var k := |ts0|;
    var r := Resets(m, ts0, time, lifted, k);
    var ts := r + [NewNode(CarryIn(m, ts0, time, lifted, k))];
    ResetsFlat(m, ts0, time, lifted, k);
    FlatLast(ts);
    assert ts[..k] == r;
    assert ts0[..k] == ts0;
  }

  /** `insert_lifted` on the tails: the carry ripples through the full and
      left-popped tails, resetting each to a single node, and is absorbed by
      the first other tail `k` or, when none is left, becomes a new tail. */
  method InsertTails<P(!new)>(m: Monoid<P>, ts0: seq<Node<P>>, time: int, lifted: P)
    returns (ts: seq<Node<P>>, k: nat)
    requires IsMonoid(m) && Shape(m, ts0)
    ensures Shape(m, ts) && Flat(ts) == Flat(ts0) + [Elem(time, lifted)]
    ensures k <= |ts0| && |ts| == (if k == |ts0| then |ts0| + 1 else |ts0|)
    ensures forall j | 0 <= j < k :: Carries(ts0[j]) && RightEmpty(ts[j])
    ensures k < |ts0| ==> RightEmpty(ts0[k]) && Full(ts[k]) && ts[k + 1..] == ts0[k + 1..]
    ensures k == |ts0| ==> RightEmpty(ts[k]) && ts[k].s0.child == (if k == 0 then None else Some(ts0[k - 1]))
  {
    var cs;
    ts, k, cs := CarryLoop(m, ts0, time, lifted);
    ghost var reset := ts;
    if k < |ts| {
      AbsorbOk(m, ts0, time, lifted, k);
      ResetsPlaced(m, ts0, time, lifted, k, ts, PushBack(ts0[k], cs));
      ts := ts[k := PushBack(ts[k], cs)];
    } else {
      GrowOk(m, ts0, time, lifted);
      ResetsPlaced(m, ts0, time, lifted, k, ts, NewNode(cs));
      ts := ts + [NewNode(cs)];
    }
    forall j | 0 <= j < k
      ensures RightEmpty(ts[j])
    {
      assert ts[j] == reset[j];
    }
  }

  /** The tails once the carry is placed at `k`: in the old tail `k`, or in
      a new one past the end. */
  lemma ResetsPlaced<P>(m: Monoid<P>, ts0: seq<Node<P>>, time: int, lifted: P, k: nat, ts: seq<Node<P>>, x: Node<P>)
    requires k <= |ts0| && ts == Resets(m, ts0, time, lifted, k) + ts0[k..]
    ensures k < |ts0| ==> ts[k] == ts0[k] && ts[k := x] == Resets(m, ts0, time, lifted, k) + [x] + ts0[k + 1..]
    ensures k < |ts0| ==> |ts[k := x]| == |ts0| && ts[k := x][k] == x && ts[k := x][k + 1..] == ts0[k + 1..]
    ensures k == |ts0| ==> ts + [x] == Resets(m, ts0, time, lifted, k) + [x]
    ensures k == |ts0| ==> |ts + [x]| == |ts0| + 1 && (ts + [x])[k] == x
    ensures forall j | 0 <= j < k :: RightEmpty(ts[j])
  {
    if k == |ts0| {
      assert ts0[k..] == [];
    }
  }

  // ---------------------------------------------------------------------
  // Bulk eviction of whole roots

  /** The newest time under a root is its last element's. */
  lemma HeadNewest<P(!new)>(m: Monoid<P>, ts: seq<Node<P>>)
    requires Shape(m, ts) && ts != []
    ensures var head := ts[|ts| - 1];
            |Elems(head)| > 0 && Elems(head)[|Elems(head)| - 1].time == MostRecent(head)
            && Flat(ts) == Elems(head) + Flat(ts[..|ts| - 1])
  {
    NodeNonEmpty(m, ts[|ts| - 1], |ts| - 1, false, true);
    FlatLast(ts);
  }

  /** Every element of the big root is old enough: it is dropped. */
  lemma EvictWholeStep<P(!new)>(m: Monoid<P>, ts: seq<Node<P>>, time: int)
    requires Shape(m, ts) && ts != [] && Increasing(Flat(ts)) && time >= MostRecent(ts[|ts| - 1])
    ensures var r := ts[..|ts| - 1];
            Shape(m, r) && Increasing(Flat(r)) && After(Flat(ts), time) == After(Flat(r), time)
            && (time == MostRecent(ts[|ts| - 1]) ==> After(Flat(ts), time) == Flat(r))
  {
    var r := ts[..|ts| - 1];
    HeadNewest(m, ts);
    AfterSplit(Elems(ts[|ts| - 1]), Flat(r), time);
    if |r| > 0 {
      assert TailOk(m, r[|r| - 1], |r| - 1);
      Weaken(m, r[|r| - 1], |r| - 1, true);
    }
  }

  /** The big root holds something newer: it is sliced, and the loop stops. */
  lemma EvictSliceStep<P(!new)>(m: Monoid<P>, ts: seq<Node<P>>, time: int)
    requires Shape(m, ts) && ts != [] && Increasing(Flat(ts)) && time < MostRecent(ts[|ts| - 1])
    ensures SliceHead(ts[|ts| - 1], time).Ok?
    ensures var r := ts[|ts| - 1 := SliceHead(ts[|ts| - 1], time).value];
            Shape(m, r) && Flat(r) == After(Flat(ts), time)
  {
    var head := ts[|ts| - 1];
    HeadNewest(m, ts);
    AfterSplit(Elems(head), Flat(ts[..|ts| - 1]), time);
    SliceHeadOk(m, head, |ts| - 1, time);
    var r := ts[|ts| - 1 := SliceHead(head, time).value];
    FlatLast(r);
    assert r[..|r| - 1] == ts[..|ts| - 1];
  }

  /** `bulkEvict`'s loop: roots whose newest time is at most `time` are
      dropped, oldest first, and the first root holding something newer is
      sliced; dropping a root ending exactly at `time` stops the loop. */
  method EvictTails<P(!new)>(m: Monoid<P>, ts0: seq<Node<P>>, time: int) returns (ts: seq<Node<P>>)
    requires Shape(m, ts0) && Increasing(Flat(ts0))
    ensures Shape(m, ts) && Flat(ts) == After(Flat(ts0), time)
  {
    ts := ts0;
    var done := false;
    while !done && ts != []
      invariant Shape(m, ts)
      invariant !done ==> Increasing(Flat(ts)) && After(Flat(ts), time) == After(Flat(ts0), time)
      invariant done ==> Flat(ts) == After(Flat(ts0), time)
      decreases |ts| + (if done then 0 else 1)
    {
      var head := ts[|ts| - 1];
      var mostRecent := MostRecent(head);
      if time < mostRecent {
        EvictSliceStep(m, ts, time);
        ts := ts[|ts| - 1 := SliceHead(head, time).value];
        done := true;
      } else {
        EvictWholeStep(m, ts, time);
        ts := ts[..|ts| - 1];
        if mostRecent == time {
          done := true;
        }
      }
    }
  }

  // ---------------------------------------------------------------------
  // The sums kept beside the tails

  /** No tails: both sums are the identity.  The stack may still hold the
      entries of an earlier big root; nothing reads them. */
  ghost predicate Emptied<P>(m: Monoid<P>, ts: seq<Node<P>>, fs: P, bs: P)
  {
    ts == [] && fs == m.identity && bs == m.identity
  }

  /** The first element after an empty window: `insert_lifted` has only
      added it to `_backSum` and pointed `_frontNode` at its node. */
  ghost predicate Fresh<P>(m: Monoid<P>, ts: seq<Node<P>>, fn: Option<Node<P>>, fs: P, bs: P)
  {
    |ts| == 1 && RightEmpty(ts[0]) && ts[0].s0.child.None?
    && fs == m.identity && bs == Fold(m, Values(Flat(ts)))
    && fn == Some(Bottom(ts[0]))
  }

  /** After `rebuildFront` and `rebuildBack`, and kept by every operation
      that does not call them: `_frontSum` aggregates the big root,
      `_backSum` the younger tails, `_frontStack` is the big root's spine
      stack and `_frontNode` the end of its spine. */
  ghost predicate Rebuilt<P>(m: Monoid<P>, ts: seq<Node<P>>, fn: Option<Node<P>>, st: seq<P>, fs: P, bs: P)
  {
    ts != [] && fs == Fold(m, Values(Elems(ts[|ts| - 1]))) && bs == Fold(m, Values(Flat(ts[..|ts| - 1])))
    && st == FrontStack(m, ts[|ts| - 1], m.identity) && fn == Some(Bottom(ts[|ts| - 1]))
  }

  ghost predicate Sums<P>(m: Monoid<P>, ts: seq<Node<P>>, fn: Option<Node<P>>, st: seq<P>, fs: P, bs: P)
  {
    Emptied(m, ts, fs, bs) || Fresh(m, ts, fn, fs, bs) || Rebuilt(m, ts, fn, st, fs, bs)
  }

  /** The tails hold elements exactly when there are tails. */
  lemma WindowEmpty<P(!new)>(m: Monoid<P>, ts: seq<Node<P>>)
    requires Shape(m, ts)
    ensures Flat(ts) == [] <==> ts == []
  {
    if ts != [] {
      HeadNewest(m, ts);
    }
  }

  /** `query`: the two sums together aggregate the whole window. */
  lemma QuerySum<P(!new)>(m: Monoid<P>, ts: seq<Node<P>>, fn: Option<Node<P>>, st: seq<P>, fs: P, bs: P)
    requires IsMonoid(m) && Sums(m, ts, fn, st, fs, bs)
    ensures m.combine(fs, bs) == Fold(m, Values(Flat(ts)))
  {
    if Emptied(m, ts, fs, bs) {
      IdentityLeft(m, m.identity);
      assert Values(Flat(ts)) == [];
    } else if Fresh(m, ts, fn, fs, bs) {
      IdentityLeft(m, bs);
    } else {
      FlatLast(ts);
      ValuesAppend(Elems(ts[|ts| - 1]), Flat(ts[..|ts| - 1]));
      FoldAppend(m, Values(Elems(ts[|ts| - 1])), Values(Flat(ts[..|ts| - 1])));
    }
  }

  /** `oldest`: the front node's live spine slot holds the oldest element. */
  lemma OldestTime<P(!new)>(m: Monoid<P>, ts: seq<Node<P>>, fn: Option<Node<P>>, st: seq<P>, fs: P, bs: P)
    requires Shape(m, ts) && Sums(m, ts, fn, st, fs, bs) && Flat(ts) != []
    ensures fn.Some? && Flat(ts)[0].time == (if LeftPopped(fn.value) then fn.value.s1.time else fn.value.s0.time)
  {
    var big := ts[|ts| - 1];
    BottomFront(m, big, |ts| - 1, false, true);
    FlatLast(ts);
  }

  /** The time of a node's last live slot. */
  function NewestTime<P>(n: Node<P>): int
  {
    if Full(n) || LeftPopped(n) then n.s1.time else n.s0.time
  }

  /** `youngest`: `_tails[0]`'s last live slot holds the youngest element. */
  lemma YoungestTime<P(!new)>(m: Monoid<P>, ts: seq<Node<P>>)
    requires Shape(m, ts) && Flat(ts) != []
    ensures ts != []
    ensures Flat(ts)[|Flat(ts)| - 1].time == NewestTime(ts[0])
  {
    if |ts| > 1 {
      assert TailOk(m, ts[0], 0);
      NodeNonEmpty(m, ts[0], 0, true, true);
    } else {
      NodeNonEmpty(m, ts[0], 0, false, true);
    }
  }

  /** The front node is a spine node: one or two live slots. */
  lemma {:induction false} BottomArity<P>(n: Node<P>)
    requires SpineOk(n)
    ensures Bottom(n).arity == 1 || Bottom(n).arity == 2 || Bottom(n).arity == -1
    decreases n
  {
    match Next(n)
    case None =>
    case Some(c) =>
      BottomArity(c);
  }

  /** `rebuildFront`'s `other`: the aggregate in the front node's spine slot. */
  function Other<P>(fnode: Node<P>): P
  {
    if Full(fnode) || RightEmpty(fnode) then fnode.s0.agg else fnode.s1.agg
  }

  /** `rebuildFront`'s `_frontSum`: `other` combined with the top of the
      stack aggregates the big root. */
  lemma FrontOther<P(!new)>(m: Monoid<P>, big: Node<P>, level: nat, st: seq<P>)
    requires IsMonoid(m) && NodeOk(m, big, level, false, true) && st == FrontStack(m, big, m.identity)
    ensures m.combine(Other(Bottom(big)), Top(st, m.identity)) == Fold(m, Values(Elems(big)))
  {
    FrontSum(m, big, level, false, true);
    ShapeSpine(m, big, level, false, true);
    BottomArity(big);
  }

  /** The rebuilt sums, or the identities once the tails are gone. */
  lemma RebuiltOk<P>(m: Monoid<P>, ts: seq<Node<P>>, fn: Option<Node<P>>, st: seq<P>, fs: P, bs: P)
    requires ts == [] ==> fs == m.identity && bs == m.identity
    requires ts != [] ==> fs == Fold(m, Values(Elems(ts[|ts| - 1]))) && bs == Fold(m, Values(Flat(ts[..|ts| - 1])))
                          && st == FrontStack(m, ts[|ts| - 1], m.identity) && fn == Some(Bottom(ts[|ts| - 1]))
    ensures Sums(m, ts, fn, st, fs, bs)
  {
  }

  /** Adding the new element to `_backSum` keeps it the aggregate of the
      tails younger than an unchanged big root. */
  lemma BackAfterInsert<P(!new)>(m: Monoid<P>, ts0: seq<Node<P>>, ts: seq<Node<P>>, bs0: P, e: Elem<P>)
    requires IsMonoid(m) && ts0 != [] && ts != []
    requires Flat(ts) == Flat(ts0) + [e] && Elems(ts[|ts| - 1]) == Elems(ts0[|ts0| - 1])
    requires bs0 == Fold(m, Values(Flat(ts0[..|ts0| - 1])))
    ensures m.combine(bs0, e.val) == Fold(m, Values(Flat(ts[..|ts| - 1])))
  {
    var big := Elems(ts0[|ts0| - 1]);
    var rest, rest0 := Flat(ts[..|ts| - 1]), Flat(ts0[..|ts0| - 1]);
    FlatLast(ts);
    FlatLast(ts0);
    Cancel(big, rest, rest0, [e]);
    ValuesAppend(rest0, [e]);
    FoldSnoc(m, Values(rest0), e.val);
  }

  lemma Cancel<T>(a: seq<T>, b: seq<T>, c: seq<T>, d: seq<T>)
    requires a + b == (a + c) + d
    ensures b == c + d
  {
    assert b == (a + b)[|a|..];
    assert (a + c) + d == a + (c + d);
    assert c + d == (a + (c + d))[|a|..];
  }

  /** `insert_lifted` when the carry did not reach the big root, or grew a
      new big root above it: the sums need no rebuild. */
  lemma InsertedOk<P(!new)>(m: Monoid<P>, ts0: seq<Node<P>>, fn0: Option<Node<P>>, st: seq<P>, fs: P, bs0: P,
                            ts: seq<Node<P>>, k: nat, fn: Option<Node<P>>, e: Elem<P>)
    requires IsMonoid(m) && Shape(m, ts0) && Sums(m, ts0, fn0, st, fs, bs0)
    requires Shape(m, ts) && Flat(ts) == Flat(ts0) + [e]
    requires k <= |ts0| && |ts| == (if k == |ts0| then |ts0| + 1 else |ts0|) && k + 1 != |ts0|
    requires forall j | 0 <= j < k :: Carries(ts0[j])
    requires k < |ts0| ==> ts[k + 1..] == ts0[k + 1..]
    requires k == |ts0| ==> RightEmpty(ts[k]) && ts[k].s0.child == (if k == 0 then None else Some(ts0[k - 1]))
    requires fn == if ts0 == [] then Some(ts[0]) else fn0
    ensures Sums(m, ts, fn, st, fs, m.combine(bs0, e.val))
  {
    if ts0 == [] {
      IdentityLeft(m, e.val);
      FoldSingleton(m, e.val);
      assert Flat(ts) == [e];
      assert Values([e]) == [e.val];
    } else {
      var big0, big := ts0[|ts0| - 1], ts[|ts| - 1];
      if k == |ts0| {
        assert big.s0.child == Some(big0);
        assert Elems(big) == Elems(big0);
        FrontStackSingle(m, big, m.identity);
      } else {
        assert big == ts[k + 1..][|ts| - k - 2] == big0;
      }
      BackAfterInsert(m, ts0, ts, bs0, e);
    }
  }

  /** The big root emptied by `evict` is popped from the tails. */
  lemma EvictedRoot<P(!new)>(m: Monoid<P>, ts: seq<Node<P>>)
    requires Shape(m, ts) && ts != [] && |Elems(ts[|ts| - 1])| == 1
    ensures |Flat(ts)| > 0
    ensures Shape(m, ts[..|ts| - 1]) && Flat(ts[..|ts| - 1]) == Flat(ts)[1..]
  {
    var r := ts[..|ts| - 1];
    FlatLast(ts);
    if |r| > 0 {
      assert TailOk(m, r[|r| - 1], |r| - 1);
      Weaken(m, r[|r| - 1], |r| - 1, true);
    }
  }

  /** What `evict` knows before it pops: either the big root holds only the
      oldest element, or the sums were rebuilt and the climb stops at a full
      node whose entry tops the stack. */
  lemma EvictPrep<P(!new)>(m: Monoid<P>, ts: seq<Node<P>>, fn: Option<Node<P>>, st: seq<P>, fs: P, bs: P)
    requires IsMonoid(m) && Shape(m, ts) && Sums(m, ts, fn, st, fs, bs) && Flat(ts) != []
    ensures ts != []
    ensures var big := ts[|ts| - 1];
            |Elems(big)| > 0 && Elems(PopOldest(big)) == Elems(big)[1..]
            && (PopOldest(big).arity == 0 <==> |Elems(big)| == 1)
            && (PopOldest(big).arity != 0 ==>
                  NodeOk(m, PopOldest(big), |ts| - 1, false, true)
                  && Rebuilt(m, ts, fn, st, fs, bs) && DeepFull(big).Some? && st != []
                  && Top(st, m.identity) == Fold(m, Values(Elems(PopOldest(big)))))
  {
    WindowEmpty(m, ts);
    var big := ts[|ts| - 1];
    PopOldestOk(m, big, |ts| - 1, false, true);
    ShapeSpine(m, big, |ts| - 1, false, true);
    EvictEmpties(m, big, m.identity);
    if PopOldest(big).arity != 0 {
      StackTop(m, big, |ts| - 1, false, true, m.identity);
      IdentityRight(m, Fold(m, Values(Elems(big)[1..])));
    }
  }

  /** `evict` when the climb stops inside the big root. */
  lemma EvictKeptOk<P(!new)>(m: Monoid<P>, ts0: seq<Node<P>>, fn0: Option<Node<P>>, st0: seq<P>, fs0: P, bs: P,
                             ts: seq<Node<P>>, fn: Option<Node<P>>, st: seq<P>, fs: P)
    requires Shape(m, ts0) && ts0 != [] && Rebuilt(m, ts0, fn0, st0, fs0, bs)
    requires var big := ts0[|ts0| - 1];
             SpineOk(big) && DeepFull(big).Some? && st0 != []
             && NodeOk(m, PopOldest(big), |ts0| - 1, false, true)
             && |Elems(big)| > 0 && Elems(PopOldest(big)) == Elems(big)[1..]
             && fs == Fold(m, Values(Elems(PopOldest(big))))
             && ts == ts0[|ts0| - 1 := PopOldest(big)]
             && var rest := st0[..|st0| - 1];
                var d := PopFront(DeepFull(big).value).0;
                st == rest + FrontStack(m, d, Top(rest, m.identity)) && fn == Some(Bottom(d))
    ensures |Flat(ts0)| > 0
    ensures Shape(m, ts) && Sums(m, ts, fn, st, fs, bs) && Flat(ts) == Flat(ts0)[1..]
  {
    var big := ts0[|ts0| - 1];
    var big' := PopOldest(big);
    var younger := ts0[..|ts0| - 1];
    EvictFront(m, big, m.identity);
    ReplaceRoot(m, ts0, big');
    assert ts[|ts| - 1] == big' && ts[..|ts| - 1] == younger;
    assert st0 == FrontStack(m, big, m.identity) && bs == Fold(m, Values(Flat(younger)));
    assert st == FrontStack(m, big', m.identity) && fn == Some(Bottom(big'));
    RebuiltOf(m, ts, fn, st, fs, bs);
    FlatLast(ts0);
    DropFirst(Elems(big), Flat(younger));
  }

  /** `Rebuilt`, from the facts about the big root and the younger tails. */
  lemma RebuiltOf<P>(m: Monoid<P>, ts: seq<Node<P>>, fn: Option<Node<P>>, st: seq<P>, fs: P, bs: P)
    requires ts != [] && fs == Fold(m, Values(Elems(ts[|ts| - 1]))) && bs == Fold(m, Values(Flat(ts[..|ts| - 1])))
    requires st == FrontStack(m, ts[|ts| - 1], m.identity) && fn == Some(Bottom(ts[|ts| - 1]))
    ensures Rebuilt(m, ts, fn, st, fs, bs)
  {
  }

  lemma DropFirst<T>(a: seq<T>, b: seq<T>)
    requires |a| > 0
    ensures (a + b)[1..] == a[1..] + b
  {
  }

  /** The big root replaced by a well-formed node of the same height. */
  lemma ReplaceRoot<P(!new)>(m: Monoid<P>, ts0: seq<Node<P>>, x: Node<P>)
    requires Shape(m, ts0) && ts0 != [] && NodeOk(m, x, |ts0| - 1, false, true)
    ensures var ts := ts0[|ts0| - 1 := x];
            Shape(m, ts) && ts[..|ts| - 1] == ts0[..|ts0| - 1] && Flat(ts) == Elems(x) + Flat(ts0[..|ts0| - 1])
  {
    var ts := ts0[|ts0| - 1 := x];
    assert ts[..|ts| - 1] == ts0[..|ts0| - 1];
    FlatLast(ts);
    forall j | 0 <= j < |ts| - 1
      ensures TailOk(m, ts[j], j)
    {
      assert ts[j] == ts0[j];
    }
  }

  /** Cutting before the oldest element evicts nothing. */
  lemma AfterOlder<P>(e: seq<Elem<P>>, time: int)
    requires Increasing(e) && (e == [] || time < e[0].time)
    ensures After(e, time) == e
  {
    if e != [] {
      forall k | 0 <= k < |e|
        ensures e[k].time > time
      {
        if k > 0 {
          assert Older(e, 0, k);
        }
      }
      AfterAll(e, time);
    }
  }

  /** Dropping elements keeps the times increasing. */
  lemma {:induction false} AfterIncreasing<P>(e: seq<Elem<P>>, time: int, lo: int)
    requires Increasing(e) && forall k | 0 <= k < |e| :: e[k].time > lo
    ensures Increasing(After(e, time))
    ensures forall k | 0 <= k < |After(e, time)| :: After(e, time)[k].time > lo
  {
    if e != [] {
      var e1 := e[1..];
      forall i, j | 0 <= i < j < |e1|
        ensures Older(e1, i, j)
      {
        assert Older(e, i + 1, j + 1);
      }
      forall k | 0 <= k < |e1|
        ensures e1[k].time > e[0].time
      {
        assert Older(e, 0, k + 1);
      }
      AfterIncreasing(e1, time, e[0].time);
      var r := After(e1, time);
      if e[0].time > time {
        var s := [e[0]] + r;
        assert After(e, time) == s;
        forall i, j | 0 <= i < j < |s|
          ensures Older(s, i, j)
        {
          if i > 0 {
            assert Older(r, i - 1, j - 1);
          } else {
            assert s[j] == r[j - 1];
          }
        }
      } else {
        assert After(e, time) == r;
      }
    }
  }

  lemma AfterKeepsOrder<P>(e: seq<Elem<P>>, time: int)
    requires Increasing(e)
    ensures Increasing(After(e, time))
  {
    if e != [] {
      forall k | 0 <= k < |e|
        ensures e[k].time > e[0].time - 1
      {
        if k > 0 {
          assert Older(e, 0, k);
        }
      }
      AfterIncreasing(e, time, e[0].time - 1);
    }
  }

  /** A younger element at the back keeps the times increasing. */
  lemma IncreasingSnoc<P>(e: seq<Elem<P>>, x: Elem<P>)
    requires Increasing(e) && (e != [] ==> e[|e| - 1].time < x.time)
    ensures Increasing(e + [x])
  {
    var s := e + [x];
    forall i, j | 0 <= i < j < |s|
      ensures Older(s, i, j)
    {
      if j < |e| {
        assert Older(e, i, j);
      } else if i < |e| - 1 {
        assert Older(e, i, |e| - 1);
      }
    }
  }

  lemma IncreasingTail<P>(e: seq<Elem<P>>)
    requires Increasing(e) && e != []
    ensures Increasing(e[1..])
  {
    forall i, j | 0 <= i < j < |e| - 1
      ensures Older(e[1..], i, j)
    {
      assert Older(e, i + 1, j + 1);
    }
  }

  /** The time `insert(val)` stamps: 0 in an empty window, otherwise one
      after the youngest. */
  function NextTime<P>(w: seq<Elem<P>>): int
  {
    if w == [] then 0 else w[|w| - 1].time + 1
  }

  /** `rebuildFront` on the state as values. */
  method FrontOf<P(!new)>(m: Monoid<P>, ts: seq<Node<P>>, st0: seq<P>, fn0: Option<Node<P>>)
    returns (st: seq<P>, fn: Option<Node<P>>, fs: P)
    requires IsMonoid(m) && Shape(m, ts)
    ensures ts == [] ==> fs == m.identity && st == st0 && fn == fn0
    ensures ts != [] ==> fs == Fold(m, Values(Elems(ts[|ts| - 1])))
                         && st == FrontStack(m, ts[|ts| - 1], m.identity) && fn == Some(Bottom(ts[|ts| - 1]))
  {
    if ts == [] {
      return st0, fn0, m.identity;
    }
    var big := ts[|ts| - 1];
    var node;
    st, node := FrontFrom(m, [], big);
    fn := Some(node);
    assert st == FrontStack(m, big, m.identity);
    var agg := Top(st, m.identity);
    var other := Other(node);
    FrontOther(m, big, |ts| - 1, st);
    fs := m.combine(other, agg);
  }

  /** `rebuildBack` on the state as values. */
  method BackOf<P(!new)>(m: Monoid<P>, ts: seq<Node<P>>) returns (bs: P)
    requires IsMonoid(m) && Shape(m, ts)
    ensures ts == [] ==> bs == m.identity
    ensures ts != [] ==> bs == Fold(m, Values(Flat(ts[..|ts| - 1])))
  {
    if ts == [] {
      return m.identity;
    }
    bs := SumTails(m, ts);
  }

  /** `insert_lifted` on the state as values. */
  method InsertState<P(!new)>(m: Monoid<P>, ts0: seq<Node<P>>, fn0: Option<Node<P>>, st0: seq<P>, fs0: P, bs0: P,
                              time: int, lifted: P)
    returns (ts: seq<Node<P>>, fn: Option<Node<P>>, st: seq<P>, fs: P, bs: P)
    requires IsMonoid(m) && Shape(m, ts0) && Sums(m, ts0, fn0, st0, fs0, bs0)
    ensures Shape(m, ts) && Sums(m, ts, fn, st, fs, bs) && Flat(ts) == Flat(ts0) + [Elem(time, lifted)]
  {
    fn, st, fs := fn0, st0, fs0;
    bs := m.combine(bs0, lifted);
    var k;
    ts, k := InsertTails(m, ts0, time, lifted);
    if k == |ts0| {
      if ts0 == [] {
        fn := Some(ts[0]);
      }
      InsertedOk(m, ts0, fn0, st0, fs0, bs0, ts, k, fn, Elem(time, lifted));
    } else if k + 1 == |ts0| {
      st, fn, fs := FrontOf(m, ts, st0, fn0);
      bs := BackOf(m, ts);
      RebuiltOk(m, ts, fn, st, fs, bs);
    } else {
      InsertedOk(m, ts0, fn0, st0, fs0, bs0, ts, k, fn, Elem(time, lifted));
    }
  }

  /** `evict` on the state as values: the climb from the front node, then
      either a rebuild once the big root is emptied, or `rebuildFrontFrom`
      on the node the climb stopped at. */
  method EvictState<P(!new)>(m: Monoid<P>, ts0: seq<Node<P>>, fn0: Option<Node<P>>, st0: seq<P>, fs0: P, bs0: P)
    returns (ts: seq<Node<P>>, fn: Option<Node<P>>, st: seq<P>, fs: P, bs: P)
    requires IsMonoid(m) && Shape(m, ts0) && Sums(m, ts0, fn0, st0, fs0, bs0) && Flat(ts0) != []
    ensures Shape(m, ts) && Sums(m, ts, fn, st, fs, bs) && Flat(ts) == Flat(ts0)[1..]
  {
    EvictPrep(m, ts0, fn0, st0, fs0, bs0);
    fs, bs := Top(st0, m.identity), bs0;
    var big := ts0[|ts0| - 1];
    var big' := PopOldest(big);
    if big'.arity == 0 {
      EvictedRoot(m, ts0);
      ts := ts0[..|ts0| - 1];
      st, fn, fs := FrontOf(m, ts, st0, None);
      bs := BackOf(m, ts);
      RebuiltOk(m, ts, fn, st, fs, bs);
    } else {
      ShapeSpine(m, big, |ts0| - 1, false, true);
      var d := PopFront(DeepFull(big).value).0;
      var node;
      st, node := FrontFrom(m, st0[..|st0| - 1], d);
      fn := Some(node);
      ts := ts0[|ts0| - 1 := big'];
      EvictKeptOk(m, ts0, fn0, st0, fs0, bs0, ts, fn, st, fs);
    }
  }

  // ---------------------------------------------------------------------
  // The aggregator

  class Aggregate<In, P(!new), Out> {
    const op: BinOp<In, P, Out>
    const m: Monoid<P>
    /** `_size`, with -1 meaning that a bulk eviction stopped the count (the
        source stores it in a `size_t`; see `SizeAfterBulkEvictAsWritten`). */
    var size: int
    var tails: seq<Node<P>>
    var frontNode: Option<Node<P>>
    var frontStack: seq<P>
    var frontSum: P
    var backSum: P

    /** The window, oldest first. */
    ghost function Window(): seq<Elem<P>>
      reads this
    {
      Flat(tails)
    }

    /** The tails are well formed and the sums agree with them. */
    ghost predicate Tracked()
      reads this
    {
      IsMonoid(m) && m.combine == op.m.combine && Shape(m, tails)
      && Sums(m, tails, frontNode, frontStack, frontSum, backSum)
    }

    ghost predicate Valid()
      reads this
    {
      Tracked() && (size == -1 || size == |Window()|)
    }

    constructor(binOp: BinOp<In, P, Out>, identE: P)
      requires IsMonoid(Monoid(binOp.m.combine, identE))
      ensures Valid() && op == binOp && m.identity == identE
      ensures Window() == [] && size == 0
    {
      op := binOp;
      m := Monoid(binOp.m.combine, identE);
      size, tails, frontNode, frontStack := 0, [], None, [];
      frontSum, backSum := identE, identE;
    }

    /** `rebuildFrontFrom(c)`: pushes the entries of `c`'s front spine on
        the stack and points `_frontNode` at the end of that spine. */
    method RebuildFrontFrom(c: Node<P>)
      modifies this
      ensures frontStack == old(frontStack) + FrontStack(m, c, Top(old(frontStack), m.identity))
      ensures frontNode == Some(Bottom(c))
      ensures tails == old(tails) && frontSum == old(frontSum) && backSum == old(backSum) && size == old(size)
    {
      var st, fn := FrontFrom(m, frontStack, c);
      frontStack, frontNode := st, Some(fn);
    }

    /** `rebuildFront`: the stack, the front node and `_frontSum` of the big
        root, or the identity when there are no tails. */
    method RebuildFront()
      requires IsMonoid(m) && Shape(m, tails)
      modifies this
      ensures tails == old(tails) && backSum == old(backSum) && size == old(size)
      ensures tails == [] ==> frontSum == m.identity && frontStack == old(frontStack) && frontNode == old(frontNode)
      ensures tails != [] ==> frontSum == Fold(m, Values(Elems(tails[|tails| - 1])))
                              && frontStack == FrontStack(m, tails[|tails| - 1], m.identity)
                              && frontNode == Some(Bottom(tails[|tails| - 1]))
    {
      frontStack, frontNode, frontSum := FrontOf(m, tails, frontStack, frontNode);
    }

    /** `rebuildBack`: `_backSum` aggregates every tail but the big root. */
    method RebuildBack()
      requires IsMonoid(m) && Shape(m, tails)
      modifies this
      ensures tails == old(tails) && frontSum == old(frontSum) && frontStack == old(frontStack)
      ensures frontNode == old(frontNode) && size == old(size)
      ensures tails == [] ==> backSum == m.identity
      ensures tails != [] ==> backSum == Fold(m, Values(Flat(tails[..|tails| - 1])))
    {
      backSum := BackOf(m, tails);
    }

    /** `insert_lifted`: the carry ripples up the tails; only when it stops
        at the big root are the front and back rebuilt.  It leaves `_size`
        alone. */
    method InsertLifted(time: int, lifted: P)
      requires Tracked()
      modifies this
      ensures Tracked() && Window() == old(Window()) + [Elem(time, lifted)] && size == old(size)
    {
      tails, frontNode, frontStack, frontSum, backSum :=
        InsertState(m, tails, frontNode, frontStack, frontSum, backSum, time, lifted);
    }

    /** `insert(time, value)`: lifts and inserts; the count goes up while it
        is tracked. */
    method Insert(time: int, v: In)
      requires Valid()
      modifies this
      ensures Valid() && Window() == old(Window()) + [Elem(time, op.lift(v))]
      ensures size == if old(size) >= 0 then old(size) + 1 else old(size)
    {
      InsertLifted(time, op.lift(v));
      if size >= 0 {
        size := size + 1;
      }
    }

    /** `insert(val)`: stamps 0 in an empty window, otherwise one after the
        youngest, which keeps the times increasing. */
    method InsertNext(v: In)
      requires Valid()
      modifies this
      ensures Valid() && Window() == old(Window()) + [Elem(NextTime(old(Window())), op.lift(v))]
      ensures Increasing(old(Window())) ==> Increasing(Window())
      ensures size == if old(size) >= 0 then old(size) + 1 else old(size)
    {
      WindowEmpty(m, tails);
      var time := if tails == [] then 0 else 1 + Youngest();
      ghost var w0 := Window();
      Insert(time, v);
      if Increasing(w0) {
        IncreasingSnoc(w0, Elem(time, op.lift(v)));
      }
    }

    /** The elements `bulkInsert(entries)` adds, in order. */
    ghost function Stamped(entries: seq<(int, In)>): (r: seq<Elem<P>>)
      reads this
      ensures |r| == |entries|
    {
      seq(|entries|, k requires 0 <= k < |entries| => Elem(entries[k].0, op.lift(entries[k].1)))
    }

    lemma StampedStep(entries: seq<(int, In)>, i: nat, w0: seq<Elem<P>>, w: seq<Elem<P>>)
      requires i < |entries| && w == w0 + Stamped(entries[..i])
      ensures w + [Elem(entries[i].0, op.lift(entries[i].1))] == w0 + Stamped(entries[..i + 1])
    {
      assert Stamped(entries[..i + 1]) == Stamped(entries[..i]) + [Elem(entries[i].0, op.lift(entries[i].1))];
    }

    /** `bulkInsert`: one `insert` per entry, in order. */
    method BulkInsert(entries: seq<(int, In)>)
      requires Valid()
      modifies this
      ensures Valid() && Window() == old(Window()) + Stamped(entries)
      ensures size == if old(size) >= 0 then old(size) + |entries| else old(size)
    {
      ghost var w0 := Window();
      var i := 0;
      assert entries[..0] == [];
      while i < |entries|
        invariant 0 <= i <= |entries|
        invariant Valid() && Window() == w0 + Stamped(entries[..i])
        invariant size == if old(size) >= 0 then old(size) + i else old(size)
      {
        ghost var w := Window();
        Insert(entries[i].0, entries[i].1);
        StampedStep(entries, i, w0, w);
        i := i + 1;
      }
      assert entries[..i] == entries;
    }

    /** `evict`: pops the oldest element; the count goes down while it is
        tracked. */
    method Evict()
      requires Valid() && Window() != []
      modifies this
      ensures Valid() && Window() == old(Window())[1..]
      ensures Increasing(old(Window())) ==> Increasing(Window())
      ensures size == if old(size) > 0 then old(size) - 1 else old(size)
    {
      ghost var w0 := Window();
      var ts, fn, st, fs, bs := EvictState(m, tails, frontNode, frontStack, frontSum, backSum);
      tails, frontNode, frontStack, frontSum, backSum := ts, fn, st, fs, bs;
      assert Window() == w0[1..];
      if size > 0 {
        size := size - 1;
      }
      if Increasing(w0) {
        IncreasingTail(w0);
      }
    }

    /** `bulkEvict(time)`: evicts every element no newer than `time`, and
        stops the count unless nothing was old enough. */
    method BulkEvict(time: int)
      requires Valid() && Increasing(Window())
      modifies this
      ensures Valid() && Window() == After(old(Window()), time) && Increasing(Window())
      ensures size == if old(Window()) == [] || time < old(Window())[0].time then old(size) else -1
    {
      WindowEmpty(m, tails);
      if tails == [] || time < Oldest() {
        AfterOlder(Window(), time);
        return;
      }
      size := -1;
      tails := EvictTails(m, tails, time);
      RebuildBack();
      RebuildFront();
      RebuiltOk(m, tails, frontNode, frontStack, frontSum, backSum);
      AfterKeepsOrder(old(Window()), time);
    }

    /** `oldest`: the time of the oldest element. */
    function Oldest(): (t: int)
      reads this
      requires Tracked() && Window() != []
      ensures t == Window()[0].time
    {
      OldestTime(m, tails, frontNode, frontStack, frontSum, backSum);
      var fnode := frontNode.value;
      if LeftPopped(fnode) then fnode.s1.time else fnode.s0.time
    }

    /** `youngest`: the time of the youngest element. */
    function Youngest(): (t: int)
      reads this
      requires Tracked() && Window() != []
      ensures t == Window()[|Window()| - 1].time
    {
      YoungestTime(m, tails);
      NewestTime(tails[0])
    }

    /** `query`: the lowered aggregate of the window, oldest first. */
    function Query(): (r: Out)
      reads this
      requires Tracked()
      ensures r == op.lower(Fold(m, Values(Window())))
    {
      QuerySum(m, tails, frontNode, frontStack, frontSum, backSum);
      op.lower(m.combine(frontSum, backSum))
    }

    /** `size`: the number of elements, or -1 once a bulk eviction stopped
        the count. */
    function Size(): (n: int)
      reads this
      requires Valid()
      ensures n == -1 || n == |Window()|
    {
      size
    }
  }

  // ---------------------------------------------------------------------
  // The count as written: `_size` is a `size_t`

  const SIZE_T_MODULUS: int := 0x1_0000_0000_0000_0000

  /** `_size = -1` on a `size_t` stores its largest value. */
  function SizeAfterBulkEvictAsWritten(): (r: int)
    ensures 0 <= r < SIZE_T_MODULUS && (r + 1) % SIZE_T_MODULUS == 0
  {
    SIZE_T_MODULUS - 1
  }

  /** `if (_size >= 0) _size++` on a `size_t`: the test always holds and
      the increment wraps around. */
  function SizeAfterInsertAsWritten(s: int): (r: int)
    requires 0 <= s < SIZE_T_MODULUS
    ensures 0 <= r < SIZE_T_MODULUS && (r - s - 1) % SIZE_T_MODULUS == 0
    ensures s == SIZE_T_MODULUS - 1 ==> r == 0
  {
    if s >= 0 then (s + 1) % SIZE_T_MODULUS else s
  }

  /** Two inserts, a bulk eviction of the older element and one more
      insert: the `size_t` count as written wraps to 0 with two elements in
      the window.  `Aggregate.Size` reports the count as stopped instead. */
  method SizeAfterBulkEvictScenario<In, P(!new), Out>(binOp: BinOp<In, P, Out>, identE: P, v: In)
    returns (asWritten: int, corrected: int, ghost window: nat)
    requires IsMonoid(Monoid(binOp.m.combine, identE))
    ensures asWritten == 0 && window == 2 && corrected == -1
  {
    var a := new Aggregate(binOp, identE);
    var s := 0;
    a.Insert(1, v);
    s := SizeAfterInsertAsWritten(s);
    a.Insert(2, v);
    s := SizeAfterInsertAsWritten(s);
    var l := binOp.lift(v);
    assert a.Window() == [Elem(1, l), Elem(2, l)];
    assert Older(a.Window(), 0, 1);
    a.BulkEvict(1);
    s := SizeAfterBulkEvictAsWritten();
    assert After([Elem(1, l), Elem(2, l)], 1) == [Elem(2, l)] by {
      assert [Elem(1, l), Elem(2, l)][1..] == [Elem(2, l)];
      assert [Elem(2, l)][1..] == [];
    }
    a.Insert(3, v);
    s := SizeAfterInsertAsWritten(s);
    asWritten, corrected, window := s, a.Size(), |a.Window()|;
  }

}
