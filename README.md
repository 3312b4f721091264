# Sliding-window aggregators, modelled in Dafny

This project models the core of a library of sequential sliding-window
aggregators, written once in C++ and once in Rust. It also models the
data-preparation helpers the experiments use.

A sliding-window aggregator keeps a FIFO window of values. It supports:

- `insert` (or `push`), which adds a value at the young end;
- `evict` (or `pop`), which removes the value at the old end;
- `query`, which returns the combination of every value in the window
  under an associative operator.

The operator's three parts are `lift`, `combine` (Rust: `operate`) and
`lower`. The algorithms differ in:

- how they store partial aggregates: two stacks, DABA's single deque with
  its pointers, flat trees such as FlatFAT and FlatFIT, the Reactive tree,
  the AMTA tree of trees, or the FiBA B-tree;
- how much they recombine on each step.

Timestamped variants add `oldest`, `youngest`, `bulkEvict` and range
queries. FiBA in addition takes out-of-order insertion.

## How the model is built

- **Operators.** `Monoid` defines the algebra: an identity, a combine,
  and `Fold` over a sequence. `IsMonoid` and `IsGroup` are predicates on
  it. Each operator module (`SumOp`, `MaxOp`, `MeanOp`, `OpsI32`) proves
  that it satisfies them.
- **Aggregators.** Each aggregator is a `class` with the source's fields,
  using `seq` for deques and vectors and `array` where the source works
  in place. Each class also has a ghost `window`, the sequence of values
  the aggregator stands for.
- **Validity.** `Valid()` ties the concrete fields to the window: stack
  sums, DABA's pointer invariants, the tree shape, the heap layout.
- **Contracts.** Each method states its new window. `Query` returns
  `lower(Fold(window))`. The data-structure invariant is kept across
  every operation.
- **Pure code.** The Rust operators (`rust/src/ops`) are pure, and they
  become datatypes, functions and lemmas.
- **Mixed code.** `cpp/src/OkasakisQueue.hpp` mixes both forms. Its lazy
  lists and `rot` are a datatype (`Lazy`) with functions over it. The
  class `Aggregate` reassigns the `F`, `B` and `N` lists in its methods.
- **Data tools.** The helpers in `experiments/data_tools.py` are methods
  with loops, and their contracts are stated against reference functions:
  - `ComputeOutOfOrderDegree` against `Degree`, a brute-force count of
    earlier, larger timestamps;
  - `AnalyzeWatermark` against `HighWatermark`;
  - `Watermarks` against the running maximum;
  - `ThresholdSample` against the predicate `Picked`.

Fixed-width arithmetic is written out where the source depends on it:

- the C++ `size_t` counters, modulo 2^64 (`SIZE_T_MODULUS`):
  - AMTA's `_size` as written, in `SizeAfterBulkEvictAsWritten` and
    `SizeAfterInsertAsWritten`;
  - FiBA's `_size`, whose `_size--` and `_size++` are `Decrement` and
    `Increment`;
- the `i32` wrap-around in the Rust operators;
- truncating integer division.

I/O, randomness and clocks become parameters.

## Model

| member | source | states |
|---|---|---|
| AMTA.NewNode | cpp/src/AMTA.hpp:53-57 | `Node(a, t, left)`: one live slot, holding exactly that slot's elements |
| AMTA.PushBack | cpp/src/AMTA.hpp:58-62 | `push_back` on a node with zero or one slots: one more slot, its elements appended after the node's |
| AMTA.PopFront | cpp/src/AMTA.hpp:63-72 | `pop_front`: a full node becomes left-popped, keeps its right slot's elements and hands back its left child; a node with one live slot becomes empty |
| AMTA.FrontSum | cpp/src/AMTA.hpp:138-148 | `rebuildFront`'s `_frontSum`: the oldest slot combined with the top of the front stack is the aggregate of the whole big root |
| AMTA.PopOldestOk | cpp/src/AMTA.hpp:164-177 | the climb of `evict` from the front node removes exactly the oldest element, empties the root exactly when it held one element, and otherwise keeps the tree's shape |
| AMTA.EvictFront | cpp/src/AMTA.hpp:166-182 | when the climb stops below the big root, the front stack minus its popped entries and the rebuilt part from the stopping node are the front stack of the popped tree |
| AMTA.FrontFrom | cpp/src/AMTA.hpp:125-137 | `rebuildFrontFrom(c)`'s loop pushes the running sums of `c`'s front spine and stops at the spine's bottom node |
| AMTA.SumTails | cpp/src/AMTA.hpp:150-162 | `rebuildBack`'s loop: the tails younger than the big root combined, oldest first |
| AMTA.After | cpp/src/AMTA.hpp:244-289 | what `bulkEvict(time)` keeps: the elements newer than `time`, in order |
| AMTA.AfterSplit | cpp/src/AMTA.hpp:252-286 | cutting a sorted window whose first part ends after `time` keeps that part's tail and all of the rest; cutting at or after its end drops it; exactly at its last time keeps just the rest |
| AMTA.SliceOk | cpp/src/AMTA.hpp:187-208 | `_slice` of a subtree whose newest time is after `time` never throws and leaves exactly the subtree's elements newer than `time`, with its shape kept |
| AMTA.CarryLoop | cpp/src/AMTA.hpp:328-340 | `insert_lifted`'s loop: each full or left-popped tail is replaced by a single node holding the carry and passes its own contents on, stopping at the first tail with room |
| AMTA.ResetsFlat | cpp/src/AMTA.hpp:333-337 | the reset tails and the final carry hold exactly the elements of the tails the carry passed, plus the new one |
| AMTA.InsertTails | cpp/src/AMTA.hpp:321-349 | the tails keep their shape and hold the old window with the new element appended; the carry lands in the first tail with room or in a new tail |
| AMTA.EvictTails | cpp/src/AMTA.hpp:244-286 | the loop of `bulkEvict` on a sorted window: whole roots dropped, the first root newer than `time` sliced, and the tails hold exactly the elements newer than `time` |
| AMTA.WindowEmpty | cpp/src/AMTA.hpp:244 | the tails hold elements exactly when there are tails |
| AMTA.QuerySum | cpp/src/AMTA.hpp:308-310 | `_frontSum` followed by `_backSum` is the aggregate of the whole window |
| AMTA.OldestTime | cpp/src/AMTA.hpp:303-306 | the front node's live spine slot holds the oldest time |
| AMTA.YoungestTime | cpp/src/AMTA.hpp:314-319 | `_tails[0]`'s last live slot holds the youngest time |
| AMTA.AfterOlder | cpp/src/AMTA.hpp:245 | cutting before the oldest element evicts nothing |
| AMTA.AfterIncreasing | cpp/src/AMTA.hpp:244-289 | dropping elements keeps the times increasing |
| AMTA.FrontOf | cpp/src/AMTA.hpp:138-148 | `rebuildFront` on values: the identity with no tails; otherwise `_frontSum` is the aggregate of the big root |
| AMTA.BackOf | cpp/src/AMTA.hpp:150-162 | `rebuildBack` on values: the identity with no tails; otherwise `_backSum` aggregates every tail except the big root |
| AMTA.InsertState | cpp/src/AMTA.hpp:321-353 | `insert_lifted` on values keeps the shape and the sums and appends the element to the window |
| AMTA.EvictState | cpp/src/AMTA.hpp:164-185 | `evict` on values keeps the shape and the sums and removes the oldest element |
| AMTA.Aggregate.constructor | cpp/src/AMTA.hpp:102-105 | an empty window with the count at zero |
| AMTA.Aggregate.RebuildFrontFrom | cpp/src/AMTA.hpp:125-137 | the front stack gains the running sums of `c`'s front spine and `_frontNode` is that spine's bottom; nothing else changes |
| AMTA.Aggregate.RebuildFront | cpp/src/AMTA.hpp:138-148 | `_frontSum` is the big root's aggregate, or the identity when there are no tails; tails, back sum and count unchanged |
| AMTA.Aggregate.RebuildBack | cpp/src/AMTA.hpp:150-162 | `_backSum` aggregates all tails except the big root, or is the identity; everything else unchanged |
| AMTA.Aggregate.InsertLifted | cpp/src/AMTA.hpp:321-353 | the lifted element is appended to the window; the count is not touched |
| AMTA.Aggregate.Insert | cpp/src/AMTA.hpp:355-358 | the lifted element is appended; the count goes up while it is tracked |
| AMTA.Aggregate.InsertNext | cpp/src/AMTA.hpp:360-367 | stamps 0 in an empty window and one past the youngest time otherwise, which keeps the times increasing |
| AMTA.Aggregate.BulkInsert | cpp/src/AMTA.hpp:291-301 | one `insert` per entry, in order: the window gains the stamped entries |
| AMTA.Aggregate.Evict | cpp/src/AMTA.hpp:164-185 | the oldest element leaves; the count goes down while it is tracked and positive |
| AMTA.Aggregate.BulkEvict | cpp/src/AMTA.hpp:244-289 | on a sorted window exactly the elements newer than `time` stay; the count stops unless nothing was old enough |
| AMTA.Aggregate.Oldest | cpp/src/AMTA.hpp:303-306 | the time of the oldest element |
| AMTA.Aggregate.Youngest | cpp/src/AMTA.hpp:314-319 | the time of the youngest element |
| AMTA.Aggregate.Query | cpp/src/AMTA.hpp:308-310 | the lowered aggregate of the window, oldest first |
| AMTA.Aggregate.Size | cpp/src/AMTA.hpp:312 | the number of elements, or -1 once a bulk eviction stopped the count (see Findings) |
| AMTA.SizeAfterBulkEvictAsWritten | cpp/src/AMTA.hpp:247 | `_size = -1` on a `size_t`: the value in the word's range congruent to -1, its largest |
| AMTA.SizeAfterInsertAsWritten | cpp/src/AMTA.hpp:357 | `if (_size >= 0) _size++` on a `size_t`: always one more modulo 2^64, so the largest value wraps to 0 |
| AMTA.SizeAfterBulkEvictScenario | cpp/src/AMTA.hpp:247 | as written, two inserts, `bulkEvict` of the older and one more insert leave the `size_t` count at 0 with two elements; the corrected count reports -1 |
| BulkAdapter.LeadingAtMost | cpp/src/BulkAdapter.hpp:17-21 | the number of evictions the loop makes: every timestamp before it is at most the bound, the one at it is younger |
| BulkAdapter.LeadingAtMostSorted | cpp/src/BulkAdapter.hpp:17-21 | on a window in time order the evicted prefix is exactly the timestamps at most the bound |
| BulkAdapter.Lifted | cpp/src/BulkAdapter.hpp:10-15 | the batch's values lifted one by one, in batch order |
| BulkAdapter.Stamps | cpp/src/BulkAdapter.hpp:10-15 | the batch's timestamps in batch order |
| BulkAdapter.BulkInsert | cpp/src/BulkAdapter.hpp:10-15 | the window and its timestamps grow by the whole batch in order, the base invariant kept |
| BulkAdapter.BulkEvict | cpp/src/BulkAdapter.hpp:17-21 | the leading elements stamped at most `time` are evicted and the new oldest is younger than `time` |
| Daba.GammaIsFold | rust/src/daba/mod.rs:96-102 | `agg_r`, the last slot of R, is the fold of the window over R |
| Daba.DeltaIsFold | rust/src/daba/mod.rs:104-110 | `agg_a`, the first slot of A, is the fold of the window over A |
| Daba.BackAggIsFold | rust/src/daba/mod.rs:80-86 | `agg_b`, the last slot of the back, is the fold of the back |
| Daba.AlphaIsFold | rust/src/daba/mod.rs:72-78 | with slot 0 finished, `agg_f` is the fold of the front `[0, b)` |
| Daba.GammaDelta | rust/src/daba/mod.rs:146 | gamma combined with delta is the fold of the window from `r` to `b`, the aggregate L is finished with |
| Daba.Push | rust/src/daba/mod.rs:40-42 | pushing onto the back region, with the back aggregate combined on the left (or the bare partial in the lite form), keeps all five regions |
| Daba.Pop | rust/src/daba/mod.rs:45-51 | popping a finished slot and moving every boundary down by one keeps all five regions |
| Daba.Flip | rust/src/daba/mod.rs:133-137 | when `l` reaches `b`, the finished front becomes L and the back becomes R, and the regions hold |
| Daba.MoveA | rust/src/daba/mod.rs:148-149 | moving `a` left, storing the slot's partial combined with delta, keeps the regions |
| Daba.AdvanceL | rust/src/daba/mod.rs:146-147 | combining R ⊕ A into slot `l` and advancing `l` keeps the regions |
| Daba.FreeRide | rust/src/daba/mod.rs:139-143 | with L and R empty, advancing `l`, `r` and `a` keeps the regions |
| Daba.Singleton | rust/src/daba/mod.rs:126-131 | a queue of at most one element with all boundaries at the start may move them to the end |
| Daba.Query | rust/src/daba/mod.rs:55-57 | the front aggregate combined with the back aggregate is the fold of the window |
| Daba.BalancedFront | rust/src/daba/mod.rs:16-20 | the size balance of the regions makes slot 0 finished as soon as the queue is not empty |
| Daba.BalancedPush | rust/src/daba/mod.rs:40-44 | after a push the region sizes are those one step of `fixup` restores |
| Daba.BalancedPop | rust/src/daba/mod.rs:45-53 | a pop removes a finished slot and leaves sizes one step of `fixup` restores |
| DabaLite.InvPush | cpp/src/RingBufferDABALite.hpp:42-50 | appending the bare partial and combining it onto `_backSum` keeps the lite invariant |
| DabaLite.InvPopTo | cpp/src/RingBufferDABALite.hpp:52-57 | popping a finished slot keeps the lite invariant on the shifted boundaries |
| DabaLite.InvFlip | cpp/src/RingBufferDABALite.hpp:147-154 | the flip, with `_midSum` taking `_backSum` and `_backSum` reset, keeps the lite invariant |
| DabaLite.InvMoveA | cpp/src/RingBufferDABALite.hpp:104-111 | moving `a` left and combining the slot with delta keeps the lite invariant |
| DabaLite.InvAdvanceL | cpp/src/RingBufferDABALite.hpp:113-119 | combining `_midSum` into slot `l` and advancing `l` keeps the lite invariant |
| DabaLite.InvFreeRide | cpp/src/RingBufferDABALite.hpp:120-126 | advancing `l`, `r`, `a` and reloading `_midSum` from delta keeps the lite invariant |
| DabaLite.InvReset | cpp/src/RingBufferDABALite.hpp:128-131 | on an empty queue both sums may be reset to the identity |
| DabaLite.InvQuery | cpp/src/RingBufferDABALite.hpp:59-66 | alpha combined with `_backSum` is the fold of the window |
| RustDABA.ShrinkLeft | rust/src/daba/mod.rs:146-147 | the first half of `shrink` finishes slot `l` with `agg_l ⊕ agg_r ⊕ agg_a` and keeps the regions |
| RustDABA.ShrinkTo | rust/src/daba/mod.rs:145-150 | the whole of `shrink` keeps the regions and restores the balance |
| RustDABA.PopTo | rust/src/daba/mod.rs:45-52 | `pop` of a non-empty window keeps the regions on the decremented indices |
| RustDABA.DABA.constructor | rust/src/daba/mod.rs:29-39 | an empty window with all four indices at 0 |
| RustDABA.DABA.Push | rust/src/daba/mod.rs:40-44 | the window gains the value at its young end |
| RustDABA.DABA.Pop | rust/src/daba/mod.rs:45-54 | nothing happens on an empty window; otherwise the oldest value leaves |
| RustDABA.DABA.Query | rust/src/daba/mod.rs:55-57 | the fold of the window |
| RustDABA.DABA.Len | rust/src/daba/mod.rs:58-60 | the size of the window |
| RustDABA.DABA.IsEmpty | rust/src/daba/mod.rs:61-63 | true exactly when the window is empty |
| RustDABA.DABA.Fixup | rust/src/daba/mod.rs:111-124 | one step of `fixup` restores the invariant without changing the window |
| RustDABA.DABA.Singleton | rust/src/daba/mod.rs:126-131 | all four indices move to the end, which is valid on a window of at most one value |
| RustDABA.DABA.Flip | rust/src/daba/mod.rs:133-137 | `l` goes to 0 and `a`, `b` to the end, values and aggregates unchanged |
| RustDABA.DABA.Shift | rust/src/daba/mod.rs:139-143 | `l`, `r` and `a` advance together and the invariant holds |
| RustDABA.DABA.Shrink | rust/src/daba/mod.rs:145-150 | `l` advances and `a` retreats by one and the invariant holds |
| RingBufferDABALite.Aggregate.constructor | cpp/src/RingBufferDABALite.hpp:33-38 | an empty window over a ring of `MAX_CAPACITY` slots, both sums the identity |
| RingBufferDABALite.Aggregate.Size | cpp/src/RingBufferDABALite.hpp:40 | the size of the window, always below the capacity |
| RingBufferDABALite.Aggregate.Insert | cpp/src/RingBufferDABALite.hpp:42-50 | the push throws exactly when it would fill the fixed ring; otherwise the window gains the lifted value |
| RingBufferDABALite.Aggregate.Evict | cpp/src/RingBufferDABALite.hpp:52-57 | the oldest element leaves |
| RingBufferDABALite.Aggregate.Flip | cpp/src/RingBufferDABALite.hpp:147-154 | the new boundary positions and `_backSum` reset, window and slots unchanged |
| RingBufferDABALite.Aggregate.Step | cpp/src/RingBufferDABALite.hpp:89-136 | one step of incremental work restores the invariant without changing the window |
| RingBufferDABALite.Aggregate.MoveA | cpp/src/RingBufferDABALite.hpp:104-111 | `a` moves one slot left and the stored state stays consistent |
| RingBufferDABALite.Aggregate.AdvanceL | cpp/src/RingBufferDABALite.hpp:113-119 | `l` moves one slot right and the stored state stays consistent |
| RingBufferDABALite.Aggregate.FreeRide | cpp/src/RingBufferDABALite.hpp:120-126 | `l`, `r` and `a` move right together |
| RingBufferDABALite.Aggregate.Query | cpp/src/RingBufferDABALite.hpp:59-66 | the lowered fold of the window |
| DataTools.Enumerate | experiments/data_tools.py:27 | `enumerate(timestamps)`: each timestamp paired with its own position |
| DataTools.Keys | experiments/data_tools.py:18 | `left_keys`: the keys of the entries in their order |
| DataTools.SumPermutation | experiments/data_tools.py:23 | a count over entries does not depend on their order, so re-sorting a half changes no count |
| DataTools.AboveIsCardinality | experiments/data_tools.py:8-11 | the number of entries of a prefix whose timestamp is above a key is the number of such positions |
| DataTools.Insert | experiments/data_tools.py:23 | one step of the stable sort: the result is the old list plus the new entry |
| DataTools.InsertOrdered | experiments/data_tools.py:23 | inserting after every entry with a key at most the new one keeps the list sorted and ties in index order |
| DataTools.SortByKey | experiments/data_tools.py:23 | `sorted(left + right, key=...)` returns a permutation of its input |
| DataTools.SortByKeyOrdered | experiments/data_tools.py:23 | the sort is sorted by timestamp and stable: equal timestamps keep their index order |
| DataTools.BisectRight | experiments/data_tools.py:20 | `bisect_right` on a sorted list: every element before the result is at most `x`, every one from it on is above |
| DataTools.AboveSuffix | experiments/data_tools.py:20 | in a sorted half, `len(left) - bisect_right(left_keys, key)` is the number of left entries above `key` |
| DataTools.EnumeratedGrowth | experiments/data_tools.py:19-21 | in an enumerated slice only the entry carrying index `k` adds to `ood[k]` |
| DataTools.MergeCounts | experiments/data_tools.py:13-24 | the degree of a position in a slice is its degree within its half plus what the merge adds when it is in the right half |
| DataTools.HalvesTieOrdered | experiments/data_tools.py:16-23 | two sorted halves of an enumerated slice, concatenated, keep ties in index order |
| DataTools.CountAgainstLeft | experiments/data_tools.py:18-21 | the merge loop adds to each `ood[index]` the number of left entries above that right entry's timestamp, and changes nothing else |
| DataTools.RecursiveOod | experiments/data_tools.py:13-24 | returns the slice stably sorted by timestamp and adds to every counter of the slice its out-of-order degree within the slice |
| DataTools.ComputeOutOfOrderDegree | experiments/data_tools.py:8-29 | entry `i` is the number of earlier timestamps strictly above timestamp `i` |
| DataTools.DegreeBounds | experiments/data_tools.py:8-29 | the degree of position `i` is between 0 and `i`, and 0 at position 0 |
| DataTools.HighWatermarkIsMaximum | experiments/data_tools.py:38-40 | the high-water mark at `i` is the largest timestamp up to `i` and is one of them |
| DataTools.Watermarks | experiments/data_tools.py:44-49 | one high-water mark per timestamp |
| DataTools.WatermarksAreMaxima | experiments/data_tools.py:44-49 | `accumulate(timestamps, max)` gives the running maximum, which never decreases |
| DataTools.HighWatermarkMono | experiments/data_tools.py:38-40 | the high-water mark never decreases along the list |
| DataTools.AnalyzeWatermark | experiments/data_tools.py:31-42 | fails exactly on an empty list (the unpacking of line 38); otherwise each gap is the high-water mark there minus the timestamp |
| DataTools.GapsFromWatermarks | experiments/data_tools.py:37-49 | each gap is the watermark there minus the timestamp, and is never negative |
| DataTools.ThresholdSample | experiments/data_tools.py:51-59 | the sample is the positions, in order and with their values, where the draw succeeds or the value exceeds `thres` |
| DataTools.SampleResults | experiments/data_tools.py:61-65 | the script's sample gives the degrees 0 1 1 1 2 0 4 4 1, the gaps 0 299 298 175 200 0 299 294 3 and the watermarks 300 (five times) then 303 (four times) |
| FiBA.Lookup | cpp/src/FiBA.hpp:387-398 | the value stored for a time exists exactly when some entry carries that time, and in a sorted window it is that entry's value |
| FiBA.InsertEntryLookup | cpp/src/FiBA.hpp:351-371 | inserting keeps the window sorted, combines `v` into the entry for `t` or stores it alone, leaves every other time's value unchanged, and adds one entry exactly when `t` was new |
| FiBA.InsertEntryYoungest | cpp/src/FiBA.hpp:509-518 | a time younger than every entry is appended at the end |
| FiBA.RemoveLookup | cpp/src/FiBA.hpp:1340-1379 | removing `t` keeps the window sorted, takes away only `t`'s entry, and shortens the window by one exactly when `t` had an entry (otherwise nothing changes) |
| FiBA.AfterLookup | cpp/src/FiBA.hpp:1381-1468 | on a sorted window bulk eviction up to `t` keeps exactly the entries younger than `t`, in order |
| FiBA.InRange | cpp/src/FiBA.hpp:1803-1811 | every selected entry's time lies in `[from, to]` |
| FiBA.Lift | cpp/src/FiBA.hpp:1249-1261 | the batch's pairs with their inputs lifted, pair for pair |
| FiBA.MergeIsInserts | cpp/src/FiBA.hpp:1495-1540 | merging a sorted batch into a sorted window equals inserting its pairs one by one |
| FiBA.InsertAllIncreasing | cpp/src/FiBA.hpp:1719-1768 | inserting a batch keeps the window sorted |
| FiBA.MergeIn | cpp/src/FiBA.hpp:1502-1540 | the two-pointer merge of window and batch, taking the older time first and combining equal times, equals inserting the batch pair by pair |
| FiBA.Decrement | cpp/src/FiBA.hpp:1335 | `_size--` on a `size_t`: the result plus one, modulo the word, is the old counter (zero wraps to the largest value) |
| FiBA.Increment | cpp/src/FiBA.hpp:1479 | `_size++` on a `size_t`: one more, modulo the word |
| FiBA.Aggregate.constructor | cpp/src/FiBA.hpp:1269-1281 | an empty window with `_size` zero |
| FiBA.Aggregate.Size | cpp/src/FiBA.hpp:1813 | the counter; it equals the number of entries as long as the counter has been kept exact |
| FiBA.Aggregate.Insert | cpp/src/FiBA.hpp:1470-1482 | the window becomes the insertion of the lifted value at `time`; `_size` grows exactly when the time was new |
| FiBA.Aggregate.InsertNext | cpp/src/FiBA.hpp:1484-1493 | with `_size` zero the value goes at time 0, otherwise one past the youngest time; refused only when the counter is stale and the tree empty |
| FiBA.Aggregate.Evict | cpp/src/FiBA.hpp:1327-1338 | the oldest entry leaves and `_size` is decremented |
| FiBA.Aggregate.EvictAt | cpp/src/FiBA.hpp:1340-1379 | answers whether `time` had an entry, removes exactly that entry, and decrements `_size` only then |
| FiBA.Aggregate.BulkEvict | cpp/src/FiBA.hpp:1381-1468 | every entry no younger than `time` leaves; `_size` is not changed, as in the source (see Findings) |
| FiBA.Aggregate.BulkEvictCounted | cpp/src/FiBA.hpp:1381-1468 | the same eviction with `_size` reduced by the entries dropped, so an exact counter stays exact |
| FiBA.Aggregate.BulkInsert | cpp/src/FiBA.hpp:1719-1768 | throws unless the tree is a finger tree; otherwise the window becomes the batch inserted pair by pair; `_size` is not changed, as in the source (see Findings) |
| FiBA.Aggregate.BulkInsertCounted | cpp/src/FiBA.hpp:1719-1768 | the same insertion with `_size` grown by the number of new times, so an exact counter stays exact |
| FiBA.StaleEvictScenario | cpp/src/FiBA.hpp:1381-1468 | after `insert(1, a)`, `insert(2, b)` and `bulkEvict(1)` one entry is left while `size()` answers 2 |
| FiBA.StaleInsertScenario | cpp/src/FiBA.hpp:1484-1493 | after `bulkInsert({(5, c)})` on an empty finger tree `size()` is 0, so `insert(d)` files `d` at time 0, before time 5 |
| FiBA.CountedEvictScenario | cpp/src/FiBA.hpp:1381-1468 | with the counted eviction the same calls leave `size()` at 1 |
| FiBA.CountedInsertScenario | cpp/src/FiBA.hpp:1484-1493 | with the counted insertion the next `insert(d)` is filed at time 6 |
| FiBA.Decompose | cpp/src/FiBA.hpp:249-294 | a node's in-order entries are those left of child `k`, child `k`'s entries, and those right of it |
| FiBA.InnerAggMid | cpp/src/FiBA.hpp:71-91 | `recalcAggInner` of an inner node is the aggregate of the entries between its first and last child |
| FiBA.UpExact | cpp/src/FiBA.hpp:119-131 | a node whose aggregate is `recalcAggUp` all the way down holds the aggregate of its whole subtree |
| FiBA.AggIsUp | cpp/src/FiBA.hpp:58-69 | off the spines (and in the classic and knuckle kinds) `recalcAgg` is `recalcAggUp` |
| FiBA.HasAggUpExact | cpp/src/FiBA.hpp:218-223 | a node for which `hasAggUp()` holds (every node of the classic and knuckle kinds; in the finger kind the nodes off the root and the spines) stores the aggregate of its whole subtree |
| FiBA.LeftFinger | cpp/src/FiBA.hpp:93-104 | the left-spine sums telescope: the leftmost leaf's aggregate is its subtree's aggregate followed by what the spine's ancestors below the root hold to its right |
| FiBA.RightFinger | cpp/src/FiBA.hpp:106-117 | mirror image for the right spine: the rightmost leaf's aggregate is what the ancestors hold to its left followed by its subtree's aggregate |
| FiBA.Query | cpp/src/FiBA.hpp:1785-1801 | `query()`, from the root alone or from left finger, root and right finger, is the lowered aggregate of the whole window |
| FiBA.QueryFinger | cpp/src/FiBA.hpp:1789-1796 | in a finger tree with an inner root the left finger, the root and the right finger combine to the aggregate of all entries |
| FiBA.ChildBounds | cpp/src/FiBA.hpp:263-279 | child `k` holds exactly the times strictly between separators `k-1` and `k`, in order |
| FiBA.LookupChild | cpp/src/FiBA.hpp:982-993 | a time strictly between separators `k-1` and `k` can only be found in child `k` |
| FiBA.LookupSeparator | cpp/src/FiBA.hpp:990-991 | a separator is its time's entry in the whole walk |
| FiBA.SearchNode | cpp/src/FiBA.hpp:972-1000 | the node reached (descending from the root) holds `time` exactly when the window does, and an inner node is returned only when it holds it |
| FiBA.At | cpp/src/FiBA.hpp:1297-1303 | the partial stored for `time`, or the identity when the time is absent |
| FiBA.Oldest | cpp/src/FiBA.hpp:1770-1783 | the first time of the window, no greater than any other |
| FiBA.Youngest | cpp/src/FiBA.hpp:1815-1828 | the last time of the window, no smaller than any other |
| FiBA.ChildWindow | cpp/src/FiBA.hpp:781-816 | the range `rangeQueryRec` hands a child (widened to the type's extremes where a separator bounds it) selects exactly that child's entries in range |
| FiBA.ChildSkipped | cpp/src/FiBA.hpp:783-816 | a child that `rangeQueryRec` does not descend into holds nothing in range |
| FiBA.RangeQueryRec | cpp/src/FiBA.hpp:775-818 | the aggregate of the subtree's entries whose times lie in `[tFrom, tTo]`, oldest first |
| FiBA.RangeLoop | cpp/src/FiBA.hpp:790-806 | the loop over a node's separators combines each one in range and then the child after it |
| FiBA.RangeChild | cpp/src/FiBA.hpp:781-816 | one descent: the aggregate so far followed by the child's in-range aggregate |
| FiBA.RangeQuery | cpp/src/FiBA.hpp:1803-1811 | the lowered aggregate of the window's entries with times in `[tFrom, tTo]` |
| FiBANode.InsertEntryAt | cpp/src/FiBA.hpp:362-368 | a new time goes between the entries older and younger than it |
| FiBANode.InsertEntryFound | cpp/src/FiBA.hpp:355-357 | a present time has its value combined in place, the new value on the right |
| FiBANode.RemoveAt | cpp/src/FiBA.hpp:322-331 | removing a present time closes the gap it leaves |
| FiBANode.SearchDrop | cpp/src/FiBA.hpp:309-312 | where `localSearch` stops, plus one when it found `time`, is exactly the number of oldest entries bulk eviction drops |
| FiBANode.Leaf.constructor | cpp/src/FiBA.hpp:156-176 | `Node(true)`: an empty leaf root with the identity as aggregate and neither spine flag |
| FiBANode.Leaf.LocalSearch | cpp/src/FiBA.hpp:387-398 | the index of the first time not older than `time` (the arity minus one if none), and found exactly when that time is `time`, that is when the leaf holds it |
| FiBANode.Leaf.RecalcAggInner | cpp/src/FiBA.hpp:71-77 | a leaf's values combined oldest first |
| FiBANode.Leaf.LocalRepairAggIfUp | cpp/src/FiBA.hpp:372-385 | the entries are unchanged and the aggregate is made correct; without an upward aggregate it is untouched |
| FiBANode.Leaf.PushBackEntry | cpp/src/FiBA.hpp:509-518 | appends an entry younger than every other and extends an upward aggregate by its value |
| FiBANode.Leaf.LocalInsertEntry | cpp/src/FiBA.hpp:351-371 | the leaf's entries become the insertion of `value` at `time`; the answer is true exactly when the time was new; a correct aggregate stays correct |
| FiBANode.Leaf.CombineEntry | cpp/src/FiBA.hpp:355-357 | the found branch: the stored value is combined with the new one and the aggregate repaired |
| FiBANode.Leaf.InsertBefore | cpp/src/FiBA.hpp:361-367 | the shifting branch: the new entry takes slot `index`, one more entry |
| FiBANode.Leaf.SetEntry | cpp/src/FiBA.hpp:558-562 | slot `index` only is replaced |
| FiBANode.Leaf.ShiftUp | cpp/src/FiBA.hpp:363-366 | every entry from `index` on moves one slot up and the new one takes slot `index` |
| FiBANode.Leaf.LocalEvictEntry | cpp/src/FiBA.hpp:322-331 | the entry for `time` is removed and the aggregate is correct |
| FiBANode.Leaf.ShiftDown | cpp/src/FiBA.hpp:326-328 | the entries from `index + howMany` on move `howMany` slots down |
| FiBANode.Leaf.PopFront | cpp/src/FiBA.hpp:410-420 | the oldest `howMany` entries leave and the aggregate is correct |
| FiBANode.Leaf.EvictionCount | cpp/src/FiBA.hpp:310-312 | `toPop` leaves exactly the entries younger than `time` |
| FiBANode.Leaf.LocalEvictUpTo | cpp/src/FiBA.hpp:309-320 | the leaf keeps exactly its entries younger than `time`; the answer is true exactly when something was popped, and an untouched leaf keeps its aggregate |
| FlatFIT.Pos | cpp/src/DynamicFlatFIT.hpp:123-125 | the position of a buffer index counted from `front`, the inverse of the slot of a position |
| FlatFIT.SlotInjective | cpp/src/FlatFIT.hpp:66 | distinct positions from `front` occupy distinct slots of the ring |
| FlatFIT.ModIsPos | cpp/src/DynamicFlatFIT.hpp:125 | the modular offset `(next + old_cap - front) % old_cap` is the position of slot `next` |
| FlatFIT.RingInsertTo | cpp/src/FlatFIT.hpp:45-62 | the circular insert puts the lifted value in the slot after `back` and points the old back entry at it, keeping every link's aggregate |
| FlatFIT.AppendInsertTo | cpp/src/FlatFIT.hpp:57-61 | the growing insert before the first evict appends the entry and points the old back at it, keeping every link's aggregate |
| FlatFIT.EvictTo | cpp/src/FlatFIT.hpp:64-68 | moving `front` one slot on removes the oldest value and keeps every link |
| FlatFIT.TraceStep | cpp/src/FlatFIT.hpp:77-78 | one round of the tracing loop records the current slot and follows its link towards `back` |
| FlatFIT.CompressStep | cpp/src/FlatFIT.hpp:81-86 | one round of the second loop folds the popped entry in front of `theSum` and points it at `back` |
| FlatFIT.CompressSum | cpp/src/FlatFIT.hpp:83 | that fold covers the window from the popped position to just before `back` |
| FlatFIT.CompressLinked | cpp/src/FlatFIT.hpp:84 | pointing an entry straight at `back` with the aggregate up to `back` keeps every entry linked |
| FlatFIT.CompressDone | cpp/src/FlatFIT.hpp:81-88 | after the loop `theSum` is the fold of all but the newest value, and the front entry points at `back` |
| FlatFIT.FoldLast | cpp/src/FlatFIT.hpp:88 | that fold combined with the newest value is the fold of the window |
| FlatFIT.Trace | cpp/src/FlatFIT.hpp:76-78 | the first loop collects the path of links from `front` to `back` |
| FlatFIT.Compress | cpp/src/FlatFIT.hpp:80-87 | the second loop rewrites the path so each entry holds its aggregate up to `back` and points at it |
| FlatFIT.Aggregate.constructor | cpp/src/FlatFIT.hpp:37-41 | an empty window and buffer, never evicted |
| FlatFIT.Aggregate.Size | cpp/src/FlatFIT.hpp:43 | the size of the window |
| FlatFIT.Aggregate.Insert | cpp/src/FlatFIT.hpp:45-62 | once an evict has happened, an insert that would outgrow the buffer throws and changes nothing; otherwise the window gains the lifted value |
| FlatFIT.Aggregate.Evict | cpp/src/FlatFIT.hpp:64-68 | the oldest value leaves and `front` moves one slot round the ring |
| FlatFIT.Aggregate.Query | cpp/src/FlatFIT.hpp:71-89 | the lowered fold of the window, identity when empty; the window is unchanged and the front entry then reaches `back` in one link |
| DynamicFlatFIT.PackedEntry | cpp/src/DynamicFlatFIT.hpp:122-127 | the packed entry keeps the value and re-bases its link to the new position of its target |
| DynamicFlatFIT.PackTo | cpp/src/DynamicFlatFIT.hpp:118-135 | packing the ring into a fresh buffer from slot 0 keeps every link's aggregate |
| DynamicFlatFIT.Aggregate.constructor | cpp/src/DynamicFlatFIT.hpp:41-45 | an empty window in a buffer of `LOW_CAP` slots |
| DynamicFlatFIT.Aggregate.Size | cpp/src/DynamicFlatFIT.hpp:47 | the size of the window |
| DynamicFlatFIT.Aggregate.Insert | cpp/src/DynamicFlatFIT.hpp:49-61 | a full buffer is doubled first; the window gains the lifted value |
| DynamicFlatFIT.Aggregate.Evict | cpp/src/DynamicFlatFIT.hpp:63-69 | the oldest value leaves; a buffer left less than a quarter full is halved, but not below `LOW_CAP` |
| DynamicFlatFIT.Aggregate.Query | cpp/src/DynamicFlatFIT.hpp:72-90 | the lowered fold of the window, with the path from `front` compressed |
| DynamicFlatFIT.Aggregate.RescaleTo | cpp/src/DynamicFlatFIT.hpp:110-136 | throws when the elements would not fit; otherwise the window is packed into a buffer of `max(new_size, LOW_CAP)` slots from slot 0 |
| ImplicitQueueABA.BackAggIsFold | cpp/src/ImplicitQueueABA.hpp:47 | the last entry's aggregate, when the back region is not empty, is the fold of the back region |
| ImplicitQueueABA.InvPush | cpp/src/ImplicitQueueABA.hpp:45-50 | pushing the lifted value with the back aggregate combined on its left keeps the invariant for the extended window |
| ImplicitQueueABA.PushLast | cpp/src/ImplicitQueueABA.hpp:47-49 | the pushed entry's aggregate is the fold of the back region and the new value |
| ImplicitQueueABA.SweepStep | cpp/src/ImplicitQueueABA.hpp:58-63 | one round of the backward sweep gives the slot the fold of itself and everything newer |
| ImplicitQueueABA.SweepEnd | cpp/src/ImplicitQueueABA.hpp:64 | after the sweep, moving `b` to the end makes the whole queue the front |
| ImplicitQueueABA.InvPop | cpp/src/ImplicitQueueABA.hpp:66 | popping the oldest front entry drops the oldest partial and keeps the invariant |
| ImplicitQueueABA.InvQuery | cpp/src/ImplicitQueueABA.hpp:69-74 | the front aggregate combined with the back aggregate is the fold of the window |
| ImplicitQueueABA.Aggregate.constructor | cpp/src/ImplicitQueueABA.hpp:38-41 | an empty queue with `b` at its start |
| ImplicitQueueABA.Aggregate.Size | cpp/src/ImplicitQueueABA.hpp:43 | the size of the window |
| ImplicitQueueABA.Aggregate.Insert | cpp/src/ImplicitQueueABA.hpp:45-50 | the window gains the lifted value at its young end |
| ImplicitQueueABA.Aggregate.Flip | cpp/src/ImplicitQueueABA.hpp:55-65 | the sweep turns the whole queue into the front without changing the window |
| ImplicitQueueABA.Aggregate.Evict | cpp/src/ImplicitQueueABA.hpp:52-67 | the oldest element leaves, after a sweep when the front is empty |
| ImplicitQueueABA.Aggregate.PopFront | cpp/src/ImplicitQueueABA.hpp:66 | `pop_front` of a non-empty front removes the oldest element |
| ImplicitQueueABA.Aggregate.Query | cpp/src/ImplicitQueueABA.hpp:69-74 | the lowered fold of the window |
| ImplicitQueueABA.Aggregate.NaiveQuery | cpp/src/ImplicitQueueABA.hpp:76-82 | the recombined partials agree with the lowered fold of the window |
| ImplicitTwoStacksLite.FlipStart | cpp/src/ImplicitTwoStacksLite.hpp:58-60 | at the start of the flip, with an empty front, the running sum is the identity and every slot still holds its own lifted value |
| ImplicitTwoStacksLite.FlipStep | cpp/src/ImplicitTwoStacksLite.hpp:62-68 | one step of the backward loop: slot `i` becomes its value combined with the running sum, which is then the aggregate of the window from `i` to the end |
| ImplicitTwoStacksLite.FlipPop | cpp/src/ImplicitTwoStacksLite.hpp:62-72 | the loop stops above the oldest slot; popping that slot leaves a queue that is all front, each slot the aggregate from it to the end, with the back sum reset |
| ImplicitTwoStacksLite.FlipEnd | cpp/src/ImplicitTwoStacksLite.hpp:62-70 | a flip run down to slot 0 makes the whole queue the front, each slot the aggregate from it to the end |
| ImplicitTwoStacksLite.Flip | cpp/src/ImplicitTwoStacksLite.hpp:58-68 | the backward loop over the queue: every slot above the oldest holds the aggregate from it to the end of the window |
| ImplicitTwoStacksLite.Aggregate.constructor | cpp/src/ImplicitTwoStacksLite.hpp:35-38 | an empty window with `_split` at the beginning |
| ImplicitTwoStacksLite.Aggregate.Size | cpp/src/ImplicitTwoStacksLite.hpp:40 | the number of elements in the window |
| ImplicitTwoStacksLite.Aggregate.FrontEmpty | cpp/src/ImplicitTwoStacksLite.hpp:52 | true exactly when no slot belongs to the front |
| ImplicitTwoStacksLite.Aggregate.Insert | cpp/src/ImplicitTwoStacksLite.hpp:42-50 | the lifted value joins the young end of the window and the split does not move |
| ImplicitTwoStacksLite.Aggregate.Evict | cpp/src/ImplicitTwoStacksLite.hpp:54-74 | the oldest element leaves the window, flipping first when the front is empty |
| ImplicitTwoStacksLite.Aggregate.Query | cpp/src/ImplicitTwoStacksLite.hpp:76-84 | the lowered aggregate of the window, oldest first |
| ImplicitTwoStacksLite.SplitIteratorAggregate.constructor | cpp/src/ImplicitTwoStacksLite.hpp:35-38 | as written: `_split` is the iterator `begin()` of a fresh queue of the minimum ring size |
| ImplicitTwoStacksLite.SplitIteratorAggregate.Insert | cpp/src/ImplicitTwoStacksLite.hpp:42-50 | as written: `_backSum` is extended and the value pushed; the iterator `_split` keeps pointing into the old buffer when the push rescales |
| ImplicitTwoStacksLite.SplitIteratorAggregate.Query | cpp/src/ImplicitTwoStacksLite.hpp:76-84 | as written: the oldest slot, unless the queue is empty or `_split` equals `begin()`, combined with `_backSum` |
| ImplicitTwoStacksLite.ThreeInserted | cpp/src/ImplicitTwoStacksLite.hpp:42-50 | three insertions into a fresh integer-sum aggregator fill three of its four slots without a rescale, `_split` still at `begin()` |
| ImplicitTwoStacksLite.StaleSplitScenario | cpp/src/ImplicitTwoStacksLite.hpp:52 | as written, the fourth insertion rescales, `front_empty()` turns false, and `query()` answers 11 for a window summing to 10 |
| ImplicitTwoStacksLite.ThreeCounted | cpp/src/ImplicitTwoStacksLite.hpp:42-50 | the same insertions into the corrected aggregator leave the window `[1, 2, 3]` with an empty front |
| ImplicitTwoStacksLite.SplitCountScenario | cpp/src/ImplicitTwoStacksLite.hpp:76-84 | corrected: after the fourth insertion the front is still empty and `query()` answers the window's sum, 10 |
| OkasakisQueue.Sz | cpp/src/OkasakisQueue.hpp:24 | the recorded `sz` is the number of values the list stands for |
| OkasakisQueue.AggOfFront | cpp/src/OkasakisQueue.hpp:123 | the aggregate of an F-list is the fold of its values in order |
| OkasakisQueue.AggOfBack | cpp/src/OkasakisQueue.hpp:123 | the aggregate of the B-list is the fold of its values oldest first, the reverse of the list order |
| OkasakisQueue.ConsFront | cpp/src/OkasakisQueue.hpp:143 | a cell consed with `h ⊕ aggOf(t)` keeps an F-list's aggregate invariant |
| OkasakisQueue.ConsBack | cpp/src/OkasakisQueue.hpp:94-96 | the cell `insert` conses onto B with `aggOf(B) ⊕ lifted` keeps the B invariant and appends the value to the B side of the window |
| OkasakisQueue.SuspFront | cpp/src/OkasakisQueue.hpp:133-141 | the suspension `rot` builds, with aggregate `la ⊕ (ra ⊕ naa)`, is a valid F-list |
| OkasakisQueue.Force | cpp/src/OkasakisQueue.hpp:58-63 | forcing a suspension gives a cell for the same values |
| OkasakisQueue.Rot | cpp/src/OkasakisQueue.hpp:125-144 | `rot(L, R, A)` gives a valid F-list for L followed by reversed R followed by A |
| OkasakisQueue.Head | cpp/src/OkasakisQueue.hpp:49-52 | `hd()` is the first value |
| OkasakisQueue.Tail | cpp/src/OkasakisQueue.hpp:53-56 | `tl()` is a valid F-list for the rest |
| OkasakisQueue.OwedPush | cpp/src/OkasakisQueue.hpp:92-96 | `insert` leaves one cell owed to the schedule |
| OkasakisQueue.OwedPop | cpp/src/OkasakisQueue.hpp:100-102 | `evict` drops the first value of F, present since B is never longer than F, and leaves one cell owed |
| OkasakisQueue.RotTo | cpp/src/OkasakisQueue.hpp:146-149 | with the schedule used up, rotating makes F the whole window, B empty and the schedule all of F |
| OkasakisQueue.TailTo | cpp/src/OkasakisQueue.hpp:151 | otherwise stepping the schedule pays the owed cell |
| OkasakisQueue.Aggregate.constructor | cpp/src/OkasakisQueue.hpp:87-88 | three empty lists: an empty window |
| OkasakisQueue.Aggregate.Size | cpp/src/OkasakisQueue.hpp:90 | the size of the window |
| OkasakisQueue.Aggregate.Insert | cpp/src/OkasakisQueue.hpp:92-98 | the window gains the lifted value at its young end |
| OkasakisQueue.Aggregate.Evict | cpp/src/OkasakisQueue.hpp:100-104 | the oldest value leaves |
| OkasakisQueue.Aggregate.Step | cpp/src/OkasakisQueue.hpp:145-152 | one step of the schedule restores the invariant without changing the window |
| OkasakisQueue.Aggregate.Query | cpp/src/OkasakisQueue.hpp:106-110 | the lowered fold of the window |
| ChunkedArrayQueue.ChunkCapacity | cpp/src/ChunkedArrayQueue.hpp:16 | as many elements as fit in `MAGIC_CHUNK_SIZE` bytes, and one when not even one fits |
| ChunkedArrayQueue.ConcatDrop | cpp/src/ChunkedArrayQueue.hpp:162-167 | freeing the first chunk drops its cells from the front of the concatenation |
| ChunkedArrayQueue.ConcatIndex | cpp/src/ChunkedArrayQueue.hpp:98 | slot `j` of chunk `k` is one cell of the concatenation, after the cells of the chunks before it |
| ChunkedArrayQueue.OffsetInjective | cpp/src/ChunkedArrayQueue.hpp:106-109 | different chunk and slot pairs are different cells |
| ChunkedArrayQueue.WindowPushTo | cpp/src/ChunkedArrayQueue.hpp:147-157 | writing at `_end` and stepping it, with a new chunk when it runs off the last, appends the element |
| ChunkedArrayQueue.WindowPopNext | cpp/src/ChunkedArrayQueue.hpp:162-164 | a pop that exhausts the first chunk finds a chunk after it |
| ChunkedArrayQueue.WindowPopTo | cpp/src/ChunkedArrayQueue.hpp:159-170 | stepping `_begin`, and freeing an exhausted first chunk, removes the oldest element |
| ChunkedArrayQueue.ChunkedArrayQueue.constructor | cpp/src/ChunkedArrayQueue.hpp:129-134 | one chunk, both iterators at its first slot: an empty queue |
| ChunkedArrayQueue.ChunkedArrayQueue.Size | cpp/src/ChunkedArrayQueue.hpp:145 | the number of queued elements |
| ChunkedArrayQueue.ChunkedArrayQueue.PushBack | cpp/src/ChunkedArrayQueue.hpp:147-157 | the element is appended, linking a fresh chunk when the last one fills |
| ChunkedArrayQueue.ChunkedArrayQueue.WriteEnd | cpp/src/ChunkedArrayQueue.hpp:148-149 | the element goes to `_end`'s slot and `_end` moves one slot on |
| ChunkedArrayQueue.ChunkedArrayQueue.LinkChunk | cpp/src/ChunkedArrayQueue.hpp:150-155 | a fresh chunk is linked after the last and `_end` reset to its first slot |
| ChunkedArrayQueue.ChunkedArrayQueue.PopFront | cpp/src/ChunkedArrayQueue.hpp:159-170 | the oldest element leaves |
| ChunkedArrayQueue.ChunkedArrayQueue.AdvanceBegin | cpp/src/ChunkedArrayQueue.hpp:161-168 | `_begin` moves one slot on, freeing and unlinking an exhausted first chunk |
| ChunkedArrayQueue.ChunkedArrayQueue.Front | cpp/src/ChunkedArrayQueue.hpp:172-175 | the oldest element |
| ChunkedArrayQueue.ChunkedArrayQueue.Back | cpp/src/ChunkedArrayQueue.hpp:177-180 | the newest element, the one before `_end` |
| ChunkedArrayQueue.ChunkedArrayQueue.Begin | cpp/src/ChunkedArrayQueue.hpp:182 | `begin()` is the oldest element's cell |
| ChunkedArrayQueue.ChunkedArrayQueue.End | cpp/src/ChunkedArrayQueue.hpp:183 | `end()` is the free cell after the newest element |
| ChunkedArrayQueue.ChunkedArrayQueue.Next | cpp/src/ChunkedArrayQueue.hpp:49-56 | `operator++` steps to the next cell, across the link at the end of a chunk |
| ChunkedArrayQueue.ChunkedArrayQueue.Prev | cpp/src/ChunkedArrayQueue.hpp:63-70 | `operator--` steps to the previous cell, across the link at the start of a chunk |
| ChunkedArrayQueue.ChunkedArrayQueue.Deref | cpp/src/ChunkedArrayQueue.hpp:98 | `operator*` on a cell of the queue gives the element that many places after the oldest |
| ChunkedArrayQueue.ChunkedArrayQueue.LessEq | cpp/src/ChunkedArrayQueue.hpp:117-125 | `operator<=` is true exactly when the first iterator's cell is at or before the second's |
| SumOp.Cast | rust/src/ops/sum/mod.rs:72 | `NumCast::from` succeeds exactly on values the output type can represent, and then keeps the value |
| SumOp.Identity | rust/src/ops/sum/mod.rs:115-119 | `Zero::zero()` is neutral on both sides of `operate` |
| SumOp.Operate | rust/src/ops/sum/mod.rs:127-131 | the lowered combination is the sum of the lowered operands (unbounded, see Left out) |
| SumOp.Inverse | rust/src/ops/sum/mod.rs:139-143 | `-(self.val)` cancels its operand on the left and on the right |
| SumOp.Lift | rust/src/ops/sum/mod.rs:70-74 | fails (the `unwrap` panic) exactly on values the output type cannot represent; otherwise the partial holds the value |
| SumOp.Lower | rust/src/ops/sum/mod.rs:75-77 | lifting the lowered value again, at any output type that represents it, rebuilds the partial |
| SumOp.LowerLift | rust/src/ops/sum/mod.rs:70-77 | lifting succeeds exactly on representable inputs, and lowering gives the input back |
| SumOp.SumIsGroup | rust/src/ops/sum/mod.rs:115-174 | identity, operate and two-sided inverse satisfy the group laws, and operate commutes |
| SumOp.FoldIsTotal | rust/src/ops/sum/mod.rs:127-131 | the lowered aggregate of a window of partials is the arithmetic sum of their values |
| MaxOp.Min | rust/src/ops/max/mod.rs:21-25 | `i32::MIN` is at most every partial's value |
| MaxOp.Identity | rust/src/ops/max/mod.rs:96-101 | `Min::min()` is neutral on both sides of `operate` |
| MaxOp.Lift | rust/src/ops/max/mod.rs:55-59 | the cast from `i32` to `i32` keeps the value |
| MaxOp.Lower | rust/src/ops/max/mod.rs:60-62 | lifting the lowered value rebuilds the partial |
| MaxOp.Operate | rust/src/ops/max/mod.rs:110-120 | the result is one operand and at least both; on equal values it is `other` |
| MaxOp.LowerLift | rust/src/ops/max/mod.rs:55-62 | lowering a lifted `i32` gives it back |
| MaxOp.MaxIsMonoid | rust/src/ops/max/mod.rs:93-133 | operate is associative and `Min::min()` is neutral on both sides |
| MaxOp.FoldIsMaximum | rust/src/ops/max/mod.rs:93-121 | the aggregate of a window bounds every element and is one of them; an empty window gives `i32::MIN` |
| MeanOp.Identity | rust/src/ops/mean/mod.rs:116-121 | `{0, 0}` is neutral on both sides of `operate` |
| MeanOp.Operate | rust/src/ops/mean/mod.rs:129-134 | the sums add up and the counts add up (unbounded, see Left out) |
| MeanOp.Inverse | rust/src/ops/mean/mod.rs:142-147 | `{-sum, -n}` cancels its operand on the left and on the right |
| MeanOp.Lift | rust/src/ops/mean/mod.rs:50-55 | the partial of one representable value holds it with count 1; an unrepresentable value is the `unwrap` panic |
| MeanOp.TruncDiv | rust/src/ops/mean/mod.rs:56-58 | integer division rounding toward zero: the magnitude is the quotient of the magnitudes and the sign is the product of the signs |
| MeanOp.Lower | rust/src/ops/mean/mod.rs:56-58 | undefined exactly on a zero count, as on the identity |
| MeanOp.MeanIsGroup | rust/src/ops/mean/mod.rs:111-178 | operate is associative and commutative, `{0, 0}` is neutral and the inverse cancels on both sides |
| MeanOp.FoldLifted | rust/src/ops/mean/mod.rs:50-58 | the aggregate of lifted values holds their sum and their count, and its mean is undefined only on the empty window |
| OpsI32.Wrap | rust/src/ops/mod.rs:85-95 | two's-complement wrap-around into the `i32` range: congruent modulo 2^32, and the identity on values already in range |
| OpsI32.SumOperate | rust/src/ops/mod.rs:85-89 | `self + other`, the exact sum whenever it fits in an `i32` |
| OpsI32.SumInverse | rust/src/ops/mod.rs:91-95 | `-self`, the exact negation except on `i32::MIN` |
| OpsI32.WrapAbsorbs | rust/src/ops/mod.rs:85-95 | wrapping an inner sum does not change the wrapped total |
| OpsI32.SumIsGroup | rust/src/ops/mod.rs:79-101 | `i32` under wrapping `+`, `0` and `-` satisfies the group laws |
| OpsI32.MaxOperate | rust/src/ops/mod.rs:134-142 | the larger operand |
| OpsI32.MaxIsMonoid | rust/src/ops/mod.rs:128-145 | max is associative and commutative with `i32::MIN` neutral |
| OpsI32.MaxFoldIsMaximum | rust/src/ops/mod.rs:128-145 | the fold of a window is its largest element, or `i32::MIN` on the empty window |
| OpsI32.MeanOperate | rust/src/ops/mod.rs:228-231 | the counts add up |
| OpsI32.MeanLift | rust/src/ops/mod.rs:175-177 | one value with count 1 |
| OpsI32.MeanLower | rust/src/ops/mod.rs:178-180 | undefined exactly where the source panics (a negative sum or a zero count); otherwise the floored mean |
| OpsI32.MeanIsMonoid | rust/src/ops/mod.rs:213-244 | operate is associative and commutative with `{0, 0}` neutral |
| OpsI32.MeanFoldLifted | rust/src/ops/mod.rs:175-180 | the fold of lifted values is their sum with their count |
| OpsI32.MeanLowerLift | rust/src/ops/mod.rs:175-180 | lowering one lifted value gives it back when it is non-negative and is undefined otherwise |
| ReCalc.Aggregate.constructor | cpp/src/ReCalc.hpp:26-28 | an empty window over the monoid with the given identity |
| ReCalc.Aggregate.Size | cpp/src/ReCalc.hpp:30 | the number of elements in the window |
| ReCalc.Aggregate.Insert | cpp/src/ReCalc.hpp:32-35 | the lifted input joins the window at the back |
| ReCalc.Aggregate.Evict | cpp/src/ReCalc.hpp:37-40 | the oldest element leaves the window |
| ReCalc.Aggregate.Query | cpp/src/ReCalc.hpp:42-48 | the lowered fold of the whole window, oldest first, from the identity |
| RustReCalc.ReCalc.constructor | rust/src/recalc/mod.rs:22-27 | an empty window |
| RustReCalc.ReCalc.Push | rust/src/recalc/mod.rs:28-30 | the value joins the window at the back |
| RustReCalc.ReCalc.Pop | rust/src/recalc/mod.rs:31-33 | the oldest value leaves; popping an empty window leaves it empty |
| RustReCalc.ReCalc.Query | rust/src/recalc/mod.rs:34-38 | the fold of the window in FIFO order |
| RustReCalc.ReCalc.Len | rust/src/recalc/mod.rs:39-41 | the number of values in the window |
| ImplicitTree.NodeLeaves | cpp/src/Reactive.hpp:18-21 | the leaves below a node of height `j` are a consecutive run of `2^j` leaves of the tree of `2*cap` slots |
| ImplicitTree.LeafAncestor | cpp/src/Reactive.hpp:120 | halving a leaf index `k` times gives its ancestor at height `k` |
| ImplicitTree.Children | cpp/src/Reactive.hpp:104 | the children `2p` and `2p+1` of a node are nodes one level down |
| ImplicitTree.ParentNode | cpp/src/Reactive.hpp:100-101 | the parent `c/2` of a node below the root is a node one level up |
| ImplicitTree.NodeRoot | cpp/src/Reactive.hpp:102 | node 1 is the only node at the top height |
| ImplicitTree.ChildRanges | cpp/src/Reactive.hpp:104-107 | a node's leaves are those of its left child followed by those of its right child |
| Reactive.InWinIff | cpp/src/Reactive.hpp:78-84 | whether a leaf holds a window value, decided from the front and back leaves and whether the window wraps |
| Reactive.OkIff | cpp/src/Reactive.hpp:78-84 | `ok` on a node at any height tells exactly whether its subtree holds a window value |
| Reactive.HitIff | cpp/src/Reactive.hpp:78-84 | a range of leaves holds a window value exactly when `ok` says so of its end leaves |
| Reactive.NodeStep | cpp/src/Reactive.hpp:103-110 | both children correct and their `ok` flags make the recomputed parent the fold of the window values below it |
| Reactive.WindowRotated | cpp/src/Reactive.hpp:50-54 | read from the front leaf round the ring, the leaves give back the window in order |
| Reactive.RotatedWhole | cpp/src/Reactive.hpp:124-127 | when the window does not wrap, the root covers exactly the window |
| Reactive.SchedAppendRange | cpp/src/Reactive.hpp:130-135 | the range list stays sorted and disjoint and covers exactly the old leaves plus `s..t`, merging with the last range when adjacent |
| Reactive.SchedInsert | cpp/src/Reactive.hpp:137-159 | recording a leaf keeps the range list sorted and disjoint and covers exactly the old leaves plus `p` |
| Reactive.UpdateRange | cpp/src/Reactive.hpp:103-111 | the loop over one range recomputes each node of the level above to the fold of the window below it |
| Reactive.ProcessRange | cpp/src/Reactive.hpp:99-113 | one range of the level is processed and its parents scheduled, keeping the level invariant |
| Reactive.PropagateLevel | cpp/src/Reactive.hpp:98-113 | a pass over the ranges of one level makes every node up to the next level correct and schedules exactly the parents |
| Reactive.LevelLoop | cpp/src/Reactive.hpp:99-113 | the loop over the ranges of a level stops at the root or after the last range |
| Reactive.ExtendSuffix | cpp/src/Reactive.hpp:116 | combining the sibling into `suf` extends it to the fold from the front leaf to the end of the next level's node |
| Reactive.ExtendPrefix | cpp/src/Reactive.hpp:117 | combining the sibling into `pre` extends it to the fold from the next level's node to the back leaf |
| Reactive.ClimbEnds | cpp/src/Reactive.hpp:115-120 | on a wrapped window both end folds climb one level; otherwise they are unchanged |
| Reactive.ClimbLevel | cpp/src/Reactive.hpp:98-121 | one pass of the outer loop keeps the climbing invariant one level higher |
| Reactive.ClimbAll | cpp/src/Reactive.hpp:98-122 | the outer loop runs until no range is left, keeping the climbing invariant |
| Reactive.ClimbDone | cpp/src/Reactive.hpp:124-127 | at the end every node is correct and the result is what the climb computed |
| Reactive.PropagateTree | cpp/src/Reactive.hpp:86-128 | `propagate` on a non-empty window leaves the leaves alone, makes every node correct and returns the climbed result |
| Reactive.AllCorrect | cpp/src/Reactive.hpp:86-128 | nodes correct against the old leaves are correct against the new array with the same leaves |
| Reactive.InsertLeaves | cpp/src/Reactive.hpp:30-32 | writing the lifted value at the leaf after the youngest appends it to the window and changes no other leaf's membership |
| Reactive.EvictWin | cpp/src/Reactive.hpp:37-40 | advancing `frontPtr` removes only the oldest leaf from the window and shifts every other offset down by one |
| Reactive.ReallocLeaves | cpp/src/Reactive.hpp:68-70 | the window copied to the first leaves of the new tree is laid out from leaf 0 |
| Reactive.CopyWindow | cpp/src/Reactive.hpp:67-68 | the copy loop fills a fresh tree of `ncap` leaves with the window from its first leaf on |
| Reactive.FoldWindow | cpp/src/Reactive.hpp:51-53 | the loop of `naive_query` folds the window's leaves from the oldest |
| Reactive.Aggregate.constructor | cpp/src/Reactive.hpp:19-23 | two leaves, an empty window, `frontPtr` 0 and nothing recorded |
| Reactive.Aggregate.Size | cpp/src/Reactive.hpp:25-26 | the size of the window |
| Reactive.Aggregate.Insert | cpp/src/Reactive.hpp:28-34 | a full window first doubles the capacity; the window gains the lifted value and a leaf is recorded |
| Reactive.Aggregate.Append | cpp/src/Reactive.hpp:30-33 | with room left, the value goes to the leaf after the youngest and that leaf is recorded |
| Reactive.Aggregate.Evict | cpp/src/Reactive.hpp:36-42 | the oldest value leaves; below a quarter of the capacity the tree is halved, but not below `initial_size` |
| Reactive.Aggregate.Query | cpp/src/Reactive.hpp:44-47 | as written: the lowered fold of the window, except for a wrapped window with nothing recorded, where the stale end folds give only the two end leaves |
| Reactive.Aggregate.QueryCorrected | cpp/src/Reactive.hpp:44-47 | the corrected query: always the lowered fold of the window |
| Reactive.Aggregate.NaiveQuery | cpp/src/Reactive.hpp:50-55 | the lowered fold of the window, recomputed leaf by leaf |
| Reactive.Aggregate.ReallocTo | cpp/src/Reactive.hpp:66-72 | the window moves to the first leaves of a fresh tree of `ncap` leaves and is propagated |
| Reactive.Aggregate.DoubleIt | cpp/src/Reactive.hpp:74 | the tree is reallocated at twice the capacity |
| Reactive.Aggregate.HalfIt | cpp/src/Reactive.hpp:75 | the tree is reallocated at half the capacity, but not below `initial_size` |
| Reactive.Aggregate.Propagate | cpp/src/Reactive.hpp:86-128 | nothing on an empty window; otherwise the recorded ranges are consumed and the result is the fold of the window, except in the stale wrapped case |
| Reactive.Filled | cpp/src/Reactive.hpp:28-34 | inserting 1, 2 and 3 doubles the tree to four leaves |
| Reactive.Wrapped | cpp/src/Reactive.hpp:36-42 | evicting 1 and inserting 4 and 5 wraps the window 2, 3, 4, 5 round the leaves |
| Reactive.SumWindow | cpp/src/Reactive.hpp:44-47 | the window 2, 3, 4, 5 sums to 14 |
| Reactive.QueryTwice | cpp/src/Reactive.hpp:44-47 | in the wrapped state, two queries in a row return 14 and then 7 |
| Reactive.QueryTwiceCorrected | cpp/src/Reactive.hpp:44-47 | with the corrected query, both return 14 |
| RingBufferQueue.IterNext | cpp/src/RingBufferQueue.hpp:68-73 | `operator++` moves to the next slot, from the last back to 0 |
| RingBufferQueue.IterPrev | cpp/src/RingBufferQueue.hpp:81-86 | `operator--` moves to the previous slot and undoes `operator++` |
| RingBufferQueue.BackSlotAsWritten | cpp/src/RingBufferQueue.hpp:192-199 | `back()` as written reads one before the buffer when `back` has wrapped to 0 |
| RingBufferQueue.BackSlot | cpp/src/RingBufferQueue.hpp:192-199 | the slot of the newest element, whose successor is `back` |
| RingBufferQueue.RingPush | cpp/src/RingBufferQueue.hpp:159-166 | writing at the back slot and advancing it appends to the contents |
| RingBufferQueue.RingPop | cpp/src/RingBufferQueue.hpp:170-175 | advancing the front slot removes the oldest element |
| RingBufferQueue.CopyStep | cpp/src/RingBufferQueue.hpp:225-229 | one step of the copy loop puts element `index` at its position modulo the new size |
| RingBufferQueue.CopyRing | cpp/src/RingBufferQueue.hpp:220-229 | the copy loop fills a fresh buffer of the new size with every element at the same position modulo that size |
| RingBufferQueue.RingBufferQueue.constructor | cpp/src/RingBufferQueue.hpp:140-146 | an empty ring of `MAGIC_MINIMUM_RING_SIZE` slots in dynamic mode, or of the preset capacity |
| RingBufferQueue.RingBufferQueue.Size | cpp/src/RingBufferQueue.hpp:152 | the number of queued elements |
| RingBufferQueue.RingBufferQueue.Front | cpp/src/RingBufferQueue.hpp:186-190 | the oldest element |
| RingBufferQueue.RingBufferQueue.Back | cpp/src/RingBufferQueue.hpp:192-199 | the newest element, read from the slot before `back` round the ring |
| RingBufferQueue.RingBufferQueue.RescaleTo | cpp/src/RingBufferQueue.hpp:211-239 | throws in static mode or when the elements do not fit; otherwise a fresh buffer holds the same contents |
| RingBufferQueue.RingBufferQueue.PushBack | cpp/src/RingBufferQueue.hpp:154-167 | a push that would fill the ring rescales it to twice its size first, which throws in static mode; otherwise the element is appended |
| RingBufferQueue.RingBufferQueue.PopFront | cpp/src/RingBufferQueue.hpp:169-184 | the oldest element leaves; in dynamic mode a ring left at most a quarter full is halved |
| RingBufferQueue.BackWrapReachable | cpp/src/RingBufferQueue.hpp:192-199 | three pushes, three pops and one more push reach a state where `back` is 0, and `back()` as written reads slot -1 |
| RustFlatFAT.Layout | rust/src/reactive/flat_fat.rs:73-92 | the parent of either child of node `i` is `i`; leaf `x` lives in the last `capacity` slots of the `2 * capacity - 1` vector and its parent is an internal node |
| RustFlatFAT.NextPow2 | rust/src/reactive/mod.rs:27-34 | the rounding the corrected `with_capacity` applies (see Findings): the least power of two not below `n`, a power of two, at least `n`, below `2 * n` |
| RustFlatFAT.NodeFold | rust/src/reactive/flat_fat.rs:47-54 | in a consistent tree with a power-of-two capacity, the node at depth `j` folds exactly its contiguous range of leaves |
| RustFlatFAT.RootIsFold | rust/src/reactive/flat_fat.rs:163-165 | in a consistent tree with a power-of-two capacity the root is the in-order fold of all leaves |
| RustFlatFAT.WriteStep | rust/src/reactive/flat_fat.rs:124-128 | writing one leaf leaves only that leaf's parent (with the nodes already pending) to repair |
| RustFlatFAT.RepairStep | rust/src/reactive/flat_fat.rs:132-139 | recomputing a pending node from its children leaves only its parent (unless it is the root) to repair |
| RustFlatFAT.WriteLeaves | rust/src/reactive/flat_fat.rs:122-129 | the `map` of `update` writes every pair (the later of two writes to a leaf wins) and collects exactly the parents that need repair, all internal |
| RustFlatFAT.RepairLevel | rust/src/reactive/flat_fat.rs:132-139 | one `drain` of `parents` repairs them all, leaves unchanged, and the next set lies one level up |
| RustFlatFAT.Repair | rust/src/reactive/flat_fat.rs:131-145 | the repair loop ends with every internal node the combination of its children, leaves unchanged |
| RustFlatFAT.RebuildStep | rust/src/reactive/flat_fat.rs:156-160 | recomputing node `p` from its children keeps every node above `p` consistent and makes `p` consistent |
| RustFlatFAT.Rebuild | rust/src/reactive/flat_fat.rs:156-160 | the backward loop over the internal nodes makes the whole tree consistent, leaves unchanged |
| RustFlatFAT.WriteOrdered | rust/src/reactive/flat_fat.rs:152-155 | `values[i]` lands in leaf `i`; the remaining leaves and every internal node are untouched |
| RustFlatFAT.PrefixStep | rust/src/reactive/flat_fat.rs:170-177 | one step of `prefix`: from a right child the carried aggregate gains the left sibling, so it still folds the leaves from the node's first leaf to `idx` |
| RustFlatFAT.SuffixStep | rust/src/reactive/flat_fat.rs:184-190 | one step of `suffix`: from a left child the carried aggregate gains the right sibling, so it still folds the leaves from `idx` to the node's last leaf |
| RustFlatFAT.PrefixWalk | rust/src/reactive/flat_fat.rs:167-179 | the climb of `prefix` ends with the fold of the leaves `0..=idx` (power-of-two capacity) |
| RustFlatFAT.SuffixWalk | rust/src/reactive/flat_fat.rs:181-192 | the climb of `suffix` ends with the fold of the leaves from `idx` on (power-of-two capacity) |
| RustFlatFAT.FlatFAT.Leaves | rust/src/reactive/flat_fat.rs:63-67 | the leaves are the last `capacity` entries of the tree |
| RustFlatFAT.FlatFAT.WithCapacity | rust/src/reactive/flat_fat.rs:106-112 | demands `capacity > 1` as the `assert!` does; every leaf (and node) is the identity |
| RustFlatFAT.FlatFAT.New | rust/src/reactive/flat_fat.rs:99-104 | a consistent tree with one leaf per value, the leaves equal to the values |
| RustFlatFAT.FlatFAT.Get | rust/src/reactive/flat_fat.rs:114-116 | `Some` of leaf `idx` inside the capacity, `None` past it |
| RustFlatFAT.FlatFAT.Update | rust/src/reactive/flat_fat.rs:118-146 | the leaves become the batch's writes applied to the old leaves, and the tree is consistent again |
| RustFlatFAT.FlatFAT.UpdateOrdered | rust/src/reactive/flat_fat.rs:148-161 | the leaves become `values` followed by the old leaves past them, and the tree is consistent again |
| RustFlatFAT.FlatFAT.Aggregate | rust/src/reactive/flat_fat.rs:163-165 | the root, which is the fold of the leaves when the capacity is a power of two |
| RustFlatFAT.FlatFAT.Prefix | rust/src/reactive/flat_fat.rs:167-179 | the fold of the leaves up to and including `idx` |
| RustFlatFAT.FlatFAT.Suffix | rust/src/reactive/flat_fat.rs:181-192 | the fold of the leaves from `idx` to the last |
| RustReactive.RingPush | rust/src/reactive/mod.rs:72-75 | writing the pushed value at `back` and stepping `back` modulo the capacity extends the ring's window by that value |
| RustReactive.RingPop | rust/src/reactive/mod.rs:80-85 | writing the identity at `front` and stepping `front` modulo the capacity drops the window's oldest value |
| RustReactive.GrowBound | rust/src/reactive/mod.rs:76-78 | after a push crosses three quarters of the capacity, the doubled tree is again at most three quarters full |
| RustReactive.ShrinkBound | rust/src/reactive/mod.rs:86-88 | a power-of-two tree at most a quarter full (not empty) halves to a tree of more than one leaf that still holds the window |
| RustReactive.Unrotate | rust/src/reactive/mod.rs:38-50 | the leaves `resize` copies (`front..` then `..back` when inverted, else `front..back`) are the window, oldest first |
| RustReactive.RingFlat | rust/src/reactive/mod.rs:96-98 | a window that does not wrap sits between identity leaves, so the fold of all leaves is the window's fold |
| RustReactive.RingWrapped | rust/src/reactive/mod.rs:92-95 | a wrapped window is the leaves from `front` on followed by those up to `back`, so `suffix(front)` combined with `prefix(back)` folds it |
| RustReactive.Reactive.New | rust/src/reactive/mod.rs:61-68 | an empty window on a tree of two leaves |
| RustReactive.Reactive.WithCapacity | rust/src/reactive/mod.rs:27-34 | an empty window on a tree whose capacity is `capacity` rounded up to a power of two (see Findings) |
| RustReactive.Reactive.Len | rust/src/reactive/mod.rs:100-102 | the number of values in the window |
| RustReactive.Reactive.IsEmpty | rust/src/reactive/mod.rs:103-105 | true exactly when the window is empty |
| RustReactive.Reactive.Push | rust/src/reactive/mod.rs:72-79 | the window gains the lifted value at its young end; the capacity doubles exactly when the size passes three quarters of it |
| RustReactive.Reactive.Append | rust/src/reactive/mod.rs:73-75 | the write at `back` and the step of `back`: the window gains `x`, the tree object unchanged |
| RustReactive.Reactive.Pop | rust/src/reactive/mod.rs:80-90 | an empty window is left alone; otherwise the oldest value leaves and the capacity halves exactly when the remaining size is positive and at most a quarter of it |
| RustReactive.Reactive.Remove | rust/src/reactive/mod.rs:82-85 | the identity written at `front` and the step of `front`: the window loses its oldest value |
| RustReactive.Reactive.Resize | rust/src/reactive/mod.rs:38-54 | a fresh tree of the new capacity holds the window packed from leaf 0, `front` 0 and `back` the size |
| RustReactive.Reactive.Query | rust/src/reactive/mod.rs:91-99 | the lowered fold of the window, oldest first; the identity when it is empty |
| RustReactive.NonPowerOfTwoQuery | rust/src/reactive/mod.rs:27-34 | as written, `with_capacity(3)` keeps three leaves; after pushing `[1]` and `[2]` under concatenation the root is `[2, 1]` while the window folds to `[1, 2]` |
| RustTwoStacks.TwoStacks.constructor | rust/src/two_stacks/mod.rs:30-35 | two empty stacks: an empty window |
| RustTwoStacks.TwoStacks.Push | rust/src/two_stacks/mod.rs:39-45 | the window gains the lifted value at its young end |
| RustTwoStacks.TwoStacks.Pop | rust/src/two_stacks/mod.rs:46-56 | `None` on an empty window; otherwise the oldest partial leaves and is returned lowered |
| RustTwoStacks.TwoStacks.Query | rust/src/two_stacks/mod.rs:57-61 | the lowered fold of the window |
| RustTwoStacks.TwoStacks.Len | rust/src/two_stacks/mod.rs:62-64 | the size of the window |
| RustTwoStacks.TwoStacks.IsEmpty | rust/src/two_stacks/mod.rs:65-67 | true exactly when the window is empty |
| RustTwoStacksLite.InvPush | rust/src/two_stacks_lite/mod.rs:34-38 | appending the partial and combining it onto `agg_back` keeps the invariant for the extended window |
| RustTwoStacksLite.SweepStep | rust/src/two_stacks_lite/mod.rs:46-49 | one step of the in-place sweep turns slot `i-1` into the fold of the suffix from there |
| RustTwoStacksLite.SweepEnd | rust/src/two_stacks_lite/mod.rs:50-51 | after the sweep the whole queue is the front and `agg_back` is the identity |
| RustTwoStacksLite.InvPop | rust/src/two_stacks_lite/mod.rs:53-54 | the front slot holds the fold of the front part of the window, and popping it leaves the rest |
| RustTwoStacksLite.InvQuery | rust/src/two_stacks_lite/mod.rs:57-61 | the front aggregate combined with `agg_back` is the fold of the window |
| RustTwoStacksLite.TwoStacksLite.constructor | rust/src/two_stacks_lite/mod.rs:24-30 | an empty queue, `agg_back` the identity and no front: an empty window |
| RustTwoStacksLite.TwoStacksLite.Push | rust/src/two_stacks_lite/mod.rs:34-38 | the window gains the lifted value at its young end |
| RustTwoStacksLite.TwoStacksLite.Pop | rust/src/two_stacks_lite/mod.rs:39-56 | `None` on an empty window; otherwise the oldest element leaves and what is returned is the lowered aggregate of the front part |
| RustTwoStacksLite.TwoStacksLite.Query | rust/src/two_stacks_lite/mod.rs:57-61 | the lowered fold of the window |
| RustTwoStacksLite.TwoStacksLite.Len | rust/src/two_stacks_lite/mod.rs:62-64 | the size of the window |
| RustTwoStacksLite.TwoStacksLite.IsEmpty | rust/src/two_stacks_lite/mod.rs:65-67 | true exactly when the window is empty |
| SubtractOnEvict.Aggregate.constructor | cpp/src/SubtractOnEvict.hpp:26-28 | an empty window whose running sum is the identity, for an operator whose inverse combine removes the oldest partial |
| SubtractOnEvict.Aggregate.Size | cpp/src/SubtractOnEvict.hpp:30 | the number of elements in the window |
| SubtractOnEvict.Aggregate.Insert | cpp/src/SubtractOnEvict.hpp:32-37 | the lifted input joins the window and the running sum stays its fold |
| SubtractOnEvict.Aggregate.Evict | cpp/src/SubtractOnEvict.hpp:39-44 | the oldest element leaves and `inverse_combine` keeps the running sum equal to the fold of the rest |
| SubtractOnEvict.Aggregate.Query | cpp/src/SubtractOnEvict.hpp:46 | the lowered fold of the window, read in constant time from the running sum |
| SubtractOnEvict.Aggregate.NaiveQuery | cpp/src/SubtractOnEvict.hpp:48-54 | the recomputed fold agrees with `query` |
| RustSoE.PopAggAsWritten | rust/src/soe/mod.rs:36 | as written: in a group, the result is what `top` completes on the RIGHT to the old aggregate, so it takes `top` off the young end |
| RustSoE.PopAgg | rust/src/soe/mod.rs:36 | corrected: in a group, `top` completes the result on the LEFT to the old aggregate, so it takes `top` off the old end |
| RustSoE.TakeOldest | rust/src/soe/mod.rs:34-38 | `pop`'s update on a nonempty window leaves the fold of the window without its oldest value |
| RustSoE.PopAggRemovesOldest | rust/src/soe/mod.rs:34-38 | with the inverse of the oldest value combined on the left, the aggregate of the rest remains, in every group |
| RustSoE.AsWrittenPopCommutative | rust/src/soe/mod.rs:36 | in a commutative group the update as written is also right |
| RustSoE.DihedralIsGroup | rust/src/soe/mod.rs:8-11 | the infinite dihedral group satisfies the `AbstractGroup` laws and is not commutative |
| RustSoE.AsWrittenPopIsWrong | rust/src/soe/mod.rs:36 | in that group, pushing a reflection then a shift by one and popping leaves the source's aggregate at shift -1 instead of the window's +1 |
| RustSoE.SoE.constructor | rust/src/soe/mod.rs:23-29 | an empty window with the identity as aggregate |
| RustSoE.SoE.Push | rust/src/soe/mod.rs:30-33 | the value joins the window and the aggregate stays its fold |
| RustSoE.SoE.Pop | rust/src/soe/mod.rs:34-38 | nothing on an empty window; otherwise the oldest value leaves and the aggregate is the fold of the rest |
| RustSoE.SoE.Query | rust/src/soe/mod.rs:39-41 | the fold of the window |
| RustSoE.SoE.Len | rust/src/soe/mod.rs:42-44 | the number of values in the window |
| TimestampedFifo.Aggregate.constructor | cpp/src/TimestampedFifo.hpp:18-22 | an empty window and an empty time queue around the wrapped FIFO aggregator |
| TimestampedFifo.Aggregate.Size | cpp/src/TimestampedFifo.hpp:24-26 | the size of the window, which is also the number of times kept |
| TimestampedFifo.Aggregate.Insert | cpp/src/TimestampedFifo.hpp:33-36 | the value joins the wrapped window and its timestamp joins the back of the time queue |
| TimestampedFifo.Aggregate.Evict | cpp/src/TimestampedFifo.hpp:28-31 | the oldest value and the oldest timestamp leave together |
| TimestampedFifo.Aggregate.Oldest | cpp/src/TimestampedFifo.hpp:38-40 | the timestamp of the oldest element |
| TimestampedFifo.Aggregate.Youngest | cpp/src/TimestampedFifo.hpp:42-44 | the timestamp of the youngest element |
| TimestampedFifo.Aggregate.Query | cpp/src/TimestampedFifo.hpp:46-48 | the lowered fold of the window |
| TimestampedDABA.LayoutPush | cpp/src/TimestampedDABA.hpp:69-76 | pushing the partial with the back aggregate combined on its right keeps the pointer layout, for the window and times extended |
| TimestampedDABA.LayoutPop | cpp/src/TimestampedDABA.hpp:81-83 | popping the oldest slot while L is not empty shifts every pointer down by one and keeps the layout |
| TimestampedDABA.LayoutFlip | cpp/src/TimestampedDABA.hpp:276-281 | when `l` reaches `b`, moving the pointers makes the front L and the whole back R, and the cached gamma is the fold of R |
| TimestampedDABA.LayoutMoveA | cpp/src/TimestampedDABA.hpp:144-151 | moving `a` left and combining its partial with delta keeps every slot of A holding the fold up to `b` |
| TimestampedDABA.LayoutRA | cpp/src/TimestampedDABA.hpp:157-159 | gamma combined with delta is the fold of the window from `r` to `b` |
| TimestampedDABA.LayoutAdvanceL | cpp/src/TimestampedDABA.hpp:153-162 | combining that aggregate into slot `l` and advancing `l` keeps the layout |
| TimestampedDABA.LayoutFreeRide | cpp/src/TimestampedDABA.hpp:163-168 | when `l`, `r` and `a` meet, advancing all three keeps the layout |
| TimestampedDABA.LayoutQuery | cpp/src/TimestampedDABA.hpp:88-95 | alpha combined with the back aggregate is the fold of the window |
| TimestampedDABA.CachePush | cpp/src/TimestampedDABA.hpp:37-46 | a push leaves the cached R ⊕ A valid |
| TimestampedDABA.CachePop | cpp/src/TimestampedDABA.hpp:37-46 | a pop leaves the cached R ⊕ A valid for the shifted pointers |
| TimestampedDABA.InvPush | cpp/src/TimestampedDABA.hpp:69-76 | the whole invariant, cache included, survives the push |
| TimestampedDABA.InvPopTo | cpp/src/TimestampedDABA.hpp:81-83 | the whole invariant survives the pop, on the values the fields take after it |
| TimestampedDABA.InvFlip | cpp/src/TimestampedDABA.hpp:276-281 | the whole invariant survives the flip and the cache it sets |
| TimestampedDABA.InvMoveA | cpp/src/TimestampedDABA.hpp:144-151 | the whole invariant survives moving `a` |
| TimestampedDABA.InvAdvanceL | cpp/src/TimestampedDABA.hpp:153-162 | the cached or recombined R ⊕ A finishes slot `l` and the invariant survives |
| TimestampedDABA.InvFreeRide | cpp/src/TimestampedDABA.hpp:163-168 | the whole invariant survives the free ride of `l`, `r` and `a` |
| TimestampedDABA.Aggregate.constructor | cpp/src/TimestampedDABA.hpp:60-65 | an empty window, all four pointers at the start, caching as chosen |
| TimestampedDABA.Aggregate.Size | cpp/src/TimestampedDABA.hpp:67 | the size of the window |
| TimestampedDABA.Aggregate.Insert | cpp/src/TimestampedDABA.hpp:69-79 | the window gains the lifted value and the times gain its timestamp |
| TimestampedDABA.Aggregate.Evict | cpp/src/TimestampedDABA.hpp:81-86 | the oldest value and timestamp leave |
| TimestampedDABA.Aggregate.Flip | cpp/src/TimestampedDABA.hpp:276-281 | the new pointer positions of the flip, with window, times and slots unchanged |
| TimestampedDABA.Aggregate.Step | cpp/src/TimestampedDABA.hpp:129-174 | one step of incremental work restores the invariant without changing the window or times |
| TimestampedDABA.Aggregate.MoveA | cpp/src/TimestampedDABA.hpp:144-151 | `a` moves one slot left and the stored state stays consistent |
| TimestampedDABA.Aggregate.AdvanceL | cpp/src/TimestampedDABA.hpp:153-162 | `l` moves one slot right and the stored state stays consistent |
| TimestampedDABA.Aggregate.FreeRide | cpp/src/TimestampedDABA.hpp:163-168 | `l`, `r` and `a` move right together |
| TimestampedDABA.Aggregate.Query | cpp/src/TimestampedDABA.hpp:88-95 | the lowered fold of the window |
| TimestampedDABA.Aggregate.Oldest | cpp/src/TimestampedDABA.hpp:97-99 | the timestamp of the oldest element |
| TimestampedDABA.Aggregate.Youngest | cpp/src/TimestampedDABA.hpp:101-103 | the timestamp of the youngest element |
| TimestampedDABA.Aggregate.NaiveQuery | cpp/src/TimestampedDABA.hpp:105-111 | the recombined partials agree with the lowered fold of the window |
| TimestampedDABALite.InvPush | cpp/src/TimestampedDABALite.hpp:49-58 | appending the partial and combining it onto `_backSum` keeps the invariant for the extended window and times |
| TimestampedDABALite.InvPopTo | cpp/src/TimestampedDABALite.hpp:60-65 | popping the oldest slot keeps the invariant, on the shifted pointers |
| TimestampedDABALite.InvMoveA | cpp/src/TimestampedDABALite.hpp:120-127 | moving `a` left and combining its value with delta keeps the invariant |
| TimestampedDABALite.InvAdvanceL | cpp/src/TimestampedDABALite.hpp:129-135 | combining `_midSum` into slot `l` and advancing `l` keeps the invariant |
| TimestampedDABALite.InvFreeRide | cpp/src/TimestampedDABALite.hpp:136-142 | advancing `l`, `r` and `a` together and reloading `_midSum` from delta keeps the invariant |
| TimestampedDABALite.InvQuery | cpp/src/TimestampedDABALite.hpp:67-74 | alpha combined with `_backSum` is the fold of the window |
| TimestampedDABALite.Aggregate.constructor | cpp/src/TimestampedDABALite.hpp:40-45 | an empty window, both sums at the identity, all pointers at the start |
| TimestampedDABALite.Aggregate.Size | cpp/src/TimestampedDABALite.hpp:47 | the size of the window |
| TimestampedDABALite.Aggregate.Insert | cpp/src/TimestampedDABALite.hpp:49-58 | the window gains the lifted value and the times gain its timestamp |
| TimestampedDABALite.Aggregate.Evict | cpp/src/TimestampedDABALite.hpp:60-65 | the oldest value and timestamp leave |
| TimestampedDABALite.Aggregate.Flip | cpp/src/TimestampedDABALite.hpp:229-236 | the new pointer positions, `_midSum` taking over `_backSum`, and `_backSum` reset |
| TimestampedDABALite.Aggregate.Step | cpp/src/TimestampedDABALite.hpp:105-152 | one step of incremental work, including the reset of both sums on an empty front, restores the invariant |
| TimestampedDABALite.Aggregate.MoveA | cpp/src/TimestampedDABALite.hpp:120-127 | `a` moves one slot left and the stored state stays consistent |
| TimestampedDABALite.Aggregate.AdvanceL | cpp/src/TimestampedDABALite.hpp:129-135 | `l` moves one slot right and the stored state stays consistent |
| TimestampedDABALite.Aggregate.FreeRide | cpp/src/TimestampedDABALite.hpp:136-142 | `l`, `r` and `a` move right together |
| TimestampedDABALite.Aggregate.Query | cpp/src/TimestampedDABALite.hpp:67-74 | the lowered fold of the window |
| TimestampedDABALite.Aggregate.Oldest | cpp/src/TimestampedDABALite.hpp:76-78 | the timestamp of the oldest element |
| TimestampedDABALite.Aggregate.Youngest | cpp/src/TimestampedDABALite.hpp:80-82 | the timestamp of the youngest element |
| TimestampedImplicitTwoStacksLite.FlipStep | cpp/src/TimestampedImplicitTwoStacksLite.hpp:74-80 | one step of the backward flip loop stores in the slot the fold of it and everything newer, leaving the times alone |
| TimestampedImplicitTwoStacksLite.Aggregate.constructor | cpp/src/TimestampedImplicitTwoStacksLite.hpp:33-34 | an empty window, nothing flipped, `_backSum` at the identity |
| TimestampedImplicitTwoStacksLite.Aggregate.Size | cpp/src/TimestampedImplicitTwoStacksLite.hpp:36 | the size of the window |
| TimestampedImplicitTwoStacksLite.Aggregate.Insert | cpp/src/TimestampedImplicitTwoStacksLite.hpp:38-42 | the window gains the lifted value and the times its timestamp; the flipped slots are untouched |
| TimestampedImplicitTwoStacksLite.Aggregate.Flip | cpp/src/TimestampedImplicitTwoStacksLite.hpp:67-84 | the whole queue becomes the front and `_backSum` the identity, with window and times unchanged |
| TimestampedImplicitTwoStacksLite.Aggregate.Evict | cpp/src/TimestampedImplicitTwoStacksLite.hpp:44-49 | the oldest value and timestamp leave |
| TimestampedImplicitTwoStacksLite.Aggregate.Query | cpp/src/TimestampedImplicitTwoStacksLite.hpp:51-59 | the lowered fold of the window |
| TimestampedImplicitTwoStacksLite.Aggregate.Oldest | cpp/src/TimestampedImplicitTwoStacksLite.hpp:61 | the timestamp of the oldest element |
| TimestampedImplicitTwoStacksLite.Aggregate.Youngest | cpp/src/TimestampedImplicitTwoStacksLite.hpp:62 | the timestamp of the youngest element |
| TimestampedTwoStacks.InvPush | cpp/src/TimestampedTwoStacks.hpp:39-45 | pushing the partial with its back aggregate and time extends the window and times and keeps the invariant |
| TimestampedTwoStacks.InvPop | cpp/src/TimestampedTwoStacks.hpp:60 | the front top holds the oldest partial and oldest time, and popping it leaves the rest |
| TimestampedTwoStacks.FlipStep | cpp/src/TimestampedTwoStacks.hpp:51-58 | one flip step carries the value and timestamp over and keeps the window order |
| TimestampedTwoStacks.FlipEnd | cpp/src/TimestampedTwoStacks.hpp:50-59 | after the flip the front alone represents the window and times |
| TimestampedTwoStacks.Aggregate.constructor | cpp/src/TimestampedTwoStacks.hpp:34-35 | two empty stacks: an empty window |
| TimestampedTwoStacks.Aggregate.Size | cpp/src/TimestampedTwoStacks.hpp:37 | the size of the window |
| TimestampedTwoStacks.Aggregate.Insert | cpp/src/TimestampedTwoStacks.hpp:39-45 | the window gains the lifted value and the times its timestamp |
| TimestampedTwoStacks.Aggregate.Flip | cpp/src/TimestampedTwoStacks.hpp:50-59 | the back is emptied onto the front, window and times unchanged |
| TimestampedTwoStacks.Aggregate.Evict | cpp/src/TimestampedTwoStacks.hpp:47-61 | the oldest value and timestamp leave |
| TimestampedTwoStacks.Aggregate.Query | cpp/src/TimestampedTwoStacks.hpp:63-68 | the lowered fold of the window |
| TimestampedTwoStacks.Aggregate.Oldest | cpp/src/TimestampedTwoStacks.hpp:70-73 | the timestamp of the oldest element, from either stack |
| TimestampedTwoStacks.Aggregate.Youngest | cpp/src/TimestampedTwoStacks.hpp:75-78 | the timestamp of the youngest element, from either stack |
| TimestampedTwoStacks.Aggregate.NaiveQuery | cpp/src/TimestampedTwoStacks.hpp:80-89 | the recombined partials agree with the lowered fold of the window |
| TimestampedTwoStacks.FoldDown | cpp/src/TimestampedTwoStacks.hpp:81-84 | the first loop accumulates the front, top down, which is oldest first |
| TimestampedTwoStacks.FoldUp | cpp/src/TimestampedTwoStacks.hpp:85-87 | the second loop appends the back, bottom up |
| TimestampedTwoStacksLite.InvPush | cpp/src/TimestampedTwoStacksLite.hpp:40-45 | pushing the partial and combining it onto `_backSum` extends the window and times and keeps the invariant |
| TimestampedTwoStacksLite.InvPop | cpp/src/TimestampedTwoStacksLite.hpp:61 | the front top stands for the oldest partial and carries the oldest time, and popping it leaves the rest |
| TimestampedTwoStacksLite.FlipStep | cpp/src/TimestampedTwoStacksLite.hpp:51-58 | one flip step stores the combined aggregate with the moved timestamp and keeps the window order |
| TimestampedTwoStacksLite.FlipEnd | cpp/src/TimestampedTwoStacksLite.hpp:59 | after the flip and the reset of `_backSum`, the front alone represents the window |
| TimestampedTwoStacksLite.Aggregate.constructor | cpp/src/TimestampedTwoStacksLite.hpp:35-36 | empty stacks and `_backSum` the identity |
| TimestampedTwoStacksLite.Aggregate.Size | cpp/src/TimestampedTwoStacksLite.hpp:38 | the size of the window |
| TimestampedTwoStacksLite.Aggregate.Insert | cpp/src/TimestampedTwoStacksLite.hpp:40-45 | the window gains the lifted value and the times its timestamp |
| TimestampedTwoStacksLite.Aggregate.Flip | cpp/src/TimestampedTwoStacksLite.hpp:50-60 | the back is emptied onto the front and `_backSum` reset, window and times unchanged |
| TimestampedTwoStacksLite.Aggregate.Evict | cpp/src/TimestampedTwoStacksLite.hpp:47-62 | the oldest value and timestamp leave |
| TimestampedTwoStacksLite.Aggregate.PopFront | cpp/src/TimestampedTwoStacksLite.hpp:61 | popping the front top removes the oldest value and timestamp |
| TimestampedTwoStacksLite.Aggregate.Query | cpp/src/TimestampedTwoStacksLite.hpp:64-72 | the lowered fold of the window |
| TimestampedTwoStacksLite.Aggregate.Oldest | cpp/src/TimestampedTwoStacksLite.hpp:74-77 | the timestamp of the oldest element, from either stack |
| TimestampedTwoStacksLite.Aggregate.Youngest | cpp/src/TimestampedTwoStacksLite.hpp:79-82 | the timestamp of the youngest element, from either stack |
| TwoStacks.InvPush | cpp/src/TwoStacks.hpp:36-41 | pushing the lifted value with the back aggregate combined on its right appends it to the window and keeps both stacks' invariants |
| TwoStacks.InvPop | cpp/src/TwoStacks.hpp:53 | the front stack's top is the oldest partial of the window, and popping it leaves the rest |
| TwoStacks.FlipStep | cpp/src/TwoStacks.hpp:47-51 | moving the back's newest entry onto the front, with its own value combined onto the front aggregate, keeps the window order and both invariants |
| TwoStacks.InvQuery | cpp/src/TwoStacks.hpp:56-61 | the front top combined with the back top is the fold of the whole window |
| TwoStacks.BackAggsArePrefixFolds | cpp/src/TwoStacks.hpp:38-40 | every back entry holds the fold of the back from its bottom through itself |
| TwoStacks.FrontAggsAreSuffixFolds | cpp/src/TwoStacks.hpp:49-50 | every front entry holds the fold, oldest first, of itself and the newer entries beneath it |
| TwoStacks.Aggregate.constructor | cpp/src/TwoStacks.hpp:31-32 | two empty stacks: an empty window |
| TwoStacks.Aggregate.Size | cpp/src/TwoStacks.hpp:34 | the size of the window, the sum of both stacks |
| TwoStacks.Aggregate.Insert | cpp/src/TwoStacks.hpp:36-41 | the window gains the lifted value at its young end |
| TwoStacks.Aggregate.Evict | cpp/src/TwoStacks.hpp:43-54 | the window loses its oldest element, flipping the back stack first when the front is empty |
| TwoStacks.Aggregate.Query | cpp/src/TwoStacks.hpp:56-61 | the lowered fold of the window |
| TwoStacks.Aggregate.NaiveQuery | cpp/src/TwoStacks.hpp:63-72 | the lowered fold of the window, recomputed from the stored values |
| TwoStacks.FlipStacks | cpp/src/TwoStacks.hpp:46-52 | after the flip loop the back is empty and the front alone represents the same window |
| TwoStacks.FoldDown | cpp/src/TwoStacks.hpp:64-67 | the first loop accumulates the front's values from its top down, which is oldest first |
| TwoStacks.FoldUp | cpp/src/TwoStacks.hpp:68-70 | the second loop appends the back's values, bottom up, to what came before |
| TwoStacksLite.InvPush | cpp/src/TwoStacksLite.hpp:35-40 | pushing the bare partial and combining it onto `_backSum` appends it to the window and keeps the invariant |
| TwoStacksLite.InvPop | cpp/src/TwoStacksLite.hpp:53 | the front top stands for the oldest partial of the window, and popping it leaves the rest |
| TwoStacksLite.FlipStep | cpp/src/TwoStacksLite.hpp:46-50 | one flip step stores, for the moved partial, its combination with the front aggregate, and keeps the window order |
| TwoStacksLite.FlipEnd | cpp/src/TwoStacksLite.hpp:51 | after the flip, resetting `_backSum` to the identity restores the invariant with the whole window on the front |
| TwoStacksLite.InvQuery | cpp/src/TwoStacksLite.hpp:56-64 | the front top combined with `_backSum` is the fold of the window |
| TwoStacksLite.FrontHoldsSuffixAggregates | cpp/src/TwoStacksLite.hpp:48-49 | each stored front value is the fold, oldest first, of its partial and the newer ones beneath it |
| TwoStacksLite.Aggregate.constructor | cpp/src/TwoStacksLite.hpp:30-31 | empty stacks and `_backSum` at the identity: an empty window |
| TwoStacksLite.Aggregate.Size | cpp/src/TwoStacksLite.hpp:33 | the size of the window |
| TwoStacksLite.Aggregate.Insert | cpp/src/TwoStacksLite.hpp:35-40 | the window gains the lifted value at its young end |
| TwoStacksLite.Aggregate.Flip | cpp/src/TwoStacksLite.hpp:45-52 | the flip loop empties the back onto the front and leaves the window unchanged |
| TwoStacksLite.Aggregate.Evict | cpp/src/TwoStacksLite.hpp:42-54 | the window loses its oldest element |
| TwoStacksLite.Aggregate.Query | cpp/src/TwoStacksLite.hpp:56-64 | the lowered fold of the window |

## Left out

- Experiment scripts (`experiments/run_*.py`, `process_*.py`, `analyze_ood.py`, `extract_bulk_count.py`): file, CSV and log I/O, subprocesses and plotting, with no logic of the aggregators in them.
- DataTools.ThresholdSample: the draw `random.random() < p*(1+a*math.log10(d+1))` (experiments/data_tools.py:57) is a floating-point, random oracle passed in as a parameter, so the model does not capture the `ValueError` that `log10` raises for `d <= -1`.
- Benchmark drivers, data generators, the `utils.h` timing helpers and the Rust benches are not part of this model: clocks, inline assembly, argument parsing and file parsing.
- Tests (`cpp/src/*test*.cc`, `rust/tests/*`): concrete scenarios in the model follow some of their runs, but the test programs themselves are not modelled.
- rust/src/flatfit/mod.rs is not part of this model. It states no coherent contract: `back` wraps modulo the size rather than the capacity, the capacity comes from an uninitialised `Vec`, and the module is not declared in `rust/src/lib.rs`.
- rust/src/daba/chunked_array_queue.rs is not part of this model. It is `unsafe` `MaybeUninit` code whose `push_back` and `push_front` disagree on what the end indices mean. The Rust DABA is modelled over a `seq` deque instead.
- rust/src/lib.rs declares the `FifoWindow` and operator traits only. Their documented contract (query is the fold of the window in order) is what every Rust model proves.
- Memory management is not modelled: free lists (cpp/src/FiBA.hpp, cpp/src/AMTA.hpp), `new`/`delete`, `shared_ptr` lifetimes and the leak in `Reactive::reallocTo`. Nodes are Dafny objects and the collector owns them.
- Debug and statistics output is not modelled: `print`, `printPython`, `IF_COLLECT_STATS`, the `std::cerr` traces and `MakeRandomTree` (which uses `rand()`).
- The C++ aggregation-function header is not part of this model. `binOpFunc` is an abstract monoid (`Monoid.BinOp`), so floating-point operators such as the geometric mean are not modelled.
- The factory wrappers `make_aggregate`, `MakeAggregate` and `MakeBulkAggregate`, and the `rb`/timestamped type aliases, are not modelled: they only forward to constructors.
- The `naive_query` stubs that only `throw` (cpp/src/TwoStacksLite.hpp:66-68, cpp/src/TimestampedTwoStacksLite.hpp:83-85, cpp/src/TimestampedDABALite.hpp:84-87, cpp/src/RingBufferDABALite.hpp:68-71) are not modelled, and neither is OkasakisQueue's `naive_query`, which returns the identity (cpp/src/OkasakisQueue.hpp:112-115). OkasakisQueue's destructor (117-121) is memory management.
- SumOp.Operate and SumOp.FoldIsTotal: `operate` adds partials as unbounded integers, so the overflow of a fixed-width value type in `self.val + other.val` (rust/src/ops/sum/mod.rs:127-131) is not modelled. Lifting and lowering do model the `NumCast` range checks.
- OpsI32.Wrap: integer sums wrap in two's complement, as a release build does. The panic that a debug build raises on `i32` overflow (rust/src/ops/mod.rs:85-95) is not modelled.
- OpsI32.MeanLower: it models the `to_usize().unwrap()` panic on a negative sum and the division by a zero count. The final `NumCast::from(...).unwrap()` into `Out` (rust/src/ops/mod.rs:178-180) is not modelled, because `Out` is an unbounded integer here.
- OpsI32.MeanOperate and MeanOp.Operate: the `MeanPartial` sum and count are unbounded integers, so the overflow of `In` and `usize` in `operate` (rust/src/ops/mod.rs:228-231, rust/src/ops/mean/mod.rs) is not modelled.
- MeanOp.Lower: the mean is an integer quotient that rounds toward zero. A floating-point output type is not modelled.
- RingBufferQueue.RingBufferQueue.Back: it returns the element at the corrected slot. As written, the wrap branch advances `_rb->buffer` itself (cpp/src/RingBufferQueue.hpp:196), which corrupts the queue for later calls; that corruption is not modelled (see Findings).
- FiBA.RangeQuery: it starts the recursion at the root for every kind. The finger kind's start at the least common ancestor of the two ends (cpp/src/FiBA.hpp:1803-1811) is not modelled; both starts return the same range aggregate.
- FiBA.Aggregate: the class keeps the window as a sorted `seq` of time-stamped entries. It does not model the B-tree update algorithms: node shifts above leaf level, split, merge and move rebalancing, the repair loops up the tree, the `bulkEvict` cut and the `bulkInsert` multi-search (cpp/src/FiBA.hpp:619-970, 1327-1480, 1719-1780). Node-level operations are modelled separately, in FiBANode on leaves and in FiBA's query, search and range query over a `Node` tree, but the class is not connected to a `Node` tree. The classic, knuckle and finger kinds differ only in fingers and spines, and the `minArity` bounds are checked only as shape predicates on `Node` trees.
- FiBA's `localCheckInvariant` and `checkInvariant` debugging checks are not modelled as code. What they check is stated as `Valid()` and shape predicates.
- AMTA.Aggregate.BulkEvict: requires strictly increasing times. With equal times, the source's shortcut `if (mostRecent == time) break;` (cpp/src/AMTA.hpp:283) and `_slice`'s stop at `time == times[0]` (cpp/src/AMTA.hpp:193-196) can leave elements stamped `time` in a younger root or subtree, and can reach `throw 1` (line 205). The model does not capture that case.
- AMTA.Aggregate.Size: the count is a signed integer in which -1 means "stopped", which is the evident intent. The `size_t` behaviour as written is modelled separately (see Findings).
- BulkAdapter.BulkEvict: requires that some element younger than `time` stays. The loop `while (Base::oldest() <= time)` (cpp/src/BulkAdapter.hpp:18) calls `oldest()` on an empty window otherwise, and that is undefined for the base aggregators.
- DynamicFlatFIT.Aggregate.Evict and the other `evict`/`pop_front` methods on C++ aggregators: require a nonempty window. On an empty window the source pops an empty container, which is undefined behaviour; DynamicFlatFIT instead drives `_size` to -1, so that `rescale_to` throws (cpp/src/DynamicFlatFIT.hpp:63-69, 110-115). The Rust `pop` methods accept an empty window and leave it empty, as the source does.
- Concurrency is out of scope: every aggregator is sequential.

## Findings

| source | as written | input that shows it | evidently intended | confidence | as-written member | corrected member |
|---|---|---|---|---|---|---|
| rust/src/soe/mod.rs:36 | `pop` updates the aggregate as `agg.operate(&top.two_sided_inverse())`, putting the inverse of the oldest value on the right | in the dihedral group: push a reflection, push a translation by one, pop; the aggregate becomes the translation by -1 while the window holds the translation by +1 | the inverse on the left, `inverse(oldest) ⊕ agg`, which equals the fold of the remaining window in every group | not executed; the update as written is right in commutative groups, which are the only sums the tests use | RustSoE.AsWrittenPopIsWrong | RustSoE.SoE.Pop |
| cpp/src/RingBufferQueue.hpp:192-199 | when `back` sits at slot 0, `back()` advances `_rb->buffer` by the capacity instead of the local pointer, then reads one before the buffer's start | in dynamic mode: push 1, 2, 3; pop three times; push 4; `back()` reads slot -1 | start from the last slot of the ring, which holds 4 | not executed | RingBufferQueue.BackWrapReachable | RingBufferQueue.RingBufferQueue.Back |
| cpp/src/AMTA.hpp:247 | `bulkEvict` sets the `size_t` `_size` to -1, that is 2^64-1, and `if (_size >= 0) _size++;` (line 357) is always true on an unsigned count, so the "stopped" mark wraps away | insert(1), insert(2), bulkEvict(1), insert(3); `size()` returns 0 while two elements are in the window | a signed count that stays -1 once a bulk eviction stopped it | not executed | AMTA.SizeAfterBulkEvictScenario | AMTA.Aggregate.Size |
| cpp/src/Reactive.hpp:96-127 | `propagate` with nothing recorded and a wrapped window skips the climb and returns `q[fi] ⊕ q[bi]` | integer sum: insert 1, 2, 3, evict, insert 4 and 5, so the window 2, 3, 4, 5 is wrapped; the first query returns 14 and the second returns 7 | every query returns the fold of the window, 14 | not executed | Reactive.QueryTwice | Reactive.QueryTwiceCorrected |
| rust/src/reactive/mod.rs:27-34 | `with_capacity` hands its argument straight to `FlatFAT::with_capacity`, whose tree needs a power-of-two leaf count for the root to fold the leaves in order | concatenation: `with_capacity(3)`, push `[1]`, push `[2]`; the root is `[2, 1]` while the window folds to `[1, 2]` | round the capacity up to a power of two, as `new` and `resize` keep it | not executed | RustReactive.NonPowerOfTwoQuery | RustReactive.Reactive.WithCapacity |
| cpp/src/FiBA.hpp:1381-1468 | `bulkEvict` removes entries without changing `_size` | insert(1, a), insert(2, b), bulkEvict(1); one entry is left while `size()` answers 2 | `_size` reduced by the number of entries dropped | not executed | FiBA.StaleEvictScenario | FiBA.CountedEvictScenario |
| cpp/src/FiBA.hpp:1719-1768 | `bulkInsert` adds entries without changing `_size`, and the time-less `insert(val)` (lines 1484-1493) files at time 0 whenever `_size` is 0, instead of one after the youngest time | bulkInsert({(5, c)}) into an empty finger tree, then insert(d); `d` is filed at time 0, older than `c` | `_size` grown by the number of new times, so `d` is filed at time 6 | not executed | FiBA.StaleInsertScenario | FiBA.CountedInsertScenario |
| cpp/src/ImplicitTwoStacksLite.hpp:37,52 | `_split` is an iterator into the ring buffer, and `front_empty()` compares it with `begin()`; a rescale (cpp/src/RingBufferQueue.hpp:154-167) moves the storage, so the two stop matching | four inserts 1, 2, 3, 4 into a fresh integer-sum aggregator; the fourth rescales, `front_empty()` turns false, and `query` answers 11 for a window summing to 10 | the split kept as a count of flipped elements, which survives a rescale | not executed | ImplicitTwoStacksLite.StaleSplitScenario | ImplicitTwoStacksLite.SplitCountScenario |
