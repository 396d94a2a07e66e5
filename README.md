# vdeque in Dafny

This project models `vdeque`, a C++ header library of ring-buffer containers.
All of them keep their elements in an array `container_` of `capacity_` slots,
with a `front_` slot and a `size_` count. Logical element `i` lives in slot
`(front_ + i) % capacity_`. In the model every container has a ghost
`Contents()`, the sequence of its `size` logical elements, and each operation
is stated as an edit of that sequence.

- `fdt::Deque` (src/deque.h, module `Deques`) is a growable double-ended
  queue:
  - pushes and pops at both ends; a push doubles the buffer once the size
    reaches the capacity;
  - `insert` and range `erase`, which shift the shorter side of the ring in
    place with the `shift_left` and `shift_right` loops;
  - `reserve`, `resize` and `clear`;
  - checked and unchecked access, and snapshot cursors.
- `fdt::LockFreeDeque` (src/deque_lockfree.h, module `LockFreeDeques`) has the
  same algorithm with atomic `size_` and `front_`. It differs in two ways:
  - its `out_of_range` returns instead of throwing, so the checks of `at`,
    `erase` and `insert` only report and the operation continues;
  - its `pop_front` passes the counters through `int`.
- `fdt::LockfreeQueue` (src/LockfreeQueue.h, module `LockfreeQueues`) is a
  FIFO over the same buffer. It has a `tail_` slot for the next push and no
  growth on push.
- `fdt::DequeIterator` (src/DequeIterator.h, module `DequeIterators`) is the
  cursor the containers hand out. It is a value holding a snapshot of the
  buffer pointer, capacity, size and front, plus a logical index. All of its
  fields are `size_t`, so its arithmetic wraps modulo 2^64.
- The root `DequeIterator` (deque_iterator.h, module `RootIterators`) is an
  older cursor over physical slots whose `++` wraps modulo the capacity.

Shared pieces sit in their own modules:

- `RingIndex`: the `size_t` range, modular-arithmetic facts, the view
  `View(buf, start, n)` of `n` ring slots from `start`, and the sequence
  edits (`Inserted`, `Erased`, `ShiftedUp`, `ShiftedDown`, `Filled`).
- `RingBuffers`: the loops both deques run over the buffer.
- `RingEdits`: what each shift-then-write sequence of `insert` and `erase`
  does to the logical contents.
- `Failures`: the two exceptions the containers throw, returned as values
  (`EmptyDeque`, `OutOfRange`).

Where the two disagree, the model follows the code rather than the design
description:

- `erase` also rejects a range that begins at the size, even an empty one.
- Cursor equality does not compare capacities.
- The queue's `push_back` writes at `tail_`, not at `(front + size) % capacity`.
- src/deque_lockfree.h:4 includes the four-field root cursor, but the class
  builds five-field `DequeIterator`s, so the model uses `DequeIterator`.

## Model

| member | source | states |
|---|---|---|
| RingIndex.WrapSub | src/deque.h:343 | `size_t` subtraction: a result in range that agrees with `x - y` modulo 2^64 |
| RingIndex.BackSlot | src/deque.h:341-345 | the slot `off` places before slot `i`, taken modulo the capacity |
| RingIndex.WrapSubSlot | src/deque.h:341-345 | the `size_t` subtraction reaches the intended slot when no wrap happens or when the capacity divides 2^64 |
| RingIndex.WrapSubMissesSlot | src/deque.h:343 | stepping back one slot from slot 0 through `size_t` lands on slot 5 instead of 9 with capacity 10, and on slot 3 instead of 11 with capacity 12 |
| RingIndex.ViewDropFirst | src/deque.h:154-159 | advancing `front` by one slot drops the first logical element |
| RingIndex.ViewFromZero | src/deque.h:213-226 | with `front` at slot 0 the logical elements are the first `size` slots |
| RingEdits.InsertByBackShift | src/deque.h:204-209 | moving `[k, n)` up one slot and writing at position `k` inserts `v` at `k`; on a full ring positions 0 and `n` alias |
| RingEdits.InsertByFrontShift | src/deque.h:200-203 | moving `[0, k)` down one slot, stepping `front` back and writing at `k` inserts `v` at `k`; on a full ring position `n` aliases 0 |
| RingEdits.EraseByFrontShift | src/deque.h:179-182 | moving `[0, b)` up by `e - b` and advancing `front` removes `[b, e)` |
| RingEdits.EraseByBackShift | src/deque.h:183-185 | moving `[e, n)` down by `e - b` removes `[b, e)` |
| RingEdits.PushBackView | src/deque.h:148-149 | writing `v` into the slot after the last element appends it; on a full ring that slot is the first element's, so `v` also replaces it |
| RingEdits.PushFrontView | src/deque.h:140-142 | stepping `front` back one slot and writing `v` there prepends it; on a full ring that slot is the last element's, so `v` also replaces it |
| RingBuffers.ShiftRight | src/deque.h:347-352 | the block `[b, e)` is copied `off` positions up, last position first, so overlapping sources are read before they are overwritten; an empty block leaves the buffer unchanged |
| RingBuffers.SizeTCountdown | src/deque.h:349 | the `size_t` loop counter of `shift_right` yields at most `fuel` iterations |
| RingBuffers.CountdownNeverExits | src/deque.h:349 | with `begin + front == 0` the loop guard never fails, for any number of iterations |
| RingBuffers.CountdownExits | src/deque.h:349 | with `begin + front > 0` the loop stops after exactly one iteration per position of the block |
| RingBuffers.ShiftLeft | src/deque.h:340-345 | the block `[b, e)` is copied `off` positions down, first position first; an empty block leaves the buffer unchanged |
| RingBuffers.Relocate | src/deque.h:218-221 | a fresh buffer of `n` slots whose first `size` slots hold the logical elements in order |
| RingBuffers.Fill | src/deque.h:233-235 | logical positions `[from, to)` receive `x` and no other position changes |
| RingBuffers.CopyOut | src/deque.h:82-90 | stepping a cursor from `begin()` to `end()` copies the other container's elements, in order, into slots `0..size-1`; later slots are untouched |
| RingBuffers.CloseFront | src/deque.h:179-181 | `shift_right(0, b, e - b)` followed by advancing the ring's start by `e - b` leaves `[b, e)` removed |
| RingBuffers.CloseBack | src/deque.h:183-185 | `shift_left(e, n, e - b)` leaves `[b, e)` removed from the first `n - (e - b)` positions; with `e` past the end nothing moves |
| RingBuffers.OpenFront | src/deque.h:201-207 | `shift_left(0, k, 1)`, then the write at position `k` of the ring starting one slot earlier, inserts `v` at `k`; on a full ring the last element is lost |
| RingBuffers.OpenBack | src/deque.h:205-207 | `shift_right(k, n, 1)`, then the write at position `k`, inserts `v` at `k`; on a full ring the last element lands in the first element's slot; past the end nothing moves |
| DequeIterators.AsInt32 | src/DequeIterator.h:151 | `(int)` of a `size_t`: a 32-bit value congruent to the input modulo 2^32, equal to it when it fits |
| DequeIterators.DequeIterator.Deref | src/DequeIterator.h:71-74 | `*it` is logical element `index` of the snapshot |
| DequeIterators.DequeIterator.Subscript | src/DequeIterator.h:76-79 | `it[k]` reads what `*` reads after `+= k` |
| DequeIterators.DequeIterator.Incremented | src/DequeIterator.h:91-95 | `++` adds one to the index, wrapping to 0 after `SIZE_MAX`; no other field changes |
| DequeIterators.DequeIterator.Decremented | src/DequeIterator.h:98-102 | `--` subtracts one from the index, wrapping to `SIZE_MAX` below 0; no other field changes |
| DequeIterators.DequeIterator.PostIncrement | src/DequeIterator.h:104-109 | `it++` yields the old cursor and leaves `it` incremented |
| DequeIterators.DequeIterator.PostDecrement | src/DequeIterator.h:111-116 | `it--` yields the old cursor and leaves `it` decremented |
| DequeIterators.DequeIterator.AddAssign | src/DequeIterator.h:118-122 | `+= k` adds `k` to the index when the sum stays in range; no other field changes |
| DequeIterators.DequeIterator.SubAssign | src/DequeIterator.h:124-128 | `-= k` subtracts `k` from the index when the difference stays in range; no other field changes |
| DequeIterators.DequeIterator.Plus | src/DequeIterator.h:130-136 | `it + k` is `it` itself, whatever `k` is: every field, the index included, is unchanged |
| DequeIterators.DequeIterator.Advanced | src/DequeIterator.h:133-135 | the intended `it + k`: a copy of `it` whose index moved by `k` |
| DequeIterators.DequeIterator.Minus | src/DequeIterator.h:144-147 | `it - k` is `it` itself as well |
| DequeIterators.OffsetPlus | src/DequeIterator.h:139-142 | `k + it` is `it` itself |
| DequeIterators.DequeIterator.Difference | src/DequeIterator.h:149-152 | `a - b` is the difference of the indices when both fit in an `int` |
| DequeIterators.DequeIterator.Equal | src/DequeIterator.h:154-157 | `==` implies the same snapshot and the same index |
| DequeIterators.DequeIterator.NotEqual | src/DequeIterator.h:159-162 | `!=` is exactly the negation of `==` |
| DequeIterators.DequeIterator.Less | src/DequeIterator.h:174-177 | `<` implies the same snapshot and excludes `==` |
| DequeIterators.DequeIterator.LessEq | src/DequeIterator.h:164-167 | `<=` is `<` or `==` |
| DequeIterators.DequeIterator.Greater | src/DequeIterator.h:179-182 | `a > b` is `b < a` |
| DequeIterators.DequeIterator.GreaterEq | src/DequeIterator.h:169-172 | `a >= b` is `b <= a` |
| DequeIterators.IncrementDecrement | src/DequeIterator.h:91-102 | `++` and `--` undo each other, also across the wrap |
| DequeIterators.AddSubInverse | src/DequeIterator.h:118-128 | `+= k` and `-= k` undo each other for every index |
| DequeIterators.RepeatedIncrement | src/DequeIterator.h:91-95 | `k` applications of `++` equal `+= k` |
| DequeIterators.Steps | src/DequeIterator.h:91-95 | repeated `++` changes only the index |
| DequeIterators.DifferenceOfAdvance | src/DequeIterator.h:149-152 | the distance from `it` to `it` advanced by `k` is `k` |
| DequeIterators.Trichotomy | src/DequeIterator.h:154-182 | on one snapshot exactly one of `<`, `==`, `>` holds |
| DequeIterators.UnrelatedCursors | src/DequeIterator.h:159-188 | cursors from different snapshots compare unequal, and every ordering between them is false |
| DequeIterators.SameContainerEquivalence | src/DequeIterator.h:184-188 | the snapshot test is reflexive for non-zero capacities, symmetric and transitive |
| DequeIterators.EqualityIgnoresCapacity | src/DequeIterator.h:184-188 | `==` holds exactly when all fields but the capacity agree |
| DequeIterators.PlusDoesNotAdvance | src/DequeIterator.h:130-136 | `it + 1` keeps the index of `it`, while the intended `+` moves it |
| DequeIterators.AdvancedDerefIsSubscript | src/DequeIterator.h:76-79 | with the intended `+`, `*(it + k) == it[k]` |
| RootIterators.SlotIterator.Next | deque_iterator.h:25-27 | `++` moves to the next slot and wraps to 0 after the last; the index stays below the capacity; no other field changes |
| RootIterators.SlotIterator.NotEqual | deque_iterator.h:29-33 | `!=` holds exactly when some field differs, so `a != a` is false |
| RootIterators.Advance | deque_iterator.h:25-27 | repeated `++` changes only the index |
| RootIterators.StepSlot | deque_iterator.h:25-27 | one `++` from slot `i % c` reaches slot `(i + 1) % c` |
| RootIterators.AdvanceIndex | deque_iterator.h:25-27 | after `n` steps the cursor is on slot `(index + n) % capacity` |
| RootIterators.FullLap | deque_iterator.h:25-27 | `capacity` steps bring the cursor back to where it started |
| RootIterators.WithinLapDistinct | deque_iterator.h:25-33 | fewer than `capacity` steps never return to the start, so a loop up to `end` visits each slot once |
| RootIterators.AdvanceDeref | deque_iterator.h:21-27 | `*it` after `n` steps reads slot `(index + n) % capacity`, with no front offset |
| Deques.Deque.constructor | src/deque.h:73-80 | the default deque: 64 slots, empty |
| Deques.Deque.WithCapacity | src/deque.h:76-80 | an empty deque with the requested capacity |
| Deques.Deque.FromSeq | src/deque.h:92-100 | twice as many slots as elements; the contents are the list |
| Deques.Deque.Copy | src/deque.h:82-90 | same capacity and same contents, realigned to slot 0 |
| Deques.Deque.Assign | src/deque.h:107-121 | the other deque's contents, from slot 0; the buffer is replaced by one of twice the other's capacity only when it is smaller |
| Deques.Deque.Reserve | src/deque.h:213-226 | contents unchanged; no-op when `n` does not exceed the capacity, else a fresh buffer of `n` slots with `front` 0 |
| Deques.Deque.Reallocate | src/deque.h:332-338 | contents unchanged and the size ends below the capacity, by doubling once it was reached |
| Deques.Deque.PushBack | src/deque.h:147-152 | appends `v` and grows when full; on a full ring `v` also replaces the first element |
| Deques.Deque.PushFront | src/deque.h:139-145 | prepends `v` and grows when full; on a full ring `v` also replaces the last element |
| Deques.Deque.PopFront | src/deque.h:154-159 | fails with `EmptyDeque` on an empty deque, else drops the first element |
| Deques.Deque.PopBack | src/deque.h:161-165 | fails with `EmptyDeque` on an empty deque, else drops the last element |
| Deques.Deque.Erase | src/deque.h:167-187 | the three range checks in source order, each with its `OutOfRange` values and no change; otherwise removes `[first, last)` |
| Deques.Deque.EraseChecked | src/deque.h:178-186 | both branches (front part moved up, back part moved down) remove `[b, e)` |
| Deques.Deque.CloseFromFront | src/deque.h:179-182 | the front-side branch removes `[b, e)` and keeps the ring valid |
| Deques.Deque.CloseFromBack | src/deque.h:183-186 | the back-side branch removes `[b, e)` and keeps the ring valid |
| Deques.Deque.EraseAt | src/deque.h:189-192 | `erase(it)` fails past the end and otherwise leaves the contents unchanged |
| Deques.Deque.EraseOne | src/deque.h:189-192 | the intended `erase(it)`: removes exactly the element at `it` |
| Deques.Deque.Insert | src/deque.h:194-211 | fails past the end with no change; otherwise inserts `v` before `it` and grows when full |
| Deques.Deque.InsertChecked | src/deque.h:200-210 | after the check: inserts `v` at `k` and keeps the size below the capacity |
| Deques.Deque.OpenAndFill | src/deque.h:200-209 | both sides of the `k < size / 2` choice insert `v` at `k` |
| Deques.Deque.OpenBefore | src/deque.h:200-203 | the front-side branch inserts `v` at `k` |
| Deques.Deque.OpenAfter | src/deque.h:204-209 | the back-side branch inserts `v` at `k` |
| Deques.Deque.Resize | src/deque.h:228-237 | size `n`: a prefix of the old contents, or the old contents padded with `x`; the capacity grows to exactly `n` when exceeded |
| Deques.Deque.ResizeKeepingRoom | src/deque.h:228-237 | the intended `resize`: the same contents with the size left below the capacity |
| Deques.Deque.Clear | src/deque.h:239-243 | empty, `front` 0, same buffer |
| Deques.Deque.CheckNonempty | src/deque.h:363-368 | fails exactly when the deque is empty |
| Deques.Deque.Get | src/deque.h:265-268 | `operator[]` on a position in range reads that logical element |
| Deques.Deque.At | src/deque.h:257-263 | fails with `OutOfRange(i, size)` exactly when `i >= size`, else the element at `i` |
| Deques.Deque.Front | src/deque.h:245-249 | fails on an empty deque, else the first element |
| Deques.Deque.Back | src/deque.h:251-255 | fails on an empty deque, else the last element |
| Deques.Deque.Size | src/deque.h:305-308 | the length of the contents |
| Deques.Deque.Empty | src/deque.h:310-313 | true exactly when the contents are empty |
| Deques.Deque.Capacity | src/deque.h:300-303 | the number of slots of the buffer |
| Deques.Deque.Begin | src/deque.h:290-293 | a cursor on position 0 of the current snapshot: the same buffer, capacity, size and front |
| Deques.Deque.End | src/deque.h:295-298 | `begin()` with index `size` |
| Deques.Deque.BeginReadsContents | src/deque.h:290-293 | `begin()` advanced by `i` reads logical element `i` |
| Deques.Deque.EndIsBeginPlusSize | src/deque.h:290-298 | `end()` is `begin()` advanced by the size, at distance `size` and not before it |
| Deques.EraseLastOfThree | src/deque.h:189-192 | `erase(--end())` on `{1, 2, 3}` leaves three elements, the last still 3; the intended erase leaves two, the last now 2 |
| Deques.ResizeThenPushBack | src/deque.h:228-237 | after `resize(8, 7)` on four slots, `push_back(1)` makes `front()` return 1; with room kept it stays 7 |
| LockFreeDeques.LockFreeDeque.constructor | src/deque_lockfree.h:76-77 | the default deque: 64 slots, empty |
| LockFreeDeques.LockFreeDeque.WithCapacity | src/deque_lockfree.h:79-83 | an empty deque with the requested capacity |
| LockFreeDeques.LockFreeDeque.FromSeq | src/deque_lockfree.h:95-103 | twice as many slots as elements; the contents are the list |
| LockFreeDeques.LockFreeDeque.Copy | src/deque_lockfree.h:85-93 | same capacity and same contents, realigned to slot 0 |
| LockFreeDeques.LockFreeDeque.Assign | src/deque_lockfree.h:110-124 | the other deque's contents from slot 0, doubling its capacity when the current buffer is smaller |
| LockFreeDeques.LockFreeDeque.Reserve | src/deque_lockfree.h:216-229 | contents unchanged; no-op or a fresh buffer of `n` slots with `front` 0 |
| LockFreeDeques.LockFreeDeque.Reallocate | src/deque_lockfree.h:339-345 | contents unchanged and the size ends below the capacity |
| LockFreeDeques.LockFreeDeque.PushBack | src/deque_lockfree.h:150-155 | appends `v` and grows when full |
| LockFreeDeques.LockFreeDeque.PushFront | src/deque_lockfree.h:142-148 | prepends `v` and grows when full |
| LockFreeDeques.LockFreeDeque.PopFront | src/deque_lockfree.h:157-164 | `check_nonempty` still fails on an empty deque; else drops the first element |
| LockFreeDeques.LockFreeDeque.PopBack | src/deque_lockfree.h:166-170 | fails on an empty deque, else drops the last element |
| LockFreeDeques.LockFreeDeque.Erase | src/deque_lockfree.h:172-192 | no failure: a range within the size is removed; a range ending past the size shortens the deque by its length from the back |
| LockFreeDeques.LockFreeDeque.CloseFromFront | src/deque_lockfree.h:185-188 | the front-side branch removes `[b, e)` |
| LockFreeDeques.LockFreeDeque.CloseFromBack | src/deque_lockfree.h:189-192 | the back-side branch removes `[b, e)`; with `e` past the size nothing moves and the size still drops by `e - b`, losing the last elements |
| LockFreeDeques.LockFreeDeque.EraseAt | src/deque_lockfree.h:194-197 | `erase(it)` leaves the contents unchanged for every `it` |
| LockFreeDeques.LockFreeDeque.Insert | src/deque_lockfree.h:199-214 | no failure: within the size `v` is inserted before `it`; past the end the size still grows and `v` lands in the slot of position `it.index` |
| LockFreeDeques.LockFreeDeque.OpenAndFill | src/deque_lockfree.h:204-212 | both sides of the `k < size / 2` choice insert `v` at `k`, and a position past the end only writes its slot |
| LockFreeDeques.LockFreeDeque.OpenBefore | src/deque_lockfree.h:204-207 | the front-side branch inserts `v` at `k` |
| LockFreeDeques.LockFreeDeque.OpenAfter | src/deque_lockfree.h:208-212 | the back-side branch inserts `v` at `k`; past the end nothing moves |
| LockFreeDeques.PastEndInsertWraps | src/deque_lockfree.h:200-211 | a past-the-end insert with `k + front >= 2^64` wraps the bound of `shift_right` below `front`; the countdown then runs once per slot from the bound up (src/deque_lockfree.h:356), or never stops when the bound is 0 |
| LockFreeDeques.LockFreeDeque.Put | src/deque_lockfree.h:211-212 | only the slot of position `k`, computed in `size_t`, changes |
| LockFreeDeques.LockFreeDeque.Resize | src/deque_lockfree.h:231-240 | size `n`: a prefix of the old contents, or the old contents padded with `x` |
| LockFreeDeques.LockFreeDeque.Clear | src/deque_lockfree.h:242-246 | empty, `front` 0, same buffer |
| LockFreeDeques.LockFreeDeque.CheckNonempty | src/deque_lockfree.h:371-376 | fails exactly when the deque is empty |
| LockFreeDeques.LockFreeDeque.Get | src/deque_lockfree.h:260-271 | `at` and `operator[]` never fail; a position in range reads that element |
| LockFreeDeques.LockFreeDeque.Front | src/deque_lockfree.h:248-252 | fails on an empty deque, else the first element |
| LockFreeDeques.LockFreeDeque.Back | src/deque_lockfree.h:254-258 | fails on an empty deque, else the last element |
| LockFreeDeques.LockFreeDeque.Size | src/deque_lockfree.h:308-311 | the length of the contents |
| LockFreeDeques.LockFreeDeque.Empty | src/deque_lockfree.h:313-316 | true exactly when the contents are empty |
| LockFreeDeques.LockFreeDeque.Capacity | src/deque_lockfree.h:303-306 | the number of slots of the buffer |
| LockFreeDeques.LockFreeDeque.Begin | src/deque_lockfree.h:293-296 | a cursor on position 0 of the current snapshot: the same buffer, capacity, size and front |
| LockFreeDeques.LockFreeDeque.End | src/deque_lockfree.h:298-301 | `begin()` with index `size` |
| LockFreeDeques.LockFreeDeque.BeginReadsContents | src/deque_lockfree.h:293-296 | `begin()` advanced by `i` reads logical element `i` |
| LockFreeDeques.LockFreeDeque.EndIsBeginPlusSize | src/deque_lockfree.h:293-301 | `end()` is `begin()` advanced by the size |
| LockfreeQueues.LockfreeQueue.constructor | src/LockfreeQueue.h:67-74 | 64 slots, empty, with the tail in agreement |
| LockfreeQueues.LockfreeQueue.WithCapacity | src/LockfreeQueue.h:70-74 | an empty queue with the requested capacity and the tail in agreement |
| LockfreeQueues.LockfreeQueue.FromSeq | src/LockfreeQueue.h:87-96 | twice as many slots as elements, the contents are the list, and the tail sits just past them |
| LockfreeQueues.LockfreeQueue.PushBack | src/LockfreeQueue.h:138-144 | writes at `tail`, steps `tail` and the size, never grows; keeps the tail in agreement and then appends `v` when there was room |
| LockfreeQueues.LockfreeQueue.PopFront | src/LockfreeQueue.h:146-152 | fails on an empty queue; else `front` steps, the first element goes, and the tail stays in agreement |
| LockfreeQueues.LockfreeQueue.Reserve | src/LockfreeQueue.h:154-167 | contents unchanged, `front` 0 after growth, `tail` left where it was |
| LockfreeQueues.LockfreeQueue.ReserveRealigned | src/LockfreeQueue.h:154-167 | the intended `reserve`: after growth the tail agrees again |
| LockfreeQueues.LockfreeQueue.Clear | src/LockfreeQueue.h:169-173 | empty and `front` 0, `tail` left where it was |
| LockfreeQueues.LockfreeQueue.ClearRealigned | src/LockfreeQueue.h:169-173 | the intended `clear`: the tail agrees again |
| LockfreeQueues.LockfreeQueue.CheckNonempty | src/LockfreeQueue.h:266-271 | fails exactly when the queue is empty |
| LockfreeQueues.LockfreeQueue.Front | src/LockfreeQueue.h:175-179 | fails on an empty queue, else the first element |
| LockfreeQueues.LockfreeQueue.Get | src/LockfreeQueue.h:181-192 | `at` and `operator[]` never fail; a position in range reads that element |
| LockfreeQueues.LockfreeQueue.Size | src/LockfreeQueue.h:224-227 | the length of the contents |
| LockfreeQueues.LockfreeQueue.Empty | src/LockfreeQueue.h:229-232 | true exactly when the contents are empty |
| LockfreeQueues.LockfreeQueue.Capacity | src/LockfreeQueue.h:219-222 | the number of slots of the buffer |
| LockfreeQueues.LockfreeQueue.Begin | src/LockfreeQueue.h:209-212 | a cursor on position 0 of the current snapshot: the same buffer, capacity, size and front |
| LockfreeQueues.LockfreeQueue.End | src/LockfreeQueue.h:214-217 | `begin()` with index `size` |
| LockfreeQueues.Relay | demo/main.cpp:14-45 | a producer that waits while the queue is full and a consumer that waits while it is empty deliver every message in order, under any interleaving of whole push and pop operations |
| LockfreeQueues.ClearThenPush | src/LockfreeQueue.h:169-179 | after push 1, `clear`, push 2, `front()` returns 1; with the tail realigned it returns 2 |
| LockfreeQueues.ReserveThenPush | src/LockfreeQueue.h:154-167 | after growth the next push overwrites the first element; with the tail realigned it does not |
| LockfreeQueues.GrowAndPush | src/LockfreeQueue.h:138-167 | the run behind `ReserveThenPush`, with either `reserve` |

## Left out

- Concurrency: the atomics, memory ordering and races of `LockFreeDeque` and
  `LockfreeQueue`. Both are modelled single-threaded, and every
  `load`/`store`/`fetch_add` is a plain read or write. `Relay` runs the
  demo's two threads as an interleaving chosen by its `schedule` parameter.
  Sleeping and thread creation are not modelled.
- Allocation: allocators, `deallocate` and destructors. Dafny arrays are
  garbage-collected.
- Output: `to_string`, `operator<<`, and the debug output in `insert`
  (src/deque.h:196, 207).
- The initializer-list `operator=` of all three containers. It discards the
  buffer it allocates and then writes into the freed one
  (src/deque.h:123-137, src/deque_lockfree.h:126-140,
  src/LockfreeQueue.h:121-136).
- `LockfreeQueue`'s copy constructor and copy assignment. They use
  `deque.size` without a call (src/LockfreeQueue.h:84, 106), so they do not
  compile once instantiated.
- The const overloads of `front`, `back`, `at`, `[]` and of the cursor's `*`
  and `[]`. Each one calls itself.
- `DequeIterator`'s copy constructor and `operator=` copy all fields; a Dafny
  datatype value already behaves that way.
- `full()` is called by demo/main.cpp:19 but not declared in
  src/LockfreeQueue.h. `Relay` reads it as `size() == capacity()`.
- The benchmark program, and the `std::deque` comparisons in the demo.
- The `end_` field of `LockFreeDeque`, which no operation uses.
- A capacity of 0, including the one an empty initializer list produces.
  Every `%` would then divide by zero, so all constructors require a
  positive capacity.
- Deques.Deque.WithCapacity: requires `2 * capacity` to fit in `size_t`, so
  that `reallocate`'s doubling cannot wrap. The same requirement appears on
  every Deque and LockFreeDeque operation that may grow.
- Deques.Deque.Assign: self-assignment, and two deques sharing one buffer,
  are excluded. Self-assignment resets `front_` to 0 before it copies from
  itself, so it reads from the wrong slots.
- LockFreeDeques.LockFreeDeque.Assign: self-assignment, and two deques
  sharing one buffer, are excluded, although `operator=` has no guard
  (src/deque_lockfree.h:110-124). Self-assignment keeps the size and
  capacity, sets `front_` to 0, and copies each of slots `0..size-1` onto
  itself. The contents become the elements of those slots. They equal the
  old contents only when `front_` was already 0.
- Deques.Deque.Insert: excludes an insert at position 0 into a full ring of
  one slot. There the code never returns: `front_` is 0 and it calls
  `shift_right(0, 1, 1)`. Position 1 of that ring is allowed. The same holds
  for `InsertChecked`, `OpenAndFill` and `LockFreeDeque`'s `Insert` and
  `OpenAndFill`.
- Deques.Deque.PushBack: `size == capacity` is reachable only through
  `resize`. The model keeps it and states the overwrite it causes instead of
  excluding it.
- LockFreeDeques.LockFreeDeque.PopFront: requires size and front below
  2^31 - 1, where the `int` temporaries keep their values. Beyond that the
  stored values would be those of the 32-bit conversion.
- LockFreeDeques.LockFreeDeque.Erase: requires `first.index <= last.index`,
  a length no larger than the size, and `first.index + last.index` without
  `size_t` wrap. Past those bounds the unchecked `size_t` subtractions wrap
  the size itself.
- LockFreeDeques.LockFreeDeque.EraseAt: requires twice the index to fit in
  `size_t`, the same no-wrap condition as `Erase`.
- LockfreeQueues.LockfreeQueue.PushBack: requires `tail` to fit in an `int`
  (src/LockfreeQueue.h:140). The stored slot index passes through one.
- LockfreeQueues.LockfreeQueue.Reserve: requires a growth target that holds
  all elements. An over-full queue, pushed past its capacity, would
  otherwise make the copy loop write past the new buffer.
- DequeIterators.DequeIterator.Minus: `-INT_MIN` overflows, so that offset
  is excluded.
- DequeIterators.DequeIterator.Difference: the result is the difference of
  the two 32-bit conversions. The overflow of that `int` subtraction, when
  both conversions are far apart, is not modelled.
- RootIterators.SlotIterator.Deref: reads `container_[index_]` and has no
  contract of its own. `AdvanceDeref` states what it reads.
- The root cursor's constructor is the datatype constructor.

The members below use the corrected `shift_right` and `shift_left` (see
"## Findings"). On the inputs each line names they promise the intended
result, where the code as written never returns or loses elements. A
`shift_right` with `begin + front_ == 0` never returns, because its `size_t`
counter cannot drop below 0 (src/deque.h:347-352,
src/deque_lockfree.h:355-359). A `shift_left` that steps back from slot 0
writes slot `(2^64 - 1) % capacity_`, which is slot `capacity_ - 1` only when
`capacity_` divides 2^64 (src/deque.h:340-345, src/deque_lockfree.h:348-352).
Any other slot it writes may hold a live element, which is then lost as well.
The lock-free `insert` also goes on past a failed range check. A position `k`
with `k + front_ >= 2^64`, such as the index of `--begin()`, then wraps the
bound of `shift_right(k, size_, 1)` to a slot before `front_`
(`PastEndInsertWraps`). From there the loop moves slots up, or never stops
when the bound is 0.

- RingBuffers.CloseFront: promises the erased view also when `front` is 0,
  where `shift_right(0, b, e - b)` never returns.
- RingBuffers.OpenBack: promises the inserted view also when `k` and `front`
  are both 0, where `shift_right(0, n, 1)` never returns. Past the end
  (`n < k`) it promises that nothing moves, also when `k + front` reaches
  2^64. There the wrapped bound lies before `front`, and the code moves the
  slots from it up to the last element, or never returns when it is 0.
- RingBuffers.OpenFront: promises the inserted view also when `front` is 0,
  `k` is at least 1 and the capacity does not divide 2^64. There the first
  element is copied to slot `(2^64 - 1) % capacity` and lost. That slot may
  hold a live element, which is then overwritten too.
- Deques.Deque.Erase: promises the erased contents also for a range in the
  front half (`first.index + last.index < size`) when `front` is 0, where
  the code never returns (src/deque.h:178-180). This includes the empty
  range at any index `i` with `2 * i < size`.
- Deques.Deque.EraseChecked: the same inputs as `Erase`.
- Deques.Deque.CloseFromFront: promises the erased contents also when
  `front` is 0, where the code never returns.
- Deques.Deque.EraseAt: promises unchanged contents also when
  `2 * it.index < size` and `front` is 0, where the code never returns.
- Deques.Deque.EraseOne: promises the element's removal also when
  `2 * it.index + 1 < size` and `front` is 0, where the corrected `+` would
  still reach the hanging `shift_right`.
- Deques.Deque.Insert: promises the inserted contents in two more cases. The
  first is inserting at position 0 into a deque of at most one element with
  `front` 0, where `shift_right(0, size, 1)` never returns
  (src/deque.h:203-205). The second is inserting at a position `k` with
  `1 <= k < size / 2` when `front` is 0 and the capacity does not divide
  2^64. There the first element is lost, and a live element in slot
  `(2^64 - 1) % capacity` may be overwritten too (src/deque.h:199-201).
- Deques.Deque.InsertChecked: the same inputs as `Insert`.
- Deques.Deque.OpenAndFill: the same inputs as `Insert`.
- Deques.Deque.OpenBefore: promises the inserted contents also when `front`
  is 0, `k` is at least 1 and the capacity does not divide 2^64. There the
  first element is lost, and a live element in slot `(2^64 - 1) % capacity`
  may be overwritten too.
- Deques.Deque.OpenAfter: promises the inserted contents also at position 0
  of a deque with `front` 0, where the code never returns.
- LockFreeDeques.LockFreeDeque.Erase: promises the erased contents also for
  a range in the front half when `front` is 0, where the code never returns
  (src/deque_lockfree.h:184-186).
- LockFreeDeques.LockFreeDeque.CloseFromFront: promises the erased contents
  also when `front` is 0, where the code never returns.
- LockFreeDeques.LockFreeDeque.EraseAt: promises unchanged contents also
  when `2 * it.index < size` and `front` is 0, where the code never returns.
- LockFreeDeques.LockFreeDeque.Insert: the two cases of `Deques.Deque.Insert`
  (src/deque_lockfree.h:204-210). A third is a past-the-end insert into an
  empty deque with `front` 0. There the countdown starts at 2^64 - 1 and
  runs about 2^64 steps. The fourth is a past-the-end position with
  `it.index + front >= 2^64`, such as the index of `--begin()`. There the
  bound wraps below `front`. With capacity 8, `front` 2 and `{a, b, c}`, the
  index 2^64 - 1 gives bound 1: slots 1 to 4 move up one place, `v` goes to
  slot 1, and the contents become the old slot 1 followed by `a, b, c`. With
  `front` 1 the bound is 0 and the code never returns. In all four cases the
  model promises the single write of `v` and nothing moved.
- LockFreeDeques.LockFreeDeque.OpenAndFill: the same inputs as `Insert`.
- LockFreeDeques.LockFreeDeque.OpenBefore: promises the inserted contents
  also when `front` is 0, `k` is at least 1 and the capacity does not divide
  2^64. There the first element is lost, and a live element in slot
  `(2^64 - 1) % capacity` may be overwritten too.
- LockFreeDeques.LockFreeDeque.OpenAfter: promises the inserted contents
  also at position 0 of a deque with `front` 0, and the single write past the
  end of an empty deque with `front` 0. In both cases the code never returns
  or runs about 2^64 steps. Past the end with `k + front >= 2^64` it also
  promises the single write, where the code moves slots or never returns, as
  for `Insert`.

## Findings

| source | as written | input that shows it | evidently intended | confidence | as-written member | corrected member |
|---|---|---|---|---|---|---|
| src/DequeIterator.h:130-136 | `it + k` returns `it` unchanged, so `erase(it)` (src/deque.h:189-192) erases the empty range from `it` to `it` | `erase(--end())` on `{1, 2, 3}` leaves three elements | `it + k` advances a copy by `k`, as the commented-out body does, and `erase(it)` removes one element | high; not executed | Deques.EraseLastOfThree | Deques.Deque.EraseOne |
| src/deque.h:340-345 | `shift_left` computes `(i - offset) % capacity_` in `size_t`; when `i < offset` the wrap lands on slot `(2^64 - 1) % capacity_` | `{1, 2, 3, 4, 5, 6}` (12 slots, `front` 0), insert at position 1: element 1 is copied over element 4 in slot 3 instead of into slot 11, so both are lost; with 10 slots the copy lands on the free slot 5 instead of slot 9 | the slot `offset` places back around the ring, `(i - offset) mod capacity_` | high; not executed | RingIndex.WrapSubMissesSlot | RingBuffers.ShiftLeft |
| src/deque.h:347-352 | `shift_right` counts a `size_t` down while `i >= begin + front_`; with `begin + front_ == 0` the guard never fails | `{1, 2, 3, 4, 5}` (`front` 0), erase positions [1, 2): `shift_right(0, 1, 1)` never returns | the loop stops after the block's first position | high; not executed | RingBuffers.CountdownNeverExits | RingBuffers.ShiftRight |
| src/deque.h:228-237 | `resize` reserves exactly `n` slots, leaving the ring full; the next `push_back` writes into the first element's slot before it grows (src/deque.h:147-152) | `Deque(4)`, `resize(8, 7)`, `push_back(1)`: `front()` is 1 | every mutator leaves `size < capacity`, as `reallocate` does after a push | medium; not executed | Deques.ResizeThenPushBack | Deques.Deque.ResizeKeepingRoom |
| src/LockfreeQueue.h:154-167 | `reserve` moves the elements to slot 0 and sets `front_` to 0 but keeps `tail_` | `LockfreeQueue(2)`, push 1, pop, push 2, `reserve(4)`, push 3: 3 overwrites 2 and `front()` is 3 | `tail_` becomes `size_`, just past the moved elements | high; not executed | LockfreeQueues.ReserveThenPush | LockfreeQueues.LockfreeQueue.ReserveRealigned |
| src/LockfreeQueue.h:169-173 | `clear` resets `size_` and `front_` but keeps `tail_` | `LockfreeQueue(4)`, push 1, `clear()`, push 2: `front()` is 1 | `tail_` returns to 0 with `front_` | high; not executed | LockfreeQueues.ClearThenPush | LockfreeQueues.LockfreeQueue.ClearRealigned |

The hang of row 3 is reached by every call with `begin + front_ == 0`. That
covers every front-half erase (`first.index + last.index < size`) while
`front_` is 0, including `erase(it)` at an index `i` with `2 * i < size`.
It also covers every back-half insert at position 0 while `front_` is 0,
which happens when the deque holds at most one element. In
`LockFreeDeque::insert`, whose range check does not stop the call, a
past-the-end insert into an empty deque with `front_` 0 starts the counter at
`SIZE_MAX`. The wrong slot of row 2 is reached by every front-half insert at a
position `k >= 1` while `front_` is 0, when `capacity_` does not divide 2^64.
Both deques use the corrected `ShiftRight` and `ShiftLeft`. "## Left out"
names each member that promises the corrected result on these inputs.
