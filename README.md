# Simple Multithreading: a verified model of the thread-safe containers

Simple Multithreading is a small C library. It wraps platform threads, locks
and semaphores, and builds three containers on top of them. This project
models those containers and the semaphore beneath the queue, and proves what
they promise:

- **Semaphore** (`semaphores.dfy`, the Unix branch). A bounded counting
  semaphore built from two POSIX counters: `upCounter` holds the free room and
  `downCounter` holds the visible count. Their sum stays at `maxCount`.
  `Sem_SetCount` steps the count toward a target one unit at a time and
  ignores a target above the maximum.
- **Bounded queue** (`queues.dfy`). A ring of `maxLength` preallocated slots,
  the monotonic counters `first` and `last`, and an occupancy semaphore whose
  count mirrors `last - first`. In NOWAIT mode, enqueueing on a full queue
  overwrites the oldest item. The sequence of queued items is ghost state
  (`Contents`). Every enqueue is proved against the value-level function
  `EnqueueSpec`, every dequeue removes exactly the head of `Contents`, and
  enqueue and dequeue both keep the ring layout predicate `RingHolds`.
  `FifoWithoutOverflow` and `OverflowKeepsNewest` then state FIFO order and
  the drop-oldest policy for any sequence of enqueues.
- **Sorted list** (`lists.dfy`). A resizable array of `(key, value)` slots. It
  grows and shrinks in steps of ten. Its live prefix is sorted by key, and keys
  come from an insertion counter. The invariant is `WellFormed`. Removal and
  lookup are proved against the value-level functions `Without`, `Lookup` and
  `Update`.
- **Hash map** (`maps.dfy`). A table from 64-bit hash to a fixed-size value,
  a structural `insertLock`, and one lock per entry. Locks are ghost:
  `entryHeld` is the set of entry locks the caller holds, and `lockLog`
  records every lock event in order. Every operation keeps the log `Ordered`:
  no entry lock is ever requested while `insertLock` is held.

Blocking waits (`sem_wait` on a full or empty semaphore, a WAIT-mode enqueue
on a full queue, a dequeue on an empty one) become preconditions, and so does
re-taking a lock the caller already holds (a self-deadlock): the list's
`requires !held` and the map's `requires hash !in entryHeld`. The string hash
of the hash-table library is passed to the map's constructor as a function
value, `strHash`.

Two points where the code does something its interface does not suggest are
modelled as the code does them:

- `TSL_Insert` returns the incremented insertion counter, one more than the
  key it stored (`thread_safe_lists.c:106-111`). Its header comment
  (`thread_safe_lists.h:58`) calls the result a "newly created mutex
  reference", and the other list calls take an "access key". Passing the
  returned value back as a key therefore names the next entry inserted, not
  this one. `Lists.SortedList.Insert` states the value returned exactly, and
  `Lists.ListScenario` passes `r - 1` back to remove the entry.
- `TSM_ReleaseItem` taps `insertLock` while the caller still holds the entry
  lock (`thread_safe_maps.c:145-156`). The stricter lock order, that
  `insertLock` is never requested while an entry lock is held, is the model's
  predicate `Maps.NoInsertInsideEntry`. `Maps.GetItemTapsInsertInsideEntry`
  proves that a single `TSM_GetItem` on a present hash breaks it. The code does
  keep the converse order, and the model proves it (`Maps.Ordered`): no entry
  lock is requested while `insertLock` is held.

The list's other quirks are kept as written:

- `TSL_GetItemsCount` reports the capacity, not the number of entries.
- `TSL_GetIndexKey` rejects only `index > itemsCount`, so the index
  `itemsCount` reads the first non-live slot.
- A failed `TSL_Remove`, `TSL_GetItem` or `TSL_SetItem` returns with the
  list's lock still held. The ghost flag `held` records this.

## Model

| member | source | states |
|---|---|---|
| Semaphores.Semaphore.constructor | semaphores.c:102-111 | the count starts at `startCount` and the free room at `maxCount - startCount` |
| Semaphores.Semaphore.GetCount | semaphores.c:132-138 | the count is the down counter: at most `maxCount`, and it adds up with the free room to `maxCount` |
| Semaphores.Semaphore.Increment | semaphores.c:120-124 | blocks at the maximum; otherwise the count goes up by exactly one and the counters still sum to `maxCount` |
| Semaphores.Semaphore.Decrement | semaphores.c:126-130 | blocks at zero; otherwise the count goes down by exactly one and the counters still sum to `maxCount` |
| Semaphores.Semaphore.SetCount | semaphores.c:140-157 | a target within the maximum becomes the count, reached in exactly `Distance(old, target)` unit steps that all point the same way; a target above the maximum changes nothing |
| Semaphores.Distance | semaphores.c:146-155 | the number of loop iterations is the gap between the current count and the target, in whichever direction |
| Queues.EnqueueSpec | thread_safe_queues.c:88-95 | an enqueue grows the queue by one below capacity and keeps it at capacity when full; the new item is the newest |
| Queues.EnqueueAll | thread_safe_queues.c:82-99 | a run of enqueues never exceeds the capacity |
| Queues.FifoWithoutOverflow | thread_safe_queues.c:82-99 | without overflow the queue holds exactly what was enqueued, in enqueue order |
| Queues.OverflowKeepsNewest | thread_safe_queues.c:88-95 | with overflow the queue holds the newest `capacity` items, so exactly the oldest are dropped |
| Queues.SlotsDistinct | thread_safe_queues.c:92 | two counters less than `maxLength` apart select different slots |
| Queues.SlotsWrap | thread_safe_queues.c:92-94 | counters exactly `maxLength` apart select the same slot, so a full queue writes over its oldest item |
| Queues.EnqueueRing | thread_safe_queues.c:92-95 | writing at slot `last mod maxLength` and advancing `first` when full stores exactly the sequence `EnqueueSpec` describes |
| Queues.Queue.constructor | thread_safe_queues.c:42-59 | every slot allocated at the item size, both counters at 0, an empty queue and a semaphore at 0 out of `maxLength` |
| Queues.Queue.GetItemsCount | thread_safe_queues.c:77-80 | the count `last - first` is the number of queued items and never exceeds `maxLength` |
| Queues.Queue.Enqueue | thread_safe_queues.c:82-99 | a null buffer fails and changes nothing; otherwise the queue becomes `EnqueueSpec(old queue, item)`, the item lands in slot `last mod maxLength`, `last` advances, `first` advances only when full, and the semaphore count rises by one or stays at the maximum |
| Queues.Queue.Dequeue | thread_safe_queues.c:101-119 | a missing buffer, or NOWAIT on an empty queue, fails and changes nothing; otherwise the oldest item is returned and removed, `first` advances, and the semaphore count drops by one |
| Lists.Without | thread_safe_lists.c:123-150 | removing a key leaves exactly the other keys, and removing an absent key changes nothing |
| Lists.Lookup | thread_safe_lists.c:152-162 | a lookup finds nothing exactly when the key is absent, and what it finds is stored under that key |
| Lists.Update | thread_safe_lists.c:183-195 | an update keeps every key in place, leaves entries under other keys alone, and makes a present key read back the new value |
| Lists.WithoutAt | thread_safe_lists.c:131-139 | in a sorted list, removing by key removes exactly the entry found at that key's position |
| Lists.LookupAt | thread_safe_lists.c:158-161 | in a sorted list, the entry the search finds holds the value a lookup by its key returns |
| Lists.UpdateAt | thread_safe_lists.c:185-190 | in a sorted list, writing into the found entry is the update by key |
| Lists.SortedDrop | thread_safe_lists.c:134-139 | dropping one entry keeps the live entries sorted |
| Lists.BinarySearch | thread_safe_lists.c:158-159 | on the sorted live entries, returns a position holding the key, or -1 exactly when the key is absent |
| Lists.DropSlot | thread_safe_lists.c:134-139 | after a removal the live entries before and after the removed one close up, the vacated slot follows them, and the slots past the live range are kept |
| Lists.ShrunkLength | thread_safe_lists.c:141-145 | the capacity drops by exactly ten exactly when the entries fall more than ten below it, never grows, and still holds every entry |
| Lists.RemoveWellFormed | thread_safe_lists.c:134-145 | closing up and shrinking by ten when the entries fall more than ten below capacity keeps the list well formed and never grows it |
| Lists.InsertWellFormed | thread_safe_lists.c:93-107 | growing by ten when full and storing under the insertion counter keeps the list well formed and appends the new entry |
| Lists.SetWellFormed | thread_safe_lists.c:190 | overwriting a found entry's value keeps the list well formed |
| Lists.SortedList.constructor | thread_safe_lists.c:47-62 | ten vacant slots, no entries, both counters at 0 |
| Lists.SortedList.GetItemsCount | thread_safe_lists.c:79-82 | reports the capacity: a multiple of ten, at least ten, at least the number of entries and at most ten more |
| Lists.SortedList.Insert | thread_safe_lists.c:89-112 | the new entry is appended under the old insertion counter, above every live key; the result is the new counter, one past the key stored and not a live key; capacity grows by ten exactly when full |
| Lists.SortedList.DropEntry | thread_safe_lists.c:134-145 | the entry at the found position leaves the live range, the count drops by one and the capacity shrinks by the rule |
| Lists.SortedList.Remove | thread_safe_lists.c:123-150 | succeeds exactly when the key is live; on success the entries become `Without(old entries, key)` and the lock is released; on failure nothing changes and the lock stays held |
| Lists.SortedList.AcquireItem | thread_safe_lists.c:152-162 | takes and keeps the lock; returns -1 exactly when the key is absent, and otherwise the position of the entry whose value a lookup of the key returns |
| Lists.SortedList.ReleaseItem | thread_safe_lists.c:164-167 | releases the lock |
| Lists.SortedList.GetItem | thread_safe_lists.c:169-181 | succeeds exactly when the key is live, returns the value stored under it and releases the lock; on failure the lock stays held |
| Lists.SortedList.Overwrite | thread_safe_lists.c:190 | a write through the pointer `TSL_AcquireItem` returned, made while the list lock is held: the value under the found entry's key is replaced and the list stays well formed |
| Lists.SortedList.SetItem | thread_safe_lists.c:183-195 | succeeds exactly when the key is live; the entries become `Update(old entries, key, value)` when a value is given and stay as they were otherwise; the lock is released on success and stays held on failure |
| Lists.GetIndexKey | thread_safe_lists.c:114-121 | -1 for a null list or an index past `itemsCount`; the live key at a live index; at index `itemsCount` the removal marker, which is no live key |
| ListRemovalAsWritten.RemoveAsWritten | thread_safe_lists.c:134-139 | as written, the live range after a removal is the first `itemsCount - 1` slots of the marked and re-sorted array |
| ListRemovalAsWritten.MarkedAndSortedIsTheSort | thread_safe_lists.c:135-137 | the marked slot first, then the other entries in order, is sorted and is a permutation of the live slots with the marker written in |
| ListRemovalAsWritten.RemoveAsWrittenLosesLargest | thread_safe_lists.c:134-139 | as written, removing any entry from a list of two or more keeps the dead slot live at position 0, loses the largest key, and differs from the intended removal |
| ListRemovalAsWritten.RemoveAsWrittenCounterexample | thread_safe_lists.c:134-139 | with keys 0 and 1, removing key 0 as written leaves only the dead slot live, while the intended result holds key 1 |
| Maps.SetItemEvents | thread_safe_maps.c:95-107 | the lock calls of `TSM_SetItem`: an `insertLock` hold, then the entry lock taken and released; afterwards no lock is held |
| Maps.AcquireEvents | thread_safe_maps.c:132-140 | the lock calls of `TSM_AcquireItem`: a tap of `insertLock`, then the entry lock of a present hash; afterwards `insertLock` is free and exactly the present hash's entry lock is held |
| Maps.ReleaseEvents | thread_safe_maps.c:147-155 | the lock calls of `TSM_ReleaseItem`: a tap of `insertLock`, then the entry unlock of a present hash; after the matching acquire no lock is held |
| Maps.RemoveEvents | thread_safe_maps.c:120-121 | the lock calls of `TSM_RemoveItem` on a present hash: the entry lock taken and released, without `insertLock`; afterwards no lock is held |
| Maps.GetItemEvents | thread_safe_maps.c:158-172 | the lock calls of `TSM_GetItem` on a present hash: acquire then release; afterwards no lock is held |
| Maps.InsertHeldAppend | thread_safe_maps.c:95-103 | after a log that leaves `insertLock` free, whether it is held depends only on the events that follow |
| Maps.AppendKeepsOrder | thread_safe_maps.c:95-156 | appending an ordered block of lock events to an ordered log keeps the log ordered |
| Maps.SetItemEventsOrdered | thread_safe_maps.c:95-107 | `TSM_SetItem` releases `insertLock` before it takes the entry lock |
| Maps.AcquireReleaseEventsOrdered | thread_safe_maps.c:130-156 | `TSM_AcquireItem` and `TSM_ReleaseItem` each complete their tap of `insertLock` before touching the entry lock |
| Maps.RemoveEventsOrdered | thread_safe_maps.c:120-121 | `TSM_RemoveItem` takes the entry lock with `insertLock` free |
| Maps.GetItemEventsOrdered | thread_safe_maps.c:158-172 | `TSM_GetItem` on a present hash keeps the ordering |
| Maps.GetItemTapsInsertInsideEntry | thread_safe_maps.c:145-172 | `TSM_GetItem` on a present hash requests `insertLock` while holding the entry lock |
| Maps.HashOf | thread_safe_maps.c:89-93 | an integer key is its own hash, a string key hashes with the string hash, and a null string hashes to 0 |
| Maps.SetSpec | thread_safe_maps.c:95-106 | a set adds the hash if it is new (the count grows by one exactly then), leaves other hashes alone, stores the given value, and keeps an existing value when none is given |
| Maps.SetSteps | thread_safe_maps.c:95-106 | the insertion step followed by the copy step is `SetSpec` |
| Maps.SetSpecSizes | thread_safe_maps.c:100-106 | every stored value stays at the item size |
| Maps.RemoveCount | thread_safe_maps.c:125 | deleting a present hash removes exactly one entry, and deleting an absent one none |
| Maps.SetThenGet | thread_safe_maps.c:87-113 | after a set, the hash reads back the value set and every other hash is unaffected |
| Maps.SetTwice | thread_safe_maps.c:96-102 | setting the same hash twice grows the count at most once, and the later value wins |
| Maps.ThreadSafeMap.constructor | thread_safe_maps.c:48-58 | an empty table, no entry lock held, an empty lock log |
| Maps.ThreadSafeMap.GetItemsCount | thread_safe_maps.c:82-85 | the number of distinct live hashes |
| Maps.ThreadSafeMap.SetItem | thread_safe_maps.c:87-113 | returns the key's hash; the table becomes `SetSpec(old table, hash, value)`; the count grows exactly when the hash is new; the lock log grows by an `insertLock` hold (acquire, release), then an entry acquire and release, and stays ordered |
| Maps.ThreadSafeMap.RemoveItem | thread_safe_maps.c:115-128 | succeeds exactly when the hash is present; the hash alone leaves the table and the count drops by one; the entry lock is taken and released first |
| Maps.ThreadSafeMap.AcquireItem | thread_safe_maps.c:130-143 | taps `insertLock`; a present hash has its entry lock taken and kept and its value at that moment returned; an absent hash gives null and takes no lock |
| Maps.ThreadSafeMap.WriteHeld | thread_safe_maps.c:140-142 | a write through the pointer `TSM_AcquireItem` returned, made while the entry lock is held: that entry's value is replaced and no entry is added or removed |
| Maps.ThreadSafeMap.ReleaseItem | thread_safe_maps.c:145-156 | taps `insertLock`, then releases the entry lock of a present hash |
| Maps.ThreadSafeMap.GetItem | thread_safe_maps.c:158-172 | succeeds exactly when the hash is present and returns its value; acquires and releases in either case, so no entry lock stays held |
| Maps.ThreadSafeMap.RunForAllKeys | thread_safe_maps.c:174-186 | every live hash is passed to the operator exactly once, and nothing else is |

## Left out

- Thread creation, the lock primitives and the semaphore's Windows branch are not part of this model. The Windows branch clamps an oversized `Sem_SetCount` target instead of ignoring it.
- Concurrency itself is left out: interleavings, fairness and lock ownership across threads. Locks are ghost flags and logs, and a blocking wait is a precondition.
- The queue's `accessLock` is taken and released inside every call and holds nothing between calls, so it is not modelled.
- The `objectOperator` callback of `TSM_RunForAllKeys` is modelled by the returned sequence of visited hashes. The `insertLock` taps between its iterations are not added to the lock log.
- Allocation failure is not modelled. `malloc`, `calloc` and `realloc` are taken to succeed, so `TSM_SetItem` never takes its `insertionStatus == -1` path that returns hash 0.
- Maps.ThreadSafeMap.SetItem: the lock events are appended after the table update as one block. The model does not place the `kh_get`/`kh_put` inside the `insertLock` hold, or the `memcpy` inside the entry-lock hold (`thread_safe_maps.c:95-107`); it records only the order of the lock events.
- `TSM_RemoveItem` runs `kh_get` and `kh_del` without holding `insertLock` (`thread_safe_maps.c:117-125`). With concurrency left out, the race with a concurrent insertion is not modelled.
- The `map == NULL` checks that `TSM_AcquireItem` and `TSM_ReleaseItem` make after using the map are left out, as are the destruction functions.
- The null-pointer `dataOut` of `TSM_GetItem` and `TSL_GetItem` is left out. Both are modelled as returning the value.
- Memory contents that C leaves undefined are modelled by fixed values. A new map entry holds zeros until written. A vacant list slot holds the removal marker `RemovedKey` (-1).
- Queues.Queue.Enqueue: requires `maxLength > 0` with a non-null buffer, because the C code then takes `last % maxLength` and a zero-capacity queue divides by zero. A null buffer fails first, on any capacity.
- Queues.Queue.Enqueue: does not model wrap-around of the `size_t` counters `first` and `last`. The counters are unbounded integers.
- Lists.SortedList.Insert: does not model the `int` truncation of keys taken from the `size_t` insertion counter.
- Lists.SortedList.Insert: `qsort` runs over all `length` slots with element size `itemSize` instead of `sizeof(Item)`. With a wrong element size the sort is undefined. The model sorts the live entries only; since the new key exceeds every live key, the entries stay in insertion order.
- Lists.BinarySearch: `bsearch` is called with the same wrong element size over all `length` slots. It is modelled as a correct binary search over the live entries.
- Lists.SortedList.Remove: modelled by its evidently intended effect. The entry leaves the live range and the live range closes up. See "## Findings" for what the code does as written.
- Lists.SortedList.GetItem: when `itemSize > sizeof(void*)` the C code copies from the address of its local pointer rather than from the entry. This is undefined behaviour and is not modelled; the model copies the entry's value.
- Lists.SortedList.SetItem: the same `itemSize > sizeof(void*)` redirection makes the C code write over its local pointer instead of the entry. This is not modelled; the model writes the entry's value.
- Maps.ThreadSafeMap.AcquireItem: returns the entry's value rather than a pointer into it. A write through that pointer is modelled as a separate call, `WriteHeld`, made while the entry lock is held. Aliasing of the pointer beyond that is not modelled, including its use after `TSM_ReleaseItem`.
- Lists.SortedList.AcquireItem: returns the entry's slot rather than a pointer to its value. A write through that pointer is modelled by `Overwrite` while the lock is held.
- Lists.GetIndexKey: every vacant slot holds the removal marker -1 in the model, so the result at `index == itemsCount` is always -1, the same value as the rejection path. In the C code that slot holds whatever memory is there: uninitialised after `TSL_Create` or a growth, or the lost largest key after a removal as written.
- Lists.GetIndexKey: requires `index < length` whenever `index <= itemsCount`. At `index == itemsCount == length` the C code reads one slot past the array.

## Findings

| source | as written | input that shows it | evidently intended | confidence | as-written member | corrected member |
|---|---|---|---|---|---|---|
| thread_safe_lists.c:134-139 | `TSL_Remove` marks the removed slot with key `0xFFFFFFFF` (-1 in an `int`), re-sorts ascending, then decrements `itemsCount`. The marker sorts before every live key, so the dead slot stays inside the live range and the entry with the largest key falls out. | insert A (key 0) and B (key 1), then remove key 0: the live range holds only the dead slot, and B is lost | the removed entry leaves the live range and every other entry stays live | high for the ordering under a correct sort; not executed | ListRemovalAsWritten.RemoveAsWrittenLosesLargest | Lists.SortedList.Remove |
