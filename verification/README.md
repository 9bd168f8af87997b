# Concurrent queues of Cpp-ConcurrentQueues, modelled in Dafny

The repository collects bounded and unbounded FIFO queues for passing values
between threads:

- mutex and condition-variable queues over a ring buffer, a
  `boost::circular_buffer`, a `std::deque`, a `std::list` and a two-lock
  `std::queue`;
- the mutex-guarded cursor FIFO of the cppcon2023 collection;
- lock-free single-producer single-consumer (SPSC) rings with cached cursors:
  `alpha::spsc`, `beta::spsc`, `StdAtomicSPSCQueue`, `Fifo4b` and `Fifo5b`;
- two sequence-number multi-producer multi-consumer (MPMC) rings:
  `mpmc_bounded_queue` (Vyukov's queue) and `StdAtomicMPMCQueue`.

Each queue is modelled under sequential semantics, one module per class. The
state is an immutable datatype with a `Valid` invariant. An abstraction
`Items` maps it to the queued values as a `seq<T>`, oldest first. Every
operation is a pure step function whose contract says how it changes `Items`:

- an append;
- removal of the front item, which is handed back;
- or no change, together with the exact condition under which the operation
  refuses.

Blocking operations become one successful step whose precondition is "not
full" or "not empty". Condition-variable waits, spin loops and CAS retry loops
all end this way. A `pop` that fails leaves the caller's variable untouched.
The model takes that variable as an argument and hands it back on failure.

Shared modules:

- `Circular`: the window of `n` slots starting at cursor `start` modulo the
  slot count, with lemmas for appending, popping and overwriting.
- `Bits`: bitwise AND on naturals, with `cursor & (C - 1) == cursor % C` for
  power-of-two `C`.
- `QueueResults`: the `(queue, ok, item)` results.
- `SeqFifo`: the unbounded FIFO shared by the deque, list and two-lock
  queues, with the all-inputs push/pop lemmas.
- `SequenceRing`: the per-slot sequence-number protocol common to both MPMC
  queues.

Cursors are unbounded naturals, except where the source wraps them explicitly
(`Fifo4b`).

## Model

| member | source | states |
|---|---|---|
| RingBuffer.Create | RingBuffer.h:10 | a new buffer has `capacity` slots and holds nothing |
| RingBuffer.Front | RingBuffer.h:12 | on a non-empty buffer, `front()` is the oldest item |
| RingBuffer.Back | RingBuffer.h:14 | on a non-empty buffer, `back()` (the slot before `tail`, wrapping to the last slot) is the newest item |
| RingBuffer.PushBack | RingBuffer.h:16-24 | keeps the cursor invariant `tail == (head + size) % C`; appends when not full; when full, drops the oldest item and appends, keeping the size at capacity |
| RingBuffer.PopFront | RingBuffer.h:26-29 | on a non-empty buffer, removes exactly the oldest item and keeps the invariant |
| RingBuffer.Size | RingBuffer.h:31 | `size()` is the number of buffered items and never exceeds the capacity |
| RingBuffer.Empty | RingBuffer.h:32 | `empty()` holds iff no item is buffered |
| RingBuffer.Full | RingBuffer.h:33 | `full()` holds iff the buffer holds `capacity()` items |
| RingBuffer.Capacity | RingBuffer.h:36 | the private `capacity()`, the vector's length, bounds the number of buffered items |
| MutexRingBufferQueue.Create | MutexRingBufferQueue.h:16 | a new queue is empty with high-water mark 0 |
| MutexRingBufferQueue.CreateDefault | MutexRingBufferQueue.h:16 | with the default argument, a new queue has 256 slots, holds nothing and has high-water mark 0 |
| MutexRingBufferQueue.Insert | MutexRingBufferQueue.h:22-23 | the shared critical section appends the item and sets `max_size_` to the larger of its old value and the new size |
| MutexRingBufferQueue.TryPush | MutexRingBufferQueue.h:29-38 | returns true iff the queue was not full, then appends and sets `max_size_` to the larger of its old value and the new size; false leaves the queue unchanged |
| MutexRingBufferQueue.Push | MutexRingBufferQueue.h:18-27 | after the wait for space, appends, sets `max_size_` to the larger of its old value and the new size, and returns true |
| MutexRingBufferQueue.TryPop | MutexRingBufferQueue.h:51-60 | returns true iff the queue was not empty, yielding the oldest item and removing it; false leaves queue and out-argument unchanged |
| MutexRingBufferQueue.Pop | MutexRingBufferQueue.h:40-49 | after the wait for data, yields and removes the oldest item |
| MutexRingBufferQueue.TryPushAllAppends | MutexRingBufferQueue.h:29-38 | `try_push` of values that fit succeeds every time and appends them in order |
| MutexRingBufferQueue.TryPopNTakes | MutexRingBufferQueue.h:51-60 | `n` `try_pop` calls on `n` or more items return the first `n` in order and leave the rest |
| MutexRingBufferQueue.SequentialPushPop | MutexRingBufferQueue.h:29-60 | values pushed into an empty queue come back from `try_pop` in the same order |
| MutexRingBufferQueue.CapacityFourScenario | MutexRingBufferQueue.h:29-49 | with capacity 4: four pushes succeed, the fifth fails, a pop returns the first value, and a push succeeds again |
| BoostBoundedBuffer.PushFront | BoostBoundedBufferRingBased.h:29 | `push_front` puts the value at index 0, shifts the rest back, and drops the last entry when the buffer is at capacity |
| BoostBoundedBuffer.Create | BoostBoundedBufferRingBased.h:19-20 | a new buffer has nothing unread |
| BoostBoundedBuffer.CreateDefault | BoostBoundedBufferRingBased.h:19-20 | with the default argument, a new buffer has room for 2048 items and nothing unread |
| BoostBoundedBuffer.IsNotEmpty | BoostBoundedBufferRingBased.h:68 | `is_not_empty()` holds iff there is an unread item |
| BoostBoundedBuffer.IsNotFull | BoostBoundedBufferRingBased.h:69 | `is_not_full()` holds iff fewer than `capacity` items are unread |
| BoostBoundedBuffer.Insert | BoostBoundedBufferRingBased.h:29-30 | `push_front` then `++m_unread` appends the value as the newest unread item |
| BoostBoundedBuffer.Take | BoostBoundedBufferRingBased.h:51 | `m_container[--m_unread]` is the oldest unread item, and it is removed |
| BoostBoundedBuffer.TryPush | BoostBoundedBufferRingBased.h:36-45 | true iff not full, then appends; false changes nothing |
| BoostBoundedBuffer.Push | BoostBoundedBufferRingBased.h:25-34 | after the wait for space, appends and returns true |
| BoostBoundedBuffer.TryPop | BoostBoundedBufferRingBased.h:57-65 | true iff not empty, yielding and removing the oldest item; false leaves queue and out-argument unchanged |
| BoostBoundedBuffer.Pop | BoostBoundedBufferRingBased.h:47-55 | after the wait for data, yields and removes the oldest item |
| BoostBoundedBuffer.TryPushAllAppends | BoostBoundedBufferRingBased.h:36-45 | `try_push` of values that fit succeeds every time and appends them in order |
| BoostBoundedBuffer.TryPopNTakes | BoostBoundedBufferRingBased.h:57-65 | `n` `try_pop` calls return the `n` oldest items in order |
| BoostBoundedBuffer.SequentialPushPop | BoostBoundedBufferRingBased.h:36-65 | values pushed into an empty buffer come back in the same order |
| MutexFifo.Create | cppcon2023/Mutex.hpp:17-21 | a new fifo has `capacity` slots and holds nothing |
| MutexFifo.Size | cppcon2023/Mutex.hpp:32-35 | `size()`, the cursor difference, is the number of items and at most the capacity |
| MutexFifo.Empty | cppcon2023/Mutex.hpp:36 | `empty()` holds iff nothing is queued |
| MutexFifo.Full | cppcon2023/Mutex.hpp:37 | `full()` holds iff `capacity()` items are queued |
| MutexFifo.Push | cppcon2023/Mutex.hpp:39-48 | true iff not full, then the value goes to slot `pushCursor % capacity` and is appended; false changes nothing |
| MutexFifo.Pop | cppcon2023/Mutex.hpp:50-60 | true iff not empty, yielding and removing the oldest item; false changes nothing |
| MutexFifo.Destroy | cppcon2023/Mutex.hpp:23-29 | the destructor visits exactly the queued items, oldest first, at slots `(popCursor + i) % capacity` |
| DequeQueue.Create | UnboundedBufferDequeBased.h:53-54 | a new queue is empty |
| DequeQueue.Push | UnboundedBufferDequeBased.h:15-22 | always succeeds and appends |
| DequeQueue.TryPush | UnboundedBufferDequeBased.h:24-31 | the same as `push`: always succeeds and appends |
| DequeQueue.Pop | UnboundedBufferDequeBased.h:33-41 | after the wait for data, yields the front item and leaves the rest |
| DequeQueue.TryPop | UnboundedBufferDequeBased.h:43-51 | true iff not empty, then yields the front item; false leaves queue and out-argument unchanged |
| DequeQueue.PopAfterPush | UnboundedBufferDequeBased.h:33-38 | a pop after a push on an empty queue returns the pushed value |
| ListQueue.Create | MutexListQueue.h:53-54 | a new queue is empty |
| ListQueue.Push | MutexListQueue.h:15-22 | always succeeds and appends |
| ListQueue.TryPush | MutexListQueue.h:24-31 | always succeeds and appends |
| ListQueue.Pop | MutexListQueue.h:33-41 | after the wait for data, yields the front item and leaves the rest |
| ListQueue.TryPop | MutexListQueue.h:43-51 | true iff not empty, then yields the front item; false leaves queue and out-argument unchanged |
| TwoLockQueue.Create | TwoLockUnboundedQueue.h:38 | a new queue is empty |
| TwoLockQueue.Push | TwoLockUnboundedQueue.h:10-15 | always succeeds and appends |
| TwoLockQueue.Pop | TwoLockUnboundedQueue.h:17-25 | after the wait for data, the "Buffer is empty" throw is never taken; `pop` yields the front item and leaves the rest |
| TwoLockQueue.TryPop | TwoLockUnboundedQueue.h:27-35 | true iff not empty, then yields the front item; false leaves queue and out-argument unchanged |
| TwoLockQueue.PopAgreesWithTryPop | TwoLockUnboundedQueue.h:17-35 | on a non-empty queue, `pop` and `try_pop` have the same effect |
| TwoLockQueue.PopAfterPush | TwoLockUnboundedQueue.h:10-25 | a pop after a push on an empty queue returns the pushed value |
| SeqFifo.PushAllAppends | UnboundedBufferDequeBased.h:15-22 | pushing a sequence, one `push` after another, appends it in order |
| SeqFifo.TryPopNTakes | UnboundedBufferDequeBased.h:43-51 | `n` `try_pop` calls on `n` or more items all succeed, return the first `n` in order and leave the rest |
| SeqFifo.PopNIsPrefix | MutexListQueue.h:33-41 | `n` blocking pops on `n` or more items return the first `n` in order |
| SeqFifo.FifoOrder | MutexListQueue.h:15-41 | after pushing `xs`, popping everything yields the earlier items and then `xs`, in order |
| SeqFifo.DrainIsContents | TwoLockUnboundedQueue.h:27-35 | calling `try_pop` until it fails yields exactly the queue's contents, in order |
| SeqFifo.SequentialPushPop | UnboundedBufferDequeBased.h:15-51 | values pushed into an empty queue come back from `try_pop` in order |
| SeqFifo.PushedEqualsDrained | TwoLockUnboundedQueue.h:10-35 | draining after pushes yields the pushed values as a multiset, so a consumer's sum equals the producers' sum |
| CachedSpsc.Create | alpha_spsc.h:72-76 | all cursors and caches start at 0, the ring has `SIZE` slots and is empty |
| CachedSpsc.Capacity | alpha_spsc.h:59-61 | `capacity()` is `SIZE`, an upper bound on the number of items |
| CachedSpsc.FullViewMeansFull | alpha_spsc.h:64-66 | `full(tail, head)` on the real cursors holds iff the ring holds `SIZE` items |
| CachedSpsc.EmptyViewMeansEmpty | alpha_spsc.h:68-70 | `empty(tail, head)` on the real cursors holds iff the ring holds nothing |
| CachedSpsc.CachedNotFullIsTrue | alpha_spsc.h:31 | if the producer's stale view of `head` says "not full", the ring really is not full |
| CachedSpsc.CachedNotEmptyIsTrue | alpha_spsc.h:49 | if the consumer's stale view of `tail` says "not empty", the ring really is not empty |
| CachedSpsc.ProducerView | alpha_spsc.h:31-35 | after the refresh, `full(tail, cached_head_)` holds iff the ring is full; the cache is reloaded only when the stale view said full, and never passes `head` |
| CachedSpsc.ConsumerView | alpha_spsc.h:49-53 | after the refresh, `empty(cached_tail_, head)` holds iff the ring is empty; the cache is reloaded only when the stale view said empty |
| CachedSpsc.Publish | alpha_spsc.h:36-37 | writing slot `tail % SIZE` and publishing `tail + 1` appends the value |
| CachedSpsc.Consume | alpha_spsc.h:54-55 | reading slot `head % SIZE` and publishing `head + 1` yields and removes the oldest item |
| CachedSpsc.TryPush | alpha_spsc.h:29-39 | true iff the ring was not full, then appends; false keeps the items and `tail`; the consumer's cursor and cache are untouched |
| CachedSpsc.TryPop | alpha_spsc.h:47-57 | true iff the ring was not empty, yielding and removing the oldest item; false leaves items, `head` and out-argument unchanged |
| CachedSpsc.Push | alpha_spsc.h:24-27 | the retrying `push`, when it finishes, has appended the value |
| CachedSpsc.Pop | alpha_spsc.h:42-45 | the retrying `pop`, when it finishes, has yielded and removed the oldest item |
| CachedSpsc.FailedPushIsStable | alpha_spsc.h:24-35 | a failed `try_push` leaves a state where retrying gives the same result, so `push` spins until the consumer moves |
| StdAtomicSpsc.Push | StdAtomicSPSCQueue.h:9-22 | the spinning `push` always returns true and appends; it keeps the cache when the cached view was not full |
| StdAtomicSpsc.Pop | StdAtomicSPSCQueue.h:24-37 | the spinning `pop` always returns true, yielding and removing the oldest item |
| StdAtomicSpsc.PushAgreesWithAlpha | StdAtomicSPSCQueue.h:9-22 | the spinning `push` reaches the same state as `alpha::spsc`'s retrying `push` |
| Fifo4b.Next | cppcon2023/Fifo4b.hpp:57-60 | the wrapped increment stays below `capacity_` |
| Fifo4b.Capacity | cppcon2023/Fifo4b.hpp:50 | `capacity()`, `capacity_ - 1`, bounds the number of items |
| Fifo4b.Create | cppcon2023/Fifo4b.hpp:18-22 | with `capacity_` slots allocated, a new fifo is valid, empty and has capacity `capacity` |
| Fifo4b.CreateAsWritten | cppcon2023/Fifo4b.hpp:18-22 | the constructor as written sets `capacity_ = capacity + 1` but allocates one slot fewer |
| Fifo4b.Size | cppcon2023/Fifo4b.hpp:35-41 | the circular distance from pop cursor to push cursor is the number of items |
| Fifo4b.Empty | cppcon2023/Fifo4b.hpp:44 | `empty()` holds iff nothing is queued |
| Fifo4b.Full | cppcon2023/Fifo4b.hpp:47 | `full()` holds iff `capacity()` items are queued |
| Fifo4b.SizeAsWritten | cppcon2023/Fifo4b.hpp:35-41 | the assertion passes iff `popCursor <= pushCursor`, and then the difference is the number of items |
| Fifo4b.EmptyAsWritten | cppcon2023/Fifo4b.hpp:44 | `empty()` as written passes `size()`'s assertion iff `popCursor <= pushCursor`, and then holds iff nothing is queued |
| Fifo4b.FullAsWritten | cppcon2023/Fifo4b.hpp:47 | `full()` as written passes `size()`'s assertion iff `popCursor <= pushCursor`, and then holds iff `capacity()` items are queued |
| Fifo4b.SizeUnchecked | cppcon2023/Fifo4b.hpp:35-41 | without assertions, `size()` is the item count while `popCursor <= pushCursor`, and the item count plus `2^64 - capacity_` after the push cursor wraps below the pop cursor |
| Fifo4b.EmptyUnchecked | cppcon2023/Fifo4b.hpp:44 | without assertions, `empty()` holds iff nothing is queued, wrapped or not |
| Fifo4b.FullUnchecked | cppcon2023/Fifo4b.hpp:47 | without assertions, `full()` is right while `popCursor <= pushCursor`, and answers "not full" on a full fifo whose push cursor has wrapped below the pop cursor |
| Fifo4b.FullIffNextMeetsPop | cppcon2023/Fifo4b.hpp:57-63 | the wrapped next push cursor equals the pop cursor iff the fifo holds `capacity_ - 1` items |
| Fifo4b.ProducerView | cppcon2023/Fifo4b.hpp:61-66 | after the refresh, "next push cursor meets the cache" holds iff the fifo is full; a stale cache never hides free space |
| Fifo4b.ConsumerView | cppcon2023/Fifo4b.hpp:77-82 | after the refresh, "cache equals the pop cursor" holds iff the fifo is empty |
| Fifo4b.Pushed1 | cppcon2023/Fifo4b.hpp:69 | publishing the wrapped next push cursor keeps the cursor invariants and adds one item |
| Fifo4b.Popped1 | cppcon2023/Fifo4b.hpp:86-90 | publishing the wrapped next pop cursor keeps the cursor invariants and removes one item |
| Fifo4b.TryPush | cppcon2023/Fifo4b.hpp:55-71 | true iff fewer than `capacity()` items, then writes `ring_[pushCursor]`, touching no other slot, and appends; false keeps the items and changes only `popCursorCached_`; the consumer's `popCursor_` and `pushCursorCached_` are never touched |
| Fifo4b.TryPop | cppcon2023/Fifo4b.hpp:75-92 | true iff not empty, yielding and removing the oldest item; false keeps items and out-argument and changes only `pushCursorCached_`; the producer's `pushCursor_`, `popCursorCached_` and the ring are never touched |
| Fifo4b.TryPushAsWritten | cppcon2023/Fifo4b.hpp:55-71 | over the source's allocation, the write is out of bounds iff the fifo is not full and `pushCursor == capacity` |
| Fifo4b.TryPopAsWritten | cppcon2023/Fifo4b.hpp:75-92 | over the source's allocation, the read is out of bounds iff the fifo is not empty and `popCursor == capacity` |
| Fifo4b.OutOfBoundsWriteReachable | cppcon2023/Fifo4b.hpp:18-22 | capacity 1, push, pop, push: the last push writes `ring_[1]` of a one-slot allocation |
| Fifo4b.SizeAssertFailsAfterWrap | cppcon2023/Fifo4b.hpp:39 | capacity 1, push, pop, push: the fifo holds one item, but `size()`'s assertion fails |
| Fifo4b.WrappedFullReportsNotFull | cppcon2023/Fifo4b.hpp:47 | capacity 2, push, push, pop, push: the fifo is full with push cursor 0 and pop cursor 1; `full()` fails its assertion, and without assertions answers "not full" |
| Bits.MaskIsMod | cppcon2023/Fifo5b.hpp:229 | for a power-of-two `C`, `cursor & (C - 1)` is `cursor % C` |
| Bits.Pow2Test | cppcon2023/Fifo5b.hpp:28 | for `C > 0`, `C & (C - 1) == 0` holds iff `C` is a power of two |
| Fifo5b.Mask | cppcon2023/Fifo5b.hpp:26 | `mask_ = capacity - 1` in `size_type`: `mask_ + 1` gives the capacity back, with capacity 0 wrapping to a mask of `2^64 - 1` |
| Fifo5b.FullViewMeansFull | cppcon2023/Fifo5b.hpp:221-224 | `full` on the real cursors holds iff `capacity()` items are queued, and "not full" on the producer's cached pop cursor is never wrong |
| Fifo5b.EmptyViewMeansEmpty | cppcon2023/Fifo5b.hpp:225-227 | `empty` on the real cursors holds iff nothing is queued, and "not empty" on the consumer's cached push cursor is never wrong |
| Fifo5b.Create | cppcon2023/Fifo5b.hpp:24-29 | construction passes the assertion iff the capacity is 0 or a power of two, and then the fifo is empty with that capacity |
| Fifo5b.Capacity | cppcon2023/Fifo5b.hpp:52 | `capacity()` bounds the number of items |
| Fifo5b.Element | cppcon2023/Fifo5b.hpp:229-230 | `element(cursor)` is slot `cursor % capacity`, inside the ring |
| Fifo5b.Size | cppcon2023/Fifo5b.hpp:37-43 | the assertion holds in every valid state, and the result is the number of items |
| Fifo5b.Empty | cppcon2023/Fifo5b.hpp:46 | `empty()` holds iff nothing is queued |
| Fifo5b.Full | cppcon2023/Fifo5b.hpp:49 | `full()` holds iff `capacity()` items are queued |
| Fifo5b.PushProxy | cppcon2023/Fifo5b.hpp:121-131 | `push()` returns an active pusher iff the fifo is not full, at the current push cursor; the refresh changes no item |
| Fifo5b.PopProxy | cppcon2023/Fifo5b.hpp:199-208 | `pop()` returns an active popper iff the fifo is not empty, at the current pop cursor |
| Fifo5b.WriteThrough | cppcon2023/Fifo5b.hpp:108-111 | assigning through the pusher writes its slot, which holds no queued item |
| Fifo5b.ReadThrough | cppcon2023/Fifo5b.hpp:214 | reading through an active popper yields the oldest item |
| Fifo5b.DropPusher | cppcon2023/Fifo5b.hpp:79-83 | destroying an active pusher publishes its slot as the newest item; an inactive one changes nothing |
| Fifo5b.DropPopper | cppcon2023/Fifo5b.hpp:167-171 | destroying an active popper removes the oldest item; an inactive one changes nothing |
| Fifo5b.ReleasePusher | cppcon2023/Fifo5b.hpp:88 | `release()` makes the pusher inactive |
| Fifo5b.ReleasePopper | cppcon2023/Fifo5b.hpp:176 | `release()` makes the popper inactive |
| Fifo5b.MoveConstructPusher | cppcon2023/Fifo5b.hpp:67-71 | the new pusher takes the other's state, and the other is released |
| Fifo5b.MoveAssignPusher | cppcon2023/Fifo5b.hpp:72-77 | the target takes the other's state without publishing its own, and the other is released |
| Fifo5b.MoveConstructPopper | cppcon2023/Fifo5b.hpp:155-159 | the new popper takes the other's state, and the other is released |
| Fifo5b.MoveAssignPopper | cppcon2023/Fifo5b.hpp:160-165 | the target takes the other's state, and the other is released |
| Fifo5b.MovedPusherPublishesOnce | cppcon2023/Fifo5b.hpp:67-83 | moving an active pusher and destroying both objects publishes exactly one item |
| Fifo5b.MoveAssignDiscardsTarget | cppcon2023/Fifo5b.hpp:72-83 | move-assigning an inactive pusher over an active one drops the pending publication |
| Fifo5b.Push | cppcon2023/Fifo5b.hpp:135-141 | true iff not full, then appends the value; false keeps the items and changes only `popCursorCached_`; the consumer's `popCursor_` and `pushCursorCached_` are never touched |
| Fifo5b.Pop | cppcon2023/Fifo5b.hpp:212-218 | true iff not empty, yielding and removing the oldest item; false keeps items and out-argument and changes only `pushCursorCached_`; the producer's `pushCursor_`, `popCursorCached_` and the ring are never touched |
| SequenceRing.Initial | StdAtomicMPMCQueue.h:82-85 | slot `i` starts with sequence number `i` and the ring is empty |
| SequenceRing.WriteDif | StdAtomicMPMCQueue.h:95-97 | the producer's `dif` is 0 when not full, and `1 - C` when full |
| SequenceRing.ReadDif | StdAtomicMPMCQueue.h:116-118 | the consumer's `dif` is 0 when not empty, and -1 when empty |
| SequenceRing.Publish | StdAtomicMPMCQueue.h:106-107 | writing the claimed slot and storing `pos + 1` appends the value and keeps the slot invariant |
| SequenceRing.Recycle | StdAtomicMPMCQueue.h:129-130 | reading the claimed slot and storing `pos + C` yields and removes the oldest item and keeps the slot invariant |
| MpmcBoundedQueue.Create | StdAtomicMPMCQueue.h:77-86 | construction passes the assertion iff the size is a power of two of at least 2, and then slot `i` has number `i` |
| MpmcBoundedQueue.Cell | StdAtomicMPMCQueue.h:95 | `pos & buffer_mask_` is slot `pos % C` |
| MpmcBoundedQueue.Classify | StdAtomicMPMCQueue.h:98-104 | one pass of the retry loop claims iff `dif == 0`, gives up iff `dif < 0`, and otherwise reloads the position |
| MpmcBoundedQueue.EnqueueProbe | StdAtomicMPMCQueue.h:92-105 | the probe never reloads, and it claims iff the queue is not full |
| MpmcBoundedQueue.DequeueProbe | StdAtomicMPMCQueue.h:113-127 | the probe never reloads, and it claims iff the queue is not empty |
| MpmcBoundedQueue.Enqueue | StdAtomicMPMCQueue.h:90-109 | true iff fewer than `C` items, then appends; false changes nothing; the slot invariant is kept |
| MpmcBoundedQueue.Dequeue | StdAtomicMPMCQueue.h:111-132 | true iff not empty, yielding and removing the oldest item; false leaves queue and out-argument unchanged |
| MpmcBoundedQueue.EnqueueAll | StdAtomicMPMCQueue.h:90-109 | repeated `enqueue` accepts a prefix of the values and appends it in order; the first refusal meets a full queue |
| MpmcBoundedQueue.DequeueAll | StdAtomicMPMCQueue.h:111-132 | `dequeue` until failure yields exactly the queued items, in order, and empties the queue |
| MpmcBoundedQueue.FillAndDrain | StdAtomicMPMCQueue.h:90-132 | on a fresh queue of `C` slots, `C + 1` enqueues accept the first `C` values, which then dequeue in order |
| StdAtomicMpmc.Create | StdAtomicMPMCQueue.h:9-12 | with the two-slot guard added, construction succeeds iff `SIZE >= 2` and yields an empty ring |
| StdAtomicMpmc.WriteReady | StdAtomicMPMCQueue.h:19-21 | `seq == write_idx` holds iff the ring is not full or has one slot |
| StdAtomicMpmc.ReadReady | StdAtomicMPMCQueue.h:39-41 | `seq == read_idx + 1` holds iff the ring is not empty |
| StdAtomicMpmc.PushAsWritten | StdAtomicMPMCQueue.h:14-32 | once its slot reads as ready, `push` writes it; the slot invariant survives iff the ring was not full, and then the value is appended |
| StdAtomicMpmc.OneSlotPushOverwrites | StdAtomicMPMCQueue.h:19-30 | with one slot, a second `push` claims the filled slot and overwrites the unread value, breaking the invariant |
| StdAtomicMpmc.Push | StdAtomicMPMCQueue.h:14-32 | with at least two slots, `push` on a non-full ring returns true and appends, keeping the invariant |
| StdAtomicMpmc.Pop | StdAtomicMPMCQueue.h:34-53 | once its slot reads as ready, `pop` returns true, yields and removes the oldest item, and recycles the slot with `read_idx + SIZE` |
| StdAtomicMpmc.ViewsAgree | StdAtomicMPMCQueue.h:61-67 | the unused `full` and `empty` helpers would answer "full" and "empty" correctly |

## Left out

- Threads, locks, condition-variable waits and notifications, atomics and
  memory orders, `_mm_pause`, cache-line alignment and padding. Each operation
  is one atomic step. Blocking and retrying operations are their successful
  step, guarded by a not-full or not-empty precondition. Liveness is not
  modelled.
- The optional split of an MPMC operation into a claim step (the CAS on the
  position) and a publish step (the sequence store). Slots that are claimed
  but not yet published, which other threads can observe, are therefore not
  represented.
- 64-bit cursor overflow. Cursors and sequence numbers are unbounded naturals.
  `Fifo4b`'s explicit wrap to 0 is modelled.
- Allocators, placement new, explicit destructor calls and deallocation.
  Slot writes are plain assignments. Slots never written hold a caller-chosen
  `fill` value.
- `Fifo5b`'s `ValueSizeTraits` memcpy size comes from a header that is not
  part of this model. The copy is modelled as a whole-value assignment.
- `Fifo5b`'s `operator bool`, `get`, `operator*` and `operator->` on the
  proxies. They are the `active` flag and the `Element` slot, and write or
  read access through them is `WriteThrough` or `ReadThrough`.
- Fifo4b.Full: built on the corrected circular `Size`. The source's `full()`
  calls `size()`, and what that does once the push cursor wraps is stated by
  `FullAsWritten` and `FullUnchecked` (see "## Findings").
- Fifo4b.Empty: built on the corrected circular `Size`. The source's `empty()`
  calls `size()`; `EmptyAsWritten` and `EmptyUnchecked` state what it does
  after a wrap.
- Fifo5b.MoveAssignPusher: takes the target and the source as two values, so
  self-move-assignment `p = std::move(p)`, which releases `p` and so drops its
  pending publication, is not modelled.
- Fifo5b.MoveAssignPopper: the same for `popper_t`; a self-move releases the
  popper and drops its pending pop.
- Fifo5b.DropPusher: requires an active pusher to sit at the current push
  cursor. Two live pushers for one cursor, which two `push()` calls before
  either is destroyed produce, are not modelled; likewise `DropPopper`.
- `Fifo4b`'s private `full` and `empty` helpers are never called. The
  destructor's commented-out loop does nothing and is not modelled.
- `MutexRingBufferQueue::max_size()` returns the field `maxSize`, which is
  modelled.
- `beta::spsc` is the text of `alpha::spsc` without the alignment, so
  `CachedSpsc` models both.
- The `ConcurrentQueue` concept, the `is_bounded` trait and the
  `static_assert`s are compile-time checks with no run-time behaviour.
- Benchmarks, tests, barriers, random numbers and the adapters over other
  libraries.
- `boost::circular_buffer` itself. It is modelled as a sequence of at most
  `capacity` entries whose `push_front` drops the last entry when full.
- StdAtomicSpsc.Push: with one step per call the spin is not modelled, so
  the contract covers only a call that finds the ring not full.
- MpmcBoundedQueue.Enqueue: the `Reload` branch is shown never to be taken in
  a single-threaded step. The concurrent interleavings in which it is taken
  are not modelled.

## Findings

| source | as written | input that shows it | evidently intended | confidence | as-written member | corrected member |
|---|---|---|---|---|---|---|
| cppcon2023/Fifo4b.hpp:20-21 | `capacity_` is `capacity + 1`, so cursors reach `capacity`, but only `capacity` slots are allocated | capacity 1: `try_push(7)`, `try_pop`, `try_push(8)` writes `ring_[1]` of a one-slot array | allocate `capacity_` slots | not executed | Fifo4b.OutOfBoundsWriteReachable | Fifo4b.Create |
| cppcon2023/Fifo4b.hpp:39 | `size()` asserts `popCursor <= pushCursor`, but both cursors wrap to 0 independently | capacity 1: push, pop, push leaves `pushCursor == 0` and `popCursor == 1` with one item queued; the assertion fails, and without assertions the unsigned difference is 2^64 - 1 | the circular distance from pop cursor to push cursor | not executed | Fifo4b.SizeAssertFailsAfterWrap | Fifo4b.Size |
| cppcon2023/Fifo4b.hpp:47 | `full()` is `size() == capacity()`, so it inherits `size()`'s wrap defect | capacity 2: push, push, pop, push leaves the fifo full with `pushCursor == 0` and `popCursor == 1`; the assertion fails, and without assertions `0 - 1` wraps and `full()` answers false | compare the circular distance with `capacity()` | not executed | Fifo4b.WrappedFullReportsNotFull | Fifo4b.Full |
| StdAtomicMPMCQueue.h:19-30 | no check that `SIZE >= 2` (compare line 80); with one slot, a published slot's number `pos + 1` equals the next `write_idx` | `SIZE == 1`: push `a`, push `b`; the second push claims slot 0 and overwrites `a` before any pop | reject fewer than two slots, as `mpmc_bounded_queue` asserts | not executed | StdAtomicMpmc.OneSlotPushOverwrites | StdAtomicMpmc.Push |
