/** `MutexRingBufferQueue<T>`: a blocking bounded queue over `RingBuffer`.
    Each operation holds the mutex for its whole body, so it is one step here;
    waiting on `not_full_` / `not_empty_` becomes a precondition of the
    blocking `Push` / `Pop`.  `maxSize` is the high-water mark `max_size_`. */
module MutexRingBufferQueue {

  import RingBuffer
  import opened QueueResults

  const DefaultCapacity: nat := 256

  datatype Queue<T> = Queue(buffer: RingBuffer.Ring<T>, maxSize: nat)

  /** The high-water mark is at least the current size and at most the capacity. */
  predicate Valid<T>(q: Queue<T>)
  {
    && RingBuffer.Valid(q.buffer)
    && q.buffer.size <= q.maxSize <= RingBuffer.Capacity(q.buffer)
  }

  function Capacity<T>(q: Queue<T>): nat
  {
    RingBuffer.Capacity(q.buffer)
  }

  function Items<T>(q: Queue<T>): seq<T>
    requires Valid(q)
  {
    RingBuffer.Items(q.buffer)
  }

  function Create<T>(capacity: nat, fill: T): (q: Queue<T>)
    ensures Valid(q) && Capacity(q) == capacity && Items(q) == [] && q.maxSize == 0
  {
    Queue(RingBuffer.Create(capacity, fill), 0)
  }

  /** The constructor with its default argument: 256 slots. */
  function CreateDefault<T>(fill: T): (q: Queue<T>)
    ensures Valid(q) && Capacity(q) == DefaultCapacity && Items(q) == [] && q.maxSize == 0
  {
    Create(DefaultCapacity, fill)
  }

  /** The critical section shared by `push` and `try_push`, entered only when not full. */
  function Insert<T>(q: Queue<T>, x: T): (q': Queue<T>)
    requires Valid(q) && |Items(q)| < Capacity(q)
    ensures Valid(q') && Capacity(q') == Capacity(q)
    ensures Items(q') == Items(q) + [x]
    ensures q'.maxSize == if q.maxSize < |Items(q')| then |Items(q')| else q.maxSize
  {
    var buffer := RingBuffer.PushBack(q.buffer, x);
    Queue(buffer, if q.maxSize < buffer.size then buffer.size else q.maxSize)
  }

  /** `try_push`: fails and changes nothing when full; otherwise appends. */
  function TryPush<T>(q: Queue<T>, x: T): (r: Pushed<Queue<T>>)
    requires Valid(q)
    ensures Valid(r.queue) && Capacity(r.queue) == Capacity(q)
    ensures r.ok <==> |Items(q)| < Capacity(q)
    ensures r.ok ==> Items(r.queue) == Items(q) + [x]
    ensures !r.ok ==> r.queue == q
    ensures r.ok ==> r.queue.maxSize == if q.maxSize < |Items(r.queue)| then |Items(r.queue)| else q.maxSize
  {
    if RingBuffer.Full(q.buffer) then Pushed(q, false)
    else Pushed(Insert(q, x), true)
  }

  /** `push`: the wait on `not_full_` is the precondition; always returns true. */
  function Push<T>(q: Queue<T>, x: T): (r: Pushed<Queue<T>>)
    requires Valid(q) && |Items(q)| < Capacity(q)
    ensures r.ok && Valid(r.queue) && Capacity(r.queue) == Capacity(q)
    ensures Items(r.queue) == Items(q) + [x]
    ensures r.queue.maxSize == if q.maxSize < |Items(r.queue)| then |Items(r.queue)| else q.maxSize
  {
    Pushed(Insert(q, x), true)
  }

  /** `try_pop`: fails and leaves `item` untouched when empty; otherwise removes the oldest item. */
  function TryPop<T>(q: Queue<T>, item: T): (r: Popped<Queue<T>, T>)
    requires Valid(q)
    ensures Valid(r.queue) && Capacity(r.queue) == Capacity(q)
    ensures r.ok <==> Items(q) != []
    ensures r.ok ==> r.item == Items(q)[0] && Items(r.queue) == Items(q)[1..]
    ensures !r.ok ==> r.queue == q && r.item == item
    ensures r.queue.maxSize == q.maxSize
  {
    if RingBuffer.Empty(q.buffer) then Popped(q, false, item)
    else Popped(Queue(RingBuffer.PopFront(q.buffer), q.maxSize), true, RingBuffer.Front(q.buffer))
  }

  /** `pop`: the wait on `not_empty_` is the precondition; always returns true. */
  function Pop<T>(q: Queue<T>): (r: Popped<Queue<T>, T>)
    requires Valid(q) && Items(q) != []
    ensures r.ok && Valid(r.queue) && Capacity(r.queue) == Capacity(q)
    ensures r.item == Items(q)[0] && Items(r.queue) == Items(q)[1..]
    ensures r.queue.maxSize == q.maxSize
  {
    Popped(Queue(RingBuffer.PopFront(q.buffer), q.maxSize), true, RingBuffer.Front(q.buffer))
  }

  /** `try_push` each item in turn; `ok` says whether every call returned true. */
  function TryPushAll<T>(q: Queue<T>, xs: seq<T>): (r: Pushed<Queue<T>>)
    requires Valid(q)
    ensures Valid(r.queue) && Capacity(r.queue) == Capacity(q)
    decreases |xs|
  {
    if xs == [] then Pushed(q, true)
    else
      var first := TryPush(q, xs[0]);
      var rest := TryPushAll(first.queue, xs[1..]);
      Pushed(rest.queue, first.ok && rest.ok)
  }

  /** `try_pop` `n` times into one variable; returns the values it held after each call. */
  function TryPopN<T>(q: Queue<T>, n: nat, item: T): (r: (Queue<T>, seq<T>, bool))
    requires Valid(q)
    ensures Valid(r.0) && |r.1| == n
    decreases n
  {
    if n == 0 then (q, [], true)
    else
      var first := TryPop(q, item);
      var rest := TryPopN(first.queue, n - 1, first.item);
      (rest.0, [first.item] + rest.1, first.ok && rest.2)
  }

  lemma {:induction false} TryPushAllAppends<T>(q: Queue<T>, xs: seq<T>)
    requires Valid(q) && |Items(q)| + |xs| <= Capacity(q)
    ensures TryPushAll(q, xs).ok && Items(TryPushAll(q, xs).queue) == Items(q) + xs
    decreases |xs|
  {
    if xs != [] {
      var first := TryPush(q, xs[0]);
      TryPushAllAppends(first.queue, xs[1..]);
      assert Items(q) + xs == Items(q) + [xs[0]] + xs[1..];
    }
  }

  lemma {:induction false} TryPopNTakes<T>(q: Queue<T>, n: nat, item: T)
    requires Valid(q) && n <= |Items(q)|
    ensures TryPopN(q, n, item).2 && TryPopN(q, n, item).1 == Items(q)[..n]
    ensures Items(TryPopN(q, n, item).0) == Items(q)[n..]
    decreases n
  {
    if n > 0 {
      var first := TryPop(q, item);
      TryPopNTakes(first.queue, n - 1, first.item);
      assert Items(q)[..n] == [Items(q)[0]] + Items(q)[1..][..n - 1];
    }
  }

  /** Items pushed with `try_push` into an empty queue come back from `try_pop` in the same order. */
  lemma SequentialPushPop<T>(capacity: nat, fill: T, xs: seq<T>, item: T)
    requires |xs| <= capacity
    ensures var pushed := TryPushAll(Create(capacity, fill), xs);
            pushed.ok && TryPopN(pushed.queue, |xs|, item).2 && TryPopN(pushed.queue, |xs|, item).1 == xs
  {
    var pushed := TryPushAll(Create(capacity, fill), xs);
    TryPushAllAppends(Create(capacity, fill), xs);
    TryPopNTakes(pushed.queue, |xs|, item);
  }

  /** Capacity 4: four `try_push` calls succeed and the fifth fails; after one pop,
      which returns the first item, `try_push` succeeds again. */
  lemma CapacityFourScenario()
    ensures var q0 := Create(4, 0);
            var p1 := TryPush(q0, 1);
            var p2 := TryPush(p1.queue, 2);
            var p3 := TryPush(p2.queue, 3);
            var p4 := TryPush(p3.queue, 4);
            var p5 := TryPush(p4.queue, 5);
            var o := Pop(p5.queue);
            var p6 := TryPush(o.queue, 5);
            p1.ok && p2.ok && p3.ok && p4.ok && !p5.ok && o.item == 1 && p6.ok
  {
  }
}
