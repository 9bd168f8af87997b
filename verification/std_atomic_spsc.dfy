/** `StdAtomicSPSCQueue<T, SIZE>`: the same cached-cursor SPSC ring as
    `alpha::spsc`, but `push` and `pop` spin inside one call instead of
    offering `try_` variants, so they never return false.  Taken as one step,
    a spin ends only once the ring is not full (not empty), which becomes the
    precondition.  The state, invariant and abstraction are `CachedSpsc`'s. */
module StdAtomicSpsc {

  import opened CachedSpsc
  import opened QueueResults

  /** `push`: refresh `cached_head_` while the cached view says full, then write slot
      `tail % SIZE` and publish `tail + 1`; always returns true. */
  function Push<T>(q: Spsc<T>, x: T): (r: Pushed<Spsc<T>>)
    requires Valid(q) && |Items(q)| < Capacity(q)
    ensures r.ok && Valid(r.queue) && |r.queue.data| == |q.data|
    ensures Items(r.queue) == Items(q) + [x]
    ensures !FullView(q.tail, q.cachedHead, |q.data|) ==> r.queue.cachedHead == q.cachedHead
  {
    Pushed(Publish(q, ProducerView(q), x), true)
  }

  /** `pop`: refresh `cached_tail_` while the cached view says empty, then read slot
      `head % SIZE` and publish `head + 1`; always returns true. */
  function Pop<T>(q: Spsc<T>, item: T): (r: Popped<Spsc<T>, T>)
    requires Valid(q) && Items(q) != []
    ensures r.ok && Valid(r.queue) && |r.queue.data| == |q.data|
    ensures r.item == Items(q)[0] && Items(r.queue) == Items(q)[1..]
    ensures !EmptyView(q.cachedTail, q.head) ==> r.queue.cachedTail == q.cachedTail
  {
    var c := Consume(q, ConsumerView(q));
    Popped(c.0, true, c.1)
  }

  /** The spinning `push` ends in the same state as `alpha::spsc`'s retrying one. */
  lemma PushAgreesWithAlpha<T>(q: Spsc<T>, x: T)
    requires Valid(q) && |Items(q)| < Capacity(q)
    ensures Push(q, x).queue == CachedSpsc.Push(q, x)
  {
  }
}
