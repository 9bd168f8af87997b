/** `alpha::spsc<T, SIZE, NIL>` (and `beta::spsc`, whose operations are the
    same text without the cache-line alignment): a lock-free single-producer
    single-consumer ring of `SIZE` slots with monotonic cursors.  The producer
    owns `tail` and a cached copy of `head`; the consumer owns `head` and a
    cached copy of `tail`.  Each call is one atomic step here. */
module CachedSpsc {

  import opened Circular
  import opened QueueResults

  datatype Spsc<T> = Spsc(data: seq<T>, head: nat, tail: nat, cachedHead: nat, cachedTail: nat)

  /** `full(tail, head)`: at least `SIZE` items between the cursors. */
  predicate FullView(tail: nat, head: nat, size: nat)
  {
    tail - head >= size
  }

  /** `empty(tail, head)`: no item between the cursors. */
  predicate EmptyView(tail: nat, head: nat)
  {
    tail <= head
  }

  /** The caches lag the cursors they copy, and never by enough to hide an item
      or a free slot: `cachedHead <= head <= cachedTail <= tail <= cachedHead + SIZE`. */
  predicate Valid<T>(q: Spsc<T>)
  {
    q.cachedHead <= q.head <= q.cachedTail <= q.tail <= q.cachedHead + |q.data|
  }

  function Items<T>(q: Spsc<T>): seq<T>
    requires Valid(q)
  {
    Window(q.data, q.head, q.tail - q.head)
  }

  /** The default constructor: all cursors and caches zero. */
  function Create<T>(size: nat, fill: T): (q: Spsc<T>)
    ensures Valid(q) && |q.data| == size && Items(q) == []
    ensures q.head == q.tail == q.cachedHead == q.cachedTail == 0
  {
    Spsc(seq(size, _ => fill), 0, 0, 0, 0)
  }

  /** `capacity()`: the template argument `SIZE`, a bound on the number of items. */
  function Capacity<T>(q: Spsc<T>): (n: nat)
    requires Valid(q)
    ensures |Items(q)| <= n
  {
    |q.data|
  }

  /** `full` on the real cursors is fullness. */
  lemma FullViewMeansFull<T>(q: Spsc<T>)
    requires Valid(q)
    ensures FullView(q.tail, q.head, |q.data|) <==> |Items(q)| == Capacity(q)
  {
  }

  /** `empty` on the real cursors is emptiness. */
  lemma EmptyViewMeansEmpty<T>(q: Spsc<T>)
    requires Valid(q)
    ensures EmptyView(q.tail, q.head) <==> Items(q) == []
  {
  }

  /** A "not full" answer from the producer's cached view is never wrong. */
  lemma CachedNotFullIsTrue<T>(q: Spsc<T>)
    requires Valid(q) && !FullView(q.tail, q.cachedHead, |q.data|)
    ensures |Items(q)| < Capacity(q)
  {
  }

  /** A "not empty" answer from the consumer's cached view is never wrong. */
  lemma CachedNotEmptyIsTrue<T>(q: Spsc<T>)
    requires Valid(q) && !EmptyView(q.cachedTail, q.head)
    ensures Items(q) != []
  {
  }

  /** The producer's cache after the check in `try_push`: reloaded from `head` only
      when the cached view says full. */
  function ProducerView<T>(q: Spsc<T>): (cachedHead: nat)
    requires Valid(q)
    ensures q.cachedHead <= cachedHead <= q.head
    ensures FullView(q.tail, cachedHead, |q.data|) <==> |Items(q)| == Capacity(q)
    ensures !FullView(q.tail, q.cachedHead, |q.data|) ==> cachedHead == q.cachedHead
  {
    if FullView(q.tail, q.cachedHead, |q.data|) then q.head else q.cachedHead
  }

  /** The consumer's cache after the check in `try_pop`: reloaded from `tail` only
      when the cached view says empty. */
  function ConsumerView<T>(q: Spsc<T>): (cachedTail: nat)
    requires Valid(q)
    ensures q.head <= q.cachedTail <= cachedTail <= q.tail
    ensures EmptyView(cachedTail, q.head) <==> Items(q) == []
    ensures !EmptyView(q.cachedTail, q.head) ==> cachedTail == q.cachedTail
  {
    if EmptyView(q.cachedTail, q.head) then q.tail else q.cachedTail
  }

  /** The write and the publication of `tail + 1`, once the view says not full. */
  function Publish<T>(q: Spsc<T>, cachedHead: nat, x: T): (q': Spsc<T>)
    requires Valid(q) && q.cachedHead <= cachedHead <= q.head
    requires !FullView(q.tail, cachedHead, |q.data|)
    ensures Valid(q') && |q'.data| == |q.data|
    ensures Items(q') == Items(q) + [x]
  {
    WindowPush(q.data, q.head, q.tail - q.head, x);
    Spsc(q.data[q.tail % |q.data| := x], q.head, q.tail + 1, cachedHead, q.cachedTail)
  }

  /** The read of slot `head % SIZE` and the publication of `head + 1`. */
  function Consume<T>(q: Spsc<T>, cachedTail: nat): (r: (Spsc<T>, T))
    requires Valid(q) && q.cachedTail <= cachedTail <= q.tail
    requires !EmptyView(cachedTail, q.head)
    ensures Valid(r.0) && |r.0.data| == |q.data|
    ensures r.1 == Items(q)[0] && Items(r.0) == Items(q)[1..]
  {
    WindowPop(q.data, q.head, q.tail - q.head);
    (Spsc(q.data, q.head + 1, q.tail, q.cachedHead, cachedTail), q.data[q.head % |q.data|])
  }

  /** `try_push`: fails exactly when the ring really is full; the refreshed cache is kept either way. */
  function TryPush<T>(q: Spsc<T>, x: T): (r: Pushed<Spsc<T>>)
    requires Valid(q)
    ensures Valid(r.queue) && |r.queue.data| == |q.data|
    ensures r.ok <==> |Items(q)| < Capacity(q)
    ensures r.ok ==> Items(r.queue) == Items(q) + [x]
    ensures !r.ok ==> Items(r.queue) == Items(q) && r.queue.tail == q.tail
    ensures r.queue.head == q.head && r.queue.cachedTail == q.cachedTail
  {
    var cachedHead := ProducerView(q);
    if FullView(q.tail, cachedHead, |q.data|) then Pushed(q.(cachedHead := cachedHead), false)
    else Pushed(Publish(q, cachedHead, x), true)
  }

  /** `try_pop`: fails, leaving `item` untouched, exactly when the ring really is empty. */
  function TryPop<T>(q: Spsc<T>, item: T): (r: Popped<Spsc<T>, T>)
    requires Valid(q)
    ensures Valid(r.queue) && |r.queue.data| == |q.data|
    ensures r.ok <==> Items(q) != []
    ensures r.ok ==> r.item == Items(q)[0] && Items(r.queue) == Items(q)[1..]
    ensures !r.ok ==> Items(r.queue) == Items(q) && r.queue.head == q.head && r.item == item
    ensures r.queue.tail == q.tail && r.queue.cachedHead == q.cachedHead && r.queue.data == q.data
  {
    var cachedTail := ConsumerView(q);
    if EmptyView(cachedTail, q.head) then Popped(q.(cachedTail := cachedTail), false, item)
    else var c := Consume(q, cachedTail); Popped(c.0, true, c.1)
  }

  /** `push`: `try_push` until it succeeds; with no concurrent consumer it must not be full. */
  function Push<T>(q: Spsc<T>, x: T): (q': Spsc<T>)
    requires Valid(q) && |Items(q)| < Capacity(q)
    ensures Valid(q') && |q'.data| == |q.data|
    ensures Items(q') == Items(q) + [x]
  {
    TryPush(q, x).queue
  }

  /** `pop`: `try_pop` until it succeeds; with no concurrent producer it must not be empty. */
  function Pop<T>(q: Spsc<T>, item: T): (r: (Spsc<T>, T))
    requires Valid(q) && Items(q) != []
    ensures Valid(r.0) && |r.0.data| == |q.data|
    ensures r.1 == Items(q)[0] && Items(r.0) == Items(q)[1..]
  {
    var p := TryPop(q, item);
    (p.queue, p.item)
  }

  /** A failed `try_push` leaves the ring full, so repeating it changes nothing more:
      the retry loop of `push` spins until the consumer moves `head`. */
  lemma FailedPushIsStable<T>(q: Spsc<T>, x: T)
    requires Valid(q) && !TryPush(q, x).ok
    ensures TryPush(TryPush(q, x).queue, x) == TryPush(q, x)
  {
  }
}
