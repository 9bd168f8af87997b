/** The unbounded FIFO behind the three lock-based unbounded queues
    (`UnboundedBufferDequeBased`, `MutexListQueue`, `TwoLockUnboundedQueue`):
    their container (`std::deque`, `std::list`, `std::queue`) is the queue's
    contents, oldest first, and each operation is one critical section.  The
    per-class modules delegate to the operations here, so the all-inputs
    lemmas below hold for each of them. */
module SeqFifo {

  import opened QueueResults

  datatype Queue<T> = Queue(items: seq<T>)

  function Create<T>(): (q: Queue<T>)
    ensures q.items == []
  {
    Queue([])
  }

  /** Append at the back; an unbounded queue never refuses. */
  function Push<T>(q: Queue<T>, x: T): (r: Pushed<Queue<T>>)
    ensures r.ok && r.queue.items == q.items + [x]
  {
    Pushed(Queue(q.items + [x]), true)
  }

  /** Remove the front item of a non-empty queue. */
  function Pop<T>(q: Queue<T>): (r: Popped<Queue<T>, T>)
    requires q.items != []
    ensures r.ok && [r.item] + r.queue.items == q.items
  {
    Popped(Queue(q.items[1..]), true, q.items[0])
  }

  /** False with `item` untouched on an empty queue, else the front item. */
  function TryPop<T>(q: Queue<T>, item: T): (r: Popped<Queue<T>, T>)
    ensures r.ok <==> q.items != []
    ensures r.ok ==> [r.item] + r.queue.items == q.items
    ensures !r.ok ==> r.queue == q && r.item == item
  {
    if q.items == [] then Popped(q, false, item)
    else Pop(q)
  }

  /** `push` each value in turn. */
  function PushAll<T>(q: Queue<T>, xs: seq<T>): (q': Queue<T>)
    decreases |xs|
  {
    if xs == [] then q else PushAll(Push(q, xs[0]).queue, xs[1..])
  }

  /** `try_pop` `n` times into one variable; the values it held after each call. */
  function TryPopN<T>(q: Queue<T>, n: nat, item: T): (r: (Queue<T>, seq<T>, bool))
    ensures |r.1| == n
    decreases n
  {
    if n == 0 then (q, [], true)
    else
      var first := TryPop(q, item);
      var rest := TryPopN(first.queue, n - 1, first.item);
      (rest.0, [first.item] + rest.1, first.ok && rest.2)
  }

  /** The first `n` values the blocking `pop` returns, one call after another. */
  function PopN<T>(q: Queue<T>, n: nat): (popped: seq<T>)
    requires n <= |q.items|
    decreases n
  {
    if n == 0 then [] else var r := Pop(q); [r.item] + PopN(r.queue, n - 1)
  }

  /** `while (queue.try_pop(n)) sum += n;`: the values popped until the first failure. */
  function Drain<T>(q: Queue<T>, item: T): (popped: seq<T>)
    decreases |q.items|
  {
    var r := TryPop(q, item);
    if r.ok then [r.item] + Drain(r.queue, r.item) else []
  }

  lemma {:induction false} PushAllAppends<T>(q: Queue<T>, xs: seq<T>)
    ensures PushAll(q, xs).items == q.items + xs
    decreases |xs|
  {
    if xs != [] {
      PushAllAppends(Push(q, xs[0]).queue, xs[1..]);
      assert q.items + xs == q.items + [xs[0]] + xs[1..];
    }
  }

  lemma {:induction false} TryPopNTakes<T>(q: Queue<T>, n: nat, item: T)
    requires n <= |q.items|
    ensures TryPopN(q, n, item).2 && TryPopN(q, n, item).1 == q.items[..n]
    ensures TryPopN(q, n, item).0.items == q.items[n..]
    decreases n
  {
    if n > 0 {
      var first := TryPop(q, item);
      TryPopNTakes(first.queue, n - 1, first.item);
      assert q.items[..n] == [q.items[0]] + q.items[1..][..n - 1];
      assert q.items[n..] == q.items[1..][n - 1..];
    }
  }

  lemma {:induction false} PopNIsPrefix<T>(q: Queue<T>, n: nat)
    requires n <= |q.items|
    ensures PopN(q, n) == q.items[..n]
    decreases n
  {
    if n > 0 {
      PopNIsPrefix(Pop(q).queue, n - 1);
      assert q.items[..n] == [q.items[0]] + q.items[1..][..n - 1];
    }
  }

  /** Draining pops every queued item, in order, and leaves nothing behind. */
  lemma {:induction false} DrainIsContents<T>(q: Queue<T>, item: T)
    ensures Drain(q, item) == q.items
    decreases |q.items|
  {
    if q.items != [] {
      DrainIsContents(TryPop(q, item).queue, q.items[0]);
    }
  }

  /** After pushing `xs`, popping everything yields the earlier items, then `xs`, in order. */
  lemma FifoOrder<T>(q: Queue<T>, xs: seq<T>)
    ensures |PushAll(q, xs).items| == |q.items| + |xs|
    ensures PopN(PushAll(q, xs), |q.items| + |xs|) == q.items + xs
  {
    PushAllAppends(q, xs);
    PopNIsPrefix(PushAll(q, xs), |q.items| + |xs|);
  }

  /** Values pushed into an empty queue come back from `try_pop` in the same order. */
  lemma SequentialPushPop<T>(xs: seq<T>, item: T)
    ensures TryPopN(PushAll(Create(), xs), |xs|, item).2
    ensures TryPopN(PushAll(Create(), xs), |xs|, item).1 == xs
  {
    PushAllAppends(Create<T>(), xs);
    TryPopNTakes(PushAll(Create(), xs), |xs|, item);
  }

  /** Conservation: draining after any number of pushes yields exactly the pushed
      values, so their multisets (and sums) agree. */
  lemma PushedEqualsDrained<T>(xs: seq<T>, item: T)
    ensures multiset(Drain(PushAll(Create(), xs), item)) == multiset(xs)
  {
    PushAllAppends(Create<T>(), xs);
    DrainIsContents(PushAll(Create(), xs), item);
  }
}
