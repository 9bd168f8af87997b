/** `UnboundedBufferDequeBased<T>`: one mutex and one `not_empty_` condition
    over a `std::deque`.  The deque is the queue's contents, oldest first;
    every operation is one critical section over the shared `SeqFifo`. */
module DequeQueue {

  import opened QueueResults
  import SeqFifo

  type Queue<T> = SeqFifo.Queue<T>

  function Create<T>(): (q: Queue<T>)
    ensures q.items == []
  {
    SeqFifo.Create()
  }

  /** `push`: `push_back` and report success; an unbounded queue never refuses. */
  function Push<T>(q: Queue<T>, x: T): (r: Pushed<Queue<T>>)
    ensures r.ok && r.queue.items == q.items + [x]
  {
    SeqFifo.Push(q, x)
  }

  /** `try_push`: identical to `push`. */
  function TryPush<T>(q: Queue<T>, x: T): (r: Pushed<Queue<T>>)
    ensures r.ok && r.queue.items == q.items + [x]
  {
    SeqFifo.Push(q, x)
  }

  /** `pop`: the wait on `not_empty_` is the precondition. */
  function Pop<T>(q: Queue<T>): (r: Popped<Queue<T>, T>)
    requires q.items != []
    ensures r.ok && r.item == q.items[0] && r.queue.items == q.items[1..]
  {
    SeqFifo.Pop(q)
  }

  /** `try_pop`: false with `item` untouched on an empty deque, else the front item. */
  function TryPop<T>(q: Queue<T>, item: T): (r: Popped<Queue<T>, T>)
    ensures r.ok <==> q.items != []
    ensures r.ok ==> [r.item] + r.queue.items == q.items
    ensures !r.ok ==> r.queue == q && r.item == item
  {
    SeqFifo.TryPop(q, item)
  }

  /** A `pop` that waited on an empty queue returns the value pushed afterwards. */
  lemma PopAfterPush<T>(x: T)
    ensures Pop(Push(Create(), x).queue).item == x
  {
  }
}
