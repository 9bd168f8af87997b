/** `MutexListQueue<T>`: the same single-lock design as `UnboundedBufferDequeBased`
    over a `std::list`.  The list is the queue's contents, oldest first. */
module ListQueue {

  import opened QueueResults
  import SeqFifo

  type Queue<T> = SeqFifo.Queue<T>

  function Create<T>(): (q: Queue<T>)
    ensures q.items == []
  {
    SeqFifo.Create()
  }

  /** `push`: `emplace_back` and report success. */
  function Push<T>(q: Queue<T>, x: T): (r: Pushed<Queue<T>>)
    ensures r.ok && r.queue.items == q.items + [x]
  {
    SeqFifo.Push(q, x)
  }

  /** `try_push`: identical to `push`; the list never refuses an item. */
  function TryPush<T>(q: Queue<T>, x: T): (r: Pushed<Queue<T>>)
    ensures r.ok && r.queue.items == q.items + [x]
  {
    SeqFifo.Push(q, x)
  }

  /** `pop`: the wait on `not_empty_` is the precondition. */
  function Pop<T>(q: Queue<T>): (r: Popped<Queue<T>, T>)
    requires q.items != []
    ensures r.ok && [r.item] + r.queue.items == q.items
  {
    SeqFifo.Pop(q)
  }

  /** `try_pop`: false with `item` untouched on an empty list, else the front item. */
  function TryPop<T>(q: Queue<T>, item: T): (r: Popped<Queue<T>, T>)
    ensures r.ok <==> q.items != []
    ensures r.ok ==> [r.item] + r.queue.items == q.items
    ensures !r.ok ==> r.queue == q && r.item == item
  {
    SeqFifo.TryPop(q, item)
  }
}
