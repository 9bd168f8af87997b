/** `TwoLockUnboundedQueue<T>`: producers serialise on a tail lock and
    consumers on a head lock around one `std::queue`.  With each operation
    taken as one step the queue is the plain `SeqFifo`.  There is no `try_push`. */
module TwoLockQueue {

  import opened QueueResults
  import SeqFifo

  type Queue<T> = SeqFifo.Queue<T>

  /** What `pop` does after its wait: return an item, or throw "Buffer is empty". */
  datatype PopOutcome<T> = Returned(popped: Popped<Queue<T>, T>) | ThrewEmpty

  function Create<T>(): (q: Queue<T>)
    ensures q.items == []
  {
    SeqFifo.Create()
  }

  /** `push`: append under the tail lock and report success. */
  function Push<T>(q: Queue<T>, x: T): (r: Pushed<Queue<T>>)
    ensures r.ok && r.queue.items == q.items + [x]
  {
    SeqFifo.Push(q, x)
  }

  /** `pop`: the wait on a non-empty buffer is the precondition, and the emptiness
      re-check that would throw is therefore never taken. */
  function Pop<T>(q: Queue<T>): (r: PopOutcome<T>)
    requires q.items != []
    ensures r.Returned? && r.popped.ok
    ensures [r.popped.item] + r.popped.queue.items == q.items
  {
    if q.items == [] then ThrewEmpty
    else Returned(SeqFifo.Pop(q))
  }

  /** `try_pop`: false with `item` untouched when empty, else the front item. */
  function TryPop<T>(q: Queue<T>, item: T): (r: Popped<Queue<T>, T>)
    ensures r.ok <==> q.items != []
    ensures r.ok ==> [r.item] + r.queue.items == q.items
    ensures !r.ok ==> r.queue == q && r.item == item
  {
    SeqFifo.TryPop(q, item)
  }

  /** On a non-empty queue the blocking `pop` and `try_pop` agree. */
  lemma PopAgreesWithTryPop<T>(q: Queue<T>, item: T)
    requires q.items != []
    ensures Pop(q).popped == TryPop(q, item)
  {
  }

  /** `push` then `pop` on an empty queue hands back the pushed value. */
  lemma PopAfterPush<T>(x: T)
    ensures Pop(Push(Create(), x).queue).popped.item == x
  {
  }
}
