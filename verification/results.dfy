/** What one queue operation hands back to its caller, next to the queue's
    new state.  The repository's operations return `bool` and write a popped
    item through a reference argument; a pop that fails leaves that argument
    untouched, so `Popped.item` is the caller's own value whenever `ok` is false. */
module QueueResults {

  datatype Pushed<Q> = Pushed(queue: Q, ok: bool)

  datatype Popped<Q, T> = Popped(queue: Q, ok: bool, item: T)

  /** A constructor whose argument check may fail: `None` is the failed assertion. */
  datatype Option<T> = None | Some(value: T)
}
