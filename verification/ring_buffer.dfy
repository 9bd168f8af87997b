/** `RingBuffer<T>`: a single-threaded circular buffer over a vector whose
    length is the capacity.  `head` is the slot of the oldest item, `tail` the
    slot the next item goes to, `size` the number of items.  Pushing onto a full
    buffer overwrites the oldest item. */
module RingBuffer {

  import opened Circular

  datatype Ring<T> = Ring(buffer: seq<T>, head: nat, tail: nat, size: nat)

  /** The private `capacity()`: the vector's length, a bound on the number of items. */
  function Capacity<T>(r: Ring<T>): (n: nat)
    ensures Valid(r) ==> |Items(r)| <= n
  {
    |r.buffer|
  }

  /** Cursors stay inside the vector and `tail` is always `size` slots past `head`. */
  predicate Valid<T>(r: Ring<T>)
  {
    && r.size <= |r.buffer|
    && (|r.buffer| == 0 ==> r.head == 0 && r.tail == 0)
    && (|r.buffer| > 0 ==>
          r.head < |r.buffer| && r.tail < |r.buffer| && r.tail == (r.head + r.size) % |r.buffer|)
  }

  /** The buffered items, oldest first. */
  function Items<T>(r: Ring<T>): seq<T>
    requires Valid(r)
  {
    Window(r.buffer, r.head, r.size)
  }

  /** The constructor: a value-initialised vector of `capacity` slots and no items. */
  function Create<T>(capacity: nat, fill: T): (r: Ring<T>)
    ensures Valid(r) && Capacity(r) == capacity
    ensures Items(r) == []
  {
    Ring(seq(capacity, _ => fill), 0, 0, 0)
  }

  /** `front()`: the slot at `head`; on a non-empty buffer that is the oldest item. */
  function Front<T>(r: Ring<T>): (x: T)
    requires Valid(r) && Capacity(r) > 0
    ensures r.size > 0 ==> x == Items(r)[0]
  {
    r.buffer[r.head]
  }

  /** `back()`: the slot before `tail`; on a non-empty buffer that is the newest item. */
  function Back<T>(r: Ring<T>): (x: T)
    requires Valid(r) && Capacity(r) > 0
    ensures r.size > 0 ==> x == Items(r)[|Items(r)| - 1]
  {
    LastSlot(r);
    r.buffer[if r.tail == 0 then |r.buffer| - 1 else r.tail - 1]
  }

  /** The slot before `tail` holds the newest item. */
  lemma LastSlot<T>(r: Ring<T>)
    requires Valid(r) && Capacity(r) > 0
    ensures r.size > 0 ==>
      (if r.tail == 0 then |r.buffer| - 1 else r.tail - 1) == (r.head + (r.size - 1)) % |r.buffer|
  {
    if r.size > 0 {
      ModSucc(r.head + r.size - 1, |r.buffer|);
    }
  }

  /** `push_back`: append; when the buffer is full the oldest item is overwritten. */
  function PushBack<T>(r: Ring<T>, x: T): (r': Ring<T>)
    requires Valid(r) && Capacity(r) > 0
    ensures Valid(r') && Capacity(r') == Capacity(r)
    ensures r.size < Capacity(r) ==> Items(r') == Items(r) + [x]
    ensures r.size == Capacity(r) ==> Items(r') == Items(r)[1..] + [x]
  {
    var c := |r.buffer|;
    var buffer := r.buffer[r.tail := x];
    var tail := (r.tail + 1) % c;
    ModAdd(r.head + r.size, 1, c);
    if r.size == c then
      ModWrap(r.head, c);
      ModWrap(r.head + 1, c);
      ModAdd(r.head + 1, c, c);
      WindowOverwrite(r.buffer, r.head, x);
      WindowMod(buffer, r.head + 1, c);
      Ring(buffer, (r.head + 1) % c, tail, r.size)
    else
      WindowPush(r.buffer, r.head, r.size, x);
      Ring(buffer, r.head, tail, r.size + 1)
  }

  /** `pop_front`: drop the oldest item.  The source does not check for emptiness. */
  function PopFront<T>(r: Ring<T>): (r': Ring<T>)
    requires Valid(r) && r.size > 0
    ensures Valid(r') && Capacity(r') == Capacity(r)
    ensures Items(r') == Items(r)[1..]
  {
    var c := |r.buffer|;
    ModAdd(r.head, 1, c);
    ModAdd(r.head + 1, r.size - 1, c);
    WindowPop(r.buffer, r.head, r.size);
    WindowMod(r.buffer, r.head + 1, r.size - 1);
    Ring(r.buffer, (r.head + 1) % c, r.tail, r.size - 1)
  }

  function Size<T>(r: Ring<T>): (n: nat)
    requires Valid(r)
    ensures n == |Items(r)| <= Capacity(r)
  {
    r.size
  }

  predicate Empty<T>(r: Ring<T>)
    requires Valid(r)
    ensures Empty(r) <==> Items(r) == []
  {
    r.size == 0
  }

  predicate Full<T>(r: Ring<T>)
    requires Valid(r)
    ensures Full(r) <==> |Items(r)| == Capacity(r)
  {
    r.size == |r.buffer|
  }
}
