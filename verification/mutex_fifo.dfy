/** `Mutex<T>` from the cppcon2023 collection: a mutex-guarded bounded FIFO
    with monotonic cursors.  `pushCursor - popCursor` is the number of items and
    a cursor names slot `cursor % capacity`.  Cursors are unbounded here. */
module MutexFifo {

  import opened Circular
  import opened QueueResults

  datatype Fifo<T> = Fifo(ring: seq<T>, pushCursor: nat, popCursor: nat)

  function Capacity<T>(f: Fifo<T>): nat
  {
    |f.ring|
  }

  /** `popCursor <= pushCursor <= popCursor + capacity`. */
  predicate Valid<T>(f: Fifo<T>)
  {
    f.popCursor <= f.pushCursor <= f.popCursor + |f.ring|
  }

  function Items<T>(f: Fifo<T>): seq<T>
    requires Valid(f)
  {
    Window(f.ring, f.popCursor, f.pushCursor - f.popCursor)
  }

  /** The constructor allocates `capacity` slots; their initial contents are unspecified. */
  function Create<T>(capacity: nat, fill: T): (f: Fifo<T>)
    ensures Valid(f) && Capacity(f) == capacity && Items(f) == []
  {
    Fifo(seq(capacity, _ => fill), 0, 0)
  }

  function Size<T>(f: Fifo<T>): (n: nat)
    requires Valid(f)
    ensures n == |Items(f)| <= Capacity(f)
  {
    f.pushCursor - f.popCursor
  }

  predicate Empty<T>(f: Fifo<T>)
    requires Valid(f)
    ensures Empty(f) <==> Items(f) == []
  {
    Size(f) == 0
  }

  predicate Full<T>(f: Fifo<T>)
    requires Valid(f)
    ensures Full(f) <==> |Items(f)| == Capacity(f)
  {
    Size(f) == Capacity(f)
  }

  /** `push`: returns false with no change when full, else writes slot `pushCursor % capacity`. */
  function Push<T>(f: Fifo<T>, x: T): (r: Pushed<Fifo<T>>)
    requires Valid(f)
    ensures Valid(r.queue) && Capacity(r.queue) == Capacity(f)
    ensures r.ok <==> |Items(f)| < Capacity(f)
    ensures r.ok ==> Items(r.queue) == Items(f) + [x]
    ensures !r.ok ==> r.queue == f
  {
    if f.pushCursor - f.popCursor == |f.ring| then Pushed(f, false)
    else
      WindowPush(f.ring, f.popCursor, f.pushCursor - f.popCursor, x);
      Pushed(Fifo(f.ring[f.pushCursor % |f.ring| := x], f.pushCursor + 1, f.popCursor), true)
  }

  /** `pop`: returns false with no change when empty, else reads slot `popCursor % capacity`. */
  function Pop<T>(f: Fifo<T>, item: T): (r: Popped<Fifo<T>, T>)
    requires Valid(f)
    ensures Valid(r.queue) && Capacity(r.queue) == Capacity(f)
    ensures r.ok <==> Items(f) != []
    ensures r.ok ==> r.item == Items(f)[0] && Items(r.queue) == Items(f)[1..]
    ensures !r.ok ==> r.queue == f && r.item == item
  {
    if f.pushCursor == f.popCursor then Popped(f, false, item)
    else
      WindowPop(f.ring, f.popCursor, f.pushCursor - f.popCursor);
      Popped(Fifo(f.ring, f.pushCursor, f.popCursor + 1), true, f.ring[f.popCursor % |f.ring|])
  }

  /** The destructor destroys the remaining items one by one from `popCursor` on;
      `destroyed` lists them in the order the loop visits them. */
  method Destroy<T>(f: Fifo<T>) returns (destroyed: seq<T>, slots: seq<nat>)
    requires Valid(f)
    ensures destroyed == Items(f)
    ensures |slots| == Size(f)
    ensures forall i :: 0 <= i < |slots| ==> slots[i] == (f.popCursor + i) % Capacity(f)
  {
    var popCursor := f.popCursor;
    destroyed, slots := [], [];
    while popCursor != f.pushCursor
      invariant f.popCursor <= popCursor <= f.pushCursor
      invariant destroyed == Items(f)[..popCursor - f.popCursor]
      invariant |slots| == popCursor - f.popCursor
      invariant forall i :: 0 <= i < |slots| ==> slots[i] == (f.popCursor + i) % |f.ring|
      decreases f.pushCursor - popCursor
    {
      var slot := popCursor % |f.ring|;
      assert Items(f)[popCursor - f.popCursor] == f.ring[slot];
      assert Items(f)[..popCursor - f.popCursor + 1] == Items(f)[..popCursor - f.popCursor] + [f.ring[slot]];
      destroyed := destroyed + [f.ring[slot]];
      slots := slots + [slot];
      popCursor := popCursor + 1;
    }
  }
}
