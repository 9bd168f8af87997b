/** `mpmc_bounded_queue<T>` (Vyukov's bounded MPMC queue) over the shared
    sequence-number ring.  The slot count must be a power of two of at least
    two, and slots are found with `pos & buffer_mask_`.  A producer or consumer
    whose probe meets a slot that is not ready for it gives up (`dif < 0`) or
    reloads the position (`dif > 0`); with each call taken as one step the
    reload never happens. */
module MpmcBoundedQueue {

  import opened Bits
  import opened QueueResults
  import opened SequenceRing

  /** The constructor's assertion, on top of the slot invariant. */
  predicate Valid<T>(q: Ring<T>)
  {
    Sequenced(q) && Capacity(q) >= 2 && IsPow2(Capacity(q))
  }

  /** The constructor; `None` is its assertion
      `buffer_size >= 2 && (buffer_size & (buffer_size - 1)) == 0` failing. */
  function Create<T>(bufferSize: nat, fill: T): (r: Option<Ring<T>>)
    ensures r.Some? <==> bufferSize >= 2 && IsPow2(bufferSize)
    ensures r.Some? ==> Valid(r.value) && Capacity(r.value) == bufferSize && Items(r.value) == []
    ensures r.Some? ==> forall i :: 0 <= i < bufferSize ==> r.value.sequence[i] == i
  {
    if bufferSize < 2 then None
    else
      Pow2Test(bufferSize);
      if And(bufferSize, bufferSize - 1) == 0 then Some(Initial(bufferSize, fill)) else None
  }

  /** `&buffer_[pos & buffer_mask_]`: the slot of position `pos`. */
  function Cell<T>(q: Ring<T>, pos: nat): (i: nat)
    requires Valid(q)
    ensures i < Capacity(q) && i == pos % Capacity(q)
  {
    MaskIsMod(pos, Capacity(q));
    And(pos, Capacity(q) - 1)
  }

  /** The three ways one pass of the retry loop can end. */
  datatype Probe = Claim | GiveUp | Reload

  function Classify(dif: int): (p: Probe)
    ensures p == Claim <==> dif == 0
    ensures p == GiveUp <==> dif < 0
  {
    if dif == 0 then Claim else if dif < 0 then GiveUp else Reload
  }

  /** `enqueue`'s probe of its slot: claim exactly when the queue is not full, and
      never reload. */
  function EnqueueProbe<T>(q: Ring<T>): (p: Probe)
    requires Valid(q)
    ensures p != Reload
    ensures p == Claim <==> |Items(q)| < Capacity(q)
  {
    assert q.sequence[Cell(q, q.writePos)] - q.writePos == WriteDif(q);
    Classify(q.sequence[Cell(q, q.writePos)] - q.writePos)
  }

  /** `dequeue`'s probe of its slot: claim exactly when the queue is not empty, and
      never reload. */
  function DequeueProbe<T>(q: Ring<T>): (p: Probe)
    requires Valid(q)
    ensures p != Reload
    ensures p == Claim <==> Items(q) != []
  {
    assert q.sequence[Cell(q, q.readPos)] - (q.readPos + 1) == ReadDif(q);
    Classify(q.sequence[Cell(q, q.readPos)] - (q.readPos + 1))
  }

  /** `enqueue`: false exactly when the queue is full, and then nothing changes. */
  function Enqueue<T>(q: Ring<T>, x: T): (r: Pushed<Ring<T>>)
    requires Valid(q)
    ensures Valid(r.queue) && Capacity(r.queue) == Capacity(q)
    ensures r.ok <==> |Items(q)| < Capacity(q)
    ensures r.ok ==> Items(r.queue) == Items(q) + [x]
    ensures !r.ok ==> r.queue == q
  {
    if EnqueueProbe(q) == Claim then Pushed(Publish(q, Cell(q, q.writePos), x), true)
    else Pushed(q, false)
  }

  /** `dequeue`: false with `data` untouched exactly when the queue is empty;
      otherwise the oldest item, which is removed. */
  function Dequeue<T>(q: Ring<T>, data: T): (r: Popped<Ring<T>, T>)
    requires Valid(q)
    ensures Valid(r.queue) && Capacity(r.queue) == Capacity(q)
    ensures r.ok <==> Items(q) != []
    ensures r.ok ==> r.item == Items(q)[0] && Items(r.queue) == Items(q)[1..]
    ensures !r.ok ==> r.queue == q && r.item == data
  {
    if DequeueProbe(q) == Claim then
      var (q', x) := Recycle(q, Cell(q, q.readPos));
      Popped(q', true, x)
    else Popped(q, false, data)
  }

  /** `enqueue` on each value in turn: the values accepted are a prefix of `xs`, they
      are appended in order, and the first one refused met a full queue. */
  function EnqueueAll<T>(q: Ring<T>, xs: seq<T>): (r: (Ring<T>, nat))
    requires Valid(q)
    ensures Valid(r.0) && Capacity(r.0) == Capacity(q)
    ensures r.1 <= |xs| && Items(r.0) == Items(q) + xs[..r.1]
    ensures r.1 < |xs| ==> |Items(r.0)| == Capacity(q)
    decreases |xs|
  {
    if xs == [] then (q, 0)
    else
      var p := Enqueue(q, xs[0]);
      if !p.ok then (q, 0)
      else
        var rest := EnqueueAll(p.queue, xs[1..]);
        PrefixStep(Items(q), xs, rest.1);
        (rest.0, rest.1 + 1)
  }

  lemma PrefixStep<T>(a: seq<T>, xs: seq<T>, k: nat)
    requires 0 < |xs| && k < |xs|
    ensures a + [xs[0]] + xs[1..][..k] == a + xs[..k + 1]
  {
    assert xs[..k + 1] == [xs[0]] + xs[1..][..k];
  }

  /** `dequeue` until it fails: the items come out in the order they were queued. */
  function DequeueAll<T>(q: Ring<T>, data: T): (r: (Ring<T>, seq<T>))
    requires Valid(q)
    ensures Valid(r.0) && Items(r.0) == [] && r.1 == Items(q)
    decreases |Items(q)|
  {
    var p := Dequeue(q, data);
    if !p.ok then (q, [])
    else
      assert Items(p.queue) == Items(q)[1..] && p.item == Items(q)[0];
      var rest := DequeueAll(p.queue, data);
      assert [p.item] + rest.1 == Items(q);
      (rest.0, [p.item] + rest.1)
  }

  /** On a fresh queue of `C` slots, enqueueing `C + 1` values accepts the first `C`
      and dequeueing then returns exactly those, in order. */
  lemma FillAndDrain<T>(bufferSize: nat, fill: T, xs: seq<T>)
    requires bufferSize >= 2 && IsPow2(bufferSize) && |xs| == bufferSize + 1
    ensures var q := Create(bufferSize, fill).value;
            var e := EnqueueAll(q, xs);
            e.1 == bufferSize && DequeueAll(e.0, fill).1 == xs[..bufferSize]
  {
  }
}
