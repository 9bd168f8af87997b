/** `Fifo4b<T>` from the cppcon2023 collection: a lock-free SPSC ring whose
    cursors are kept in `[0, capacity_)` by wrapping to 0, with
    `capacity_ == capacity + 1` so that one slot always stays free to tell
    full from empty.  Each side caches the other side's cursor.

    The source allocates only `capacity` slots although cursors range up to
    `capacity_ - 1 == capacity`; the `...AsWritten` members model that
    allocation and show the out-of-bounds access, while the rest of the model
    allocates `capacity_` slots.  Likewise `size()` asserts
    `popCursor <= pushCursor`, which wrapped cursors break, and `empty()` and
    `full()` inherit that: the `...AsWritten` and `...Unchecked` queries show
    them with assertions on and off, and `Size` is the circular distance. */
module Fifo4b {

  import opened Bits
  import opened Circular
  import opened QueueResults

  /** `bound` is the member `capacity_`; `ring` the allocated slots. */
  datatype Fifo<T> = Fifo(ring: seq<T>, bound: nat, pushCursor: nat, popCursor: nat,
                          popCursorCached: nat, pushCursorCached: nat)

  /** The wrapped increment of a cursor. */
  function Next(c: nat, bound: nat): (n: nat)
    requires c < bound
    ensures n < bound
  {
    if c + 1 == bound then 0 else c + 1
  }

  /** How many increments take cursor `from` to cursor `to`. */
  function Dist(from: nat, to: nat, bound: nat): (d: nat)
    requires from < bound && to < bound
    ensures d < bound
    ensures (from + d) % bound == to
  {
    ModUnique(from + (to - from), bound, 0, to);
    ModUnique(from + (to + bound - from), bound, 1, to);
    if from <= to then to - from else to + bound - from
  }

  /** Cursors and caches stay in `[0, capacity_)`; the cached pop cursor lags the pop
      cursor by no more than the free slots, and the cached push cursor lies between
      the pop cursor and the push cursor. */
  predicate CursorsValid<T>(f: Fifo<T>)
  {
    && 0 < f.bound
    && f.pushCursor < f.bound && f.popCursor < f.bound
    && f.popCursorCached < f.bound && f.pushCursorCached < f.bound
    && Dist(f.popCursorCached, f.popCursor, f.bound) + Dist(f.popCursor, f.pushCursor, f.bound) < f.bound
    && Dist(f.popCursor, f.pushCursorCached, f.bound) <= Dist(f.popCursor, f.pushCursor, f.bound)
  }

  /** Cursor invariants plus one slot for every cursor value. */
  predicate Valid<T>(f: Fifo<T>)
  {
    CursorsValid(f) && |f.ring| == f.bound
  }

  function Items<T>(f: Fifo<T>): seq<T>
    requires Valid(f)
  {
    Window(f.ring, f.popCursor, Dist(f.popCursor, f.pushCursor, f.bound))
  }

  /** `capacity()`: `capacity_ - 1`, the constructor's argument. */
  function Capacity<T>(f: Fifo<T>): (n: nat)
    requires Valid(f)
    ensures |Items(f)| <= n
  {
    f.bound - 1
  }

  /** A constructor that allocates a slot for every cursor value. */
  function Create<T>(capacity: nat, fill: T): (f: Fifo<T>)
    ensures Valid(f) && Capacity(f) == capacity && Items(f) == []
  {
    Fifo(seq(capacity + 1, _ => fill), capacity + 1, 0, 0, 0, 0)
  }

  /** The source's constructor: `capacity_ == capacity + 1` but only `capacity` slots. */
  function CreateAsWritten<T>(capacity: nat, fill: T): (f: Fifo<T>)
    ensures CursorsValid(f) && |f.ring| == f.bound - 1 && f.bound - 1 == capacity
  {
    Fifo(seq(capacity, _ => fill), capacity + 1, 0, 0, 0, 0)
  }

  /** `size()` as the distance from the pop cursor to the push cursor. */
  function Size<T>(f: Fifo<T>): (n: nat)
    requires Valid(f)
    ensures n == |Items(f)|
  {
    Dist(f.popCursor, f.pushCursor, f.bound)
  }

  predicate Empty<T>(f: Fifo<T>)
    requires Valid(f)
    ensures Empty(f) <==> Items(f) == []
  {
    Size(f) == 0
  }

  predicate Full<T>(f: Fifo<T>)
    requires Valid(f)
    ensures Full(f) <==> |Items(f)| == Capacity(f)
  {
    Size(f) == Capacity(f)
  }

  /** The outcome of a query with assertions enabled. */
  datatype Checked<V> = Passed(value: V) | AssertionFailed

  /** `size()` as written: assert `popCursor <= pushCursor`, return the difference. */
  function SizeAsWritten<T>(f: Fifo<T>): (r: Checked<nat>)
    ensures r.Passed? <==> f.popCursor <= f.pushCursor
    ensures Valid(f) && r.Passed? ==> r.value == |Items(f)|
  {
    if f.popCursor <= f.pushCursor then Passed(f.pushCursor - f.popCursor) else AssertionFailed
  }

  /** `empty()` as written: `size() == 0`, so it fails `size()`'s assertion after a wrap. */
  function EmptyAsWritten<T>(f: Fifo<T>): (r: Checked<bool>)
    ensures r.Passed? <==> f.popCursor <= f.pushCursor
    ensures Valid(f) && r.Passed? ==> (r.value <==> Items(f) == [])
  {
    match SizeAsWritten(f)
    case Passed(n) => Passed(n == 0)
    case AssertionFailed => AssertionFailed
  }

  /** `full()` as written: `size() == capacity()`, with the same assertion. */
  function FullAsWritten<T>(f: Fifo<T>): (r: Checked<bool>)
    requires f.bound > 0
    ensures r.Passed? <==> f.popCursor <= f.pushCursor
    ensures Valid(f) && r.Passed? ==> (r.value <==> |Items(f)| == Capacity(f))
  {
    match SizeAsWritten(f)
    case Passed(n) => Passed(n == f.bound - 1)
    case AssertionFailed => AssertionFailed
  }

  /** `size()` with assertions disabled: the unsigned difference, which wraps
      past 2^64 when the push cursor has wrapped below the pop cursor. */
  function SizeUnchecked<T>(f: Fifo<T>): (n: nat)
    requires Valid(f) && f.bound < Word
    ensures n < Word
    ensures f.popCursor <= f.pushCursor ==> n == |Items(f)|
    ensures f.pushCursor < f.popCursor ==> n == |Items(f)| + Word - f.bound
  {
    if f.popCursor <= f.pushCursor then f.pushCursor - f.popCursor
    else Word + f.pushCursor - f.popCursor
  }

  /** `empty()` with assertions disabled is still right: a wrapped difference is never 0. */
  predicate EmptyUnchecked<T>(f: Fifo<T>)
    requires Valid(f) && f.bound < Word
    ensures EmptyUnchecked(f) <==> Items(f) == []
  {
    SizeUnchecked(f) == 0
  }

  /** `full()` with assertions disabled: right until the push cursor wraps below the
      pop cursor, after which a full fifo reports not full. */
  predicate FullUnchecked<T>(f: Fifo<T>)
    requires Valid(f) && f.bound < Word
    ensures f.popCursor <= f.pushCursor ==> (FullUnchecked(f) <==> |Items(f)| == Capacity(f))
    ensures f.pushCursor < f.popCursor && |Items(f)| == Capacity(f) ==> !FullUnchecked(f)
  {
    SizeUnchecked(f) == f.bound - 1
  }

  /** The full test of `try_push`: the wrapped next push cursor meets the pop cursor. */
  lemma FullIffNextMeetsPop<T>(f: Fifo<T>)
    requires CursorsValid(f)
    ensures Next(f.pushCursor, f.bound) == f.popCursor
            <==> Dist(f.popCursor, f.pushCursor, f.bound) == f.bound - 1
  {
  }

  /** The producer's cached pop cursor after the check in `try_push`. */
  function ProducerView<T>(f: Fifo<T>): (cached: nat)
    requires CursorsValid(f)
    ensures cached < f.bound
    ensures Next(f.pushCursor, f.bound) == cached
            <==> Dist(f.popCursor, f.pushCursor, f.bound) == f.bound - 1
    ensures Dist(cached, f.popCursor, f.bound) + Dist(f.popCursor, f.pushCursor, f.bound) < f.bound
  {
    FullIffNextMeetsPop(f);
    if Next(f.pushCursor, f.bound) == f.popCursorCached then f.popCursor else f.popCursorCached
  }

  /** The consumer's cached push cursor after the check in `try_pop`. */
  function ConsumerView<T>(f: Fifo<T>): (cached: nat)
    requires CursorsValid(f)
    ensures cached < f.bound
    ensures cached == f.popCursor <==> f.pushCursor == f.popCursor
    ensures Dist(f.popCursor, cached, f.bound) <= Dist(f.popCursor, f.pushCursor, f.bound)
  {
    if f.popCursor == f.pushCursorCached then f.pushCursor else f.pushCursorCached
  }

  /** The cursors after a successful push: the wrapped next push cursor and the refreshed cache. */
  function Pushed1<T>(f: Fifo<T>, cached: nat): (g: Fifo<T>)
    requires CursorsValid(f) && cached < f.bound
    requires Dist(cached, f.popCursor, f.bound) + Dist(f.popCursor, f.pushCursor, f.bound) < f.bound
    requires Next(f.pushCursor, f.bound) != cached
    ensures CursorsValid(g) && g.ring == f.ring && g.bound == f.bound && g.popCursor == f.popCursor
    ensures Dist(f.popCursor, g.pushCursor, f.bound) == Dist(f.popCursor, f.pushCursor, f.bound) + 1
  {
    f.(pushCursor := Next(f.pushCursor, f.bound), popCursorCached := cached)
  }

  /** The cursors after a successful pop. */
  function Popped1<T>(f: Fifo<T>, cached: nat): (g: Fifo<T>)
    requires CursorsValid(f) && cached < f.bound
    requires Dist(f.popCursor, cached, f.bound) <= Dist(f.popCursor, f.pushCursor, f.bound)
    requires cached != f.popCursor
    ensures CursorsValid(g) && g.ring == f.ring && g.bound == f.bound && g.pushCursor == f.pushCursor
    ensures g.popCursor == Next(f.popCursor, f.bound)
    ensures Dist(g.popCursor, g.pushCursor, f.bound) + 1 == Dist(f.popCursor, f.pushCursor, f.bound)
  {
    f.(popCursor := Next(f.popCursor, f.bound), pushCursorCached := cached)
  }

  /** `try_push`: fails exactly when the fifo holds `capacity()` items; otherwise writes
      `ring_[pushCursor]` and publishes the wrapped next cursor. */
  function TryPush<T>(f: Fifo<T>, x: T): (r: Pushed<Fifo<T>>)
    requires Valid(f)
    ensures Valid(r.queue) && r.queue.bound == f.bound
    ensures r.ok <==> |Items(f)| < Capacity(f)
    ensures r.ok ==> Items(r.queue) == Items(f) + [x]
    ensures !r.ok ==> Items(r.queue) == Items(f)
    ensures r.queue.popCursor == f.popCursor && r.queue.pushCursorCached == f.pushCursorCached
    ensures r.ok ==> |r.queue.ring| == |f.ring| &&
                     forall i :: 0 <= i < |f.ring| && i != f.pushCursor ==> r.queue.ring[i] == f.ring[i]
    ensures !r.ok ==> r.queue == f.(popCursorCached := r.queue.popCursorCached)
  {
    var cached := ProducerView(f);
    if Next(f.pushCursor, f.bound) == cached then Pushed(f.(popCursorCached := cached), false)
    else
      var g := Pushed1(f, cached);
      var n := Dist(f.popCursor, f.pushCursor, f.bound);
      ModUnique(f.pushCursor, f.bound, 0, f.pushCursor);
      WindowPush(f.ring, f.popCursor, n, x);
      Pushed(g.(ring := f.ring[f.pushCursor := x]), true)
  }

  /** `try_pop`: fails, leaving `item` untouched, exactly when the fifo is empty; otherwise
      reads `ring_[popCursor]` and publishes the wrapped next cursor. */
  function TryPop<T>(f: Fifo<T>, item: T): (r: Popped<Fifo<T>, T>)
    requires Valid(f)
    ensures Valid(r.queue) && r.queue.bound == f.bound
    ensures r.ok <==> Items(f) != []
    ensures r.ok ==> r.item == Items(f)[0] && Items(r.queue) == Items(f)[1..]
    ensures !r.ok ==> Items(r.queue) == Items(f) && r.item == item
    ensures r.queue.pushCursor == f.pushCursor && r.queue.popCursorCached == f.popCursorCached
    ensures r.queue.ring == f.ring
    ensures !r.ok ==> r.queue == f.(pushCursorCached := r.queue.pushCursorCached)
  {
    var cached := ConsumerView(f);
    if cached == f.popCursor then Popped(f.(pushCursorCached := cached), false, item)
    else
      var g := Popped1(f, cached);
      var n := Dist(f.popCursor, f.pushCursor, f.bound);
      ModUnique(f.popCursor, f.bound, 0, f.popCursor);
      ModUnique(f.bound, f.bound, 1, 0);
      WindowPop(f.ring, f.popCursor, n);
      WindowMod(f.ring, f.popCursor + 1, n - 1);
      Popped(g, true, f.ring[f.popCursor])
  }

  /** What an access to `ring_` does when the index may lie past the allocation. */
  datatype Access<R> = InBounds(value: R) | OutOfBounds(index: nat)

  /** `try_push` over the source's allocation of `capacity_ - 1` slots. */
  function TryPushAsWritten<T>(f: Fifo<T>, x: T): (r: Access<Pushed<Fifo<T>>>)
    requires CursorsValid(f) && |f.ring| == f.bound - 1
    ensures r.OutOfBounds? <==> f.pushCursor == |f.ring| && Dist(f.popCursor, f.pushCursor, f.bound) < |f.ring|
    ensures r.OutOfBounds? ==> r.index == f.pushCursor
    ensures r.InBounds? ==> CursorsValid(r.value.queue) && |r.value.queue.ring| == |f.ring|
  {
    var cached := ProducerView(f);
    if Next(f.pushCursor, f.bound) == cached then InBounds(Pushed(f.(popCursorCached := cached), false))
    else if f.pushCursor < |f.ring| then
      InBounds(Pushed(Pushed1(f, cached).(ring := f.ring[f.pushCursor := x]), true))
    else OutOfBounds(f.pushCursor)
  }

  /** `try_pop` over the source's allocation of `capacity_ - 1` slots. */
  function TryPopAsWritten<T>(f: Fifo<T>, item: T): (r: Access<Popped<Fifo<T>, T>>)
    requires CursorsValid(f) && |f.ring| == f.bound - 1
    ensures r.OutOfBounds? <==> f.popCursor == |f.ring| && f.popCursor != f.pushCursor
    ensures r.OutOfBounds? ==> r.index == f.popCursor
    ensures r.InBounds? ==> CursorsValid(r.value.queue) && |r.value.queue.ring| == |f.ring|
  {
    var cached := ConsumerView(f);
    if cached == f.popCursor then InBounds(Popped(f.(pushCursorCached := cached), false, item))
    else if f.popCursor < |f.ring| then InBounds(Popped(Popped1(f, cached), true, f.ring[f.popCursor]))
    else OutOfBounds(f.popCursor)
  }

  /** Capacity 1 as written: push, pop, push writes `ring_[1]` of a one-slot allocation. */
  lemma OutOfBoundsWriteReachable()
    ensures var f0 := CreateAsWritten(1, 0);
            var a := TryPushAsWritten(f0, 7);
            && a.InBounds? && a.value.ok
            && var b := TryPopAsWritten(a.value.queue, 0);
               && b.InBounds? && b.value.ok && b.value.item == 7
               && TryPushAsWritten(b.value.queue, 8) == OutOfBounds(1)
  {
  }

  /** Capacity 1, allocated correctly: push, pop, push wraps the push cursor to 0
      while the pop cursor is 1, so `size()`'s assertion fails on a fifo holding one item. */
  lemma SizeAssertFailsAfterWrap()
    ensures var f0 := Create(1, 0);
            var a := TryPush(f0, 7);
            var b := TryPop(a.queue, 0);
            var c := TryPush(b.queue, 8);
            && a.ok && b.ok && c.ok
            && Size(c.queue) == 1 && Items(c.queue) == [8]
            && SizeAsWritten(c.queue) == AssertionFailed
  {
    var f0 := Create(1, 0);
    var a := TryPush(f0, 7);
    assert a.queue == Fifo([7, 0], 2, 1, 0, 0, 0);
    var b := TryPop(a.queue, 0);
    assert b.queue == Fifo([7, 0], 2, 1, 1, 0, 1);
    var c := TryPush(b.queue, 8);
    assert c.queue.pushCursor == 0 && c.queue.popCursor == 1;
  }

  /** Capacity 2: push, push, pop, push leaves the fifo full with the push cursor at 0
      and the pop cursor at 1.  `full()` then fails its assertion, and without
      assertions it computes `0 - 1`, which wraps, and answers "not full". */
  lemma WrappedFullReportsNotFull()
    ensures var f0 := Create(2, 0);
            var a := TryPush(f0, 1);
            var b := TryPush(a.queue, 2);
            var c := TryPop(b.queue, 0);
            var d := TryPush(c.queue, 3);
            && a.ok && b.ok && c.ok && c.item == 1 && d.ok
            && d.queue.pushCursor == 0 && d.queue.popCursor == 1
            && Full(d.queue) && Items(d.queue) == [2, 3]
            && FullAsWritten(d.queue) == AssertionFailed
            && !FullUnchecked(d.queue)
  {
    var f0 := Create(2, 0);
    var a := TryPush(f0, 1);
    assert a.queue == Fifo([1, 0, 0], 3, 1, 0, 0, 0);
    var b := TryPush(a.queue, 2);
    assert b.queue == Fifo([1, 2, 0], 3, 2, 0, 0, 0);
    var c := TryPop(b.queue, 0);
    assert c.queue == Fifo([1, 2, 0], 3, 2, 1, 0, 2);
    var d := TryPush(c.queue, 3);
    assert d.queue.pushCursor == 0 && d.queue.popCursor == 1;
  }
}
