/** `Fifo5b<T>` from the cppcon2023 collection: a lock-free SPSC ring of a
    power-of-two number of slots, indexed by `cursor & mask_` with monotonic
    cursors and cached cursors.  `push()` and `pop()` return RAII proxies
    (`pusher_t`, `popper_t`) that give direct access to the slot and publish
    the cursor increment when they are destroyed, unless `release()` was called.

    The capacity is `|ring|`, which is `mask_ + 1`.  The values are trivially
    copyable, so the proxy's `memcpy` is a plain slot write here. */
module Fifo5b {

  import opened Bits
  import opened Circular
  import opened QueueResults

  datatype Fifo<T> = Fifo(ring: seq<T>, pushCursor: nat, popCursor: nat,
                          popCursorCached: nat, pushCursorCached: nat)

  /** A `pusher_t` or `popper_t`: `active` is its `fifo_` pointer being non-null. */
  datatype Pusher = Pusher(active: bool, cursor: nat)
  datatype Popper = Popper(active: bool, cursor: nat)

  /** The power-of-two ring (or the empty one the constructor also accepts) and
      `popCursorCached <= popCursor <= pushCursorCached <= pushCursor <= popCursorCached + capacity`. */
  predicate Valid<T>(f: Fifo<T>)
  {
    && (|f.ring| == 0 || IsPow2(|f.ring|))
    && f.popCursorCached <= f.popCursor <= f.pushCursorCached <= f.pushCursor
    && f.pushCursor <= f.popCursorCached + |f.ring|
  }

  function Items<T>(f: Fifo<T>): seq<T>
    requires Valid(f)
  {
    Window(f.ring, f.popCursor, f.pushCursor - f.popCursor)
  }

  /** `mask_ = capacity - 1`, computed in `size_type`: `capacity()`, which is
      `mask_ + 1` in the same type, gives the constructor's argument back. */
  function Mask(capacity: nat): (m: nat)
    ensures capacity < Word ==> m < Word && (m + 1) % Word == capacity
  {
    if capacity == 0 then Word - 1 else capacity - 1
  }

  /** The constructor; `None` is its `assert((capacity & mask_) == 0)` failing.
      Capacity 0 passes the assertion, because `mask_` wraps and `0 & mask_ == 0`,
      and gives a fifo that refuses every push. */
  function Create<T>(capacity: nat, fill: T): (r: Option<Fifo<T>>)
    ensures r.Some? <==> capacity == 0 || IsPow2(capacity)
    ensures r.Some? ==> Valid(r.value) && Capacity(r.value) == capacity && Items(r.value) == []
  {
    MaskTest(capacity);
    if And(capacity, Mask(capacity)) == 0 then Some(Fifo(seq(capacity, _ => fill), 0, 0, 0, 0))
    else None
  }

  lemma MaskTest(capacity: nat)
    ensures And(capacity, Mask(capacity)) == 0 <==> capacity == 0 || IsPow2(capacity)
  {
    if capacity > 0 {
      Pow2Test(capacity);
    }
  }

  /** `capacity()`: `mask_ + 1`. */
  function Capacity<T>(f: Fifo<T>): (n: nat)
    requires Valid(f)
    ensures |Items(f)| <= n
  {
    |f.ring|
  }

  /** `element(cursor)`: the slot `cursor & mask_`, which is slot `cursor % capacity`. */
  function Element<T>(f: Fifo<T>, cursor: nat): (i: nat)
    requires Valid(f) && |f.ring| > 0
    ensures i < |f.ring| && i == cursor % |f.ring|
  {
    MaskIsMod(cursor, |f.ring|);
    And(cursor, |f.ring| - 1)
  }

  /** The private `full(pushCursor, popCursor)`, whose assertion `popCursor <= pushCursor`
      is this function's precondition: every call below discharges it. */
  predicate FullView(pushCursor: nat, popCursor: nat, capacity: nat)
    requires popCursor <= pushCursor
  {
    pushCursor - popCursor == capacity
  }

  /** The static `empty(pushCursor, popCursor)`. */
  predicate EmptyView(pushCursor: nat, popCursor: nat)
  {
    pushCursor == popCursor
  }

  /** `full` on the real cursors is fullness, and on the producer's lagging cache a
      "not full" answer is never wrong. */
  lemma FullViewMeansFull<T>(f: Fifo<T>)
    requires Valid(f)
    ensures FullView(f.pushCursor, f.popCursor, |f.ring|) <==> |Items(f)| == Capacity(f)
    ensures !FullView(f.pushCursor, f.popCursorCached, |f.ring|) ==> |Items(f)| < Capacity(f)
  {
  }

  /** `empty` on the real cursors is emptiness, and on the consumer's lagging cache a
      "not empty" answer is never wrong. */
  lemma EmptyViewMeansEmpty<T>(f: Fifo<T>)
    requires Valid(f)
    ensures EmptyView(f.pushCursor, f.popCursor) <==> Items(f) == []
    ensures !EmptyView(f.pushCursorCached, f.popCursor) ==> Items(f) != []
  {
  }

  /** `size()`; its assertion `popCursor <= pushCursor` holds in every valid state. */
  function Size<T>(f: Fifo<T>): (n: nat)
    requires Valid(f)
    ensures n == |Items(f)|
  {
    assert f.popCursor <= f.pushCursor;
    f.pushCursor - f.popCursor
  }

  predicate Empty<T>(f: Fifo<T>)
    requires Valid(f)
    ensures Empty(f) <==> Items(f) == []
  {
    Size(f) == 0
  }

  predicate Full<T>(f: Fifo<T>)
    requires Valid(f)
    ensures Full(f) <==> |Items(f)| == Capacity(f)
  {
    Size(f) == Capacity(f)
  }

  /** `push()`: refresh `popCursorCached_` when the cached view says full; hand out an
      active pusher for the current push cursor exactly when the fifo is not full. */
  function PushProxy<T>(f: Fifo<T>): (r: (Fifo<T>, Pusher))
    requires Valid(f)
    ensures Valid(r.0) && Items(r.0) == Items(f) && r.0.ring == f.ring
    ensures r.0.pushCursor == f.pushCursor && r.0.popCursor == f.popCursor
    ensures r.1.active <==> |Items(f)| < Capacity(f)
    ensures r.1.active ==> r.1.cursor == f.pushCursor && f.pushCursor < r.0.popCursorCached + |f.ring|
  {
    var cached := if FullView(f.pushCursor, f.popCursorCached, |f.ring|) then f.popCursor
                  else f.popCursorCached;
    var g := f.(popCursorCached := cached);
    if FullView(f.pushCursor, cached, |f.ring|) then (g, Pusher(false, 0))
    else (g, Pusher(true, f.pushCursor))
  }

  /** `pop()`: refresh `pushCursorCached_` when the cached view says empty; hand out an
      active popper for the current pop cursor exactly when the fifo is not empty. */
  function PopProxy<T>(f: Fifo<T>): (r: (Fifo<T>, Popper))
    requires Valid(f)
    ensures Valid(r.0) && Items(r.0) == Items(f) && r.0.ring == f.ring
    ensures r.0.pushCursor == f.pushCursor && r.0.popCursor == f.popCursor
    ensures r.1.active <==> Items(f) != []
    ensures r.1.active ==> r.1.cursor == f.popCursor && f.popCursor < r.0.pushCursorCached
  {
    var cached := if EmptyView(f.pushCursorCached, f.popCursor) then f.pushCursor
                  else f.pushCursorCached;
    var g := f.(pushCursorCached := cached);
    if EmptyView(cached, f.popCursor) then (g, Popper(false, 0))
    else (g, Popper(true, f.popCursor))
  }

  /** `pusher = value`: copy the value into the slot the pusher points at. */
  function WriteThrough<T>(f: Fifo<T>, p: Pusher, x: T): (g: Fifo<T>)
    requires Valid(f) && p.active && p.cursor == f.pushCursor && f.pushCursor < f.popCursorCached + |f.ring|
    ensures Valid(g) && Items(g) == Items(f) && g == f.(ring := g.ring)
    ensures |g.ring| == |f.ring| > 0 && g.ring[p.cursor % |g.ring|] == x
  {
    var i := Element(f, p.cursor);
    WindowWriteBeyond(f.ring, f.popCursor, f.pushCursor - f.popCursor, x);
    f.(ring := f.ring[i := x])
  }

  /** `*popper`: read the slot the popper points at. */
  function ReadThrough<T>(f: Fifo<T>, p: Popper): (x: T)
    requires Valid(f) && p.active && p.cursor == f.popCursor && Items(f) != []
    ensures x == Items(f)[0]
  {
    f.ring[Element(f, p.cursor)]
  }

  /** `~pusher_t()`: an active pusher publishes `cursor + 1`, appending its slot. */
  function DropPusher<T>(f: Fifo<T>, p: Pusher): (g: Fifo<T>)
    requires Valid(f)
    requires p.active ==> p.cursor == f.pushCursor && f.pushCursor < f.popCursorCached + |f.ring|
    ensures Valid(g)
    ensures p.active ==> Items(g) == Items(f) + [f.ring[p.cursor % |f.ring|]]
    ensures !p.active ==> g == f
  {
    if p.active then
      WindowPush(f.ring, f.popCursor, f.pushCursor - f.popCursor, f.ring[p.cursor % |f.ring|]);
      assert f.ring[p.cursor % |f.ring| := f.ring[p.cursor % |f.ring|]] == f.ring;
      f.(pushCursor := p.cursor + 1)
    else f
  }

  /** `~popper_t()`: an active popper publishes `cursor + 1`, removing the oldest item. */
  function DropPopper<T>(f: Fifo<T>, p: Popper): (g: Fifo<T>)
    requires Valid(f)
    requires p.active ==> p.cursor == f.popCursor && f.popCursor < f.pushCursorCached
    ensures Valid(g)
    ensures p.active ==> Items(g) == Items(f)[1..]
    ensures !p.active ==> g == f
  {
    if p.active then
      WindowPop(f.ring, f.popCursor, f.pushCursor - f.popCursor);
      f.(popCursor := p.cursor + 1)
    else f
  }

  /** `release()`: the proxy forgets its fifo, so its destructor publishes nothing. */
  function ReleasePusher(p: Pusher): (p': Pusher)
    ensures !p'.active
  {
    p.(active := false)
  }

  function ReleasePopper(p: Popper): (p': Popper)
    ensures !p'.active
  {
    p.(active := false)
  }

  /** Move construction: the new pusher takes over the pending publication and the
      source is released.  Returns the new pusher and the moved-from one. */
  function MoveConstructPusher(other: Pusher): (r: (Pusher, Pusher))
    ensures r.0 == other && !r.1.active
  {
    (other, ReleasePusher(other))
  }

  /** Move assignment: the target takes the source's state without first publishing
      its own; the source is released.  Returns the target and the moved-from source. */
  function MoveAssignPusher(target: Pusher, other: Pusher): (r: (Pusher, Pusher))
    ensures r.0 == other && !r.1.active
  {
    (other, ReleasePusher(other))
  }

  function MoveConstructPopper(other: Popper): (r: (Popper, Popper))
    ensures r.0 == other && !r.1.active
  {
    (other, ReleasePopper(other))
  }

  function MoveAssignPopper(target: Popper, other: Popper): (r: (Popper, Popper))
    ensures r.0 == other && !r.1.active
  {
    (other, ReleasePopper(other))
  }

  /** Moving an active pusher and destroying both objects publishes exactly once. */
  lemma MovedPusherPublishesOnce<T>(f: Fifo<T>, p: Pusher)
    requires Valid(f) && p.active && p.cursor == f.pushCursor && f.pushCursor < f.popCursorCached + |f.ring|
    ensures var m := MoveConstructPusher(p);
            var g := DropPusher(DropPusher(f, m.1), m.0);
            Items(g) == Items(f) + [f.ring[p.cursor % |f.ring|]]
  {
  }

  /** Assigning over an active pusher discards its pending publication: when the
      source is inactive, destroying both objects leaves the fifo as it was. */
  lemma MoveAssignDiscardsTarget<T>(f: Fifo<T>, target: Pusher, other: Pusher)
    requires Valid(f) && target.active && !other.active
    ensures var m := MoveAssignPusher(target, other);
            DropPusher(DropPusher(f, m.1), m.0) == f
  {
  }

  /** `push(value)`: true exactly when the fifo was not full, and then the value is appended. */
  function Push<T>(f: Fifo<T>, x: T): (r: Pushed<Fifo<T>>)
    requires Valid(f)
    ensures Valid(r.queue) && |r.queue.ring| == |f.ring|
    ensures r.ok <==> |Items(f)| < Capacity(f)
    ensures r.ok ==> Items(r.queue) == Items(f) + [x]
    ensures !r.ok ==> Items(r.queue) == Items(f)
    ensures r.queue.popCursor == f.popCursor && r.queue.pushCursorCached == f.pushCursorCached
    ensures !r.ok ==> r.queue == f.(popCursorCached := r.queue.popCursorCached)
  {
    var (g, p) := PushProxy(f);
    if p.active then
      var h := WriteThrough(g, p, x);
      Pushed(DropPusher(h, p), true)
    else Pushed(g, false)
  }

  /** `pop(value)`: true exactly when the fifo was not empty, and then `value` is the
      oldest item, which is removed; otherwise `value` is untouched. */
  function Pop<T>(f: Fifo<T>, item: T): (r: Popped<Fifo<T>, T>)
    requires Valid(f)
    ensures Valid(r.queue) && |r.queue.ring| == |f.ring|
    ensures r.ok <==> Items(f) != []
    ensures r.ok ==> r.item == Items(f)[0] && Items(r.queue) == Items(f)[1..]
    ensures !r.ok ==> Items(r.queue) == Items(f) && r.item == item
    ensures r.queue.pushCursor == f.pushCursor && r.queue.popCursorCached == f.popCursorCached
    ensures r.queue.ring == f.ring
    ensures !r.ok ==> r.queue == f.(pushCursorCached := r.queue.pushCursorCached)
  {
    var (g, p) := PopProxy(f);
    if p.active then Popped(DropPopper(g, p), true, ReadThrough(g, p))
    else Popped(g, false, item)
  }
}
