/** `StdAtomicMPMCQueue<T, SIZE>`: the sequence-number ring with `SIZE` slots
    indexed by `idx % SIZE`, whose `push` and `pop` retry until their slot is
    ready and so never return false.  Taken as one step, a `push` happens only
    once its slot's number equals `write_idx` and a `pop` once it equals
    `read_idx + 1`; those readiness tests are the preconditions.

    The class never checks `SIZE`.  With one slot, a slot holding unread data
    also reads as free to the next `push`, which then overwrites it.
    `PushAsWritten` is the operation as written; `Valid` adds the missing
    `SIZE >= 2`, under which readiness is exactly "not full". */
module StdAtomicMpmc {

  import opened QueueResults
  import opened SequenceRing

  /** The slot invariant and at least two slots. */
  predicate Valid<T>(r: Ring<T>)
  {
    Sequenced(r) && Capacity(r) >= 2
  }

  /** The constructor, with the two-slot guard of `mpmc_bounded_queue`'s assertion:
      `None` for fewer than two slots. */
  function Create<T>(size: nat, fill: T): (r: Option<Ring<T>>)
    ensures r.Some? <==> size >= 2
    ensures r.Some? ==> Valid(r.value) && Capacity(r.value) == size && Items(r.value) == []
  {
    if size >= 2 then Some(Initial(size, fill)) else None
  }

  /** `seq == write_idx` for the slot `write_idx % SIZE`: the test that ends `push`'s loop.
      It holds exactly when the ring is not full, or when it has only one slot. */
  predicate WriteReady<T>(r: Ring<T>)
    requires Sequenced(r)
    ensures WriteReady(r) <==> |Items(r)| < Capacity(r) || Capacity(r) == 1
  {
    assert r.sequence[r.writePos % Capacity(r)] - r.writePos == WriteDif(r);
    r.sequence[r.writePos % Capacity(r)] == r.writePos
  }

  /** `seq == read_idx + 1` for the slot `read_idx % SIZE`: the test that ends `pop`'s
      loop.  It holds exactly when the ring is not empty. */
  predicate ReadReady<T>(r: Ring<T>)
    requires Sequenced(r)
    ensures ReadReady(r) <==> Items(r) != []
  {
    assert r.sequence[r.readPos % Capacity(r)] - (r.readPos + 1) == ReadDif(r);
    r.sequence[r.readPos % Capacity(r)] == r.readPos + 1
  }

  /** `push` as written: claim the slot once it reads as ready, write it and publish
      `write_idx + 1`.  The result keeps the slot invariant exactly when the ring was
      not full, and then the value is appended. */
  function PushAsWritten<T>(r: Ring<T>, x: T): (p: Pushed<Ring<T>>)
    requires Sequenced(r) && WriteReady(r)
    ensures p.ok && p.queue.writePos == r.writePos + 1 && p.queue.readPos == r.readPos
    ensures |p.queue.data| == |r.data| && Capacity(p.queue) == Capacity(r)
    ensures p.queue.data[r.writePos % Capacity(r)] == x
    ensures Sequenced(p.queue) <==> |Items(r)| < Capacity(r)
    ensures |Items(r)| < Capacity(r) ==> Items(p.queue) == Items(r) + [x]
  {
    var i := r.writePos % Capacity(r);
    if |Items(r)| < Capacity(r) then
      Pushed(Publish(r, i, x), true)
    else
      Pushed(Ring(r.data[i := x], r.sequence[i := r.writePos + 1], r.writePos + 1, r.readPos), true)
  }

  /** With one slot, the second `push` claims the slot the first one filled and
      overwrites it before anyone pops: the first value is lost, and the ring is left
      with two positions published for one slot.  `Initial(1, fill)` is such a ring. */
  lemma {:induction false} OneSlotPushOverwrites<T>(r0: Ring<T>, a: T, b: T)
    requires Sequenced(r0) && Capacity(r0) == 1 && Items(r0) == []
    ensures var r1 := PushAsWritten(r0, a).queue;
            Sequenced(r1) && Items(r1) == [a] && WriteReady(r1)
            && PushAsWritten(r1, b).queue.data == [b] && !Sequenced(PushAsWritten(r1, b).queue)
  {
    var r1 := PushAsWritten(r0, a).queue;
    assert Sequenced(r1) && |Items(r1)| == 1 && Capacity(r1) == 1;
    var r2 := PushAsWritten(r1, b).queue;
    assert |r2.data| == 1 && r2.data[r1.writePos % 1] == b;
  }

  /** `push` on a ring of at least two slots: ready exactly when not full, and then
      the value is appended and the invariant kept. */
  function Push<T>(r: Ring<T>, x: T): (p: Pushed<Ring<T>>)
    requires Valid(r) && |Items(r)| < Capacity(r)
    ensures p.ok && Valid(p.queue) && Capacity(p.queue) == Capacity(r)
    ensures Items(p.queue) == Items(r) + [x]
  {
    PushAsWritten(r, x)
  }

  /** `pop`: once the slot reads as ready, read it and recycle it with `read_idx + SIZE`. */
  function Pop<T>(r: Ring<T>, item: T): (p: Popped<Ring<T>, T>)
    requires Sequenced(r) && ReadReady(r)
    ensures p.ok && Sequenced(p.queue) && Capacity(p.queue) == Capacity(r)
    ensures p.item == Items(r)[0] && Items(p.queue) == Items(r)[1..]
  {
    var (r', x) := Recycle(r, r.readPos % Capacity(r));
    Popped(r', true, x)
  }

  /** The unused `full(write_idx, read_idx)` helper. */
  predicate FullView(writeIdx: nat, readIdx: nat, size: nat)
  {
    writeIdx - readIdx >= size
  }

  /** The unused `empty(write_idx, read_idx)` helper. */
  predicate EmptyView(writeIdx: nat, readIdx: nat)
  {
    writeIdx <= readIdx
  }

  /** Had they been used, the helpers would have answered correctly. */
  lemma ViewsAgree<T>(r: Ring<T>)
    requires Sequenced(r)
    ensures FullView(r.writePos, r.readPos, Capacity(r)) <==> |Items(r)| == Capacity(r)
    ensures EmptyView(r.writePos, r.readPos) <==> Items(r) == []
  {
  }
}
