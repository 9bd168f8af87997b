/** The per-slot sequence-number ring shared by `mpmc_bounded_queue` (Vyukov's
    bounded MPMC queue) and `StdAtomicMPMCQueue`.  Every slot carries a
    sequence number next to its data.  Producers claim position `writePos`
    when its slot's number equals `writePos` and publish `writePos + 1` after
    writing.  Consumers claim `readPos` when the number equals `readPos + 1`
    and recycle the slot with `readPos + C` after reading, which is the
    position the slot will next be written at.  Positions are unbounded here;
    each successful claim-write-publish is one step. */
module SequenceRing {

  import opened Circular

  datatype Ring<T> = Ring(data: seq<T>, sequence: seq<nat>, writePos: nat, readPos: nat)

  /** The number of slots. */
  function Capacity<T>(r: Ring<T>): nat
  {
    |r.sequence|
  }

  /** The sequence number of the slot that position `p` maps to. */
  function SeqAt<T>(r: Ring<T>, p: nat): nat
    requires |r.sequence| > 0
  {
    r.sequence[p % |r.sequence|]
  }

  /** The slot invariant: of the `C` positions from `readPos` on, the ones below
      `writePos` hold data (number `p + 1`) and the rest are free (number `p`).
      Those `C` positions cover every slot once, so this fixes every number. */
  predicate Sequenced<T>(r: Ring<T>)
  {
    && |r.data| == |r.sequence| > 0
    && r.readPos <= r.writePos <= r.readPos + |r.sequence|
    && (forall p: nat :: r.readPos <= p < r.writePos ==> SeqAt(r, p) == p + 1)
    && (forall p: nat :: r.writePos <= p < r.readPos + |r.sequence| ==> SeqAt(r, p) == p)
  }

  /** The queued items, oldest first. */
  function Items<T>(r: Ring<T>): seq<T>
    requires Sequenced(r)
  {
    Window(r.data, r.readPos, r.writePos - r.readPos)
  }

  /** Both constructors: slot `i` starts with sequence number `i`, both positions at 0. */
  function Initial<T>(size: nat, fill: T): (r: Ring<T>)
    requires size > 0
    ensures Sequenced(r) && Capacity(r) == size && Items(r) == []
    ensures forall i :: 0 <= i < size ==> r.sequence[i] == i
  {
    var r := Ring(seq(size, _ => fill), seq(size, i => i), 0, 0);
    forall p: nat | p < size
      ensures SeqAt(r, p) == p
    {
      ModUnique(p, size, 0, p);
    }
    r
  }

  /** The producer's `dif`: the number of the slot at `writePos` minus `writePos`.
      Zero means the slot is free for this position; on a full ring it is `1 - C`,
      negative exactly when there are at least two slots. */
  function WriteDif<T>(r: Ring<T>): (d: int)
    requires Sequenced(r)
    ensures |Items(r)| < Capacity(r) ==> d == 0
    ensures |Items(r)| == Capacity(r) ==> d == 1 - Capacity(r)
  {
    FullSlotHoldsOldest(r);
    SeqAt(r, r.writePos) - r.writePos
  }

  /** On a full ring the producer's slot is the consumer's, holding the oldest item. */
  lemma FullSlotHoldsOldest<T>(r: Ring<T>)
    requires Sequenced(r)
    ensures r.writePos == r.readPos + |r.sequence| ==> SeqAt(r, r.writePos) == r.readPos + 1
  {
    if r.writePos == r.readPos + |r.sequence| {
      ModWrap(r.readPos, |r.sequence|);
      assert SeqAt(r, r.readPos) == r.readPos + 1;
    }
  }

  /** The consumer's `dif`: the number of the slot at `readPos` minus `readPos + 1`.
      Zero means the slot holds data for this position; on an empty ring it is `-1`. */
  function ReadDif<T>(r: Ring<T>): (d: int)
    requires Sequenced(r)
    ensures Items(r) != [] ==> d == 0
    ensures Items(r) == [] ==> d == -1
  {
    SeqAt(r, r.readPos) - (r.readPos + 1)
  }

  /** A successful claim of `writePos`, the write of slot `i`, and the publication
      of number `writePos + 1`. */
  function Publish<T>(r: Ring<T>, i: nat, x: T): (r': Ring<T>)
    requires Sequenced(r) && |Items(r)| < Capacity(r) && i == r.writePos % Capacity(r)
    ensures Sequenced(r') && Capacity(r') == Capacity(r)
    ensures Items(r') == Items(r) + [x]
    ensures r'.writePos == r.writePos + 1 && r'.readPos == r.readPos
    ensures r'.sequence[i] == r.writePos + 1
  {
    PublishSequenced(r, x);
    WindowPush(r.data, r.readPos, r.writePos - r.readPos, x);
    Ring(r.data[i := x], r.sequence[i := r.writePos + 1], r.writePos + 1, r.readPos)
  }

  lemma {:induction false} PublishSequenced<T>(r: Ring<T>, x: T)
    requires Sequenced(r) && r.writePos < r.readPos + |r.sequence|
    ensures var i := r.writePos % |r.sequence|;
            Sequenced(Ring(r.data[i := x], r.sequence[i := r.writePos + 1], r.writePos + 1, r.readPos))
  {
    var c := |r.sequence|;
    var i := r.writePos % c;
    var r' := Ring(r.data[i := x], r.sequence[i := r.writePos + 1], r.writePos + 1, r.readPos);
    forall p: nat | r'.readPos <= p < r'.writePos
      ensures SeqAt(r', p) == p + 1
    {
      if p < r.writePos {
        ModDistinct(p, r.writePos, c);
        assert SeqAt(r, p) == p + 1;
      }
    }
    forall p: nat | r'.writePos <= p < r'.readPos + c
      ensures SeqAt(r', p) == p
    {
      ModDistinct(r.writePos, p, c);
      assert SeqAt(r, p) == p;
    }
  }

  /** A successful claim of `readPos`, the read of slot `i`, and its recycling with
      number `readPos + C`. */
  function Recycle<T>(r: Ring<T>, i: nat): (res: (Ring<T>, T))
    requires Sequenced(r) && Items(r) != [] && i == r.readPos % Capacity(r)
    ensures Sequenced(res.0) && Capacity(res.0) == Capacity(r)
    ensures res.1 == Items(r)[0] && Items(res.0) == Items(r)[1..]
    ensures res.0.writePos == r.writePos && res.0.readPos == r.readPos + 1
    ensures res.0.sequence[i] == r.readPos + Capacity(r)
  {
    RecycleSequenced(r);
    WindowPop(r.data, r.readPos, r.writePos - r.readPos);
    (Ring(r.data, r.sequence[i := r.readPos + |r.sequence|], r.writePos, r.readPos + 1), r.data[i])
  }

  lemma {:induction false} RecycleSequenced<T>(r: Ring<T>)
    requires Sequenced(r) && r.readPos < r.writePos
    ensures var i := r.readPos % |r.sequence|;
            Sequenced(Ring(r.data, r.sequence[i := r.readPos + |r.sequence|], r.writePos, r.readPos + 1))
  {
    var c := |r.sequence|;
    var i := r.readPos % c;
    var r' := Ring(r.data, r.sequence[i := r.readPos + c], r.writePos, r.readPos + 1);
    forall p: nat | r'.readPos <= p < r'.writePos
      ensures SeqAt(r', p) == p + 1
    {
      ModDistinct(r.readPos, p, c);
      assert SeqAt(r, p) == p + 1;
    }
    forall p: nat | r'.writePos <= p < r'.readPos + c
      ensures SeqAt(r', p) == p
    {
      if p < r.readPos + c {
        ModDistinct(r.readPos, p, c);
        assert SeqAt(r, p) == p;
      } else {
        ModWrap(r.readPos, c);
      }
    }
  }
}
