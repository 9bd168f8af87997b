/** `BoostBoundedBufferRingBased<T>`: a blocking bounded queue over a
    `boost::circular_buffer`.  Producers `push_front`, so the newest item sits
    at index 0; `unread` counts the items not yet consumed, which are the first
    `unread` entries of the container, and a consumer takes `container[unread - 1]`,
    the oldest of them.  The circular buffer is modelled as a sequence of at most
    `capacity` entries whose `push_front` drops the last entry when it is full. */
module BoostBoundedBuffer {

  import opened QueueResults

  const DefaultCapacity: nat := 2048

  datatype Queue<T> = Queue(container: seq<T>, capacity: nat, unread: nat)

  /** `boost::circular_buffer::push_front`: insert at the front, dropping the back entry when full. */
  function PushFront<T>(container: seq<T>, capacity: nat, x: T): (c: seq<T>)
    requires 0 < capacity && |container| <= capacity
    ensures |c| == if |container| < capacity then |container| + 1 else capacity
    ensures c[0] == x
    ensures forall i :: 0 < i < |c| ==> c[i] == container[i - 1]
  {
    if |container| < capacity then [x] + container
    else [x] + container[..capacity - 1]
  }

  function Reverse<T>(s: seq<T>): (r: seq<T>)
    ensures |r| == |s|
    ensures forall i :: 0 <= i < |s| ==> r[i] == s[|s| - 1 - i]
  {
    if s == [] then [] else Reverse(s[1..]) + [s[0]]
  }

  /** `m_unread <= m_container.size() <= m_container.capacity()`, which keeps
      the index `m_unread - 1` inside the container. */
  predicate Valid<T>(q: Queue<T>)
  {
    q.unread <= |q.container| <= q.capacity
  }

  /** The unread items, oldest first: the first `unread` entries, read backwards. */
  function Items<T>(q: Queue<T>): seq<T>
    requires Valid(q)
  {
    Reverse(q.container[..q.unread])
  }

  function Create<T>(capacity: nat): (q: Queue<T>)
    ensures Valid(q) && q.capacity == capacity && Items(q) == []
  {
    Queue([], capacity, 0)
  }

  /** The constructor with its default argument: room for 2048 items. */
  function CreateDefault<T>(): (q: Queue<T>)
    ensures Valid(q) && q.capacity == DefaultCapacity && Items(q) == []
  {
    Create(DefaultCapacity)
  }

  predicate IsNotEmpty<T>(q: Queue<T>)
    requires Valid(q)
    ensures IsNotEmpty(q) <==> Items(q) != []
  {
    q.unread > 0
  }

  predicate IsNotFull<T>(q: Queue<T>)
    requires Valid(q)
    ensures IsNotFull(q) <==> |Items(q)| < q.capacity
  {
    q.unread < q.capacity
  }

  lemma ReverseSnoc<T>(s: seq<T>, x: T)
    ensures Reverse([x] + s) == Reverse(s) + [x]
  {
    assert ([x] + s)[1..] == s;
  }

  /** The critical section of `push` and `try_push`. */
  function Insert<T>(q: Queue<T>, x: T): (q': Queue<T>)
    requires Valid(q) && IsNotFull(q)
    ensures Valid(q') && q'.capacity == q.capacity
    ensures Items(q') == Items(q) + [x]
  {
    var container := PushFront(q.container, q.capacity, x);
    assert container[..q.unread + 1] == [x] + q.container[..q.unread];
    ReverseSnoc(q.container[..q.unread], x);
    Queue(container, q.capacity, q.unread + 1)
  }

  /** The critical section of `pop` and `try_pop`: read `container[--unread]`. */
  function Take<T>(q: Queue<T>): (r: (Queue<T>, T))
    requires Valid(q) && IsNotEmpty(q)
    ensures Valid(r.0) && r.0.capacity == q.capacity
    ensures r.1 == Items(q)[0] && Items(r.0) == Items(q)[1..]
  {
    var unread := q.unread - 1;
    assert q.container[..q.unread] == q.container[..unread] + [q.container[unread]];
    Reverse2(q.container[..unread], q.container[unread]);
    (Queue(q.container, q.capacity, unread), q.container[unread])
  }

  lemma Reverse2<T>(s: seq<T>, x: T)
    ensures Reverse(s + [x]) == [x] + Reverse(s)
  {
  }

  function TryPush<T>(q: Queue<T>, x: T): (r: Pushed<Queue<T>>)
    requires Valid(q)
    ensures Valid(r.queue) && r.queue.capacity == q.capacity
    ensures r.ok <==> |Items(q)| < q.capacity
    ensures r.ok ==> Items(r.queue) == Items(q) + [x]
    ensures !r.ok ==> r.queue == q
  {
    if !IsNotFull(q) then Pushed(q, false) else Pushed(Insert(q, x), true)
  }

  function Push<T>(q: Queue<T>, x: T): (r: Pushed<Queue<T>>)
    requires Valid(q) && |Items(q)| < q.capacity
    ensures r.ok && Valid(r.queue) && r.queue.capacity == q.capacity
    ensures Items(r.queue) == Items(q) + [x]
  {
    Pushed(Insert(q, x), true)
  }

  function TryPop<T>(q: Queue<T>, item: T): (r: Popped<Queue<T>, T>)
    requires Valid(q)
    ensures Valid(r.queue) && r.queue.capacity == q.capacity
    ensures r.ok <==> Items(q) != []
    ensures r.ok ==> r.item == Items(q)[0] && Items(r.queue) == Items(q)[1..]
    ensures !r.ok ==> r.queue == q && r.item == item
  {
    if !IsNotEmpty(q) then Popped(q, false, item)
    else var t := Take(q); Popped(t.0, true, t.1)
  }

  function Pop<T>(q: Queue<T>): (r: Popped<Queue<T>, T>)
    requires Valid(q) && Items(q) != []
    ensures r.ok && Valid(r.queue) && r.queue.capacity == q.capacity
    ensures r.item == Items(q)[0] && Items(r.queue) == Items(q)[1..]
  {
    var t := Take(q); Popped(t.0, true, t.1)
  }

  function TryPushAll<T>(q: Queue<T>, xs: seq<T>): (r: Pushed<Queue<T>>)
    requires Valid(q)
    ensures Valid(r.queue) && r.queue.capacity == q.capacity
    decreases |xs|
  {
    if xs == [] then Pushed(q, true)
    else
      var first := TryPush(q, xs[0]);
      var rest := TryPushAll(first.queue, xs[1..]);
      Pushed(rest.queue, first.ok && rest.ok)
  }

  function TryPopN<T>(q: Queue<T>, n: nat, item: T): (r: (Queue<T>, seq<T>, bool))
    requires Valid(q)
    ensures Valid(r.0) && |r.1| == n
    decreases n
  {
    if n == 0 then (q, [], true)
    else
      var first := TryPop(q, item);
      var rest := TryPopN(first.queue, n - 1, first.item);
      (rest.0, [first.item] + rest.1, first.ok && rest.2)
  }

  lemma {:induction false} TryPushAllAppends<T>(q: Queue<T>, xs: seq<T>)
    requires Valid(q) && |Items(q)| + |xs| <= q.capacity
    ensures TryPushAll(q, xs).ok && Items(TryPushAll(q, xs).queue) == Items(q) + xs
    decreases |xs|
  {
    if xs != [] {
      var first := TryPush(q, xs[0]);
      TryPushAllAppends(first.queue, xs[1..]);
      assert Items(q) + xs == Items(q) + [xs[0]] + xs[1..];
    }
  }

  lemma {:induction false} TryPopNTakes<T>(q: Queue<T>, n: nat, item: T)
    requires Valid(q) && n <= |Items(q)|
    ensures TryPopN(q, n, item).2 && TryPopN(q, n, item).1 == Items(q)[..n]
    ensures Items(TryPopN(q, n, item).0) == Items(q)[n..]
    decreases n
  {
    if n > 0 {
      var first := TryPop(q, item);
      TryPopNTakes(first.queue, n - 1, first.item);
      assert Items(q)[..n] == [Items(q)[0]] + Items(q)[1..][..n - 1];
    }
  }

  /** Items pushed with `try_push` into an empty queue come back from `try_pop` in the same order. */
  lemma SequentialPushPop<T>(capacity: nat, xs: seq<T>, item: T)
    requires |xs| <= capacity
    ensures var pushed := TryPushAll(Create(capacity), xs);
            pushed.ok && TryPopN(pushed.queue, |xs|, item).2 && TryPopN(pushed.queue, |xs|, item).1 == xs
  {
    var pushed := TryPushAll(Create(capacity), xs);
    TryPushAllAppends(Create(capacity), xs);
    TryPopNTakes(pushed.queue, |xs|, item);
  }
}
