/** The server's LinkedBlockingQueues, as values: the items from head to
    tail and the capacity fixed at construction. A put into a full queue
    would block its thread; here it reports None instead. */
module BoundedQueues {
  import opened Outcomes

  datatype BoundedQueue<T> = BoundedQueue(items: seq<T>, capacity: nat)
  {
    ghost predicate Valid() {
      |items| <= capacity
    }
  }

  function Empty<T>(capacity: nat): (q: BoundedQueue<T>)
    ensures q.Valid() && q.items == [] && q.capacity == capacity
  {
    BoundedQueue([], capacity)
  }

  /** put: appends at the tail while there is room; None when the queue is full. */
  function Put<T>(q: BoundedQueue<T>, x: T): (r: Option<BoundedQueue<T>>)
    ensures r.None? <==> |q.items| >= q.capacity
    ensures r.Some? ==> r.value.Valid() && r.value.capacity == q.capacity && r.value.items == q.items + [x]
  {
    if |q.items| < q.capacity then Some(BoundedQueue(q.items + [x], q.capacity)) else None
  }

  /** poll: removes and gives the head, or None and the same queue when empty. */
  function Poll<T>(q: BoundedQueue<T>): (r: (Option<T>, BoundedQueue<T>))
    ensures r.0.None? <==> q.items == []
    ensures r.0.None? ==> r.1 == q
    ensures r.0.Some? ==> [r.0.value] + r.1.items == q.items
    ensures r.1.capacity == q.capacity && (q.Valid() ==> r.1.Valid())
  {
    if q.items == [] then (None, q) else (Some(q.items[0]), BoundedQueue(q.items[1..], q.capacity))
  }

  /** Puts each of xs in turn; None as soon as one would block. */
  function PutAll<T>(q: BoundedQueue<T>, xs: seq<T>): Option<BoundedQueue<T>>
    decreases |xs|
  {
    if xs == [] then Some(q)
    else match Put(q, xs[0])
      case None => None
      case Some(q') => PutAll(q', xs[1..])
  }

  /** Polls until the queue is empty, collecting what comes out. */
  function Drain<T>(q: BoundedQueue<T>): seq<T>
    decreases |q.items|
  {
    match Poll(q)
      case (None, _) => []
      case (Some(x), rest) => [x] + Drain(rest)
  }

  /** Draining gives back the items from head to tail. */
  lemma {:induction false} DrainItems<T>(q: BoundedQueue<T>)
    ensures Drain(q) == q.items
    decreases |q.items|
  {
    if q.items != [] {
      DrainItems(Poll(q).1);
    }
  }

  /** A put is invisible to every poll until the items ahead of it are gone. */
  lemma PollAfterPut<T>(q: BoundedQueue<T>, x: T)
    requires q.items != [] && Put(q, x).Some?
    ensures Poll(Put(q, x).value).0 == Poll(q).0
    ensures Put(Poll(q).1, x).Some? && Poll(Put(q, x).value).1 == Put(Poll(q).1, x).value
  {
    assert (q.items + [x])[1..] == q.items[1..] + [x];
  }

  /** FIFO: items put while there is room come out after what was already
      queued, in the order they were put. */
  lemma {:induction false} PutAllThenDrain<T>(q: BoundedQueue<T>, xs: seq<T>)
    requires |q.items| + |xs| <= q.capacity
    ensures PutAll(q, xs).Some? && Drain(PutAll(q, xs).value) == q.items + xs
    decreases |xs|
  {
    if xs == [] {
      DrainItems(q);
    } else {
      var q' := Put(q, xs[0]).value;
      PutAllThenDrain(q', xs[1..]);
      assert q.items + xs == q'.items + xs[1..];
    }
  }
}
