/** The bounded FIFO queue (`collection2::Queue`): the same ring as the
    buffer, but `enqueue` refuses when full. */
module Queue {
  import opened Common
  import opened Bits
  import opened Ring

  /** The outcome of `enqueue`. */
  datatype Enqueued<E> = Enqueued(result: OperationResult, queue: Ring<E>)

  /** The outcome of `dequeue`: the element handed back, if any. */
  datatype Dequeued<E> = Dequeued(result: OperationResult, value: Option<E>, queue: Ring<E>)

  /** Stores `x` as the newest element, or reports Overflow and changes
      nothing when the queue is full (always, for capacity 0). */
  function Enqueue<E>(q: Ring<E>, x: E): (r: Enqueued<E>)
    requires Valid(q)
    ensures Valid(r.queue) && r.queue.cap == q.cap && |r.queue.data| == |q.data|
    ensures r.result == Overflow <==> |Contents(q)| == Capacity(q)
    ensures r.result == Overflow ==> r.queue == q
    ensures r.result != Overflow ==> r.result == Success && Contents(r.queue) == Contents(q) + [x]
  {
    if !HasSpace(q) then Enqueued(Overflow, q)
    else Enqueued(Success, Write(q, x))
  }

  /** Removes the oldest element, or reports Empty and changes nothing. */
  function Dequeue<E>(q: Ring<E>): (r: Dequeued<E>)
    requires Valid(q)
    ensures Valid(r.queue) && r.queue.cap == q.cap && |r.queue.data| == |q.data|
    ensures r.result == Empty <==> Contents(q) == []
    ensures r.result == Empty ==> r.value == None && r.queue == q
    ensures r.result != Empty ==>
      r.result == Success && r.value == Some(Contents(q)[0]) && Contents(r.queue) == Contents(q)[1..]
  {
    if IsEmpty(q) then Dequeued(Empty, None, q)
    else
      var (x, q') := Read(q);
      Dequeued(Success, Some(x), q')
  }

  /** Enqueues each element of `xs` in turn. */
  function EnqueueAll<E>(q: Ring<E>, xs: seq<E>): (q': Ring<E>)
    requires Valid(q)
    ensures Valid(q') && q'.cap == q.cap
    decreases |xs|
  {
    if xs == [] then q else EnqueueAll(Enqueue(q, xs[0]).queue, xs[1..])
  }

  /** Dequeues `n` times, collecting what each successful dequeue handed back. */
  function DequeueAll<E>(q: Ring<E>, n: nat): (p: (seq<E>, Ring<E>))
    requires Valid(q)
    ensures Valid(p.1)
    decreases n
  {
    if n == 0 then ([], q)
    else
      var r := Dequeue(q);
      var rest := DequeueAll(r.queue, n - 1);
      (if r.value.Some? then [r.value.value] + rest.0 else rest.0, rest.1)
  }

  /** The first `n` elements of `s` (all of them when there are at most `n`). */
  function KeepFirst<E>(s: seq<E>, n: nat): (t: seq<E>)
    ensures |t| == if |s| <= n then |s| else n
  {
    if |s| <= n then s else s[..n]
  }

  /** A queue accepts values until it is full and refuses the rest: the
      earliest ones that fit are kept, in order. */
  lemma {:induction false} EnqueueAllKeepsEarliest<E>(q: Ring<E>, xs: seq<E>)
    requires Valid(q)
    ensures Contents(EnqueueAll(q, xs)) == Contents(q) + KeepFirst(xs, Capacity(q) - |Contents(q)|)
    decreases |xs|
  {
    if xs != [] {
      var q1 := Enqueue(q, xs[0]).queue;
      assert EnqueueAll(q, xs) == EnqueueAll(q1, xs[1..]);
      EnqueueAllKeepsEarliest(q1, xs[1..]);
      KeepFirstStep(Contents(q), xs, Capacity(q) - |Contents(q)|);
    }
  }

  /** Keeping the first value and then `room - 1` of the rest keeps the
      first `room`; with no room nothing is kept. */
  lemma KeepFirstStep<E>(c: seq<E>, xs: seq<E>, room: nat)
    requires xs != []
    ensures room == 0 ==> KeepFirst(xs[1..], room) == KeepFirst(xs, room) == []
    ensures room > 0 ==> (c + [xs[0]]) + KeepFirst(xs[1..], room - 1) == c + KeepFirst(xs, room)
  {
    if room > 0 {
      var rest := KeepFirst(xs[1..], room - 1);
      assert KeepFirst(xs, room) == [xs[0]] + rest by {
        if |xs| > room {
          SplitFirst(xs, room);
        }
      }
      assert (c + [xs[0]]) + rest == c + ([xs[0]] + rest);
    }
  }

  /** Dequeuing `n` values from a queue holding at least `n` hands back its
      `n` oldest values in order. */
  lemma DequeueAllTakesOldest<E>(q: Ring<E>, n: nat)
    requires Valid(q) && n <= |Contents(q)|
    ensures DequeueAll(q, n).0 == Contents(q)[..n]
    ensures Contents(DequeueAll(q, n).1) == Contents(q)[n..]
  {
    var all := DequeueAll(q, n);
    DequeueAllSplits(q, n);
    SplitAt(all.0, Contents(all.1), Contents(q), n);
  }

  /** The `n` values taken from a queue holding at least `n`, followed by
      what is left in it, are exactly what it held. */
  lemma {:induction false} DequeueAllSplits<E>(q: Ring<E>, n: nat)
    requires Valid(q) && n <= |Contents(q)|
    ensures |DequeueAll(q, n).0| == n
    ensures DequeueAll(q, n).0 + Contents(DequeueAll(q, n).1) == Contents(q)
    decreases n
  {
    if n > 0 {
      var c, r := Contents(q), Dequeue(q);
      var rest := DequeueAll(r.queue, n - 1);
      assert r.value == Some(c[0]) && Contents(r.queue) == c[1..];
      DequeueAllSplits(r.queue, n - 1);
      var all := DequeueAll(q, n);
      assert all.0 == [c[0]] + rest.0 && all.1 == rest.1;
      ConsConcat(c, Contents(r.queue), rest.0, Contents(rest.1), all.0);
    }
  }

  /** FIFO order: filling an empty queue to capacity, one refused extra
      value, then draining returns the accepted values in order, after
      which a dequeue reports Empty. */
  lemma FifoRoundTrip<E>(q: Ring<E>, xs: seq<E>, extra: E)
    requires Valid(q) && Contents(q) == [] && |xs| == Capacity(q)
    ensures Enqueue(EnqueueAll(q, xs), extra).result == Overflow
    ensures DequeueAll(EnqueueAll(q, xs), |xs|).0 == xs
    ensures Dequeue(DequeueAll(EnqueueAll(q, xs), |xs|).1).result == Empty
  {
    var filled := EnqueueAll(q, xs);
    EnqueueAllKeepsEarliest(q, xs);
    assert Contents(q) + xs == xs;
    assert Contents(filled) == xs;
    DequeueAllTakesOldest(filled, |xs|);
    assert xs[..|xs|] == xs && xs[|xs|..] == [];
  }
}
