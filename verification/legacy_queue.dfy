/** The older stand-alone queue (include/queue.hpp): the same ring and the
    same refusing `enqueue`, reporting through its own result enumeration. */
module LegacyQueue {
  import Common
  import opened Bits
  import opened Ring
  import Queue

  /** The legacy queue's own result codes. */
  datatype QueueOperationResult = Success | Overflow | Empty

  datatype Enqueued<E> = Enqueued(result: QueueOperationResult, queue: Ring<E>)

  datatype Dequeued<E> = Dequeued(result: QueueOperationResult, value: Common.Option<E>, queue: Ring<E>)

  function Enqueue<E>(q: Ring<E>, x: E): (r: Enqueued<E>)
    requires Valid(q)
    ensures Valid(r.queue)
    ensures r.result == Overflow <==> |Contents(q)| == Capacity(q)
    ensures r.result == Overflow ==> r.queue == q
    ensures r.result != Overflow ==> r.result == Success && Contents(r.queue) == Contents(q) + [x]
  {
    if !HasSpace(q) then Enqueued(Overflow, q)
    else Enqueued(Success, Write(q, x))
  }

  function Dequeue<E>(q: Ring<E>): (r: Dequeued<E>)
    requires Valid(q)
    ensures Valid(r.queue)
    ensures r.result == Empty <==> Contents(q) == []
    ensures r.result == Empty ==> r.value == Common.None && r.queue == q
    ensures r.result != Empty ==>
      r.result == Success && r.value == Common.Some(Contents(q)[0]) && Contents(r.queue) == Contents(q)[1..]
  {
    if IsEmpty(q) then Dequeued(Empty, Common.None, q)
    else
      var (x, q') := Read(q);
      Dequeued(Success, Common.Some(x), q')
  }

  /** The legacy code for a `collection2` result. */
  function Legacy(r: Common.OperationResult): QueueOperationResult
  {
    match r
    case Success() => Success
    case Overflow() => Overflow
    case Empty() => Empty
  }

  /** The legacy queue behaves exactly like `collection2::Queue` with the
      result codes renamed, so it inherits that queue's FIFO order. */
  lemma SameAsQueue<E>(q: Ring<E>, x: E)
    requires Valid(q)
    ensures Enqueue(q, x) == Enqueued(Legacy(Queue.Enqueue(q, x).result), Queue.Enqueue(q, x).queue)
    ensures Dequeue(q) == Dequeued(Legacy(Queue.Dequeue(q).result), Queue.Dequeue(q).value, Queue.Dequeue(q).queue)
  {
  }
}
