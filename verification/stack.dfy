/** The bounded stack (`Stack`): a caller-supplied array and a stack pointer;
    the capacity is exactly the array length, with no rounding. */
module Stack {
  import opened Common

  /** `data` is the caller's array, `sp` the number of stored elements. */
  datatype Stack<E> = Stack(data: seq<E>, sp: nat)

  /** The stack pointer never passes the array end; sizes fit `uint16_t`. */
  predicate Valid<E>(s: Stack<E>)
  {
    s.sp <= |s.data| < 0x1_0000
  }

  /** The stored elements, bottom first. */
  function Contents<E>(s: Stack<E>): seq<E>
    requires Valid(s)
  {
    s.data[..s.sp]
  }

  datatype Pushed<E> = Pushed(result: OperationResult, stack: Stack<E>)

  datatype Popped<E> = Popped(result: OperationResult, value: Option<E>, stack: Stack<E>)

  /** The `capacity()` query. */
  function Capacity<E>(s: Stack<E>): nat { |s.data| }

  /** The `amount()` query. */
  function Amount<E>(s: Stack<E>): nat { s.sp }

  /** The `hasSpace()` query. */
  predicate HasSpace<E>(s: Stack<E>) { s.sp < |s.data| }

  /** The `isEmpty()` query. */
  predicate IsEmpty<E>(s: Stack<E>) { s.sp == 0 }

  /** The constructor: the whole array is usable and nothing is stored. */
  function New<E>(data: seq<E>): (s: Stack<E>)
    requires |data| < 0x1_0000
    ensures Valid(s) && Capacity(s) == |data| && Contents(s) == []
  {
    Stack(data, 0)
  }

  /** The queries agree with the abstract contents. */
  lemma QueriesAgree<E>(s: Stack<E>)
    requires Valid(s)
    ensures Amount(s) == |Contents(s)| <= Capacity(s)
    ensures HasSpace(s) <==> |Contents(s)| < Capacity(s)
    ensures IsEmpty(s) <==> Contents(s) == []
  {
  }

  /** Stores `x` on top, or reports Overflow and changes nothing when full. */
  function Push<E>(s: Stack<E>, x: E): (r: Pushed<E>)
    requires Valid(s)
    ensures Valid(r.stack) && Capacity(r.stack) == Capacity(s)
    ensures r.result == Overflow <==> |Contents(s)| == Capacity(s)
    ensures r.result == Overflow ==> r.stack == s
    ensures r.result != Overflow ==> r.result == Success && Contents(r.stack) == Contents(s) + [x]
  {
    if !HasSpace(s) then Pushed(Overflow, s)
    else
      var s' := Stack(s.data[s.sp := x], s.sp + 1);
      assert Contents(s') == Contents(s) + [x];
      Pushed(Success, s')
  }

  /** Removes the top element, or reports Empty and changes nothing. */
  function Pop<E>(s: Stack<E>): (r: Popped<E>)
    requires Valid(s)
    ensures Valid(r.stack) && Capacity(r.stack) == Capacity(s)
    ensures r.result == Empty <==> Contents(s) == []
    ensures r.result == Empty ==> r.value == None && r.stack == s
    ensures r.result != Empty ==>
      && r.result == Success
      && r.value == Some(Contents(s)[|Contents(s)| - 1])
      && Contents(r.stack) == Contents(s)[..|Contents(s)| - 1]
  {
    if IsEmpty(s) then Popped(Empty, None, s)
    else Popped(Success, Some(s.data[s.sp - 1]), Stack(s.data, s.sp - 1))
  }

  /** A successful push followed by a pop hands back the pushed value and
      restores the stack pointer and contents. */
  lemma PushPopRoundTrip<E>(s: Stack<E>, x: E)
    requires Valid(s) && HasSpace(s)
    ensures Pop(Push(s, x).stack).value == Some(x)
    ensures Amount(Pop(Push(s, x).stack).stack) == Amount(s)
    ensures Contents(Pop(Push(s, x).stack).stack) == Contents(s)
  {
  }

  /** Pushes each element of `xs` in turn. */
  function PushAll<E>(s: Stack<E>, xs: seq<E>): (s': Stack<E>)
    requires Valid(s)
    ensures Valid(s') && Capacity(s') == Capacity(s)
    decreases |xs|
  {
    if xs == [] then s else PushAll(Push(s, xs[0]).stack, xs[1..])
  }

  /** Pops `n` times, collecting what each successful pop handed back. */
  function PopAll<E>(s: Stack<E>, n: nat): (p: (seq<E>, Stack<E>))
    requires Valid(s)
    ensures Valid(p.1)
    decreases n
  {
    if n == 0 then ([], s)
    else
      var r := Pop(s);
      var rest := PopAll(r.stack, n - 1);
      (if r.value.Some? then [r.value.value] + rest.0 else rest.0, rest.1)
  }

  lemma {:induction false} PushAllStacks<E>(s: Stack<E>, xs: seq<E>)
    requires Valid(s) && |Contents(s)| + |xs| <= Capacity(s)
    ensures Contents(PushAll(s, xs)) == Contents(s) + xs
    decreases |xs|
  {
    if xs != [] {
      PushAllStacks(Push(s, xs[0]).stack, xs[1..]);
      assert Contents(s) + xs == (Contents(s) + [xs[0]]) + xs[1..];
    } else {
      assert Contents(s) + xs == Contents(s);
    }
  }

  lemma {:induction false} PopAllUnstacks<E>(s: Stack<E>, xs: seq<E>, below: seq<E>)
    requires Valid(s) && Contents(s) == below + xs
    ensures PopAll(s, |xs|).0 == Reverse(xs)
    ensures Contents(PopAll(s, |xs|).1) == below
    decreases |xs|
  {
    if xs != [] {
      var n := |xs|;
      var r := Pop(s);
      assert Contents(s)[..|Contents(s)| - 1] == below + xs[..n - 1];
      PopAllUnstacks(r.stack, xs[..n - 1], below);
      ReverseSnoc(xs[..n - 1], xs[n - 1]);
      assert xs[..n - 1] + [xs[n - 1]] == xs;
    } else {
      assert below + xs == below;
    }
  }

  /** LIFO order: pushing values that fit and then popping as many hands
      them back in reverse and leaves the stack as it was. */
  lemma LifoRoundTrip<E>(s: Stack<E>, xs: seq<E>)
    requires Valid(s) && |Contents(s)| + |xs| <= Capacity(s)
    ensures PopAll(PushAll(s, xs), |xs|).0 == Reverse(xs)
    ensures Contents(PopAll(PushAll(s, xs), |xs|).1) == Contents(s)
  {
    PushAllStacks(s, xs);
    PopAllUnstacks(PushAll(s, xs), xs, Contents(s));
  }
}
