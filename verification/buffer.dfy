/** The lossy ring buffer (`Buffer`): appending to a full buffer discards the
    oldest element instead of failing. */
module Buffer {
  import opened Common
  import opened Bits
  import opened Ring

  /** The outcome of `append`. */
  datatype Appended<E> = Appended(result: OperationResult, buffer: Ring<E>)

  /** The outcome of `pop`: the element handed back, if any. */
  datatype Popped<E> = Popped(result: OperationResult, value: Option<E>, buffer: Ring<E>)

  /** Removes the oldest element; an empty buffer reports Empty and is left
      as it was. */
  function Pop<E>(b: Ring<E>): (r: Popped<E>)
    requires Valid(b)
    ensures Valid(r.buffer) && r.buffer.cap == b.cap && |r.buffer.data| == |b.data|
    ensures r.result == Empty <==> Contents(b) == []
    ensures r.result == Empty ==> r.value == None && r.buffer == b
    ensures r.result != Empty ==>
      r.result == Success && r.value == Some(Contents(b)[0]) && Contents(r.buffer) == Contents(b)[1..]
  {
    if IsEmpty(b) then Popped(Empty, None, b)
    else
      var (x, b') := Read(b);
      Popped(Success, Some(x), b')
  }

  /** Stores `x` as the newest element. A zero-capacity buffer reports
      Overflow; a full buffer first drops its oldest element. */
  function Append<E>(b: Ring<E>, x: E): (r: Appended<E>)
    requires Valid(b)
    ensures Valid(r.buffer) && r.buffer.cap == b.cap && |r.buffer.data| == |b.data|
    ensures r.result == Overflow <==> Capacity(b) == 0
    ensures r.result == Overflow ==> r.buffer == b
    ensures r.result != Overflow ==>
      && r.result == Success
      && Contents(r.buffer) == (if |Contents(b)| < Capacity(b) then Contents(b) else Contents(b)[1..]) + [x]
  {
    if Capacity(b) == 0 then Appended(Overflow, b)
    else
      var room := if !HasSpace(b) then Pop(b).buffer else b;
      Appended(Success, Write(room, x))
  }

  /** The last `n` elements of `s` (all of them when there are at most `n`). */
  function KeepLast<E>(s: seq<E>, n: nat): (t: seq<E>)
    ensures |t| == if |s| <= n then |s| else n
  {
    if |s| <= n then s else s[|s| - n..]
  }

  /** Appends each element of `xs` in turn. */
  function AppendAll<E>(b: Ring<E>, xs: seq<E>): (b': Ring<E>)
    requires Valid(b)
    ensures Valid(b') && b'.cap == b.cap
    decreases |xs|
  {
    if xs == [] then b else AppendAll(Append(b, xs[0]).buffer, xs[1..])
  }

  /** Pops `n` times, collecting what each successful pop handed back. */
  function PopAll<E>(b: Ring<E>, n: nat): (p: (seq<E>, Ring<E>))
    requires Valid(b)
    ensures Valid(p.1)
    decreases n
  {
    if n == 0 then ([], b)
    else
      var r := Pop(b);
      var rest := PopAll(r.buffer, n - 1);
      (if r.value.Some? then [r.value.value] + rest.0 else rest.0, rest.1)
  }

  /** A buffer of positive capacity keeps the most recent `capacity` values
      of everything appended to it, oldest first. */
  lemma {:induction false} AppendAllKeepsLatest<E>(b: Ring<E>, xs: seq<E>)
    requires Valid(b) && Capacity(b) > 0
    ensures Contents(AppendAll(b, xs)) == KeepLast(Contents(b) + xs, Capacity(b))
    decreases |xs|
  {
    if xs != [] {
      var b1 := Append(b, xs[0]).buffer;
      assert AppendAll(b, xs) == AppendAll(b1, xs[1..]);
      AppendIsKeepLast(b, xs[0]);
      AppendAllKeepsLatest(b1, xs[1..]);
      KeepLastStep(Contents(b), xs, Capacity(b));
    } else {
      assert Contents(b) + xs == Contents(b);
    }
  }

  /** Trimming after the first of several values does not change the last
      `n` values. */
  lemma KeepLastStep<E>(c: seq<E>, xs: seq<E>, n: nat)
    requires xs != []
    ensures KeepLast(KeepLast(c + [xs[0]], n) + xs[1..], n) == KeepLast(c + xs, n)
  {
    KeepLastAppend(c + [xs[0]], xs[1..], n);
    assert c + xs == (c + [xs[0]]) + xs[1..];
  }

  /** One append keeps the latest `capacity` values. */
  lemma AppendIsKeepLast<E>(b: Ring<E>, x: E)
    requires Valid(b) && Capacity(b) > 0
    ensures Contents(Append(b, x).buffer) == KeepLast(Contents(b) + [x], Capacity(b))
  {
    var c := Contents(b);
    if |c| == Capacity(b) {
      assert (c + [x])[|c + [x]| - Capacity(b)..] == c[1..] + [x];
    }
  }

  /** Trimming early does not change the last `n` values. */
  lemma KeepLastAppend<E>(s: seq<E>, t: seq<E>, n: nat)
    ensures KeepLast(KeepLast(s, n) + t, n) == KeepLast(s + t, n)
  {
    if |s| > n {
      var s' := s[|s| - n..];
      assert s + t == s[..|s| - n] + (s' + t);
    }
  }

  /** Popping `n` values from a buffer holding at least `n` hands back its
      `n` oldest values in order. */
  lemma PopAllTakesOldest<E>(b: Ring<E>, n: nat)
    requires Valid(b) && n <= |Contents(b)|
    ensures PopAll(b, n).0 == Contents(b)[..n]
    ensures Contents(PopAll(b, n).1) == Contents(b)[n..]
  {
    var all := PopAll(b, n);
    PopAllSplits(b, n);
    SplitAt(all.0, Contents(all.1), Contents(b), n);
  }

  /** The `n` values taken from a buffer holding at least `n`, followed by
      what is left in it, are exactly what it held. */
  lemma {:induction false} PopAllSplits<E>(b: Ring<E>, n: nat)
    requires Valid(b) && n <= |Contents(b)|
    ensures |PopAll(b, n).0| == n
    ensures PopAll(b, n).0 + Contents(PopAll(b, n).1) == Contents(b)
    decreases n
  {
    if n > 0 {
      var c, r := Contents(b), Pop(b);
      var rest := PopAll(r.buffer, n - 1);
      assert r.value == Some(c[0]) && Contents(r.buffer) == c[1..];
      PopAllSplits(r.buffer, n - 1);
      var all := PopAll(b, n);
      assert all.0 == [c[0]] + rest.0 && all.1 == rest.1;
      ConsConcat(c, Contents(r.buffer), rest.0, Contents(rest.1), all.0);
    }
  }

  /** FIFO order: up to `capacity` appends to an empty buffer followed by as
      many pops return the appended values in order, after which a pop
      reports Empty. */
  lemma FifoRoundTrip<E>(b: Ring<E>, xs: seq<E>)
    requires Valid(b) && Contents(b) == [] && |xs| <= Capacity(b)
    ensures PopAll(AppendAll(b, xs), |xs|).0 == xs
    ensures Pop(PopAll(AppendAll(b, xs), |xs|).1).result == Empty
  {
    if Capacity(b) > 0 {
      var filled := AppendAll(b, xs);
      AppendAllKeepsLatest(b, xs);
      assert Contents(b) + xs == xs;
      assert Contents(filled) == xs;
      PopAllTakesOldest(filled, |xs|);
      assert xs[..|xs|] == xs && xs[|xs|..] == [];
    } else {
      assert xs == [];
    }
  }

  /** Lossy overwrite: appending one value to a full buffer loses the oldest
      value and the buffer stays full. */
  lemma OverwriteDropsOldest<E>(b: Ring<E>, x: E)
    requires Valid(b) && Capacity(b) > 0 && Amount(b) == Capacity(b)
    ensures Append(b, x).result == Success
    ensures Amount(Append(b, x).buffer) == Capacity(b)
    ensures Contents(Append(b, x).buffer) == Contents(b)[1..] + [x]
  {
  }
}
