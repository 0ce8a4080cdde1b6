/** Result codes and the nullable value shared by every container. */
module Common {

  /** The three outcomes every container operation reports. */
  datatype OperationResult = Success | Overflow | Empty

  /** A value that may be absent: a pointer that may be null, or an
      out-parameter the operation did not fill. */
  datatype Option<+T> = None | Some(value: T)

  /** A reference, if present, names one of the first `n` slots. */
  predicate InBounds(r: Option<nat>, n: nat)
  {
    r.Some? ==> r.value < n
  }

  /** Taking or dropping `n` elements is taking or dropping `n - 1` after
      the first. */
  lemma SplitFirst<T>(c: seq<T>, n: nat)
    requires 0 < n <= |c|
    ensures c[..n] == [c[0]] + c[1..][..n - 1]
    ensures c[n..] == c[1..][n - 1..]
  {
  }

  /** One step of draining `c` from the front: when `got` and then `left`
      make up the tail of `c`, the head of `c` followed by `got`, and then
      `left`, make up `c`. */
  lemma ConsConcat<T>(c: seq<T>, tail: seq<T>, got: seq<T>, left: seq<T>, a: seq<T>)
    requires c != [] && tail == c[1..] && got + left == tail && a == [c[0]] + got
    ensures a + left == c && |a| == |got| + 1
  {
    ConcatAssoc([c[0]], got, left);
  }

  /** When `a + b == c` and `a` has length `n`, `a` and `b` are the two
      halves of `c` cut at `n`. */
  lemma SplitAt<T>(a: seq<T>, b: seq<T>, c: seq<T>, n: nat)
    requires |a| == n && a + b == c
    ensures a == c[..n] && b == c[n..]
  {
  }

  /** `xs` back to front. */
  function Reverse<T>(xs: seq<T>): (r: seq<T>)
    ensures |r| == |xs|
  {
    if xs == [] then [] else Reverse(xs[1..]) + [xs[0]]
  }

  /** Reversal puts a last element first. */
  lemma {:induction false} ReverseSnoc<T>(xs: seq<T>, x: T)
    ensures Reverse(xs + [x]) == [x] + Reverse(xs)
    decreases |xs|
  {
    if xs == [] {
      assert xs + [x] == [x];
    } else {
      assert (xs + [x])[1..] == xs[1..] + [x];
      ReverseSnoc(xs[1..], x);
    }
  }

  /** Reversing `ys` in front of `es` is reversing its tail in front of
      its first element and `es`. */
  lemma ReverseFront<T>(ys: seq<T>, es: seq<T>)
    requires ys != []
    ensures Reverse(ys[1..]) + ([ys[0]] + es) == Reverse(ys) + es
  {
    ConcatAssoc(Reverse(ys[1..]), [ys[0]], es);
  }

  lemma ConcatAssoc<T>(a: seq<T>, b: seq<T>, c: seq<T>)
    ensures a + (b + c) == (a + b) + c
  {
  }
}
