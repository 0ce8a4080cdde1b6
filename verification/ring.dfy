/** The circular storage discipline shared by the ring buffer and both queues:
    a caller-supplied array, a power-of-two usable capacity, a read index
    `head`, a write index `tail` and an element count. */
module Ring {
  import opened Common
  import opened Bits

  /** `data` is the caller's array; only its first `cap` cells are used. */
  datatype Ring<E> = Ring(data: seq<E>, cap: nat, head: nat, tail: nat, count: nat)

  /** The ring invariant: indices stay below the capacity, the count never
      exceeds it, and the write index is `count` cells after the read index. */
  predicate Valid<E>(r: Ring<E>)
  {
    && r.cap <= |r.data|
    && r.count <= r.cap
    && (r.cap == 0 ==> r.head == 0 && r.tail == 0)
    && (r.cap > 0 ==> IsPow2(r.cap) && r.head < r.cap && r.tail < r.cap && r.tail == (r.head + r.count) % r.cap)
  }

  /** An empty ring over `data` using its first `cap` cells. */
  function Fresh<E>(data: seq<E>, cap: nat): Ring<E>
  {
    Ring(data, cap, 0, 0, 0)
  }

  /** The stored elements, oldest first. */
  function Contents<E>(r: Ring<E>): (c: seq<E>)
    requires Valid(r)
    ensures |c| == r.count
  {
    seq(r.count, k requires 0 <= k < r.count => r.data[(r.head + k) % r.cap])
  }

  /** The index step of all three containers: `(i + 1) & (cap - 1)`. */
  function Advance(i: nat, cap: nat): nat
    requires cap >= 1
  {
    BitAnd(i + 1, cap - 1)
  }

  /** With a power-of-two capacity the masked step is the modular step. */
  lemma AdvanceWraps(i: nat, cap: nat)
    requires IsPow2(cap)
    ensures Advance(i, cap) == (i + 1) % cap
  {
    MaskIsMod(i + 1, cap);
  }

  /** Reduction of a value below twice the modulus. */
  lemma Wrap(y: nat, cap: nat)
    requires cap >= 1 && y < 2 * cap
    ensures y % cap == (if y < cap then y else y - cap)
  {
    if y < cap {
      ModOfDecomposition(y, cap, 0, y);
    } else {
      ModOfDecomposition(y, cap, 1, y - cap);
    }
  }

  /** Stores `x` at the write index and advances it. */
  function Write<E>(r: Ring<E>, x: E): (r': Ring<E>)
    requires Valid(r) && r.count < r.cap
    ensures Valid(r') && r'.cap == r.cap && |r'.data| == |r.data|
    ensures Contents(r') == Contents(r) + [x]
  {
    var r' := r.(data := r.data[r.tail := x], tail := Advance(r.tail, r.cap), count := r.count + 1);
    WriteKeepsOlder(r, x, r');
    r'
  }

  lemma WriteKeepsOlder<E>(r: Ring<E>, x: E, r': Ring<E>)
    requires Valid(r) && r.count < r.cap
    requires r' == r.(data := r.data[r.tail := x], tail := Advance(r.tail, r.cap), count := r.count + 1)
    ensures Valid(r')
    ensures Contents(r') == Contents(r) + [x]
  {
    AdvanceWraps(r.tail, r.cap);
    AddMod(r.head + r.count, 1, r.cap);
    assert r'.tail == (r.head + r'.count) % r.cap;
    assert Valid(r');
    WriteAppends(r, x, r');
  }

  lemma WriteAppends<E>(r: Ring<E>, x: E, r': Ring<E>)
    requires Valid(r) && Valid(r') && r.count < r.cap
    requires r' == r.(data := r.data[r.tail := x], tail := r'.tail, count := r.count + 1)
    ensures Contents(r') == Contents(r) + [x]
  {
    Wrap(r.head + r.count, r.cap);
    forall k | 0 <= k < r'.count
      ensures Contents(r')[k] == (Contents(r) + [x])[k]
    {
      Wrap(r.head + k, r.cap);
    }
  }

  /** Takes the element at the read index and advances it. */
  function Read<E>(r: Ring<E>): (p: (E, Ring<E>))
    requires Valid(r) && r.count > 0
    ensures Valid(p.1) && p.1.cap == r.cap && p.1.data == r.data
    ensures p.0 == Contents(r)[0]
    ensures Contents(p.1) == Contents(r)[1..]
  {
    var r' := r.(head := Advance(r.head, r.cap), count := r.count - 1);
    ReadKeepsNewer(r, r');
    (r.data[r.head % r.cap], r')
  }

  lemma ReadKeepsNewer<E>(r: Ring<E>, r': Ring<E>)
    requires Valid(r) && r.count > 0
    requires r' == r.(head := Advance(r.head, r.cap), count := r.count - 1)
    ensures Valid(r')
    ensures r.data[r.head % r.cap] == Contents(r)[0]
    ensures Contents(r') == Contents(r)[1..]
  {
    AdvanceWraps(r.head, r.cap);
    Wrap(r.head + 1, r.cap);
    assert r.tail == (r'.head + r'.count) % r.cap by {
      Wrap(r.head + r.count, r.cap);
      Wrap(r'.head + r'.count, r.cap);
    }
    ReadShifts(r, r');
  }

  lemma ReadShifts<E>(r: Ring<E>, r': Ring<E>)
    requires Valid(r) && Valid(r') && r.count > 0
    requires r' == r.(head := (r.head + 1) % r.cap, count := r.count - 1)
    ensures r.data[r.head % r.cap] == Contents(r)[0]
    ensures Contents(r') == Contents(r)[1..]
  {
    Wrap(r.head, r.cap);
    forall k | 0 <= k < r'.count
      ensures Contents(r')[k] == Contents(r)[k + 1]
    {
      AddMod(r.head + 1, k, r.cap);
    }
  }

  /** Reducing a summand first does not change a sum modulo `cap`. */
  lemma AddMod(a: nat, b: nat, cap: nat)
    requires cap >= 1
    ensures (a % cap + b) % cap == (a + b) % cap
  {
    var c := a % cap + b;
    var q, q' := a / cap, c / cap;
    DivisionSplits(a, cap);
    DivisionSplits(c, cap);
    Distributes(cap, q, q');
    ModOfDecomposition(a + b, cap, q + q', c % cap);
  }

  /** Euclidean division splits `x` into whole multiples of `d` and a
      remainder. */
  lemma DivisionSplits(x: nat, d: nat)
    requires d >= 1
    ensures x == d * (x / d) + x % d
  {
  }

  /** Multiplication distributes over addition. */
  lemma Distributes(d: nat, p: nat, q: nat)
    ensures d * (p + q) == d * p + d * q
  {
  }

  /** The `capacity()` query. */
  function Capacity<E>(r: Ring<E>): nat { r.cap }

  /** The constructor the buffer and both queues share: the capacity is the
      array length rounded down to a power of two (0 for an empty array),
      and nothing is stored. */
  method New<E>(data: seq<E>) returns (r: Ring<E>)
    requires |data| < 0x1_0000
    ensures Valid(r) && r.data == data
    ensures Capacity(r) == FloorPow2(|data|)
    ensures |data| > 0 ==> IsPow2(Capacity(r)) && Capacity(r) <= |data| < 2 * Capacity(r)
    ensures Contents(r) == []
  {
    var cap := RoundCapacity(|data|);
    r := Fresh(data, cap);
  }

  /** The `amount()` query. */
  function Amount<E>(r: Ring<E>): nat { r.count }

  /** The `hasSpace()` query. */
  predicate HasSpace<E>(r: Ring<E>) { r.count < r.cap }

  /** The `isEmpty()` query. */
  predicate IsEmpty<E>(r: Ring<E>) { r.count == 0 }

  /** The queries agree with the abstract contents. */
  lemma QueriesAgree<E>(r: Ring<E>)
    requires Valid(r)
    ensures Amount(r) == |Contents(r)| <= Capacity(r)
    ensures HasSpace(r) <==> |Contents(r)| < Capacity(r)
    ensures IsEmpty(r) <==> Contents(r) == []
  {
  }
}
