/** The list seen as the sequence of elements it stores: each operation
    that keeps the chain acts as the matching sequence operation. */
module ListSequence {
  import opened Common
  import opened NodePool
  import opened List
  import opened ListChain
  import opened ListGrow

  /** The list stores the sequence `es`: some chain of its slots is linked
      both ways and holds `es` in order. */
  ghost predicate Represents<E>(s: ListState<E>, es: seq<E>)
  {
    exists xs :: Linked(s, xs) && Elements(s.pool, xs) == es
  }

  /** A chain linked both ways witnesses the sequence it holds. */
  lemma RepresentedBy<E>(s: ListState<E>, xs: seq<nat>, es: seq<E>)
    requires Linked(s, xs) && Within(s.pool, xs) && Elements(s.pool, xs) == es
    ensures Represents(s, es)
  {
  }

  /** A list built over a pool of free slots stores the empty sequence. */
  lemma NewRepresentsEmpty<E>(pool: seq<Slot<E>>)
    requires LinksInBounds(pool) && forall j :: 0 <= j < |pool| ==> !pool[j].enabled
    ensures Represents(New(pool), [])
  {
    assert Linked(New(pool), []);
  }

  /** `get(k)` reads the `k`-th stored element, or null past the end. */
  lemma GetActsAsSequence<E>(s: ListState<E>, es: seq<E>, k: nat)
    requires Represents(s, es)
    ensures Get(s, k) == if k < |es| then Some(es[k]) else None
  {
    var xs :| Linked(s, xs) && Elements(s.pool, xs) == es;
    GetReadsPosition(s, xs, k);
  }

  /** `append` stores `x` last, and reports Overflow, changing nothing,
      exactly when the list already holds one element per slot. */
  lemma AppendActsAsSequence<E>(s: ListState<E>, es: seq<E>, x: E)
    requires Represents(s, es)
    ensures |es| <= |s.pool|
    ensures var r := Append(s, x);
      && (r.result == Overflow <==> |es| == |s.pool|)
      && (r.result == Overflow ==> r.list == s)
      && (r.result != Overflow ==> r.result == Success && Represents(r.list, es + [x]))
  {
    var xs :| Linked(s, xs) && Elements(s.pool, xs) == es;
    FullExactlyAtCapacity(s.pool, xs);
    if !Full(s.pool) {
      AppendExtendsChain(s, xs, x);
    }
  }

  /** The list read along `next` from `head` stores `es`; the `previous`
      links may be stale. */
  ghost predicate ForwardRepresents<E>(s: ListState<E>, es: seq<E>)
  {
    exists xs :: Forward(s, xs) && Elements(s.pool, xs) == es
  }

  /** `insert(0, y)` of each of `ys` in turn. */
  function InsertAllAtHead<E>(s: ListState<E>, ys: seq<E>): (r: ListState<E>)
    requires Valid(s)
    ensures Valid(r) && |r.pool| == |s.pool|
    decreases |ys|
  {
    if ys == [] then s else InsertAllAtHead(Insert(s, 0, ys[0]).list, ys[1..])
  }

  /** The as-written `insert(0)` on a list that is linked forwards puts `x`
      first along `next`. */
  lemma InsertAtHeadForward<E>(s: ListState<E>, es: seq<E>, x: E)
    requires ForwardRepresents(s, es) && |es| < |s.pool|
    ensures Insert(s, 0, x).result == Success
    ensures ForwardRepresents(Insert(s, 0, x).list, [x] + es)
  {
    var xs :| Forward(s, xs) && Elements(s.pool, xs) == es;
    FullExactlyAtCapacity(s.pool, xs);
    var r, i := Insert(s, 0, x).list, NextFree(s.pool).value;
    FreeSlotOffChain(s, xs);
    if xs == [] {
      InsertIntoEmpty(s, 0, x);
      assert Forward(r, [i]) && Elements(r.pool, [i]) == [x] + es;
    } else {
      InsertAtHeadPrepends(s, xs, x);
    }
  }

  /** The as-written `insert` with an index above 0 follows only `next`,
      so on a list whose `previous` links are stale it still puts `x` at
      position `min(index, length)` along `next`. */
  lemma InsertAfterHeadForward<E>(s: ListState<E>, es: seq<E>, index: nat, x: E)
    requires ForwardRepresents(s, es) && index >= 1 && |es| < |s.pool|
    ensures Insert(s, index, x).result == Success
    ensures var m := Min(index, |es|);
      ForwardRepresents(Insert(s, index, x).list, es[..m] + [x] + es[m..])
  {
    var xs :| Forward(s, xs) && Elements(s.pool, xs) == es;
    FullExactlyAtCapacity(s.pool, xs);
    var r, i := Insert(s, index, x).list, NextFree(s.pool).value;
    if xs == [] {
      InsertIntoEmpty(s, index, x);
      assert Forward(r, [i]) && Elements(r.pool, [i]) == es[..0] + [x] + es[0..];
    } else {
      var m := Min(index, |xs|);
      InsertWrites(s, xs, index, x);
      ForwardSplices(s, xs, r, m, i, x);
      assert Forward(r, Splice(xs, m, i));
    }
  }

  /** `insert(0, a)` followed by `insert(1, b)` leaves `a, b` in front of
      the old elements along `next`, although the first call left the old
      head's `previous` stale. */
  lemma InsertBehindNewHead<E>(s: ListState<E>, es: seq<E>, a: E, b: E)
    requires ForwardRepresents(s, es) && |es| + 2 <= |s.pool|
    ensures var r := Insert(s, 0, a).list;
      && Insert(r, 1, b).result == Success
      && ForwardRepresents(Insert(r, 1, b).list, [a, b] + es)
  {
    InsertAtHeadForward(s, es, a);
    InsertSecond(Insert(s, 0, a).list, es, a, b);
  }

  /** `insert(1, b)` on a list read forwards as `[a] + es`. */
  lemma InsertSecond<E>(r: ListState<E>, es: seq<E>, a: E, b: E)
    requires ForwardRepresents(r, [a] + es) && |es| + 2 <= |r.pool|
    ensures Insert(r, 1, b).result == Success
    ensures ForwardRepresents(Insert(r, 1, b).list, [a, b] + es)
  {
    var fs := [a] + es;
    InsertAfterHeadForward(r, fs, 1, b);
    SecondOfFront(a, b, es, fs);
  }

  /** Putting `b` at position 1 of `[a] + es` gives `[a, b] + es`. */
  lemma SecondOfFront<E>(a: E, b: E, es: seq<E>, fs: seq<E>)
    requires fs == [a] + es
    ensures Min(1, |fs|) == 1
    ensures fs[..1] + [b] + fs[1..] == [a, b] + es
  {
    assert fs[..1] == [a] && fs[1..] == es;
  }

  /** Inserting values one by one at index 0 stores them in reverse order
      before the existing ones, read along `next`: inserting N values in
      decreasing order gives an ascending list. */
  lemma {:induction false} InsertAllAtHeadReverses<E>(s: ListState<E>, es: seq<E>, ys: seq<E>)
    requires ForwardRepresents(s, es) && |es| + |ys| <= |s.pool|
    ensures ForwardRepresents(InsertAllAtHead(s, ys), Reverse(ys) + es)
    decreases |ys|
  {
    if ys != [] {
      InsertAtHeadForward(s, es, ys[0]);
      InsertAllAtHeadReverses(Insert(s, 0, ys[0]).list, [ys[0]] + es, ys[1..]);
      ReverseFront(ys, es);
    }
  }

  /** `get` on a list read forwards returns the element at the position. */
  lemma GetForward<E>(s: ListState<E>, es: seq<E>, k: nat)
    requires ForwardRepresents(s, es)
    ensures Get(s, k) == if k < |es| then Some(es[k]) else None
  {
    var xs :| Forward(s, xs) && Elements(s.pool, xs) == es;
    GetReadsPosition(s, xs, k);
  }
}
