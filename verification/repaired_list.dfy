/** The list with its four link defects repaired. Each operation is the
    as-written one plus the statement it is missing; `append` and `get` need
    no repair and are used as they are. On a list that is linked both ways,
    the repaired operations behave as a bounded sequence. */
module RepairedList {
  import opened Common
  import opened NodePool
  import List
  import opened ListChain
  import opened ListGrow
  import opened ListShrink
  import opened ListSequence

  /** `insert`, with the old head's `previous` pointed at the new node when
      inserting at index 0 into a non-empty list. */
  function Insert<E>(s: List.ListState<E>, index: nat, x: E): (r: List.Added<E>)
    requires List.Valid(s)
    ensures List.Valid(r.list) && |r.list.pool| == |s.pool|
    ensures r.result == Overflow <==> Full(s.pool)
    ensures r.result == Overflow ==> r.list == s
    ensures index > 0 || s.head.None? ==> r == List.Insert(s, index, x)
  {
    var r := List.Insert(s, index, x);
    if r.result == Success && s.head.Some? && index == 0 then
      var h := s.head.value;
      List.Added(Success, r.list.(pool := r.list.pool[h := r.list.pool[h].(linkB := r.list.head)]))
    else r
  }

  /** `pop`, with the new tail's `next` cleared. */
  function Pop<E>(s: List.ListState<E>): (r: List.Removed<E>)
    requires List.Valid(s)
    ensures List.Valid(r.list) && |r.list.pool| == |s.pool|
    ensures r.result == List.Pop(s).result && r.value == List.Pop(s).value
    ensures r.result == Empty ==> r.list == s
  {
    var r := List.Pop(s);
    if r.result == Success && r.list.tail.Some? then
      var t := r.list.tail.value;
      r.(list := r.list.(pool := r.list.pool[t := r.list.pool[t].(linkA := None)]))
    else r
  }

  /** `remove`, with the new head's `previous` cleared at index 0, and with
      a reached node that has no `previous` unlinked as the head instead of
      through a null pointer. */
  function Remove<E>(s: List.ListState<E>, index: nat): (r: List.Removed<E>)
    requires List.Valid(s)
    ensures List.Valid(r.list) && |r.list.pool| == |s.pool|
    ensures r.result == Empty <==> s.head.None?
    ensures r.result == Empty ==> r.value == None && r.list == s
    ensures index > 0 && List.RemoveDefined(s, index) ==> r == List.Remove(s, index)
  {
    if s.head.None? then List.Remove(s, index)
    else if index == 0 then
      var r := List.Remove(s, 0);
      if r.list.head.Some? then
        var h := r.list.head.value;
        r.(list := r.list.(pool := r.list.pool[h := r.list.pool[h].(linkB := None)]))
      else r
    else if List.RemoveDefined(s, index) then List.Remove(s, index)
    else
      var target := List.RemoveTarget(s, index);
      var after := s.pool[target].linkA;
      var p1 := if after.None? then s.pool else s.pool[after.value := s.pool[after.value].(linkB := None)];
      var tail' := if after.None? then None else s.tail;
      List.Removed(Success, Some(s.pool[target].element), List.ListState(List.Release(p1, target), after, tail'))
  }

  /** Relinking the old first node's `previous` completes a prepend. */
  lemma RelinkHead<E>(sp: seq<Slot<E>>, rp: seq<Slot<E>>, xs: seq<nat>, i: nat, x: E)
    requires PrependFrame(sp, rp, xs, i, x, false)
    ensures PrependFrame(sp, rp[xs[0] := rp[xs[0]].(linkB := Some(i))], xs, i, x, true)
  {
  }

  /** Relinking the predecessor's `next` completes a cut. */
  lemma RelinkBefore<E>(sp: seq<Slot<E>>, rp: seq<Slot<E>>, xs: seq<nat>, m: nat, relinkAfter: bool)
    requires CutFrame(sp, rp, xs, m, false, relinkAfter) && m > 0
    ensures CutFrame(sp, rp[xs[m - 1] := rp[xs[m - 1]].(linkA := NextIn(xs, m))], xs, m, true, relinkAfter)
  {
    assert xs[m - 1] != xs[m];
    if m + 1 < |xs| {
      assert xs[m - 1] != xs[m + 1];
    }
  }

  /** Relinking the successor's `previous` completes a cut. */
  lemma RelinkAfter<E>(sp: seq<Slot<E>>, rp: seq<Slot<E>>, xs: seq<nat>, m: nat, relinkBefore: bool)
    requires CutFrame(sp, rp, xs, m, relinkBefore, false) && m + 1 < |xs|
    ensures CutFrame(sp, rp[xs[m + 1] := rp[xs[m + 1]].(linkB := PrevIn(xs, m))], xs, m, relinkBefore, true)
  {
    assert xs[m + 1] != xs[m];
    if m > 0 {
      assert xs[m - 1] != xs[m + 1];
    }
  }

  lemma CutLinked<E>(s: List.ListState<E>, xs: seq<nat>, r: List.ListState<E>, m: nat)
    requires Linked(s, xs) && CutFrame(s.pool, r.pool, xs, m, true, true)
    requires List.Valid(r) && r.head == First(Cut(xs, m)) && r.tail == Last(Cut(xs, m))
    ensures Linked(r, Cut(xs, m))
    ensures var es := Elements(s.pool, xs); Elements(r.pool, Cut(xs, m)) == es[..m] + es[m + 1..]
  {
    CutNext(s.pool, r.pool, xs, m, true, true);
    CutPrev(s.pool, r.pool, xs, m, true, true);
    CutOwns(s.pool, r.pool, xs, m, true, true);
    CutElements(s.pool, r.pool, xs, m, true, true);
  }

  /** The repaired `insert` at index 0 puts `x` first and keeps the list
      linked both ways. */
  lemma InsertAtHeadLinks<E>(s: List.ListState<E>, xs: seq<nat>, x: E)
    requires Linked(s, xs) && xs != [] && !Full(s.pool)
    ensures var r, i := Insert(s, 0, x).list, List.NextFree(s.pool).value;
      && Linked(r, [i] + xs)
      && Elements(r.pool, [i] + xs) == [x] + Elements(s.pool, xs)
  {
    var i := List.NextFree(s.pool).value;
    var w := List.Insert(s, 0, x).list;
    var r := Insert(s, 0, x).list;
    InsertAtHeadWrites(s, xs, x);
    RelinkHead(s.pool, w.pool, xs, i, x);
    assert r.pool == w.pool[xs[0] := w.pool[xs[0]].(linkB := Some(i))];
    PrependNext(s.pool, r.pool, xs, i, x, true);
    PrependPrev(s.pool, r.pool, xs, i, x, true);
    PrependOwns(s.pool, r.pool, xs, i, x, true);
    PrependElements(s.pool, r.pool, xs, i, x, true);
  }

  /** The reference for `insert`: `x` put at position `min(index, length)`. */
  function InsertAt<E>(es: seq<E>, index: nat, x: E): seq<E>
  {
    es[..Min(index, |es|)] + [x] + es[Min(index, |es|)..]
  }

  /** The reference for `remove`: the element at position
      `min(index, length - 1)` taken out. */
  function RemoveAt<E>(es: seq<E>, index: nat): seq<E>
    requires es != []
  {
    es[..Min(index, |es| - 1)] + es[Min(index, |es| - 1) + 1..]
  }

  lemma InsertIntoEmptyLinks<E>(s: List.ListState<E>, index: nat, x: E)
    requires Linked(s, []) && !Full(s.pool)
    ensures var r, i := Insert(s, index, x).list, List.NextFree(s.pool).value;
      && Linked(r, Splice([], 0, i))
      && Elements(r.pool, Splice([], 0, i)) == InsertAt([], index, x)
  {
    var i := List.NextFree(s.pool).value;
    InsertIntoEmpty(s, index, x);
    assert Splice([], 0, i) == [i];
  }

  lemma InsertAtHeadSplices<E>(s: List.ListState<E>, xs: seq<nat>, x: E)
    requires Linked(s, xs) && xs != [] && !Full(s.pool)
    ensures var r, i := Insert(s, 0, x).list, List.NextFree(s.pool).value;
      && Linked(r, Splice(xs, 0, i))
      && Elements(r.pool, Splice(xs, 0, i)) == InsertAt(Elements(s.pool, xs), 0, x)
  {
    var i := List.NextFree(s.pool).value;
    InsertAtHeadLinks(s, xs, x);
    SpliceAtFront(xs, i);
    InsertAtFront(Elements(s.pool, xs), x);
  }

  lemma SpliceAtFront(xs: seq<nat>, i: nat)
    ensures Splice(xs, 0, i) == [i] + xs
  {
  }

  lemma InsertAtFront<E>(es: seq<E>, x: E)
    ensures InsertAt(es, 0, x) == [x] + es
  {
    assert es[..0] == [] && es[0..] == es;
  }

  /** The repaired `insert(index)` on a linked list puts `x` at position
      `min(index, length)` and keeps the list linked. */
  lemma InsertLinks<E>(s: List.ListState<E>, xs: seq<nat>, index: nat, x: E)
    requires Linked(s, xs) && !Full(s.pool)
    ensures var r, i := Insert(s, index, x).list, List.NextFree(s.pool).value;
      && Linked(r, Splice(xs, Min(index, |xs|), i))
      && Elements(r.pool, Splice(xs, Min(index, |xs|), i)) == InsertAt(Elements(s.pool, xs), index, x)
  {
    if xs == [] {
      InsertIntoEmptyLinks(s, index, x);
    } else if index == 0 {
      InsertAtHeadSplices(s, xs, x);
    } else {
      InsertSplicesChain(s, xs, index, x);
    }
  }

  /** The repaired `pop` on a non-empty linked list hands back the last
      element and keeps the rest linked. */
  lemma PopLinks<E>(s: List.ListState<E>, xs: seq<nat>)
    requires Linked(s, xs) && xs != []
    ensures var r, n, es := Pop(s), |xs|, Elements(s.pool, xs);
      && r.result == Success && r.value == Some(es[n - 1])
      && Linked(r.list, xs[..n - 1])
      && Elements(r.list.pool, xs[..n - 1]) == es[..n - 1]
  {
    var n := |xs|;
    var w := List.Pop(s).list;
    var r := Pop(s).list;
    PopWrites(s, xs);
    assert Cut(xs, n - 1) == xs[..n - 1];
    if n > 1 {
      RelinkBefore(s.pool, w.pool, xs, n - 1, false);
      assert r.pool == w.pool[xs[n - 2] := w.pool[xs[n - 2]].(linkA := NextIn(xs, n - 1))];
    }
    CutLinked(s, xs, r, n - 1);
  }

  /** The repaired `remove(index)` on a non-empty linked list hands back
      the element at position `min(index, length - 1)` and keeps the rest
      linked; it is defined on every such list. */
  lemma RemoveLinks<E>(s: List.ListState<E>, xs: seq<nat>, index: nat)
    requires Linked(s, xs) && xs != []
    ensures var r, m, es := Remove(s, index), Min(index, |xs| - 1), Elements(s.pool, xs);
      && r.result == Success && r.value == Some(es[m])
      && Linked(r.list, Cut(xs, m))
      && Elements(r.list.pool, Cut(xs, m)) == es[..m] + es[m + 1..]
  {
    if index == 0 {
      RemoveHeadLinks(s, xs);
    } else if |xs| >= 2 {
      RemoveCutsChain(s, xs, index);
    } else {
      RemoveOnlyNodeLinks(s, xs, index);
    }
  }

  /** The repaired `remove(0)` cuts the first node out and keeps the rest
      linked both ways. */
  lemma RemoveHeadLinks<E>(s: List.ListState<E>, xs: seq<nat>)
    requires Linked(s, xs) && xs != []
    ensures var r, es := Remove(s, 0), Elements(s.pool, xs);
      && r.result == Success && r.value == Some(es[0])
      && Linked(r.list, Cut(xs, 0))
      && Elements(r.list.pool, Cut(xs, 0)) == es[..0] + es[1..]
  {
    var w := List.Remove(s, 0).list;
    RemoveHeadWrites(s, xs);
    if |xs| > 1 {
      RelinkAfter(s.pool, w.pool, xs, 0, false);
    }
    CutLinked(s, xs, Remove(s, 0).list, 0);
  }

  /** The repaired `remove(index)` with `index >= 1` on a one-node list
      removes that node and leaves the list empty. */
  lemma RemoveOnlyNodeLinks<E>(s: List.ListState<E>, xs: seq<nat>, index: nat)
    requires Linked(s, xs) && |xs| == 1 && index >= 1
    ensures var r, es := Remove(s, index), Elements(s.pool, xs);
      && r.result == Success && r.value == Some(es[0])
      && Linked(r.list, Cut(xs, 0))
      && Elements(r.list.pool, Cut(xs, 0)) == es[..0] + es[1..]
  {
    RemoveOnSingleNodeUndefined(s, xs[0], index);
    WalkFollowsChain(s.pool, xs, 0, index);
    assert s.pool[xs[0]].linkA == NextIn(xs, 0);
    CutLinked(s, xs, Remove(s, index).list, 0);
  }

  /** `insert(index)` stores `x` at position `min(index, length)`, and
      reports Overflow, changing nothing, exactly when the list already
      holds one element per slot. */
  lemma InsertActsAsSequence<E>(s: List.ListState<E>, es: seq<E>, index: nat, x: E)
    requires Represents(s, es)
    ensures var r := Insert(s, index, x);
      && (r.result == Overflow <==> |es| == |s.pool|)
      && (r.result == Overflow ==> r.list == s)
      && (r.result != Overflow ==> r.result == Success && Represents(r.list, InsertAt(es, index, x)))
  {
    var xs :| Linked(s, xs) && Elements(s.pool, xs) == es;
    FullExactlyAtCapacity(s.pool, xs);
    if !Full(s.pool) {
      InsertLinks(s, xs, index, x);
    }
  }

  /** `pop` hands back the last stored element and drops it, and reports
      Empty, changing nothing, exactly when nothing is stored. */
  lemma PopActsAsSequence<E>(s: List.ListState<E>, es: seq<E>)
    requires Represents(s, es)
    ensures var r := Pop(s);
      && (r.result == Empty <==> es == [])
      && (r.result == Empty ==> r.value == None && r.list == s)
      && (r.result != Empty ==> r.result == Success && r.value == Some(es[|es| - 1]) && Represents(r.list, es[..|es| - 1]))
  {
    var xs :| Linked(s, xs) && Elements(s.pool, xs) == es;
    if xs != [] {
      PopLinks(s, xs);
    }
  }

  /** `remove(index)` hands back the element at position
      `min(index, length - 1)` and drops it, and reports Empty, changing
      nothing, exactly when nothing is stored. */
  lemma RemoveActsAsSequence<E>(s: List.ListState<E>, es: seq<E>, index: nat)
    requires Represents(s, es)
    ensures var r := Remove(s, index);
      && (r.result == Empty <==> es == [])
      && (r.result == Empty ==> r.value == None && r.list == s)
      && (r.result != Empty ==>
            es != [] && r.result == Success && r.value == Some(es[Min(index, |es| - 1)])
            && Represents(r.list, RemoveAt(es, index)))
  {
    var xs :| Linked(s, xs) && Elements(s.pool, xs) == es;
    if xs != [] {
      RemoveFromChain(s, xs, es, index);
    }
  }

  lemma RemoveFromChain<E>(s: List.ListState<E>, xs: seq<nat>, es: seq<E>, index: nat)
    requires Linked(s, xs) && xs != [] && Elements(s.pool, xs) == es
    ensures var r := Remove(s, index);
      && r.result == Success && r.value == Some(es[Min(index, |es| - 1)])
      && Represents(r.list, RemoveAt(es, index))
  {
    RemoveLinks(s, xs, index);
    var m := Min(index, |xs| - 1);
    var r := Remove(s, index).list;
    RepresentedBy(r, Cut(xs, m), RemoveAt(es, index));
  }
}
