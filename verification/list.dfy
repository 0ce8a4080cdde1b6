/** The pool-backed doubly linked list (`List`), modelled as the code runs,
    including the links it leaves stale. */
module List {
  import opened Common
  import opened NodePool

  /** The list's fields: the caller's node array plus `head` and `tail`.
      A slot's `linkA` is its `next`, its `linkB` its `previous`. */
  datatype ListState<E> = ListState(pool: seq<Slot<E>>, head: Option<nat>, tail: Option<nat>)

  /** The outcome of `append` and `insert`. */
  datatype Added<E> = Added(result: OperationResult, list: ListState<E>)

  /** The outcome of `pop` and `remove`: the element handed back, if any. */
  datatype Removed<E> = Removed(result: OperationResult, value: Option<E>, list: ListState<E>)

  /** What every state the list can reach satisfies, stale links included:
      each reference names a slot, and `head` and `tail` are null together. */
  predicate Valid<E>(s: ListState<E>)
  {
    && LinksInBounds(s.pool)
    && InBounds(s.head, |s.pool|)
    && InBounds(s.tail, |s.pool|)
    && (s.head.None? <==> s.tail.None?)
  }

  /** Slot `i` given back to the pool: free, both links cleared. */
  function Release<E>(pool: seq<Slot<E>>, i: nat): seq<Slot<E>>
    requires i < |pool|
  {
    pool[i := pool[i].(enabled := false, linkA := None, linkB := None)]
  }

  /** The slot the next acquire hands out, when one is free. */
  function NextFree<E>(pool: seq<Slot<E>>): Option<nat>
  {
    FirstFree(pool, 0)
  }

  /** The constructor: the list starts empty over the caller's array, whose
      slots it does not touch. */
  function New<E>(pool: seq<Slot<E>>): (s: ListState<E>)
    requires LinksInBounds(pool)
    ensures Valid(s) && s.pool == pool && s.head.None?
  {
    ListState(pool, None, None)
  }

  /** The bounded walk of `insert`, `remove` and `get`: follows `next` from
      `node` at most `steps` times, stopping early at a node whose `next` is
      null. Returns the node reached and the number of steps taken. */
  function Walk<E>(pool: seq<Slot<E>>, node: nat, steps: nat): (w: (nat, nat))
    requires LinksInBounds(pool) && node < |pool|
    ensures w.0 < |pool| && w.1 <= steps
    ensures w.1 < steps ==> pool[w.0].linkA.None?
    decreases steps
  {
    if steps == 0 || pool[node].linkA.None? then (node, 0)
    else
      var w := Walk(pool, pool[node].linkA.value, steps - 1);
      (w.0, w.1 + 1)
  }

  /** `append`: takes the lowest free slot, stores `x` in it and links it
      after the current tail; a full pool reports Overflow. */
  function Append<E>(s: ListState<E>, x: E): (r: Added<E>)
    requires Valid(s)
    ensures Valid(r.list) && |r.list.pool| == |s.pool|
    ensures r.result == Overflow <==> Full(s.pool)
    ensures r.result == Overflow ==> r.list == s
    ensures r.result != Overflow ==>
      var i := NextFree(s.pool).value;
      && r.result == Success
      && r.list.tail == Some(i)
      && r.list.head == (if s.head.None? then Some(i) else s.head)
      && r.list.pool[i].enabled && r.list.pool[i].element == x
      && (forall j :: 0 <= j < |s.pool| && j != i && Some(j) != s.tail ==> r.list.pool[j] == s.pool[j])
  {
    var a := Acquire(s.pool);
    if a.slot.None? then Added(Overflow, s)
    else
      var i := a.slot.value;
      var p := a.pool[i := a.pool[i].(element := x)];
      if s.head.None? then Added(Success, ListState(p, Some(i), Some(i)))
      else
        var t := s.tail.value;
        var p1 := p[t := p[t].(linkA := Some(i))];
        var p2 := p1[i := p1[i].(linkB := Some(t))];
        Added(Success, ListState(p2, s.head, Some(i)))
  }

  /** `insert`: takes the lowest free slot and stores `x` in it. Into an
      empty list it becomes the only node; at index 0 it becomes the head
      (the old head's `previous` is not updated); otherwise it goes after the
      node reached by walking at most `index - 1` steps from the head, so an
      index past the end appends at the tail. A full pool reports Overflow. */
  function Insert<E>(s: ListState<E>, index: nat, x: E): (r: Added<E>)
    requires Valid(s)
    ensures Valid(r.list) && |r.list.pool| == |s.pool|
    ensures r.result == Overflow <==> Full(s.pool)
    ensures r.result == Overflow ==> r.list == s
    ensures r.result != Overflow ==>
      var i := NextFree(s.pool).value;
      && r.result == Success
      && r.list.pool[i].enabled && r.list.pool[i].element == x
      && r.list.head == (if s.head.None? || index == 0 then Some(i) else s.head)
  {
    var a := Acquire(s.pool);
    if a.slot.None? then Added(Overflow, s)
    else
      var i := a.slot.value;
      var p := a.pool[i := a.pool[i].(element := x)];
      if s.head.None? then Added(Success, ListState(p, Some(i), Some(i)))
      else if index == 0 then
        Added(Success, ListState(p[i := p[i].(linkA := s.head)], Some(i), s.tail))
      else
        var prev := Walk(p, s.head.value, index - 1).0;
        var tail' := if p[prev].linkA.None? then Some(i) else s.tail;
        Added(Success, ListState(LinkAfter(p, prev, i), s.head, tail'))
  }

  /** The four link updates of `insert` that put slot `i` after slot
      `prev`: the node after `prev` (if any) gets `i` as its `previous`,
      `i` takes `prev`'s `next` and gets `prev` as its `previous`, and
      `prev`'s `next` becomes `i`. */
  function LinkAfter<E>(p: seq<Slot<E>>, prev: nat, i: nat): (p4: seq<Slot<E>>)
    requires LinksInBounds(p) && prev < |p| && i < |p|
    ensures LinksInBounds(p4) && |p4| == |p|
  {
    var after := p[prev].linkA;
    var p1 := if after.None? then p else p[after.value := p[after.value].(linkB := Some(i))];
    var p2 := p1[i := p1[i].(linkA := p1[prev].linkA)];
    var p3 := p2[i := p2[i].(linkB := Some(prev))];
    p3[prev := p3[prev].(linkA := Some(i))]
  }

  /** `pop`: hands back the tail's element, moves `tail` to the tail's
      `previous` (clearing `head` when that is null) and releases the old
      tail. The new tail's `next` is left as it was. */
  function Pop<E>(s: ListState<E>): (r: Removed<E>)
    requires Valid(s)
    ensures Valid(r.list) && |r.list.pool| == |s.pool|
    ensures r.result == Empty <==> s.tail.None?
    ensures r.result == Empty ==> r.value == None && r.list == s
    ensures r.result != Empty ==>
      var t := s.tail.value;
      && r.result == Success
      && r.value == Some(s.pool[t].element)
      && r.list.tail == s.pool[t].linkB
      && (forall j :: 0 <= j < |s.pool| ==> (r.list.pool[j].enabled <==> s.pool[j].enabled && j != t))
  {
    if s.tail.None? then Removed(Empty, None, s)
    else
      var t := s.tail.value;
      var tail' := s.pool[t].linkB;
      var head' := if tail'.None? then None else s.head;
      Removed(Success, Some(s.pool[t].element), ListState(Release(s.pool, t), head', tail'))
  }

  /** The node `remove(index)` unlinks when `index > 0`: the end of a walk of
      at most `index` steps from the head. */
  function RemoveTarget<E>(s: ListState<E>, index: nat): nat
    requires Valid(s) && s.head.Some?
  {
    Walk(s.pool, s.head.value, index).0
  }

  /** The states in which `remove(index)` does not dereference a null
      `previous`: those where an index above 0 reaches a node that has one. */
  predicate RemoveDefined<E>(s: ListState<E>, index: nat)
    requires Valid(s)
  {
    s.head.None? || index == 0 || s.pool[RemoveTarget(s, index)].linkB.Some?
  }

  /** `remove`: index 0 hands back the head's element and moves `head` to
      its `next` (the new head's `previous` is left as it was); a larger
      index unlinks the node reached by a walk of at most `index` steps,
      through its `previous` and `next`. The removed slot is released. */
  function Remove<E>(s: ListState<E>, index: nat): (r: Removed<E>)
    requires Valid(s)
    requires RemoveDefined(s, index)
    ensures Valid(r.list) && |r.list.pool| == |s.pool|
    ensures r.result == Empty <==> s.head.None?
    ensures r.result == Empty ==> r.value == None && r.list == s
    ensures r.result != Empty ==>
      var target := if index == 0 then s.head.value else RemoveTarget(s, index);
      && r.result == Success
      && r.value == Some(s.pool[target].element)
      && (forall j :: 0 <= j < |s.pool| ==> (r.list.pool[j].enabled <==> s.pool[j].enabled && j != target))
  {
    if s.head.None? then Removed(Empty, None, s)
    else if index == 0 then
      var h := s.head.value;
      var head' := s.pool[h].linkA;
      var tail' := if head'.None? then None else s.tail;
      Removed(Success, Some(s.pool[h].element), ListState(Release(s.pool, h), head', tail'))
    else
      var target := RemoveTarget(s, index);
      var tail' := if s.pool[target].linkA.None? then s.pool[target].linkB else s.tail;
      Removed(Success, Some(s.pool[target].element), ListState(Release(Unlink(s.pool, target), target), s.head, tail'))
  }

  /** The two link updates of `remove` around slot `target`: the node after
      it (if any) takes its `previous`, and the node before it takes its
      `next`. */
  function Unlink<E>(p: seq<Slot<E>>, target: nat): (p2: seq<Slot<E>>)
    requires LinksInBounds(p) && target < |p| && p[target].linkB.Some?
    ensures LinksInBounds(p2) && |p2| == |p|
  {
    var after := p[target].linkA;
    var p1 := if after.None? then p else p[after.value := p[after.value].(linkB := p[target].linkB)];
    var before := p1[target].linkB.value;
    p1[before := p1[before].(linkA := p1[target].linkA)]
  }

  /** `get`: the element at the end of a walk of at most `index` steps from
      the head, or null when the walk stopped short or the list is empty. */
  function Get<E>(s: ListState<E>, index: nat): (r: Option<E>)
    requires Valid(s)
    ensures s.head.None? ==> r.None?
  {
    if s.head.None? then None
    else
      var w := Walk(s.pool, s.head.value, index);
      if w.1 < index then None else Some(s.pool[w.0].element)
  }
}
