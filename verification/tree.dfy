/** The pool-backed binary tree: nodes live in a caller-supplied slot pool
    (the same lowest-free-slot acquire as the list), each with a left and a
    right child link. `appendChild` adds a fresh leaf, `linkNode` links any
    node it is given, and `removeChild` takes a subtree apart recursively. */
module Tree {
  import opened Common
  import opened NodePool

  /** Which child link of a parent an operation addresses. */
  datatype Side = Left | Right

  function Other(side: Side): Side
  {
    if side == Left then Right else Left
  }

  /** The child link on `side`: `lhs` is `linkA`, `rhs` is `linkB`. */
  function Child<E>(slot: Slot<E>, side: Side): Option<nat>
  {
    if side == Left then slot.linkA else slot.linkB
  }

  /** `slot` with the child link on `side` set to `c`. */
  function WithChild<E>(slot: Slot<E>, side: Side, c: Option<nat>): (r: Slot<E>)
    ensures Child(r, side) == c && Child(r, Other(side)) == Child(slot, Other(side))
    ensures r.enabled == slot.enabled && r.element == slot.element
  {
    if side == Left then slot.(linkA := c) else slot.(linkB := c)
  }

  /** A node without children. */
  predicate IsLeaf<E>(slot: Slot<E>)
  {
    slot.linkA.None? && slot.linkB.None?
  }

  /** The outcome of an operation that reports a result code and leaves a
      pool behind. */
  datatype Outcome<E> = Outcome(result: OperationResult, pool: seq<Slot<E>>)

  /** The outcome of `appendChild`: the result code, what the caller's
      out-pointer holds afterwards, and the pool. */
  datatype Appended<E> = Appended(result: OperationResult, out: Option<nat>, pool: seq<Slot<E>>)

  /** The constructor's pool initialisation: every slot is marked free; links
      and payloads are left as they were. */
  function Initialize<E>(pool: seq<Slot<E>>): (r: seq<Slot<E>>)
    ensures |r| == |pool|
    ensures forall j :: 0 <= j < |r| ==> !r[j].enabled
    ensures forall j :: 0 <= j < |r| ==>
      r[j].linkA == pool[j].linkA && r[j].linkB == pool[j].linkB && r[j].element == pool[j].element
  {
    if pool == [] then [] else [pool[0].(enabled := false)] + Initialize(pool[1..])
  }

  /** `retainNode(element)`: acquires the lowest free slot as a leaf holding
      `x`; null when every slot is in use. */
  function RetainWith<E>(pool: seq<Slot<E>>, x: E): (r: Acquired<E>)
    ensures r.slot.None? <==> Full(pool)
    ensures r.slot.None? ==> r.pool == pool
    ensures r.slot.Some? ==>
      && r.slot.value < |pool|
      && !pool[r.slot.value].enabled
      && (forall j :: 0 <= j < r.slot.value ==> pool[j].enabled)
    ensures r.slot.Some? ==>
      && |r.pool| == |pool|
      && r.pool[r.slot.value] == Slot(true, None, None, x)
      && (forall j :: 0 <= j < |pool| && j != r.slot.value ==> r.pool[j] == pool[j])
    ensures LinksInBounds(pool) ==> LinksInBounds(r.pool)
  {
    var a := Acquire(pool);
    if a.slot.None? then a
    else
      var i := a.slot.value;
      Acquired(a.slot, a.pool[i := a.pool[i].(element := x)])
  }

  /** `linkNode`: hangs `node` on the `side` of `parent`. A null node is
      Empty; an occupied side is Overflow and is left alone. */
  function LinkNode<E>(pool: seq<Slot<E>>, parent: nat, node: Option<nat>, side: Side): (r: Outcome<E>)
    requires parent < |pool|
    ensures node.None? ==> r == Outcome(Empty, pool)
    ensures node.Some? && Child(pool[parent], side).Some? ==> r == Outcome(Overflow, pool)
    ensures node.Some? && Child(pool[parent], side).None? ==>
      && r.result == Success
      && |r.pool| == |pool|
      && Child(r.pool[parent], side) == node
      && Child(r.pool[parent], Other(side)) == Child(pool[parent], Other(side))
      && r.pool[parent].enabled == pool[parent].enabled
      && r.pool[parent].element == pool[parent].element
      && (forall j :: 0 <= j < |pool| && j != parent ==> r.pool[j] == pool[j])
  {
    if node.None? then Outcome(Empty, pool)
    else if Child(pool[parent], side).Some? then Outcome(Overflow, pool)
    else Outcome(Success, pool[parent := WithChild(pool[parent], side, node)])
  }

  /** `appendChild` as written: acquires a slot, stores `x`, reports the
      slot through the out-pointer, and only then links it, so that an
      occupied side leaves the new slot in use and unlinked. `out` is what
      the caller's out-pointer held before the call. */
  function AppendChild<E>(pool: seq<Slot<E>>, parent: Option<nat>, x: E, side: Side, out: Option<nat>): (r: Appended<E>)
    requires InBounds(parent, |pool|)
    ensures parent.None? ==> r == Appended(Empty, out, pool)
    ensures parent.Some? && Full(pool) ==> r == Appended(Overflow, None, pool)
    ensures parent.Some? && !Full(pool) ==>
      && r.out.Some?
      && r.out.value < |pool|
      && !pool[r.out.value].enabled
      && (forall j :: 0 <= j < r.out.value ==> pool[j].enabled)
      && |r.pool| == |pool|
      && r.pool[r.out.value].enabled
      && r.pool[r.out.value].element == x
      && r.result != Empty
  {
    if parent.None? then Appended(Empty, out, pool)
    else
      var a := RetainWith(pool, x);
      if a.slot.None? then Appended(Overflow, None, pool)
      else
        var linked := LinkNode(a.pool, parent.value, a.slot, side);
        Appended(linked.result, a.slot, linked.pool)
  }

  /** On a parent that is in use, `appendChild` succeeds exactly when the
      side is free and a slot is left; on success the new leaf holding `x`
      hangs on that side and nothing else changes. */
  lemma AppendChildLinksFreshLeaf<E>(pool: seq<Slot<E>>, p: nat, x: E, side: Side, out: Option<nat>)
    requires p < |pool| && pool[p].enabled
    ensures var r := AppendChild(pool, Some(p), x, side, out);
      && (r.result == Success <==> !Full(pool) && Child(pool[p], side).None?)
      && (r.result == Success ==>
        var i := r.out.value;
        && i != p
        && Child(r.pool[p], side) == Some(i)
        && Child(r.pool[p], Other(side)) == Child(pool[p], Other(side))
        && r.pool[p].enabled && r.pool[p].element == pool[p].element
        && r.pool[i] == Slot(true, None, None, x)
        && forall j :: 0 <= j < |pool| && j != p && j != i ==> r.pool[j] == pool[j])
  {
  }

  /** Source defect: on a parent whose `side` is taken, `appendChild`
      reports Overflow, but the slot it acquired stays in use, holding `x`,
      with no node linking to it. */
  lemma AppendChildLeaksOnOccupiedSide<E>(pool: seq<Slot<E>>, p: nat, x: E, side: Side, out: Option<nat>)
    requires p < |pool| && pool[p].enabled && Child(pool[p], side).Some? && !Full(pool)
    ensures var r := AppendChild(pool, Some(p), x, side, out);
      && r.result == Overflow
      && r.out.Some?
      && !pool[r.out.value].enabled
      && r.pool == pool[r.out.value := Slot(true, None, None, x)]
  {
  }

  /** `appendChild` as documented: when the side is already taken it does
      nothing. */
  function AppendChildChecked<E>(pool: seq<Slot<E>>, parent: Option<nat>, x: E, side: Side, out: Option<nat>): (r: Appended<E>)
    requires InBounds(parent, |pool|)
    ensures r.result == Overflow ==> r.pool == pool && r.out.None?
    ensures r.result == Empty <==> parent.None?
    ensures parent.Some? ==>
      (r.result == Success <==> !Full(pool) && Child(pool[parent.value], side).None?)
    ensures parent.Some? && Child(pool[parent.value], side).None? ==> r == AppendChild(pool, parent, x, side, out)
  {
    if parent.None? then Appended(Empty, out, pool)
    else if Child(pool[parent.value], side).Some? then Appended(Overflow, None, pool)
    else AppendChild(pool, parent, x, side, out)
  }

  // ----- Removal -----

  /** Ghost creation stamps: every link in the pool, enabled slot or not,
      leads to a slot created later, so no slot of the whole pool lies on a
      cycle of child links. It bounds the recursion of `removeChild`.
      Retaining a node and appending a child under a node in use keep it,
      since they only link fresh slots. `linkNode` links whatever node it is
      given and keeps the same stamps only when that node was created after
      the parent; linking a node under itself or under one of its
      descendants closes a cycle. */
  ghost predicate Stamped<E>(pool: seq<Slot<E>>, stamp: seq<nat>, bound: nat)
  {
    && |stamp| == |pool|
    && LinksInBounds(pool)
    && (forall j :: 0 <= j < |pool| ==> stamp[j] < bound)
    && (forall j :: 0 <= j < |pool| && pool[j].linkA.Some? ==> stamp[j] < stamp[pool[j].linkA.value])
    && (forall j :: 0 <= j < |pool| && pool[j].linkB.Some? ==> stamp[j] < stamp[pool[j].linkB.value])
  }

  /** The slots reachable from `t` along child links, `t` included. */
  ghost function Descendants<E>(pool: seq<Slot<E>>, t: nat, stamp: seq<nat>, bound: nat): (d: set<nat>)
    requires Stamped(pool, stamp, bound) && t < |pool|
    ensures t in d
    ensures forall j :: j in d ==> j < |pool| && stamp[t] <= stamp[j]
    decreases bound - stamp[t]
  {
    var left := if pool[t].linkA.Some? then Descendants(pool, pool[t].linkA.value, stamp, bound) else {};
    var right := if pool[t].linkB.Some? then Descendants(pool, pool[t].linkB.value, stamp, bound) else {};
    {t} + left + right
  }

  /** `q` differs from `pool` only by cleared links and freed slots. */
  ghost predicate Shrinks<E>(pool: seq<Slot<E>>, q: seq<Slot<E>>)
  {
    && |q| == |pool|
    && forall j :: 0 <= j < |pool| ==>
      && q[j].element == pool[j].element
      && (q[j].enabled ==> pool[j].enabled)
      && (q[j].linkA.Some? ==> q[j].linkA == pool[j].linkA)
      && (q[j].linkB.Some? ==> q[j].linkB == pool[j].linkB)
  }

  /** `removeChild`: a leaf is freed; otherwise the left subtree is removed
      and the left link cleared, then the same on the right, and the target
      itself stays in use. `stamp` and `bound` are ghost: they only measure
      the recursion. */
  function RemoveChild<E>(pool: seq<Slot<E>>, target: nat, ghost stamp: seq<nat>, ghost bound: nat): (r: seq<Slot<E>>)
    requires Stamped(pool, stamp, bound) && target < |pool|
    ensures Shrinks(pool, r) && Stamped(r, stamp, bound)
    ensures forall j :: 0 <= j < |pool| && j !in Descendants(pool, target, stamp, bound) ==> r[j] == pool[j]
    ensures IsLeaf(r[target])
    ensures IsLeaf(pool[target]) ==> r == pool[target := pool[target].(enabled := false)]
    ensures !IsLeaf(pool[target]) ==> r[target].enabled == pool[target].enabled
    decreases bound - stamp[target]
  {
    var t := pool[target];
    if IsLeaf(t) then pool[target := t.(enabled := false)]
    else
      var p1 := RemoveSide(pool, target, Left, stamp, bound);
      DescendantsShrink(pool, p1, target, stamp, bound);
      RemoveSide(p1, target, Right, stamp, bound)
  }

  /** One half of `removeChild` on an internal node: the subtree on `side`
      removed and the link on `side` cleared. */
  function RemoveSide<E>(pool: seq<Slot<E>>, target: nat, side: Side, ghost stamp: seq<nat>, ghost bound: nat): (r: seq<Slot<E>>)
    requires Stamped(pool, stamp, bound) && target < |pool|
    ensures Shrinks(pool, r) && Stamped(r, stamp, bound)
    ensures forall j :: 0 <= j < |pool| && j !in Descendants(pool, target, stamp, bound) ==> r[j] == pool[j]
    ensures forall j :: 0 <= j < |pool| && j != target && j !in SideDescendants(pool, target, side, stamp, bound) ==> r[j] == pool[j]
    ensures r[target] == WithChild(pool[target], side, None)
    decreases bound - stamp[target], 0
  {
    var c := Child(pool[target], side);
    if c.None? then pool
    else
      var q := RemoveChild(pool, c.value, stamp, bound);
      ClearChildLink(pool, q, target, side, stamp, bound);
      q[target := WithChild(q[target], side, None)]
  }

  /** After the subtree below the child on `side` is removed to give `q`,
      clearing the link on `side` leaves a pool that only shrank, changed
      nothing outside the subtree, and holds the target with that link
      null. */
  lemma ClearChildLink<E>(pool: seq<Slot<E>>, q: seq<Slot<E>>, target: nat, side: Side, stamp: seq<nat>, bound: nat)
    requires Stamped(pool, stamp, bound) && target < |pool| && Child(pool[target], side).Some?
    requires Shrinks(pool, q) && Stamped(q, stamp, bound)
    requires forall j :: 0 <= j < |pool| && j !in SideDescendants(pool, target, side, stamp, bound) ==> q[j] == pool[j]
    ensures var r := q[target := WithChild(q[target], side, None)];
      && Shrinks(pool, r) && Stamped(r, stamp, bound)
      && (forall j :: 0 <= j < |pool| && j !in Descendants(pool, target, stamp, bound) ==> r[j] == pool[j])
      && (forall j :: 0 <= j < |pool| && j != target && j !in SideDescendants(pool, target, side, stamp, bound) ==> r[j] == pool[j])
      && r[target] == WithChild(pool[target], side, None)
  {
    DescendantsSplit(pool, target, stamp, bound);
    assert q[target] == pool[target];
    var t := WithChild(pool[target], side, None);
    var r := q[target := t];
    assert Shrinks(pool, r) by {
      forall j | 0 <= j < |pool|
        ensures r[j].element == pool[j].element && (r[j].enabled ==> pool[j].enabled)
        ensures (r[j].linkA.Some? ==> r[j].linkA == pool[j].linkA) && (r[j].linkB.Some? ==> r[j].linkB == pool[j].linkB)
      {
        if j != target {
          assert r[j] == q[j];
        }
      }
    }
    assert Stamped(r, stamp, bound) by {
      forall j | 0 <= j < |r|
        ensures InBounds(r[j].linkA, |r|) && InBounds(r[j].linkB, |r|)
        ensures r[j].linkA.Some? ==> stamp[j] < stamp[r[j].linkA.value]
        ensures r[j].linkB.Some? ==> stamp[j] < stamp[r[j].linkB.value]
      {
        if j != target {
          assert r[j] == q[j];
        }
      }
    }
    forall j | 0 <= j < |pool| && j != target && j !in SideDescendants(pool, target, side, stamp, bound)
      ensures r[j] == pool[j]
    {
      assert r[j] == q[j];
    }
  }

  /** Clearing links and freeing slots never makes more slots reachable. */
  lemma {:induction false} DescendantsShrink<E>(pool: seq<Slot<E>>, q: seq<Slot<E>>, t: nat, stamp: seq<nat>, bound: nat)
    requires Stamped(pool, stamp, bound) && Stamped(q, stamp, bound) && Shrinks(pool, q) && t < |pool|
    ensures Descendants(q, t, stamp, bound) <= Descendants(pool, t, stamp, bound)
    decreases bound - stamp[t]
  {
    if q[t].linkA.Some? {
      DescendantsShrink(pool, q, q[t].linkA.value, stamp, bound);
    }
    if q[t].linkB.Some? {
      DescendantsShrink(pool, q, q[t].linkB.value, stamp, bound);
    }
  }

  /** The slots reachable through the child on `side` of `t`. */
  ghost function SideDescendants<E>(pool: seq<Slot<E>>, t: nat, side: Side, stamp: seq<nat>, bound: nat): (d: set<nat>)
    requires Stamped(pool, stamp, bound) && t < |pool|
    ensures forall j :: j in d ==> j < |pool| && stamp[t] < stamp[j]
  {
    var c := Child(pool[t], side);
    if c.None? then {} else Descendants(pool, c.value, stamp, bound)
  }

  /** A node is a leaf exactly when nothing but itself is reachable from
      it: a child link always leads to another, later-created slot. */
  lemma LeafReachesOnlyItself<E>(pool: seq<Slot<E>>, t: nat, stamp: seq<nat>, bound: nat)
    requires Stamped(pool, stamp, bound) && t < |pool|
    ensures IsLeaf(pool[t]) <==> Descendants(pool, t, stamp, bound) == {t}
  {
  }

  /** Reachability is transitive. */
  lemma {:induction false} DescendantsClosed<E>(pool: seq<Slot<E>>, t: nat, j: nat, stamp: seq<nat>, bound: nat)
    requires Stamped(pool, stamp, bound) && t < |pool| && j in Descendants(pool, t, stamp, bound)
    ensures Descendants(pool, j, stamp, bound) <= Descendants(pool, t, stamp, bound)
    decreases bound - stamp[t]
  {
    if j != t {
      var a, b := pool[t].linkA, pool[t].linkB;
      if a.Some? && j in Descendants(pool, a.value, stamp, bound) {
        DescendantsClosed(pool, a.value, j, stamp, bound);
      } else {
        DescendantsClosed(pool, b.value, j, stamp, bound);
      }
    }
  }

  /** When `q` agrees with `pool` everywhere at or after `t`'s stamp except
      below `c`, whatever `pool` reaches from `t` is reached in `q` too or
      lies below `c`. */
  lemma {:induction false} DescendantsRecover<E>(pool: seq<Slot<E>>, q: seq<Slot<E>>, t: nat, c: nat, stamp: seq<nat>, bound: nat)
    requires Stamped(pool, stamp, bound) && Stamped(q, stamp, bound) && t < |pool| && c < |pool|
    requires forall j :: 0 <= j < |pool| && j !in Descendants(pool, c, stamp, bound) && stamp[t] <= stamp[j] ==> q[j] == pool[j]
    ensures Descendants(pool, t, stamp, bound) <= Descendants(q, t, stamp, bound) + Descendants(pool, c, stamp, bound)
    decreases bound - stamp[t]
  {
    if t in Descendants(pool, c, stamp, bound) {
      DescendantsClosed(pool, c, t, stamp, bound);
    } else {
      assert q[t] == pool[t];
      if pool[t].linkA.Some? {
        DescendantsRecover(pool, q, pool[t].linkA.value, c, stamp, bound);
      }
      if pool[t].linkB.Some? {
        DescendantsRecover(pool, q, pool[t].linkB.value, c, stamp, bound);
      }
    }
  }

  /** What `removeChild` does to the subtree: every node reachable from the
      target ends without children, and every node that was a leaf is
      freed. */
  lemma {:induction false} RemoveChildClears<E>(pool: seq<Slot<E>>, target: nat, stamp: seq<nat>, bound: nat)
    requires Stamped(pool, stamp, bound) && target < |pool|
    ensures var r := RemoveChild(pool, target, stamp, bound);
      forall j :: j in Descendants(pool, target, stamp, bound) ==>
        IsLeaf(r[j]) && (IsLeaf(pool[j]) ==> !r[j].enabled)
    decreases bound - stamp[target], 1
  {
    if !IsLeaf(pool[target]) {
      var p1 := RemoveSide(pool, target, Left, stamp, bound);
      RemoveSideClears(pool, target, Left, stamp, bound);
      DescendantsShrink(pool, p1, target, stamp, bound);
      var r := RemoveSide(p1, target, Right, stamp, bound);
      RemoveSideClears(p1, target, Right, stamp, bound);
      ClearsBothSides(pool, p1, r, target, stamp, bound);
    }
  }

  /** The two halves of `removeChild` together clear the whole subtree:
      what the left half leaves behind is either cleared by it or reached
      again by the right half. */
  lemma ClearsBothSides<E>(pool: seq<Slot<E>>, p1: seq<Slot<E>>, r: seq<Slot<E>>, target: nat, stamp: seq<nat>, bound: nat)
    requires Stamped(pool, stamp, bound) && Stamped(p1, stamp, bound) && target < |pool| && |r| == |pool|
    requires !IsLeaf(pool[target]) && IsLeaf(r[target]) && p1[target].linkB == pool[target].linkB
    requires pool[target].linkA.None? ==> p1 == pool
    requires forall j :: 0 <= j < |pool| && j != target && j !in SideDescendants(pool, target, Left, stamp, bound) ==> p1[j] == pool[j]
    requires forall j :: 0 <= j < |pool| && j != target && j !in SideDescendants(p1, target, Right, stamp, bound) ==> r[j] == p1[j]
    requires forall j :: j in SideDescendants(pool, target, Left, stamp, bound) ==> IsLeaf(p1[j]) && (IsLeaf(pool[j]) ==> !p1[j].enabled)
    requires forall j :: j in SideDescendants(p1, target, Right, stamp, bound) ==> IsLeaf(r[j]) && (IsLeaf(p1[j]) ==> !r[j].enabled)
    ensures forall j :: j in Descendants(pool, target, stamp, bound) ==> IsLeaf(r[j]) && (IsLeaf(pool[j]) ==> !r[j].enabled)
  {
    var left, right := SideDescendants(pool, target, Left, stamp, bound), SideDescendants(pool, target, Right, stamp, bound);
    DescendantsSplit(pool, target, stamp, bound);
    if pool[target].linkA.Some? && pool[target].linkB.Some? {
      DescendantsRecover(pool, p1, pool[target].linkB.value, pool[target].linkA.value, stamp, bound);
    }
    assert right <= left + SideDescendants(p1, target, Right, stamp, bound);
    forall j | j in Descendants(pool, target, stamp, bound)
      ensures IsLeaf(r[j]) && (IsLeaf(pool[j]) ==> !r[j].enabled)
    {
      if j == target {
      } else if j in left {
        assert IsLeaf(p1[j]);
      } else {
        assert p1[j] == pool[j];
      }
    }
  }

  /** What `t` reaches is `t` itself and what its two children reach. */
  lemma DescendantsSplit<E>(pool: seq<Slot<E>>, t: nat, stamp: seq<nat>, bound: nat)
    requires Stamped(pool, stamp, bound) && t < |pool|
    ensures Descendants(pool, t, stamp, bound)
      == {t} + SideDescendants(pool, t, Left, stamp, bound) + SideDescendants(pool, t, Right, stamp, bound)
  {
  }

  /** One half of `removeChild`, as `RemoveChildClears` states it for the
      subtree on `side`. */
  lemma {:induction false} RemoveSideClears<E>(pool: seq<Slot<E>>, target: nat, side: Side, stamp: seq<nat>, bound: nat)
    requires Stamped(pool, stamp, bound) && target < |pool|
    ensures var r := RemoveSide(pool, target, side, stamp, bound);
      forall j :: j in SideDescendants(pool, target, side, stamp, bound) ==>
        IsLeaf(r[j]) && (IsLeaf(pool[j]) ==> !r[j].enabled)
    decreases bound - stamp[target], 0
  {
    var c := Child(pool[target], side);
    if c.Some? {
      var q := RemoveChild(pool, c.value, stamp, bound);
      RemoveChildClears(pool, c.value, stamp, bound);
      var r := q[target := WithChild(q[target], side, None)];
      assert RemoveSide(pool, target, side, stamp, bound) == r;
      forall j | j in SideDescendants(pool, target, side, stamp, bound)
        ensures IsLeaf(r[j]) && (IsLeaf(pool[j]) ==> !r[j].enabled)
      {
        assert r[j] == q[j];
      }
    }
  }

  // ----- Stamps are kept by every operation -----

  /** A pool as declared: every slot has null child links. */
  predicate Unlinked<E>(pool: seq<Slot<E>>)
  {
    forall j :: 0 <= j < |pool| ==> IsLeaf(pool[j])
  }

  /** The constructor on a pool as declared yields a stamped pool of free
      slots (any stamps below the bound will do), and the first node
      retained is slot 0. */
  lemma InitializeStamps<E>(pool: seq<Slot<E>>, stamp: seq<nat>, bound: nat)
    requires Unlinked(pool)
    requires |stamp| == |pool| && forall j :: 0 <= j < |stamp| ==> stamp[j] < bound
    ensures Stamped(Initialize(pool), stamp, bound)
    ensures |pool| > 0 ==> Acquire(Initialize(pool)).slot == Some(0)
  {
    var r := Initialize(pool);
    assert LinksInBounds(r);
    if |pool| > 0 {
      assert !r[0].enabled;
    }
  }

  /** Retaining a slot gives it a stamp newer than every other. */
  lemma RetainKeepsStamped<E>(pool: seq<Slot<E>>, x: E, stamp: seq<nat>, bound: nat)
    requires Stamped(pool, stamp, bound)
    ensures var a := RetainWith(pool, x);
      a.slot.Some? ==> Stamped(a.pool, stamp[a.slot.value := bound], bound + 1)
  {
  }

  /** A `linkNode` that changes nothing keeps the pool stamped; one that
      links keeps the same stamps exactly when the node was created after
      the parent. */
  lemma LinkNodeKeepsStamped<E>(pool: seq<Slot<E>>, parent: nat, node: Option<nat>, side: Side, stamp: seq<nat>, bound: nat)
    requires Stamped(pool, stamp, bound) && parent < |pool| && InBounds(node, |pool|)
    ensures var r := LinkNode(pool, parent, node, side);
      r.result != Success ==> Stamped(r.pool, stamp, bound)
    ensures var r := LinkNode(pool, parent, node, side);
      r.result == Success ==> (Stamped(r.pool, stamp, bound) <==> stamp[parent] < stamp[node.value])
  {
  }

  /** `linkNode` of a node under itself succeeds and leaves a pool that no
      stamping fits: the node is its own child, and `removeChild` on it
      would recurse without end. */
  lemma LinkNodeCanCloseCycle<E>(x: E, side: Side, stamp: seq<nat>, bound: nat)
    ensures var r := LinkNode([Slot(true, None, None, x)], 0, Some(0), side);
      && r.result == Success
      && Child(r.pool[0], side) == Some(0)
      && !Stamped(r.pool, stamp, bound)
  {
  }

  /** Appending a child under a parent in use keeps the pool stamped, with
      the new slot stamped newest. */
  lemma AppendChildKeepsStamped<E>(pool: seq<Slot<E>>, p: nat, x: E, side: Side, out: Option<nat>, stamp: seq<nat>, bound: nat)
    requires Stamped(pool, stamp, bound) && p < |pool| && pool[p].enabled
    ensures var r := AppendChild(pool, Some(p), x, side, out);
      !Full(pool) ==> Stamped(r.pool, stamp[r.out.value := bound], bound + 1)
  {
    RetainKeepsStamped(pool, x, stamp, bound);
  }

  // ----- The unit-test scenarios -----

  /** A free slot with null links holding 0. */
  const Blank: Slot<int> := Slot(false, None, None, 0)

  /** The constructor leaves a pool of blank slots as it is. */
  lemma InitializeKeepsBlank(pool: seq<Slot<int>>)
    requires forall j :: 0 <= j < |pool| ==> pool[j] == Blank
    ensures Initialize(pool) == pool
  {
  }

  // The pools of the two four-slot scenarios, one call at a time.

  const Root4: seq<Slot<int>> := [Slot(true, None, None, 0), Blank, Blank, Blank]
  const Left456: seq<Slot<int>> := [Slot(true, Some(1), None, 0), Slot(true, None, None, 456), Blank, Blank]
  const Both456And789: seq<Slot<int>> := [Slot(true, Some(1), Some(2), 0), Slot(true, None, None, 456),
    Slot(true, None, None, 789), Blank]
  const Left123: seq<Slot<int>> := [Slot(true, Some(1), None, 0), Slot(true, None, None, 123), Blank, Blank]
  const Leaked456: seq<Slot<int>> := [Slot(true, Some(1), None, 0), Slot(true, None, None, 123),
    Slot(true, None, None, 456), Blank]
  const LeakedThen789: seq<Slot<int>> := [Slot(true, Some(1), Some(3), 0), Slot(true, None, None, 123),
    Slot(true, None, None, 456), Slot(true, None, None, 789)]

  lemma RetainRoot4()
    ensures Acquire([Blank, Blank, Blank, Blank]) == Acquired(Some(0), Root4)
  {
    assert FirstFree([Blank, Blank, Blank, Blank], 0) == Some(0);
  }

  lemma AppendLeft(x: int)
    ensures AppendChild(Root4, Some(0), x, Left, None)
      == Appended(Success, Some(1), [Slot(true, Some(1), None, 0), Slot(true, None, None, x), Blank, Blank])
  {
    assert FirstFree(Root4, 1) == Some(1);
    assert FirstFree(Root4, 0) == Some(1);
  }

  lemma AppendRight789()
    ensures AppendChild(Left456, Some(0), 789, Right, None) == Appended(Success, Some(2), Both456And789)
  {
    assert FirstFree(Left456, 2) == Some(2);
    assert FirstFree(Left456, 1) == Some(2);
    assert FirstFree(Left456, 0) == Some(2);
  }

  lemma AppendLeftAgain()
    ensures AppendChild(Left123, Some(0), 456, Left, None) == Appended(Overflow, Some(2), Leaked456)
  {
    assert FirstFree(Left123, 2) == Some(2);
    assert FirstFree(Left123, 1) == Some(2);
    assert FirstFree(Left123, 0) == Some(2);
  }

  lemma AppendRightAfterLeak()
    ensures AppendChild(Leaked456, Some(0), 789, Right, None) == Appended(Success, Some(3), LeakedThen789)
  {
    assert FirstFree(Leaked456, 3) == Some(3);
    assert FirstFree(Leaked456, 2) == Some(3);
    assert FirstFree(Leaked456, 1) == Some(3);
    assert FirstFree(Leaked456, 0) == Some(3);
  }

  /** Two children appended to a root land on the requested sides and hold
      the requested values. */
  lemma AppendsBothSides()
    ensures var root := Acquire([Blank, Blank, Blank, Blank]);
      && root.slot == Some(0)
      && var l := AppendChild(root.pool, Some(0), 456, Left, None);
      && l.result == Success && l.out.Some? && l.pool[l.out.value].element == 456
      && var r := AppendChild(l.pool, Some(0), 789, Right, None);
      && r.result == Success && r.out.Some? && r.pool[r.out.value].element == 789
      && r.pool[0].linkA == l.out && r.pool[0].linkB == r.out
  {
    RetainRoot4();
    AppendLeft(456);
    assert Left456 == [Slot(true, Some(1), None, 0), Slot(true, None, None, 456), Blank, Blank];
    AppendRight789();
  }

  /** Appending twice on the same side is refused and the first child is
      kept, and the other side still takes a child; the refused call leaves
      slot 2 in use and unreachable, which the checked variant does not. */
  lemma DuplicateAppendIsRefused()
    ensures var root := Acquire([Blank, Blank, Blank, Blank]);
      && var first := AppendChild(root.pool, Some(0), 123, Left, None);
      && first.result == Success
      && var second := AppendChild(first.pool, Some(0), 456, Left, None);
      && second.result == Overflow
      && second.pool[second.pool[0].linkA.value].element == 123
      && second.out == Some(2) && second.pool[2].enabled
      && second.pool[0].linkA != Some(2) && second.pool[0].linkB != Some(2)
      && second.pool[1].linkA != Some(2) && second.pool[1].linkB != Some(2)
      && var third := AppendChild(second.pool, Some(0), 789, Right, None);
      && third.result == Success && third.pool[third.pool[0].linkB.value].element == 789
      && var checked := AppendChildChecked(first.pool, Some(0), 456, Left, None);
      && checked.result == Overflow && checked.pool == first.pool
  {
    RetainRoot4();
    AppendLeft(123);
    assert Left123 == [Slot(true, Some(1), None, 0), Slot(true, None, None, 123), Blank, Blank];
    AppendLeftAgain();
    AppendRightAfterLeak();
  }

  // The tree 0 -> (123, 456 -> (999, 789)) built one call at a time.

  const Built0: seq<Slot<int>> := [Slot(true, None, None, 0), Blank, Blank, Blank, Blank]
  const Built1: seq<Slot<int>> := [Slot(true, Some(1), None, 0), Slot(true, None, None, 123), Blank, Blank, Blank]
  const Built2: seq<Slot<int>> := [Slot(true, Some(1), Some(2), 0), Slot(true, None, None, 123),
    Slot(true, None, None, 456), Blank, Blank]
  const Built3: seq<Slot<int>> := [Slot(true, Some(1), Some(2), 0), Slot(true, None, None, 123),
    Slot(true, None, Some(3), 456), Slot(true, None, None, 789), Blank]
  const Built4: seq<Slot<int>> := [Slot(true, Some(1), Some(2), 0), Slot(true, None, None, 123),
    Slot(true, Some(4), Some(3), 456), Slot(true, None, None, 789), Slot(true, None, None, 999)]

  lemma BuildRoot()
    ensures Acquire([Blank, Blank, Blank, Blank, Blank]) == Acquired(Some(0), Built0)
  {
    assert FirstFree([Blank, Blank, Blank, Blank, Blank], 0) == Some(0);
  }

  lemma BuildLeft()
    ensures AppendChild(Built0, Some(0), 123, Left, None) == Appended(Success, Some(1), Built1)
  {
    assert FirstFree(Built0, 1) == Some(1);
    assert FirstFree(Built0, 0) == Some(1);
  }

  lemma BuildRight()
    ensures AppendChild(Built1, Some(0), 456, Right, None) == Appended(Success, Some(2), Built2)
  {
    assert FirstFree(Built1, 2) == Some(2);
    assert FirstFree(Built1, 1) == Some(2);
    assert FirstFree(Built1, 0) == Some(2);
  }

  lemma BuildRightRight()
    ensures AppendChild(Built2, Some(2), 789, Right, None) == Appended(Success, Some(3), Built3)
  {
    assert FirstFree(Built2, 3) == Some(3);
    assert FirstFree(Built2, 2) == Some(3);
    assert FirstFree(Built2, 1) == Some(3);
    assert FirstFree(Built2, 0) == Some(3);
  }

  lemma BuildRightLeft()
    ensures AppendChild(Built3, Some(2), 999, Left, None) == Appended(Success, Some(4), Built4)
  {
    assert FirstFree(Built3, 4) == Some(4);
    assert FirstFree(Built3, 3) == Some(4);
    assert FirstFree(Built3, 2) == Some(4);
    assert FirstFree(Built3, 1) == Some(4);
    assert FirstFree(Built3, 0) == Some(4);
  }

  /** The built tree carries its creation order as stamps. */
  lemma BuiltStamped()
    ensures Stamped(Built4, [0, 1, 2, 3, 4], 5)
  {
  }

  const Pruned1: seq<Slot<int>> := [Slot(true, Some(1), Some(2), 0), Slot(true, None, None, 123),
    Slot(true, None, Some(3), 456), Slot(true, None, None, 789), Slot(false, None, None, 999)]
  const Pruned2: seq<Slot<int>> := [Slot(true, Some(1), Some(2), 0), Slot(true, None, None, 123),
    Slot(true, None, None, 456), Slot(false, None, None, 789), Slot(false, None, None, 999)]

  lemma PruneLeft()
    requires Stamped(Built4, [0, 1, 2, 3, 4], 5)
    ensures RemoveSide(Built4, 2, Left, [0, 1, 2, 3, 4], 5) == Pruned1
  {
  }

  lemma PruneRight()
    requires Stamped(Pruned1, [0, 1, 2, 3, 4], 5)
    ensures RemoveSide(Pruned1, 2, Right, [0, 1, 2, 3, 4], 5) == Pruned2
  {
  }

  /** `removeChild` on the 456 node of the tree built by the calls above:
      the left subtree of the root is untouched, the target stays in use
      with no children, and its two leaf children are freed. */
  lemma RemoveChildOfInternalNode()
    ensures Stamped(Built4, [0, 1, 2, 3, 4], 5)
    ensures var r := RemoveChild(Built4, 2, [0, 1, 2, 3, 4], 5);
      && r[0] == Built4[0] && r[1] == Built4[1]
      && r[0].linkA == Some(1) && r[1].element == 123 && r[0].linkB == Some(2)
      && r[2].enabled && IsLeaf(r[2])
      && !r[3].enabled && !r[4].enabled
  {
    BuiltStamped();
    PruneLeft();
    PruneRight();
  }
}
