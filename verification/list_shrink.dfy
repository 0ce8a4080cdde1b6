/** How `pop` and `remove`, as written, change the chain: the slots each
    one writes, the links they leave stale, and when the chain stays linked
    with one node cut out. */
module ListShrink {
  import opened Common
  import opened NodePool
  import opened List
  import opened ListChain

  /** The chain `xs` without its node at position `m`. */
  function Cut(xs: seq<nat>, m: nat): (ys: seq<nat>)
    requires m < |xs|
    ensures |ys| == |xs| - 1
    ensures forall k :: 0 <= k < |ys| ==> ys[k] == if k < m then xs[k] else xs[k + 1]
  {
    xs[..m] + xs[m + 1..]
  }

  /** Pool `rp` is pool `sp` with the node at position `m` of `xs`
      released; its predecessor's `next` is relinked past it only when
      `relinkBefore` holds, its successor's `previous` only when
      `relinkAfter` holds, and nothing else changed. */
  ghost predicate CutFrame<E>(sp: seq<Slot<E>>, rp: seq<Slot<E>>, xs: seq<nat>, m: nat, relinkBefore: bool, relinkAfter: bool)
  {
    && Within(sp, xs) && Distinct(xs) && |rp| == |sp| && m < |xs|
    && rp[xs[m]] == sp[xs[m]].(enabled := false, linkA := None, linkB := None)
    && (m > 0 ==> rp[xs[m - 1]] == if relinkBefore then sp[xs[m - 1]].(linkA := NextIn(xs, m)) else sp[xs[m - 1]])
    && (m + 1 < |xs| ==> rp[xs[m + 1]] == if relinkAfter then sp[xs[m + 1]].(linkB := PrevIn(xs, m)) else sp[xs[m + 1]])
    && (forall j :: 0 <= j < |sp| && j != xs[m] && (m > 0 ==> j != xs[m - 1]) && (m + 1 < |xs| ==> j != xs[m + 1]) ==> rp[j] == sp[j])
  }

  lemma CutKeeps<E>(sp: seq<Slot<E>>, rp: seq<Slot<E>>, xs: seq<nat>, m: nat, relinkBefore: bool, relinkAfter: bool, k: nat)
    requires CutFrame(sp, rp, xs, m, relinkBefore, relinkAfter)
    requires k < |xs| && k + 1 != m && k != m && k != m + 1
    ensures rp[xs[k]] == sp[xs[k]]
  {
    assert xs[k] != xs[m];
    if m > 0 {
      assert xs[k] != xs[m - 1];
    }
    if m + 1 < |xs| {
      assert xs[k] != xs[m + 1];
    }
  }

  /** Positions of the cut chain other than the two beside the cut keep
      their slots unchanged. */
  lemma CutKeepsRest<E>(sp: seq<Slot<E>>, rp: seq<Slot<E>>, xs: seq<nat>, m: nat, relinkBefore: bool, relinkAfter: bool)
    requires CutFrame(sp, rp, xs, m, relinkBefore, relinkAfter)
    ensures forall k :: 0 <= k < |Cut(xs, m)| && k + 1 != m && k != m ==> rp[Cut(xs, m)[k]] == sp[Cut(xs, m)[k]]
  {
    var ys := Cut(xs, m);
    forall k | 0 <= k < |ys| && k + 1 != m && k != m
      ensures rp[ys[k]] == sp[ys[k]]
    {
      if k < m {
        CutKeeps(sp, rp, xs, m, relinkBefore, relinkAfter, k);
      } else {
        CutKeeps(sp, rp, xs, m, relinkBefore, relinkAfter, k + 1);
      }
    }
  }

  lemma CutNext<E>(sp: seq<Slot<E>>, rp: seq<Slot<E>>, xs: seq<nat>, m: nat, relinkBefore: bool, relinkAfter: bool)
    requires CutFrame(sp, rp, xs, m, relinkBefore, relinkAfter) && NextLinks(sp, xs) && (relinkBefore || m == 0)
    ensures NextLinks(rp, Cut(xs, m))
  {
    var ys := Cut(xs, m);
    CutKeepsRest(sp, rp, xs, m, relinkBefore, relinkAfter);
    forall k | 0 <= k < |ys|
      ensures ys[k] < |rp| && rp[ys[k]].linkA == NextIn(ys, k)
    {
      if k < m {
        assert sp[xs[k]].linkA == NextIn(xs, k);
      } else {
        assert sp[xs[k + 1]].linkA == NextIn(xs, k + 1);
      }
    }
  }

  lemma CutPrev<E>(sp: seq<Slot<E>>, rp: seq<Slot<E>>, xs: seq<nat>, m: nat, relinkBefore: bool, relinkAfter: bool)
    requires CutFrame(sp, rp, xs, m, relinkBefore, relinkAfter) && PrevLinks(sp, xs) && (relinkAfter || m + 1 == |xs|)
    ensures PrevLinks(rp, Cut(xs, m))
  {
    var ys := Cut(xs, m);
    CutKeepsRest(sp, rp, xs, m, relinkBefore, relinkAfter);
    forall k | 0 <= k < |ys|
      ensures ys[k] < |rp| && rp[ys[k]].linkB == PrevIn(ys, k)
    {
      if k < m {
        assert sp[xs[k]].linkB == PrevIn(xs, k);
      } else {
        assert sp[xs[k + 1]].linkB == PrevIn(xs, k + 1);
      }
    }
  }

  lemma CutOwns<E>(sp: seq<Slot<E>>, rp: seq<Slot<E>>, xs: seq<nat>, m: nat, relinkBefore: bool, relinkAfter: bool)
    requires CutFrame(sp, rp, xs, m, relinkBefore, relinkAfter) && Owns(sp, xs)
    ensures Owns(rp, Cut(xs, m))
  {
    CutInUse(sp, rp, xs, m, relinkBefore, relinkAfter);
    CutDistinct(xs, m);
    CutCovers(sp, rp, xs, m, relinkBefore, relinkAfter);
  }

  lemma CutInUse<E>(sp: seq<Slot<E>>, rp: seq<Slot<E>>, xs: seq<nat>, m: nat, relinkBefore: bool, relinkAfter: bool)
    requires CutFrame(sp, rp, xs, m, relinkBefore, relinkAfter) && Owns(sp, xs)
    ensures var ys := Cut(xs, m);
      forall k :: 0 <= k < |ys| ==> ys[k] < |rp| && rp[ys[k]].enabled
  {
    var ys := Cut(xs, m);
    CutKeepsRest(sp, rp, xs, m, relinkBefore, relinkAfter);
    forall k | 0 <= k < |ys|
      ensures ys[k] < |rp| && rp[ys[k]].enabled
    {
      if k < m {
        assert sp[xs[k]].enabled;
      } else {
        assert sp[xs[k + 1]].enabled;
      }
    }
  }

  /** Cutting a position out of a chain of distinct slots leaves them
      distinct. */
  lemma CutDistinct(xs: seq<nat>, m: nat)
    requires Distinct(xs) && m < |xs|
    ensures Distinct(Cut(xs, m))
  {
    var ys := Cut(xs, m);
    forall a, b | 0 <= a < b < |ys| ensures ys[a] != ys[b]
    {
      var a', b' := if a < m then a else a + 1, if b < m then b else b + 1;
      assert ys[a] == xs[a'] && ys[b] == xs[b'];
    }
  }

  lemma CutCovers<E>(sp: seq<Slot<E>>, rp: seq<Slot<E>>, xs: seq<nat>, m: nat, relinkBefore: bool, relinkAfter: bool)
    requires CutFrame(sp, rp, xs, m, relinkBefore, relinkAfter) && Owns(sp, xs)
    ensures forall j :: 0 <= j < |rp| && rp[j].enabled ==> j in Cut(xs, m)
  {
    var ys := Cut(xs, m);
    forall j | 0 <= j < |rp| && rp[j].enabled
      ensures j in ys
    {
      assert j != xs[m];
      if (m > 0 ==> j != xs[m - 1]) && (m + 1 < |xs| ==> j != xs[m + 1]) {
        assert sp[j].enabled;
      }
      var k :| 0 <= k < |xs| && xs[k] == j;
      if k < m {
        assert ys[k] == j;
      } else {
        assert ys[k - 1] == j;
      }
    }
  }

  lemma CutElements<E>(sp: seq<Slot<E>>, rp: seq<Slot<E>>, xs: seq<nat>, m: nat, relinkBefore: bool, relinkAfter: bool)
    requires CutFrame(sp, rp, xs, m, relinkBefore, relinkAfter)
    ensures var es := Elements(sp, xs); Elements(rp, Cut(xs, m)) == es[..m] + es[m + 1..]
  {
    var ys, es := Cut(xs, m), Elements(sp, xs);
    CutKeepsRest(sp, rp, xs, m, relinkBefore, relinkAfter);
    forall k | 0 <= k < |ys|
      ensures rp[ys[k]].element == (es[..m] + es[m + 1..])[k]
    {
      if k < m {
        assert ys[k] == xs[k];
      } else {
        assert ys[k] == xs[k + 1];
      }
    }
  }

  /** The slots `pop` writes on a non-empty list: the tail is released and
      nothing else changes, so the new tail's `next` is not cleared. */
  lemma PopWrites<E>(s: ListState<E>, xs: seq<nat>)
    requires Linked(s, xs) && xs != []
    ensures var r := Pop(s).list;
      && CutFrame(s.pool, r.pool, xs, |xs| - 1, false, false)
      && r.head == First(Cut(xs, |xs| - 1)) && r.tail == Last(Cut(xs, |xs| - 1))
  {
    var n := |xs|;
    assert s.pool[xs[n - 1]].linkB == PrevIn(xs, n - 1);
    if n > 1 {
      assert xs[n - 2] != xs[n - 1];
    }
  }

  /** `pop` on a non-empty list hands back the last element and leaves the
      rest linked backwards and owned; when a node remains, the new tail's
      `next` still names the released slot. */
  lemma PopLeavesStaleNext<E>(s: ListState<E>, xs: seq<nat>)
    requires Linked(s, xs) && xs != []
    ensures var r, n, es := Pop(s), |xs|, Elements(s.pool, xs);
      && r.value == Some(es[n - 1])
      && Valid(r.list) && Owns(r.list.pool, xs[..n - 1]) && PrevLinks(r.list.pool, xs[..n - 1])
      && r.list.head == First(xs[..n - 1]) && r.list.tail == Last(xs[..n - 1])
      && Elements(r.list.pool, xs[..n - 1]) == es[..n - 1]
      && (n == 1 ==> Linked(r.list, []))
      && (n > 1 ==> r.list.pool[xs[n - 2]].linkA == Some(xs[n - 1]) && !r.list.pool[xs[n - 1]].enabled)
  {
    var r, n := Pop(s).list, |xs|;
    PopWrites(s, xs);
    assert Cut(xs, n - 1) == xs[..n - 1];
    CutPrev(s.pool, r.pool, xs, n - 1, false, false);
    CutOwns(s.pool, r.pool, xs, n - 1, false, false);
    CutElements(s.pool, r.pool, xs, n - 1, false, false);
    if n > 1 {
      assert s.pool[xs[n - 2]].linkA == NextIn(xs, n - 2);
    }
  }

  /** The slots `remove(0)` writes on a non-empty list: the head is
      released and nothing else changes, so the new head's `previous` is not
      cleared. */
  lemma RemoveHeadWrites<E>(s: ListState<E>, xs: seq<nat>)
    requires Linked(s, xs) && xs != []
    ensures var r := Remove(s, 0).list;
      && CutFrame(s.pool, r.pool, xs, 0, false, false)
      && r.head == First(Cut(xs, 0)) && r.tail == Last(Cut(xs, 0))
  {
    assert s.pool[xs[0]].linkA == NextIn(xs, 0);
    if |xs| > 1 {
      assert xs[1] != xs[0];
    }
  }

  /** `remove(0)` on a non-empty list hands back the first element and
      leaves the rest linked forwards; when a node remains, the new head's
      `previous` still names the released slot. */
  lemma RemoveHeadLeavesStalePrevious<E>(s: ListState<E>, xs: seq<nat>)
    requires Linked(s, xs) && xs != []
    ensures var r, es := Remove(s, 0), Elements(s.pool, xs);
      && r.value == Some(es[0])
      && Forward(r.list, xs[1..])
      && Elements(r.list.pool, xs[1..]) == es[1..]
      && (|xs| == 1 ==> Linked(r.list, []))
      && (|xs| > 1 ==> r.list.pool[xs[1]].linkB == Some(xs[0]) && !r.list.pool[xs[0]].enabled)
  {
    var r := Remove(s, 0).list;
    RemoveHeadWrites(s, xs);
    assert Cut(xs, 0) == xs[1..];
    CutNext(s.pool, r.pool, xs, 0, false, false);
    CutOwns(s.pool, r.pool, xs, 0, false, false);
    CutElements(s.pool, r.pool, xs, 0, false, false);
    if |xs| > 1 {
      assert s.pool[xs[1]].linkB == PrevIn(xs, 1);
    }
  }

  /** On a linked list of two or more nodes, `remove(index)` with an index
      above 0 reaches the node at position `min(index, length - 1)`, which
      has a `previous`. */
  lemma RemoveTargetOnChain<E>(s: ListState<E>, xs: seq<nat>, index: nat)
    requires Linked(s, xs) && |xs| >= 2 && index >= 1
    ensures RemoveTarget(s, index) == xs[Min(index, |xs| - 1)]
    ensures RemoveDefined(s, index)
  {
    WalkFollowsChain(s.pool, xs, 0, index);
    assert s.pool[xs[Min(index, |xs| - 1)]].linkB == PrevIn(xs, Min(index, |xs| - 1));
  }

  /** When `Unlink` is applied to a node with a distinct predecessor, the
      updates touch that predecessor and the node after the target only. */
  lemma UnlinkWrites<E>(p: seq<Slot<E>>, target: nat)
    requires LinksInBounds(p) && target < |p| && p[target].linkB.Some?
    requires p[target].linkA != Some(target) && p[target].linkB != Some(target) && p[target].linkA != p[target].linkB
    ensures var after, before, r := p[target].linkA, p[target].linkB.value, Unlink(p, target);
      && r[before] == p[before].(linkA := after)
      && (after.Some? ==> r[after.value] == p[after.value].(linkB := Some(before)))
      && (forall j :: 0 <= j < |p| && j != before && Some(j) != after ==> r[j] == p[j])
  {
  }

  /** The slots `remove(index)` writes for an index above 0 on a linked
      list of two or more nodes: both neighbours of the target are relinked
      past it and the target is released. */
  lemma RemoveWrites<E>(s: ListState<E>, xs: seq<nat>, index: nat)
    requires Linked(s, xs) && |xs| >= 2 && index >= 1
    ensures RemoveDefined(s, index)
    ensures var r, m := Remove(s, index).list, Min(index, |xs| - 1);
      && CutFrame(s.pool, r.pool, xs, m, true, true)
      && r.head == First(Cut(xs, m)) && r.tail == Last(Cut(xs, m))
  {
    RemoveTargetOnChain(s, xs, index);
    var m := Min(index, |xs| - 1);
    var target := xs[m];
    assert s.pool[target].linkA == NextIn(xs, m);
    assert s.pool[target].linkB == PrevIn(xs, m);
    assert xs[m - 1] != target;
    if m + 1 < |xs| {
      assert xs[m + 1] != target && xs[m + 1] != xs[m - 1];
    }
    UnlinkWrites(s.pool, target);
    var r := Remove(s, index).list;
    var u := Unlink(s.pool, target);
    assert r.pool == Release(u, target);
    forall j | 0 <= j < |s.pool| && j != target && j != xs[m - 1] && (m + 1 < |xs| ==> j != xs[m + 1])
      ensures r.pool[j] == s.pool[j]
    {
      assert Some(j) != s.pool[target].linkA;
    }
  }

  /** `remove(index)` with an index above 0 on a linked list of two or more
      nodes hands back the element at position `min(index, length - 1)` and
      keeps the rest of the list linked. */
  lemma RemoveCutsChain<E>(s: ListState<E>, xs: seq<nat>, index: nat)
    requires Linked(s, xs) && |xs| >= 2 && index >= 1
    ensures RemoveDefined(s, index)
    ensures var r, m, es := Remove(s, index), Min(index, |xs| - 1), Elements(s.pool, xs);
      && r.value == Some(es[m])
      && Linked(r.list, Cut(xs, m))
      && Elements(r.list.pool, Cut(xs, m)) == es[..m] + es[m + 1..]
  {
    RemoveWrites(s, xs, index);
    var r, m := Remove(s, index).list, Min(index, |xs| - 1);
    CutNext(s.pool, r.pool, xs, m, true, true);
    CutPrev(s.pool, r.pool, xs, m, true, true);
    CutOwns(s.pool, r.pool, xs, m, true, true);
    CutElements(s.pool, r.pool, xs, m, true, true);
  }

  /** On a one-node list, `remove(index)` with an index above 0 reaches the
      head, whose `previous` is null: the code dereferences it. */
  lemma RemoveOnSingleNodeUndefined<E>(s: ListState<E>, h: nat, index: nat)
    requires Linked(s, [h]) && index >= 1
    ensures !RemoveDefined(s, index)
  {
    WalkFollowsChain(s.pool, [h], 0, index);
    assert s.pool[h].linkB == PrevIn([h], 0);
  }
}
