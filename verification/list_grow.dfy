/** How `append` and `insert`, as written, change the chain: the slots
    each one writes, and when the chain stays linked with the new element at
    its position. */
module ListGrow {
  import opened Common
  import opened NodePool
  import opened List
  import opened ListChain

  /** The slots `append` writes when the pool has room and the tail is in
      use: the new slot holds `x` after the old tail, and the old tail's
      `next` names it. */
  lemma AppendWrites<E>(s: ListState<E>, x: E)
    requires Valid(s) && !Full(s.pool)
    requires s.tail.Some? ==> s.pool[s.tail.value].enabled
    ensures var i, r := NextFree(s.pool).value, Append(s, x).list;
      && i < |s.pool| && |r.pool| == |s.pool| && Valid(r)
      && r.head == (if s.head.None? then Some(i) else s.head) && r.tail == Some(i)
      && r.pool[i] == Slot(true, None, s.tail, x)
      && (s.tail.Some? ==> r.pool[s.tail.value] == s.pool[s.tail.value].(linkA := Some(i)))
      && (forall j :: 0 <= j < |s.pool| && j != i && Some(j) != s.tail ==> r.pool[j] == s.pool[j])
  {
  }

  /** The facts `ChainGrows` assumes: slot `i`, fresh, is put after the last
      node of the chain `xs` of `s` to give `r`, and nothing else changes. */
  ghost predicate GrowsBy<E>(s: ListState<E>, xs: seq<nat>, r: ListState<E>, i: nat, x: E)
  {
    && Linked(s, xs) && Valid(r) && |r.pool| == |s.pool|
    && i < |s.pool| && (forall k :: 0 <= k < |xs| ==> xs[k] != i)
    && r.head == First(xs + [i]) && r.tail == Some(i)
    && r.pool[i] == Slot(true, None, s.tail, x)
    && (s.tail.Some? ==> s.tail.value < |s.pool| && r.pool[s.tail.value] == s.pool[s.tail.value].(linkA := Some(i)))
    && (forall j :: 0 <= j < |s.pool| && j != i && Some(j) != s.tail ==> r.pool[j] == s.pool[j])
  }

  lemma GrowsSlots<E>(s: ListState<E>, xs: seq<nat>, r: ListState<E>, i: nat, x: E)
    requires GrowsBy(s, xs, r, i, x)
    ensures forall k :: 0 <= k < |xs + [i]| ==>
      && (xs + [i])[k] < |r.pool| && r.pool[(xs + [i])[k]].enabled
      && r.pool[(xs + [i])[k]].linkA == NextIn(xs + [i], k)
      && r.pool[(xs + [i])[k]].linkB == PrevIn(xs + [i], k)
      && r.pool[(xs + [i])[k]].element == (Elements(s.pool, xs) + [x])[k]
  {
    var ys := xs + [i];
    var n := |xs|;
    forall k | 0 <= k < |ys|
      ensures ys[k] < |r.pool| && r.pool[ys[k]].enabled
      ensures r.pool[ys[k]].linkA == NextIn(ys, k) && r.pool[ys[k]].linkB == PrevIn(ys, k)
      ensures r.pool[ys[k]].element == (Elements(s.pool, xs) + [x])[k]
    {
      if k == n {
        assert ys[k] == i;
      } else {
        assert ys[k] == xs[k] && (Elements(s.pool, xs) + [x])[k] == s.pool[xs[k]].element;
        if k == n - 1 {
          assert s.tail == Some(xs[k]);
        } else {
          assert xs[k] != xs[n - 1] && r.pool[xs[k]] == s.pool[xs[k]];
        }
      }
    }
  }

  lemma GrowsOwns<E>(s: ListState<E>, xs: seq<nat>, r: ListState<E>, i: nat, x: E)
    requires GrowsBy(s, xs, r, i, x)
    ensures Owns(r.pool, xs + [i])
  {
    var ys := xs + [i];
    var n := |xs|;
    GrowsSlots(s, xs, r, i, x);
    forall a, b | 0 <= a < b < |ys| ensures ys[a] != ys[b]
    {
      if b < n {
        assert ys[a] == xs[a] && ys[b] == xs[b];
      }
    }
    forall j | 0 <= j < |r.pool| && r.pool[j].enabled
      ensures j in ys
    {
      if j != i {
        assert s.pool[j].enabled;
      }
    }
  }

  /** A chain stays linked when a fresh slot `i` holding `x` is put after
      its last node and nothing else changes. */
  lemma ChainGrows<E>(s: ListState<E>, xs: seq<nat>, r: ListState<E>, i: nat, x: E)
    requires GrowsBy(s, xs, r, i, x)
    ensures Linked(r, xs + [i])
    ensures Elements(r.pool, xs + [i]) == Elements(s.pool, xs) + [x]
  {
    GrowsSlots(s, xs, r, i, x);
    GrowsOwns(s, xs, r, i, x);
  }

  /** `append` on a linked list links the new slot at the end of the chain
      and puts `x` after the other elements. */
  lemma AppendExtendsChain<E>(s: ListState<E>, xs: seq<nat>, x: E)
    requires Linked(s, xs) && !Full(s.pool)
    ensures var i := NextFree(s.pool).value;
      && Linked(Append(s, x).list, xs + [i])
      && Elements(Append(s, x).list.pool, xs + [i]) == Elements(s.pool, xs) + [x]
  {
    FreeSlotOffChain(s, xs);
    AppendWrites(s, x);
    ChainGrows(s, xs, Append(s, x).list, NextFree(s.pool).value, x);
  }

  /** The chain `xs` with slot `i` put at position `m`. */
  function Splice(xs: seq<nat>, m: nat, i: nat): (ys: seq<nat>)
    requires m <= |xs|
    ensures |ys| == |xs| + 1
    ensures forall k :: 0 <= k < |ys| ==> ys[k] == if k < m then xs[k] else if k == m then i else xs[k - 1]
  {
    xs[..m] + [i] + xs[m..]
  }

  /** Pool `rp` is pool `sp` with slot `i`, fresh, put between positions
      `m - 1` and `m` of the chain `xs`, and nothing else changed. */
  ghost predicate SpliceFrame<E>(sp: seq<Slot<E>>, rp: seq<Slot<E>>, xs: seq<nat>, m: nat, i: nat, x: E)
  {
    && Within(sp, xs) && Distinct(xs) && |rp| == |sp|
    && 1 <= m <= |xs| && i < |sp| && (forall k :: 0 <= k < |xs| ==> xs[k] != i)
    && rp[i] == Slot(true, NextIn(xs, m - 1), Some(xs[m - 1]), x)
    && rp[xs[m - 1]] == sp[xs[m - 1]].(linkA := Some(i))
    && (m < |xs| ==> rp[xs[m]] == sp[xs[m]].(linkB := Some(i)))
    && (forall j :: 0 <= j < |sp| && j != i && j != xs[m - 1] && (m < |xs| ==> j != xs[m]) ==> rp[j] == sp[j])
  }

  /** A slot of the chain other than the two neighbours of the splice is
      untouched. */
  lemma SpliceKeeps<E>(sp: seq<Slot<E>>, rp: seq<Slot<E>>, xs: seq<nat>, m: nat, i: nat, x: E, k: nat)
    requires SpliceFrame(sp, rp, xs, m, i, x)
    requires k < |xs| && k != m - 1 && k != m
    ensures rp[xs[k]] == sp[xs[k]]
  {
    assert xs[k] != xs[m - 1];
    if m < |xs| {
      assert xs[k] != xs[m];
    }
  }

  lemma SpliceNext<E>(sp: seq<Slot<E>>, rp: seq<Slot<E>>, xs: seq<nat>, m: nat, i: nat, x: E)
    requires SpliceFrame(sp, rp, xs, m, i, x) && NextLinks(sp, xs)
    ensures NextLinks(rp, Splice(xs, m, i))
  {
    var ys := Splice(xs, m, i);
    forall k | 0 <= k < |ys|
      ensures ys[k] < |rp| && rp[ys[k]].linkA == NextIn(ys, k)
    {
      if k < m - 1 {
        SpliceKeeps(sp, rp, xs, m, i, x, k);
        assert sp[xs[k]].linkA == NextIn(xs, k);
      } else if k > m + 1 {
        SpliceKeeps(sp, rp, xs, m, i, x, k - 1);
        assert sp[xs[k - 1]].linkA == NextIn(xs, k - 1);
      } else if k == m + 1 {
        assert sp[xs[m]].linkA == NextIn(xs, m);
      }
    }
  }

  lemma SplicePrev<E>(sp: seq<Slot<E>>, rp: seq<Slot<E>>, xs: seq<nat>, m: nat, i: nat, x: E)
    requires SpliceFrame(sp, rp, xs, m, i, x) && PrevLinks(sp, xs)
    ensures PrevLinks(rp, Splice(xs, m, i))
  {
    var ys := Splice(xs, m, i);
    forall k | 0 <= k < |ys|
      ensures ys[k] < |rp| && rp[ys[k]].linkB == PrevIn(ys, k)
    {
      if k < m - 1 {
        SpliceKeeps(sp, rp, xs, m, i, x, k);
        assert sp[xs[k]].linkB == PrevIn(xs, k);
      } else if k > m + 1 {
        SpliceKeeps(sp, rp, xs, m, i, x, k - 1);
        assert sp[xs[k - 1]].linkB == PrevIn(xs, k - 1);
      } else if k == m - 1 {
        assert sp[xs[m - 1]].linkB == PrevIn(xs, m - 1);
      }
    }
  }

  lemma SpliceElements<E>(sp: seq<Slot<E>>, rp: seq<Slot<E>>, xs: seq<nat>, m: nat, i: nat, x: E)
    requires SpliceFrame(sp, rp, xs, m, i, x)
    ensures var es := Elements(sp, xs); Elements(rp, Splice(xs, m, i)) == es[..m] + [x] + es[m..]
  {
    var ys, es := Splice(xs, m, i), Elements(sp, xs);
    forall k | 0 <= k < |ys|
      ensures rp[ys[k]].element == (es[..m] + [x] + es[m..])[k]
    {
      if k < m - 1 {
        SpliceKeeps(sp, rp, xs, m, i, x, k);
      } else if k > m + 1 {
        SpliceKeeps(sp, rp, xs, m, i, x, k - 1);
      }
    }
  }

  lemma SpliceOwns<E>(sp: seq<Slot<E>>, rp: seq<Slot<E>>, xs: seq<nat>, m: nat, i: nat, x: E)
    requires SpliceFrame(sp, rp, xs, m, i, x) && Owns(sp, xs)
    ensures Owns(rp, Splice(xs, m, i))
  {
    SpliceInUse(sp, rp, xs, m, i, x);
    SpliceDistinct(xs, m, i);
    SpliceCovers(sp, rp, xs, m, i, x);
  }

  lemma SpliceInUse<E>(sp: seq<Slot<E>>, rp: seq<Slot<E>>, xs: seq<nat>, m: nat, i: nat, x: E)
    requires SpliceFrame(sp, rp, xs, m, i, x) && Owns(sp, xs)
    ensures var ys := Splice(xs, m, i);
      forall k :: 0 <= k < |ys| ==> ys[k] < |rp| && rp[ys[k]].enabled
  {
    var ys := Splice(xs, m, i);
    forall k | 0 <= k < |ys|
      ensures ys[k] < |rp| && rp[ys[k]].enabled
    {
      if k < m - 1 {
        SpliceKeeps(sp, rp, xs, m, i, x, k);
      } else if k > m + 1 {
        SpliceKeeps(sp, rp, xs, m, i, x, k - 1);
      }
    }
  }

  /** A slot off a chain of distinct slots can be spliced in anywhere and
      the slots stay distinct. */
  lemma SpliceDistinct(xs: seq<nat>, m: nat, i: nat)
    requires Distinct(xs) && m <= |xs| && forall k :: 0 <= k < |xs| ==> xs[k] != i
    ensures Distinct(Splice(xs, m, i))
  {
    var ys := Splice(xs, m, i);
    forall a, b | 0 <= a < b < |ys| ensures ys[a] != ys[b]
    {
      if a != m && b != m {
        var a', b' := if a < m then a else a - 1, if b < m then b else b - 1;
        assert ys[a] == xs[a'] && ys[b] == xs[b'];
      }
    }
  }

  lemma SpliceCovers<E>(sp: seq<Slot<E>>, rp: seq<Slot<E>>, xs: seq<nat>, m: nat, i: nat, x: E)
    requires SpliceFrame(sp, rp, xs, m, i, x) && Owns(sp, xs)
    ensures forall j :: 0 <= j < |rp| && rp[j].enabled ==> j in Splice(xs, m, i)
  {
    var ys := Splice(xs, m, i);
    forall j | 0 <= j < |rp| && rp[j].enabled
      ensures j in ys
    {
      if j != i && j != xs[m - 1] && (m < |xs| ==> j != xs[m]) {
        assert sp[j].enabled;
        var k :| 0 <= k < |xs| && xs[k] == j;
        assert ys[if k < m then k else k + 1] == j;
      } else if j == xs[m - 1] {
        assert ys[m - 1] == j;
      } else if j != i {
        assert ys[m + 1] == j;
      }
    }
  }

  /** A chain read along `next` stays one when a fresh slot `i` holding `x`
      is put at position `m`, between two nodes or after the last; the
      `previous` links play no part. */
  lemma ForwardSplices<E>(s: ListState<E>, xs: seq<nat>, r: ListState<E>, m: nat, i: nat, x: E)
    requires Forward(s, xs) && SpliceFrame(s.pool, r.pool, xs, m, i, x)
    requires Valid(r) && r.head == s.head && r.tail == (if m == |xs| then Some(i) else s.tail)
    ensures Forward(r, Splice(xs, m, i))
    ensures var es := Elements(s.pool, xs); Elements(r.pool, Splice(xs, m, i)) == es[..m] + [x] + es[m..]
  {
    var ys := Splice(xs, m, i);
    SpliceNext(s.pool, r.pool, xs, m, i, x);
    SpliceElements(s.pool, r.pool, xs, m, i, x);
    SpliceOwns(s.pool, r.pool, xs, m, i, x);
    SpliceEnds(xs, m, i);
    assert r.head == First(ys) && r.tail == Last(ys);
  }

  /** A splice after the first position keeps the first slot, and makes the
      new slot last only when it goes after the last. */
  lemma SpliceEnds(xs: seq<nat>, m: nat, i: nat)
    requires 1 <= m <= |xs|
    ensures First(Splice(xs, m, i)) == First(xs)
    ensures Last(Splice(xs, m, i)) == if m == |xs| then Some(i) else Last(xs)
  {
    var ys := Splice(xs, m, i);
    assert ys[0] == xs[0] && ys[|ys| - 1] == if m == |xs| then i else xs[|xs| - 1];
  }

  /** A chain stays linked when a fresh slot `i` holding `x` is put at
      position `m`, between two nodes or after the last. */
  lemma ChainSplices<E>(s: ListState<E>, xs: seq<nat>, r: ListState<E>, m: nat, i: nat, x: E)
    requires Linked(s, xs) && SpliceFrame(s.pool, r.pool, xs, m, i, x)
    requires Valid(r) && r.head == s.head && r.tail == (if m == |xs| then Some(i) else s.tail)
    ensures Linked(r, Splice(xs, m, i))
    ensures var es := Elements(s.pool, xs); Elements(r.pool, Splice(xs, m, i)) == es[..m] + [x] + es[m..]
  {
    ForwardSplices(s, xs, r, m, i, x);
    SplicePrev(s.pool, r.pool, xs, m, i, x);
  }

  /** When `i` and `prev` are distinct and `prev`'s `next` is neither of
      them, the link updates of `insert` touch exactly three slots. */
  lemma LinkAfterWrites<E>(p: seq<Slot<E>>, prev: nat, i: nat)
    requires LinksInBounds(p) && prev < |p| && i < |p| && prev != i
    requires p[prev].linkA != Some(i) && p[prev].linkA != Some(prev)
    ensures var after, r := p[prev].linkA, LinkAfter(p, prev, i);
      && r[i] == p[i].(linkA := after, linkB := Some(prev))
      && r[prev] == p[prev].(linkA := Some(i))
      && (after.Some? ==> r[after.value] == p[after.value].(linkB := Some(i)))
      && (forall j :: 0 <= j < |p| && j != i && j != prev && Some(j) != after ==> r[j] == p[j])
  {
  }

  /** For an index above 0 on a non-empty list with room, `insert` stores
      `x` in the free slot and links it after the node the walk reaches. */
  lemma InsertAfterShape<E>(s: ListState<E>, index: nat, x: E)
    requires Valid(s) && s.head.Some? && index >= 1 && !Full(s.pool)
    ensures var i := NextFree(s.pool).value;
      var p := s.pool[i := Slot(true, None, None, x)];
      var prev := Walk(p, s.head.value, index - 1).0;
      && i < |s.pool| && LinksInBounds(p)
      && Insert(s, index, x).list == ListState(LinkAfter(p, prev, i), s.head, if p[prev].linkA.None? then Some(i) else s.tail)
  {
    AcquireAndStore(s.pool, x);
  }

  /** Acquiring a slot and storing `x` in it leaves a fresh slot holding `x`. */
  lemma AcquireAndStore<E>(pool: seq<Slot<E>>, x: E)
    requires !Full(pool)
    ensures var a := Acquire(pool);
      && a.slot == NextFree(pool) && a.slot.value < |pool|
      && a.pool[a.slot.value := a.pool[a.slot.value].(element := x)] == pool[a.slot.value := Slot(true, None, None, x)]
  {
  }

  /** Storing into a slot off the chain leaves the chain linked, and the
      walk of `insert(index)` from its first node stops at position
      `min(index, length) - 1`. */
  lemma WalkToSplicePoint<E>(sp: seq<Slot<E>>, xs: seq<nat>, index: nat, i: nat, x: E)
    requires LinksInBounds(sp) && NextLinks(sp, xs) && xs != [] && index >= 1
    requires i < |sp| && forall k :: 0 <= k < |xs| ==> xs[k] != i
    ensures var p := sp[i := Slot(true, None, None, x)];
      && LinksInBounds(p) && NextLinks(p, xs)
      && Walk(p, xs[0], index - 1).0 == xs[Min(index, |xs|) - 1]
  {
    var p := sp[i := Slot(true, None, None, x)];
    StoreOffChain(sp, xs, i, x);
    WalkFollowsChain(p, xs, 0, index - 1);
  }

  /** Storing a fresh slot off the chain keeps every link in bounds and the
      chain's `next` links as they were. */
  lemma StoreOffChain<E>(sp: seq<Slot<E>>, xs: seq<nat>, i: nat, x: E)
    requires LinksInBounds(sp) && NextLinks(sp, xs)
    requires i < |sp| && forall k :: 0 <= k < |xs| ==> xs[k] != i
    ensures LinksInBounds(sp[i := Slot(true, None, None, x)])
    ensures NextLinks(sp[i := Slot(true, None, None, x)], xs)
  {
    FrameOutside(sp, sp[i := Slot(true, None, None, x)], xs);
  }

  /** The link updates of `insert` put slot `i`, off the chain and now
      holding `x`, after position `m - 1` of the chain. */
  lemma LinkAfterFrame<E>(sp: seq<Slot<E>>, xs: seq<nat>, m: nat, i: nat, x: E)
    requires LinksInBounds(sp) && NextLinks(sp, xs) && Distinct(xs) && 1 <= m <= |xs|
    requires i < |sp| && forall k :: 0 <= k < |xs| ==> xs[k] != i
    ensures var p := sp[i := Slot(true, None, None, x)];
      && LinksInBounds(p)
      && SpliceFrame(sp, LinkAfter(p, xs[m - 1], i), xs, m, i, x)
      && (p[xs[m - 1]].linkA.None? <==> m == |xs|)
  {
    var p := sp[i := Slot(true, None, None, x)];
    var prev := xs[m - 1];
    assert p[prev] == sp[prev];
    assert p[prev].linkA == NextIn(xs, m - 1);
    if m < |xs| {
      assert xs[m] != xs[m - 1];
    }
    LinkAfterWrites(p, prev, i);
    var rp := LinkAfter(p, prev, i);
    forall j | 0 <= j < |sp| && j != i && j != prev && (m < |xs| ==> j != xs[m])
      ensures rp[j] == sp[j]
    {
      assert Some(j) != p[prev].linkA;
    }
  }

  /** The slots `insert(index)` writes, for an index above 0, into a
      non-empty list read along `next`: the walk stops at position `m - 1`,
      with `m = min(index, length)`, and the new slot goes after it. */
  lemma InsertWrites<E>(s: ListState<E>, xs: seq<nat>, index: nat, x: E)
    requires Forward(s, xs) && xs != [] && index >= 1 && !Full(s.pool)
    ensures var r := Insert(s, index, x).list;
      && SpliceFrame(s.pool, r.pool, xs, Min(index, |xs|), NextFree(s.pool).value, x)
      && Valid(r) && r.head == s.head && r.tail == (if index >= |xs| then Some(NextFree(s.pool).value) else s.tail)
  {
    FreeSlotOffChain(s, xs);
    var i := NextFree(s.pool).value;
    WalkToSplicePoint(s.pool, xs, index, i, x);
    LinkAfterFrame(s.pool, xs, Min(index, |xs|), i, x);
    InsertAfterShape(s, index, x);
  }

  /** `insert(index)` with an index above 0 on a non-empty linked list puts
      `x` at position `min(index, length)` and keeps the list linked. */
  lemma InsertSplicesChain<E>(s: ListState<E>, xs: seq<nat>, index: nat, x: E)
    requires Linked(s, xs) && xs != [] && index >= 1 && !Full(s.pool)
    ensures var m, es := Min(index, |xs|), Elements(s.pool, xs);
      && Linked(Insert(s, index, x).list, Splice(xs, m, NextFree(s.pool).value))
      && Elements(Insert(s, index, x).list.pool, Splice(xs, m, NextFree(s.pool).value)) == es[..m] + [x] + es[m..]
  {
    InsertWrites(s, xs, index, x);
    ChainSplices(s, xs, Insert(s, index, x).list, Min(index, |xs|), NextFree(s.pool).value, x);
  }

  /** Pool `rp` is pool `sp` with slot `i`, fresh, linked in front of the
      first node of `xs`; that node's `previous` names `i` only when
      `relinkHead` holds, and nothing else changed. */
  ghost predicate PrependFrame<E>(sp: seq<Slot<E>>, rp: seq<Slot<E>>, xs: seq<nat>, i: nat, x: E, relinkHead: bool)
  {
    && Within(sp, xs) && Distinct(xs) && |rp| == |sp| && xs != []
    && i < |sp| && (forall k :: 0 <= k < |xs| ==> xs[k] != i)
    && rp[i] == Slot(true, Some(xs[0]), None, x)
    && rp[xs[0]] == (if relinkHead then sp[xs[0]].(linkB := Some(i)) else sp[xs[0]])
    && (forall j :: 0 <= j < |sp| && j != i && j != xs[0] ==> rp[j] == sp[j])
  }

  lemma PrependKeeps<E>(sp: seq<Slot<E>>, rp: seq<Slot<E>>, xs: seq<nat>, i: nat, x: E, relinkHead: bool, k: nat)
    requires PrependFrame(sp, rp, xs, i, x, relinkHead) && 0 < k < |xs|
    ensures rp[xs[k]] == sp[xs[k]]
  {
    assert xs[k] != xs[0];
  }

  lemma PrependNext<E>(sp: seq<Slot<E>>, rp: seq<Slot<E>>, xs: seq<nat>, i: nat, x: E, relinkHead: bool)
    requires PrependFrame(sp, rp, xs, i, x, relinkHead) && NextLinks(sp, xs)
    ensures NextLinks(rp, [i] + xs)
  {
    var ys := [i] + xs;
    forall k | 0 <= k < |ys|
      ensures ys[k] < |rp| && rp[ys[k]].linkA == NextIn(ys, k)
    {
      if k > 1 {
        PrependKeeps(sp, rp, xs, i, x, relinkHead, k - 1);
      }
      if k > 0 {
        assert ys[k] == xs[k - 1];
        assert sp[xs[k - 1]].linkA == NextIn(xs, k - 1);
      }
    }
  }

  lemma PrependPrev<E>(sp: seq<Slot<E>>, rp: seq<Slot<E>>, xs: seq<nat>, i: nat, x: E, relinkHead: bool)
    requires PrependFrame(sp, rp, xs, i, x, relinkHead) && PrevLinks(sp, xs)
    ensures PrevLinks(rp, [i] + xs) <==> relinkHead
  {
    var ys := [i] + xs;
    assert sp[xs[0]].linkB == None;
    if relinkHead {
      forall k | 0 <= k < |ys|
        ensures ys[k] < |rp| && rp[ys[k]].linkB == PrevIn(ys, k)
      {
        if k > 1 {
          PrependKeeps(sp, rp, xs, i, x, relinkHead, k - 1);
          assert ys[k] == xs[k - 1];
          assert sp[xs[k - 1]].linkB == PrevIn(xs, k - 1);
        }
      }
    } else {
      assert rp[ys[1]].linkB != PrevIn(ys, 1);
    }
  }

  lemma PrependOwns<E>(sp: seq<Slot<E>>, rp: seq<Slot<E>>, xs: seq<nat>, i: nat, x: E, relinkHead: bool)
    requires PrependFrame(sp, rp, xs, i, x, relinkHead) && Owns(sp, xs)
    ensures Owns(rp, [i] + xs)
  {
    var ys := [i] + xs;
    forall k | 0 <= k < |ys|
      ensures ys[k] < |rp| && rp[ys[k]].enabled
    {
      if k > 1 {
        PrependKeeps(sp, rp, xs, i, x, relinkHead, k - 1);
      }
      if k > 0 {
        assert ys[k] == xs[k - 1];
        assert sp[xs[k - 1]].enabled;
      }
    }
    forall a, b | 0 <= a < b < |ys| ensures ys[a] != ys[b]
    {
      if a > 0 {
        assert xs[a - 1] != xs[b - 1];
      }
    }
    forall j | 0 <= j < |rp| && rp[j].enabled
      ensures j in ys
    {
      if j != i {
        if j != xs[0] {
          assert sp[j].enabled;
        }
        var k :| 0 <= k < |xs| && xs[k] == j;
        assert ys[k + 1] == j;
      }
    }
  }

  lemma PrependElements<E>(sp: seq<Slot<E>>, rp: seq<Slot<E>>, xs: seq<nat>, i: nat, x: E, relinkHead: bool)
    requires PrependFrame(sp, rp, xs, i, x, relinkHead)
    ensures Elements(rp, [i] + xs) == [x] + Elements(sp, xs)
  {
    var ys := [i] + xs;
    forall k | 0 <= k < |ys|
      ensures rp[ys[k]].element == ([x] + Elements(sp, xs))[k]
    {
      if k > 1 {
        PrependKeeps(sp, rp, xs, i, x, relinkHead, k - 1);
      }
    }
  }

  /** `insert` into an empty list (any index) makes the new slot the whole
      chain. */
  lemma InsertIntoEmpty<E>(s: ListState<E>, index: nat, x: E)
    requires Forward(s, []) && !Full(s.pool)
    ensures var i := NextFree(s.pool).value;
      Linked(Insert(s, index, x).list, [i]) && Elements(Insert(s, index, x).list.pool, [i]) == [x]
  {
    var i := NextFree(s.pool).value;
    ChainGrows(s, [], Insert(s, index, x).list, i, x);
  }

  /** The slots `insert(0)` writes into a non-empty list: the new slot is
      linked in front, and the old head is left as it was. */
  lemma InsertAtHeadWrites<E>(s: ListState<E>, xs: seq<nat>, x: E)
    requires Forward(s, xs) && xs != [] && !Full(s.pool)
    ensures var r, i := Insert(s, 0, x).list, NextFree(s.pool).value;
      && PrependFrame(s.pool, r.pool, xs, i, x, false)
      && r.head == Some(i) && r.tail == s.tail
  {
    FreeSlotOffChain(s, xs);
    InsertAtHeadShape(s, x);
  }

  /** On a non-empty list with room, `insert(0)` stores `x` in the free slot
      with `next` naming the old head, and makes that slot the head. */
  lemma InsertAtHeadShape<E>(s: ListState<E>, x: E)
    requires Valid(s) && s.head.Some? && !Full(s.pool)
    ensures var i := NextFree(s.pool).value;
      && i < |s.pool|
      && Insert(s, 0, x).list == ListState(s.pool[i := Slot(true, s.head, None, x)], Some(i), s.tail)
  {
    AcquireAndStore(s.pool, x);
  }

  /** `insert(0)` on a non-empty list puts `x` first along `next`, but the
      old head's `previous` stays null, so the chain read backwards from the
      tail stops before the new node. */
  lemma InsertAtHeadLeavesBackLink<E>(s: ListState<E>, xs: seq<nat>, x: E)
    requires Linked(s, xs) && xs != [] && !Full(s.pool)
    ensures var r, i := Insert(s, 0, x).list, NextFree(s.pool).value;
      && Forward(r, [i] + xs)
      && Elements(r.pool, [i] + xs) == [x] + Elements(s.pool, xs)
      && !PrevLinks(r.pool, [i] + xs)
      && r.pool[xs[0]].linkB.None?
  {
    var r, i := Insert(s, 0, x).list, NextFree(s.pool).value;
    InsertAtHeadPrepends(s, xs, x);
    PrependPrev(s.pool, r.pool, xs, i, x, false);
    assert s.pool[xs[0]].linkB == PrevIn(xs, 0);
  }

  /** `insert(0)` on a non-empty list linked forwards puts `x` first along
      `next`. */
  lemma InsertAtHeadPrepends<E>(s: ListState<E>, xs: seq<nat>, x: E)
    requires Forward(s, xs) && xs != [] && !Full(s.pool)
    ensures var r, i := Insert(s, 0, x).list, NextFree(s.pool).value;
      && PrependFrame(s.pool, r.pool, xs, i, x, false)
      && Forward(r, [i] + xs)
      && Elements(r.pool, [i] + xs) == [x] + Elements(s.pool, xs)
  {
    var r, i := Insert(s, 0, x).list, NextFree(s.pool).value;
    InsertAtHeadWrites(s, xs, x);
    PrependNext(s.pool, r.pool, xs, i, x, false);
    PrependOwns(s.pool, r.pool, xs, i, x, false);
    PrependElements(s.pool, r.pool, xs, i, x, false);
  }
}
